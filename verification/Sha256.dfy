/**
 SHA-256 as sections 4.1, 5.1, 6.1 and 6.2 of RFC 6234 define it, and the
 streaming context of the boot loader that computes it.
 */
module Sha256 {
  import opened Bits
  import opened Bytes

  type word = bv32

  const K: seq<word> := [
    0x428A2F98, 0x71374491, 0xB5C0FBCF, 0xE9B5DBA5, 0x3956C25B, 0x59F111F1, 0x923F82A4, 0xAB1C5ED5,
    0xD807AA98, 0x12835B01, 0x243185BE, 0x550C7DC3, 0x72BE5D74, 0x80DEB1FE, 0x9BDC06A7, 0xC19BF174,
    0xE49B69C1, 0xEFBE4786, 0x0FC19DC6, 0x240CA1CC, 0x2DE92C6F, 0x4A7484AA, 0x5CB0A9DC, 0x76F988DA,
    0x983E5152, 0xA831C66D, 0xB00327C8, 0xBF597FC7, 0xC6E00BF3, 0xD5A79147, 0x06CA6351, 0x14292967
  ] + [
    0x27B70A85, 0x2E1B2138, 0x4D2C6DFC, 0x53380D13, 0x650A7354, 0x766A0ABB, 0x81C2C92E, 0x92722C85,
    0xA2BFE8A1, 0xA81A664B, 0xC24B8B70, 0xC76C51A3, 0xD192E819, 0xD6990624, 0xF40E3585, 0x106AA070,
    0x19A4C116, 0x1E376C08, 0x2748774C, 0x34B0BCB5, 0x391C0CB3, 0x4ED8AA4A, 0x5B9CCA4F, 0x682E6FF3,
    0x748F82EE, 0x78A5636F, 0x84C87814, 0x8CC70208, 0x90BEFFFA, 0xA4506CEB, 0xBEF9A3F7, 0xC67178F2
  ]

  // ----- the functions of section 5.1 -----

  function Ch(x: word, y: word, z: word): word { (x & y) ^ (!x & z) }

  function Maj(x: word, y: word, z: word): word { (x & y) ^ (x & z) ^ (y & z) }

  function BSig0(x: word): word { x.RotateRight(2) ^ x.RotateRight(13) ^ x.RotateRight(22) }

  function BSig1(x: word): word { x.RotateRight(6) ^ x.RotateRight(11) ^ x.RotateRight(25) }

  function SSig0(x: word): word { x.RotateRight(7) ^ x.RotateRight(18) ^ (x >> 3) }

  function SSig1(x: word): word { x.RotateRight(17) ^ x.RotateRight(19) ^ (x >> 10) }

  // ----- the macros of the code -----

  function Ep0(x: word): word { ((x >> 2) | (x << 30)) ^ ((x >> 13) | (x << 19)) ^ ((x >> 22) | (x << 10)) }

  function Ep1(x: word): word { ((x >> 6) | (x << 26)) ^ ((x >> 11) | (x << 21)) ^ ((x >> 25) | (x << 7)) }

  function Sig0(x: word): word { ((x >> 7) | (x << 25)) ^ ((x >> 18) | (x << 14)) ^ (x >> 3) }

  function Sig1(x: word): word { ((x >> 17) | (x << 15)) ^ ((x >> 19) | (x << 13)) ^ (x >> 10) }

  lemma MacrosRotate(x: word)
    ensures Ep0(x) == BSig0(x) && Ep1(x) == BSig1(x)
    ensures Sig0(x) == SSig0(x) && Sig1(x) == SSig1(x)
  {
  }

  // ----- section 6.2: the compression function -----

  datatype State = State(a: word, b: word, c: word, d: word, e: word, f: word, g: word, h: word)

  /** Section 6.1: the initial hash value. */
  const H0 := State(
    0x6A09E667, 0xBB67AE85, 0x3C6EF372, 0xA54FF53A, 0x510E527F, 0x9B05688C, 0x1F83D9AB, 0x5BE0CD19)

  type Block = s: seq<byte> | |s| == 64 witness seq(64, _ => 0)

  /** Addition of 32-bit words; it wraps. */
  function Add(x: word, y: word): word { x + y }

  /** Four bytes, most significant first. */
  function BigEndian(p: byte, q: byte, r: byte, s: byte): word {
    ((p as word) << 24) | ((q as word) << 16) | ((r as word) << 8) | (s as word)
  }

  /** Word t of the message schedule. */
  function Schedule(m: Block, t: nat): word
    requires t < 64
  {
    if t < 16 then BigEndian(m[4 * t], m[4 * t + 1], m[4 * t + 2], m[4 * t + 3])
    else Add(Add(Add(SSig1(Schedule(m, t - 2)), Schedule(m, t - 7)), SSig0(Schedule(m, t - 15))), Schedule(m, t - 16))
  }

  function T1(s: State, k: word, w: word): word {
    Add(Add(Add(Add(s.h, BSig1(s.e)), Ch(s.e, s.f, s.g)), k), w)
  }

  function T2(s: State): word {
    Add(BSig0(s.a), Maj(s.a, s.b, s.c))
  }

  function Round(s: State, k: word, w: word): State {
    State(Add(T1(s, k, w), T2(s)), s.a, s.b, s.c, Add(s.d, T1(s, k, w)), s.e, s.f, s.g)
  }

  /** The working variables after t rounds. */
  function Rounds(m: Block, s: State, t: nat): State
    requires t <= 64
  {
    if t == 0 then s else Round(Rounds(m, s, t - 1), K[t - 1], Schedule(m, t - 1))
  }

  function Plus(s: State, t: State): State {
    State(Add(s.a, t.a), Add(s.b, t.b), Add(s.c, t.c), Add(s.d, t.d),
          Add(s.e, t.e), Add(s.f, t.f), Add(s.g, t.g), Add(s.h, t.h))
  }

  /** One block absorbed into the hash value. */
  function Compress(s: State, m: Block): State {
    Plus(s, Rounds(m, s, 64))
  }

  /** The hash value after all the 64-byte blocks of m. */
  function HashBlocks(m: seq<byte>): State
    requires |m| % 64 == 0
  {
    if m == [] then H0 else Compress(HashBlocks(m[..|m| - 64]), m[|m| - 64..])
  }

  // ----- section 4.1: padding -----

  /** The low k bytes of n, most significant first. */
  function BytesOf(n: nat, k: nat): (s: seq<byte>)
    ensures |s| == k
  {
    if k == 0 then [] else BytesOf(n / 256, k - 1) + [(n % 256) as byte]
  }

  /** A length in bits, as a 64-bit word. */
  function BitCount(len: nat): (c: nat)
    ensures c < U64
  {
    8 * len % U64
  }

  lemma BitCountGrows(a: nat, b: nat)
    ensures (BitCount(a) + b * 8) % U64 == BitCount(a + b)
  {
    assert 8 * (a + b) == 8 * a + 8 * b;
  }

  function PadZeros(len: nat): nat {
    (119 - len % 64) % 64
  }

  /** The message followed by a 1 bit, zeros, and its length in bits as a 64-bit word. */
  function Pad(m: seq<byte>): (p: seq<byte>)
    ensures |p| % 64 == 0
  {
    PaddedLength(|m|);
    m + [0x80] + Zeros(PadZeros(|m|)) + BytesOf(BitCount(|m|), 8)
  }

  lemma PaddedLength(len: nat)
    ensures PadZeros(len) < 64
    ensures (len + 1 + PadZeros(len)) % 64 == 56 && (len + 1 + PadZeros(len) + 8) % 64 == 0
  {
    var q, r := len / 64, len % 64;
    assert len == 64 * q + r;
    if r <= 55 {
      assert len + 1 + PadZeros(len) + 8 == 64 * (q + 1);
    } else {
      assert len + 1 + PadZeros(len) + 8 == 64 * (q + 2);
    }
  }

  /** The padding is the shortest that leaves eight bytes of the last block for the length. */
  lemma PaddingIsLeast(len: nat, k: nat)
    requires (len + 1 + k) % 64 == 56
    ensures (len + 1 + PadZeros(len)) % 64 == 56 && PadZeros(len) <= k
  {
    PaddedLength(len);
    Residue(len + 1 + k, PadZeros(len), k);
  }

  /** Two completions of a length to the same residue differ by whole blocks. */
  lemma Residue(n: int, x: nat, k: nat)
    requires n % 64 == 56 && (n - k + x) % 64 == 56 && x < 64
    ensures x <= k
  {
    assert (n - (n - k + x)) % 64 == 0;
  }

  function WordBytes(w: word): (s: seq<byte>)
    ensures |s| == 4
  {
    [((w >> 24) & 0xFF) as byte, ((w >> 16) & 0xFF) as byte, ((w >> 8) & 0xFF) as byte, (w & 0xFF) as byte]
  }

  function WordsBytes(r: seq<word>): (d: seq<byte>)
    ensures |d| == 4 * |r|
  {
    if r == [] then [] else WordsBytes(r[..|r| - 1]) + WordBytes(r[|r| - 1])
  }

  function Digest(s: State): (d: seq<byte>)
    ensures |d| == 32
  {
    WordsBytes([s.a, s.b, s.c, s.d, s.e, s.f, s.g, s.h])
  }

  /** The message digest of RFC 6234. */
  function Sha256(m: seq<byte>): (d: seq<byte>)
    ensures |d| == 32
  {
    Digest(HashBlocks(Pad(m)))
  }

  lemma {:induction false} HashBlocksAppend(m: seq<byte>, b: Block)
    requires |m| % 64 == 0
    ensures HashBlocks(m + b) == Compress(HashBlocks(m), b)
  {
    assert (m + b)[..|m|] == m && (m + b)[|m|..] == b;
  }

  // ----- the streaming context -----

  class Context {
    var state: array<word>
    var bitCount: nat
    var bufLen: nat
    var buf: array<byte>
    /** The complete blocks absorbed so far. */
    ghost var whole: seq<byte>

    ghost predicate Shape()
      reads `state, `buf, `bufLen
    {
      state.Length == 8 && buf.Length == 64 && bufLen < 64
    }

    ghost function Value(): State
      requires Shape()
      reads `state, `buf, `bufLen, state
    {
      State(state[0], state[1], state[2], state[3], state[4], state[5], state[6], state[7])
    }

    /** The bytes hashed so far: the absorbed blocks and the bytes waiting in the buffer. */
    ghost function Message(): seq<byte>
      requires Shape()
      reads `state, `buf, `bufLen, `whole, buf
    {
      whole + buf[..bufLen]
    }

    ghost predicate Absorbed()
      reads `state, `buf, `bufLen, `whole, state, buf
    {
      Shape() && |whole| % 64 == 0 && Value() == HashBlocks(whole)
    }

    ghost predicate Valid()
      reads this, state, buf
    {
      Absorbed() && bitCount == BitCount(|Message()|)
    }

    /** uiox_sha256_init. */
    constructor ()
      ensures Valid() && fresh(state) && fresh(buf)
      ensures Message() == []
    {
      state := new word[8] [H0.a, H0.b, H0.c, H0.d, H0.e, H0.f, H0.g, H0.h];
      buf := new byte[64];
      bitCount, bufLen := 0, 0;
      whole := [];
    }

    /** The message schedule, expanded in place. */
    method Expand(w: array<word>)
      requires Shape() && w.Length == 64
      modifies w
      ensures forall j :: 0 <= j < 64 ==> w[j] == Schedule(buf[..], j)
    {
      hide Schedule, SSig0, SSig1, Sig0, Sig1, Add, BigEndian;
      ghost var m: Block := buf[..];
      var i := 0;
      while i < 16
        invariant 0 <= i <= 16
        invariant forall j :: 0 <= j < i ==> w[j] == Schedule(m, j)
      {
        w[i] := BigEndian(buf[i * 4], buf[i * 4 + 1], buf[i * 4 + 2], buf[i * 4 + 3]);
        FirstWords(m, i);
        i := i + 1;
      }
      while i < 64
        invariant 16 <= i <= 64
        invariant forall j :: 0 <= j < i ==> w[j] == Schedule(m, j)
      {
        w[i] := Add(Add(Add(Sig1(w[i - 2]), w[i - 7]), Sig0(w[i - 15])), w[i - 16]);
        LaterWords(m, i);
        i := i + 1;
      }
    }

    /** sha256_transform on the context's own buffer. */
    method Transform()
      requires Shape()
      modifies state
      ensures Value() == Compress(old(Value()), buf[..])
    {
      hide Schedule, Rounds, Add;
      var w := new word[64];
      Expand(w);
      var r := RunRounds(w);
      state[0], state[1] := Add(state[0], r.a), Add(state[1], r.b);
      state[2], state[3] := Add(state[2], r.c), Add(state[3], r.d);
      state[4], state[5] := Add(state[4], r.e), Add(state[5], r.f);
      state[6], state[7] := Add(state[6], r.g), Add(state[7], r.h);
    }

    /** The working variables through the 64 rounds. */
    method RunRounds(w: array<word>) returns (r: State)
      requires Shape() && w.Length == 64 && forall j :: 0 <= j < 64 ==> w[j] == Schedule(buf[..], j)
      ensures r == Rounds(buf[..], Value(), 64)
    {
      SixtyFour();
      hide Schedule, Rounds, BSig0, BSig1, Ch, Maj, Ep0, Ep1, Add, K;
      ghost var m: Block, s := buf[..], Value();
      var a, b, c, d := state[0], state[1], state[2], state[3];
      var e, f, g, h := state[4], state[5], state[6], state[7];
      FirstRound(m, s);
      var i := 0;
      while i < 64
        invariant 0 <= i <= 64
        invariant State(a, b, c, d, e, f, g, h) == Rounds(m, s, i)
      {
        RoundStep(m, s, i, State(a, b, c, d, e, f, g, h));
        var t1 := Add(Add(Add(Add(h, Ep1(e)), Ch(e, f, g)), K[i]), w[i]);
        var t2 := Add(Ep0(a), Maj(a, b, c));
        h := g;
        g := f;
        f := e;
        e := Add(d, t1);
        d := c;
        c := b;
        b := a;
        a := Add(t1, t2);
        i := i + 1;
      }
      return State(a, b, c, d, e, f, g, h);
    }

    /** One byte of an update: it enters the buffer, and a full buffer is absorbed. */
    method PutByte(b: byte)
      requires Absorbed()
      modifies this`bufLen, this`whole, state, buf
      ensures Absorbed() && Message() == old(Message()) + [b]
    {
      hide Compress, HashBlocks, BitCount;
      buf[bufLen] := b;
      assert buf[..bufLen + 1] == old(buf[..bufLen]) + [b];
      if bufLen + 1 == 64 {
        bufLen := 0;
        HashBlocksAppend(whole, buf[..]);
        Transform();
        whole := whole + buf[..];
      } else {
        bufLen := bufLen + 1;
      }
    }

    /** uiox_sha256_update. */
    method Update(data: seq<byte>)
      requires Valid()
      modifies this`bitCount, this`bufLen, this`whole, state, buf
      ensures Valid() && Message() == old(Message()) + data
    {
      hide HashBlocks, Value, Message, BitCount;
      ghost var before := Message();
      BitCountGrows(|before|, |data|);
      bitCount := (bitCount + |data| * 8) % U64;
      assert before + data[..0] == before;
      var i := 0;
      while i < |data|
        invariant 0 <= i <= |data|
        invariant Absorbed() && Message() == before + data[..i]
        invariant bitCount == BitCount(|before| + |data|)
      {
        PutByte(data[i]);
        assert data[..i + 1] == data[..i] + [data[i]];
        assert before + data[..i + 1] == before + data[..i] + [data[i]];
        i := i + 1;
      }
      assert data[..|data|] == data;
    }

    /** The first padding branch of uiox_sha256_final: no room for the length after the 1 bit. */
    method FlushPadding(from: nat, ghost tail: seq<byte>)
      requires Absorbed() && 56 < from == |tail| + 1 <= 64
      requires buf[..|tail| + 1] == tail + [0x80]
      modifies state, buf
      ensures |whole + (tail + [0x80] + Zeros(63 - |tail|))| % 64 == 0
      ensures Value() == HashBlocks(whole + (tail + [0x80] + Zeros(63 - |tail|)))
    {
      hide Compress, HashBlocks;
      FillZeros(from, 64);
      HashBlocksAppend(whole, buf[..]);
      assert buf[..] == tail + [0x80] + Zeros(63 - |tail|);
      Transform();
    }

    /** uiox_sha256_final. The context is spent afterwards. */
    method Final(digest: array<byte>)
      requires Valid() && digest.Length == 32 && digest != buf
      modifies this`bufLen, state, buf, digest
      ensures digest[..] == Sha256(old(Message()))
    {
      hide Compress, HashBlocks, Pad, Digest, BytesOf, Zeros, BitCount;
      ghost var n := bufLen;
      ghost var tail := buf[..n];
      ghost var absorbed := whole;
      var i := bufLen;
      bufLen := 0;
      buf[i] := 0x80;
      i := i + 1;
      assert buf[..i] == tail + [0x80];
      if i > 56 {
        FlushPadding(i, tail);
        absorbed := whole + (tail + [0x80] + Zeros(63 - n));
        i := 0;
      }
      FillZeros(i, 56);
      AppendLength(bitCount);
      LastBlock(whole, tail, BytesOf(bitCount, 8), absorbed, buf[..]);
      HashBlocksAppend(absorbed, buf[..]);
      Transform();
      EmitDigest(digest);
    }

    method FillZeros(from: nat, to: nat)
      requires Shape() && from <= to <= 64
      modifies buf
      ensures buf[..to] == old(buf[..from]) + Zeros(to - from)
    {
      var i := from;
      while i < to
        invariant from <= i <= to
        invariant buf[..i] == old(buf[..from]) + Zeros(i - from)
      {
        buf[i] := 0;
        i := i + 1;
        assert buf[..i] == buf[..i - 1] + [0];
      }
    }

    /** The bit count in the last eight bytes, filled from the end. */
    method AppendLength(count: nat)
      requires Shape() && count < U64
      modifies buf
      ensures buf[..] == old(buf[..56]) + BytesOf(count, 8)
    {
      var bc := count;
      var j := 8;
      assert BytesOf(count, 8) + buf[64..] == BytesOf(count, 8);
      while j > 0
        invariant 0 <= j <= 8
        invariant buf[..56] == old(buf[..56])
        invariant BytesOf(bc, j) + buf[56 + j..] == BytesOf(count, 8)
      {
        ghost var rest := buf[56 + j..];
        j := j - 1;
        buf[56 + j] := (bc % 256) as byte;
        assert buf[56 + j..] == [(bc % 256) as byte] + rest;
        bc := bc / 256;
      }
      assert buf[..] == buf[..56] + buf[56..];
    }

    method EmitDigest(digest: array<byte>)
      requires Shape() && digest.Length == 32
      modifies digest
      ensures digest[..] == Digest(Value())
    {
      hide WordBytes;
      var j := 0;
      while j < 8
        invariant 0 <= j <= 8
        invariant digest[..4 * j] == WordsBytes(state[..j])
      {
        PutWord(digest, 4 * j, state[j]);
        j := j + 1;
        assert state[..j][..j - 1] == state[..j - 1];
        assert digest[..4 * j] == digest[..4 * (j - 1)] + digest[4 * (j - 1)..4 * (j - 1) + 4];
      }
      assert state[..8] == [state[0], state[1], state[2], state[3], state[4], state[5], state[6], state[7]];
      assert digest[..32] == digest[..];
    }
  }

  /** Four digest bytes, most significant first. */
  method PutWord(digest: array<byte>, at: nat, w: word)
    requires at + 4 <= digest.Length
    modifies digest
    ensures digest[at..at + 4] == WordBytes(w)
    ensures digest[..at] == old(digest[..at])
  {
    digest[at] := ((w >> 24) & 0xFF) as byte;
    digest[at + 1] := ((w >> 16) & 0xFF) as byte;
    digest[at + 2] := ((w >> 8) & 0xFF) as byte;
    digest[at + 3] := (w & 0xFF) as byte;
  }

  /** A message given in pieces: one init, an update for each piece, one final. */
  method DigestOfPieces(pieces: seq<seq<byte>>) returns (digest: array<byte>)
    ensures fresh(digest) && digest[..] == Sha256(Concat(pieces))
  {
    hide Sha256, HashBlocks, BitCount;
    var ctx := new Context();
    var i := 0;
    while i < |pieces|
      invariant 0 <= i <= |pieces|
      invariant ctx.Valid() && fresh(ctx) && fresh(ctx.state) && fresh(ctx.buf)
      invariant ctx.Message() == Concat(pieces[..i])
    {
      ctx.Update(pieces[i]);
      assert pieces[..i + 1][..i] == pieces[..i];
      i := i + 1;
    }
    assert pieces[..|pieces|] == pieces;
    digest := new byte[32];
    ctx.Final(digest);
  }

  function Concat(pieces: seq<seq<byte>>): seq<byte> {
    if pieces == [] then [] else Concat(pieces[..|pieces| - 1]) + pieces[|pieces| - 1]
  }

  lemma SixtyFour()
    ensures |K| == 64
  {
  }

  lemma {:induction false} FirstWords(m: Block, t: nat)
    requires t < 16
    ensures Schedule(m, t) == BigEndian(m[t * 4], m[t * 4 + 1], m[t * 4 + 2], m[t * 4 + 3])
  {
    hide BigEndian;
  }

  lemma LaterWords(m: Block, t: nat)
    requires 16 <= t < 64
    ensures Schedule(m, t) ==
            Add(Add(Add(Sig1(Schedule(m, t - 2)), Schedule(m, t - 7)), Sig0(Schedule(m, t - 15))), Schedule(m, t - 16))
  {
    hide Add, BigEndian, SSig0, SSig1, Sig0, Sig1;
    MacrosRotate(Schedule(m, t - 2));
    MacrosRotate(Schedule(m, t - 15));
  }

  lemma {:induction false} FirstRound(m: Block, s: State)
    ensures Rounds(m, s, 0) == s
  {
  }

  lemma RoundStep(m: Block, s: State, t: nat, r: State)
    requires t < 64 && r == Rounds(m, s, t)
    ensures var t1 := Add(Add(Add(Add(r.h, Ep1(r.e)), Ch(r.e, r.f, r.g)), K[t]), Schedule(m, t));
            var t2 := Add(Ep0(r.a), Maj(r.a, r.b, r.c));
            Rounds(m, s, t + 1) == State(Add(t1, t2), r.a, r.b, r.c, Add(r.d, t1), r.e, r.f, r.g)
  {
    hide Schedule, BSig0, BSig1, Ep0, Ep1, Ch, Maj, Add;
    MacrosRotate(r.e);
    MacrosRotate(r.a);
    assert Rounds(m, s, t + 1) == Round(r, K[t], Schedule(m, t));
  }

  /** Both padding branches complete the padded message. */
  lemma LastBlock(whole: seq<byte>, tail: seq<byte>, len: seq<byte>, absorbed: seq<byte>, last: seq<byte>)
    requires |whole| % 64 == 0 && |tail| < 64 && |last| == 64
    requires len == BytesOf(BitCount(|whole + tail|), 8)
    requires if |tail| > 55
             then absorbed == whole + (tail + [0x80] + Zeros(63 - |tail|)) && last == Zeros(56) + len
             else absorbed == whole && last == tail + [0x80] + Zeros(55 - |tail|) + len
    ensures absorbed + last == Pad(whole + tail)
  {
    hide BytesOf, Zeros, BitCount, PadZeros;
    var n := |tail|;
    TailZeros(|whole|, n);
    if n > 55 {
      TwoRuns(63 - n, 56);
      Regroup(whole, tail, Zeros(63 - n), Zeros(56), len);
    } else {
      Regroup(whole, tail, Zeros(55 - n), [], len);
    }
  }

  lemma TailZeros(w: nat, n: nat)
    requires w % 64 == 0 && n < 64
    ensures PadZeros(w + n) == if n > 55 then 119 - n else 55 - n
  {
    assert (w + n) % 64 == n;
  }

  lemma TwoRuns(j: nat, k: nat)
    ensures Zeros(j) + Zeros(k) == Zeros(j + k)
  {
  }

  lemma Regroup(whole: seq<byte>, tail: seq<byte>, x: seq<byte>, y: seq<byte>, len: seq<byte>)
    ensures whole + (tail + [0x80] + x) + (y + len) == whole + tail + [0x80] + (x + y) + len
    ensures whole + (tail + [0x80] + x + len) == whole + tail + [0x80] + x + len
  {
  }

  // ----- image verification -----

  const IMAGE_MAGIC: nat := 0x5549_4F58
  const IMAGE_HDR_VERSION: nat := 1

  datatype ImageHeader = ImageHeader(magic: nat, version: nat, arch: nat, imageSize: nat, sha256: seq<byte>)

  datatype Verdict = Verified | BadMagic | Invalid | BadChecksum

  /** uiox_sha256. */
  method OneShot(data: seq<byte>, digest: array<byte>)
    requires digest.Length == 32
    modifies digest
    ensures digest[..] == Sha256(data)
  {
    var ctx := new Context();
    ctx.Update(data);
    assert [] + data == data;
    ctx.Final(digest);
  }

  /** uiox_boot_memcmp, as the caller uses it: whether the first n bytes agree. */
  method SameBytes(a: array<byte>, b: seq<byte>, n: nat) returns (same: bool)
    requires n <= a.Length && n <= |b|
    ensures same <==> a[..n] == b[..n]
  {
    var i := 0;
    while i < n
      invariant 0 <= i <= n && a[..i] == b[..i]
    {
      if a[i] != b[i] {
        assert a[..n][i] != b[..n][i];
        return false;
      }
      i := i + 1;
    }
    return true;
  }

  predicate FieldsMatch(hdr: ImageHeader, size: nat, expectedArch: nat) {
    && hdr.magic == IMAGE_MAGIC && hdr.version == IMAGE_HDR_VERSION && hdr.arch == expectedArch
    && hdr.imageSize == size > 0
  }

  /** uiox_boot_verify_image: an image is accepted exactly when every field and the digest match. */
  method VerifyImage(hdr: ImageHeader, payload: seq<byte>, expectedArch: nat) returns (v: Verdict)
    requires |hdr.sha256| == 32
    ensures v == BadMagic <==> hdr.magic != 0x5549_4F58 || hdr.version != 1
    ensures v == Verified <==> FieldsMatch(hdr, |payload|, expectedArch) && hdr.sha256 == Sha256(payload)
    ensures v == BadChecksum <==> FieldsMatch(hdr, |payload|, expectedArch) && hdr.sha256 != Sha256(payload)
  {
    hide Sha256;
    if hdr.magic != IMAGE_MAGIC { return BadMagic; }
    if hdr.version != IMAGE_HDR_VERSION { return BadMagic; }
    if hdr.arch != expectedArch { return Invalid; }
    if hdr.imageSize == 0 || hdr.imageSize != |payload| { return Invalid; }
    var digest := new byte[32];
    OneShot(payload, digest);
    var same := SameBytes(digest, hdr.sha256, 32);
    assert digest[..32] == digest[..] && hdr.sha256[..32] == hdr.sha256;
    if !same { return BadChecksum; }
    return Verified;
  }
}
