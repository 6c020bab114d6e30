/**
 CRC32C (Castagnoli, reflected polynomial 0x82F63B78) as the boot file system
 computes it, and what the checksum detects (section 12.1 of RFC 3720).
 */
module Crc32c {
  import opened Bytes

  const POLY: bv32 := 0x82F6_3B78
  const ONES: bv32 := 0xFFFF_FFFF

  // The word operations are named so that proofs can hide what they compute.

  function Xor(a: bv32, b: bv32): bv32 { a ^ b }

  function Half(s: bv32): bv32 { s >> 1 }

  predicate Odd(s: bv32) { s & 1 == 1 }

  function Word(b: byte): bv32 { b as bv32 }

  /** One shift of the register: the bit that falls out selects the polynomial. */
  function BitStep(s: bv32): bv32 {
    if Odd(s) then Xor(Half(s), POLY) else Half(s)
  }

  function Steps(s: bv32, k: nat): bv32 {
    if k == 0 then s else BitStep(Steps(s, k - 1))
  }

  /** A byte enters the low end of the register and eight shifts follow. */
  function ByteStep(s: bv32, b: byte): bv32 {
    Steps(Xor(s, Word(b)), 8)
  }

  /** The register after a message, from register s. */
  function Run(s: bv32, m: seq<byte>): bv32 {
    if m == [] then s else ByteStep(Run(s, m[..|m| - 1]), m[|m| - 1])
  }

  /** The checksum of a message. */
  function Crc(m: seq<byte>): bv32 {
    Xor(Run(ONES, m), ONES)
  }

  /** The branch-free form of the shift that the code uses. */
  lemma BranchFree(s: bv32)
    ensures (s >> 1) ^ (POLY & (0 - (s & 1))) == BitStep(s)
  {
    assert s & 1 == 0 || s & 1 == 1;
  }

  /** unfs_crc32c over a stretch of a buffer. */
  method UnfsCrc32c(data: array<byte>, from: nat, len: nat) returns (crc: bv32)
    requires from + len <= data.Length
    ensures crc == Crc(data[from..from + len])
  {
    hide BitStep;
    crc := ONES;
    var i := 0;
    while i < len
      invariant 0 <= i <= len
      invariant crc == Run(ONES, data[from..from + i])
    {
      crc := crc ^ (data[from + i] as bv32);
      ghost var x := crc;
      var b := 0;
      while b < 8
        invariant 0 <= b <= 8
        invariant crc == Steps(x, b)
      {
        BranchFree(crc);
        crc := (crc >> 1) ^ (POLY & (0 - (crc & 1)));
        b := b + 1;
      }
      assert data[from..from + i + 1][..i] == data[from..from + i];
      i := i + 1;
    }
    crc := crc ^ ONES;
  }

  // ----- the algebra of the register -----

  lemma XorEqual(a: bv32, b: bv32)
    ensures Xor(a, b) == 0 <==> a == b
  {
    assert Xor(Xor(a, b), b) == a;
    assert Xor(0, b) == b;
  }

  lemma XorZero(a: bv32)
    ensures Xor(a, 0) == a && Xor(0, a) == a
  {
  }

  lemma XorAssoc(a: bv32, b: bv32, c: bv32)
    ensures Xor(Xor(a, b), c) == Xor(a, Xor(b, c))
  {
  }

  lemma XorComm(a: bv32, b: bv32)
    ensures Xor(a, b) == Xor(b, a)
  {
  }

  /** The exclusive or of two exclusive ors, regrouped. */
  lemma XorPairs(a: bv32, b: bv32, c: bv32, d: bv32)
    ensures Xor(Xor(a, b), Xor(c, d)) == Xor(Xor(a, c), Xor(b, d))
  {
    hide Xor;
    XorAssoc(a, b, Xor(c, d));
    XorAssoc(b, c, d);
    XorComm(b, c);
    XorAssoc(c, b, d);
    XorAssoc(a, c, Xor(b, d));
  }

  lemma XorParts(a: bv32, b: bv32)
    ensures Half(Xor(a, b)) == Xor(Half(a), Half(b))
    ensures Odd(Xor(a, b)) == (Odd(a) != Odd(b))
  {
    assert a & 1 == 0 || a & 1 == 1;
    assert b & 1 == 0 || b & 1 == 1;
    assert (a ^ b) & 1 == (a & 1) ^ (b & 1);
  }

  lemma BitStepLinear(a: bv32, b: bv32)
    ensures BitStep(Xor(a, b)) == Xor(BitStep(a), BitStep(b))
  {
    hide Xor, Half, Odd;
    XorParts(a, b);
    var x, y := Half(a), Half(b);
    XorAssoc(x, y, POLY);
    XorAssoc(x, POLY, y);
    XorComm(POLY, y);
    XorPairs(x, POLY, y, POLY);
    XorEqual(POLY, POLY);
    XorZero(Xor(x, y));
  }

  lemma {:induction false} StepsLinear(a: bv32, b: bv32, k: nat)
    ensures Steps(Xor(a, b), k) == Xor(Steps(a, k), Steps(b, k))
  {
    hide Xor, BitStep;
    if k > 0 {
      StepsLinear(a, b, k - 1);
      BitStepLinear(Steps(a, k - 1), Steps(b, k - 1));
    }
  }

  /** The top bit of the polynomial makes every shift reversible. */
  lemma BitStepInjective(s: bv32)
    ensures BitStep(s) == 0 <==> s == 0
  {
  }

  lemma {:induction false} StepsInjective(s: bv32, k: nat)
    ensures Steps(s, k) == 0 <==> s == 0
  {
    hide BitStep;
    if k > 0 {
      BitStepInjective(Steps(s, k - 1));
      StepsInjective(s, k - 1);
    }
  }

  // ----- concatenation and the table -----

  /** The register after a concatenation is the second part run from the first part's register. */
  lemma {:induction false} RunConcat(s: bv32, a: seq<byte>, b: seq<byte>)
    ensures Run(s, a + b) == Run(Run(s, a), b)
  {
    hide ByteStep;
    if b == [] {
      assert a + b == a;
    } else {
      RunConcat(s, a, b[..|b| - 1]);
      assert (a + b)[..|a + b| - 1] == a + b[..|b| - 1];
    }
  }

  /** The lookup table the loop replaces: entry i is eight shifts of i. */
  function TableEntry(i: bv32): bv32 {
    Steps(i, 8)
  }

  lemma {:induction false} StepsAdd(s: bv32, j: nat, k: nat)
    ensures Steps(s, j + k) == Steps(Steps(s, j), k)
  {
    hide BitStep;
    if k > 0 { StepsAdd(s, j, k - 1); }
  }

  function LowByte(s: bv32): bv32 { s & 0xFF }

  function HighBytes(s: bv32): bv32 { s & 0xFFFF_FF00 }

  function Shift8(s: bv32): bv32 { s >> 8 }

  /** k shifts with no bit of the polynomial coming in. */
  function Halves(s: bv32, k: nat): bv32
    decreases k
  {
    if k == 0 then s else Halves(Half(s), k - 1)
  }

  predicate LowClear(s: bv32, k: nat)
    decreases k
  {
    k == 0 || (!Odd(s) && LowClear(Half(s), k - 1))
  }

  lemma {:induction false} ClearSteps(s: bv32, k: nat)
    requires LowClear(s, k)
    ensures Steps(s, k) == Halves(s, k)
    decreases k
  {
    hide Odd, Half, Xor;
    if k > 0 {
      StepsAdd(s, 1, k - 1);
      assert Steps(s, 1) == BitStep(s) == Half(s);
      ClearSteps(Half(s), k - 1);
    }
  }

  /** The eight registers below a register, one shift apart. */
  lemma HighBytesClear(s: bv32)
    ensures LowClear(HighBytes(s), 8)
    ensures Halves(HighBytes(s), 8) == Shift8(s)
  {
    var h := HighBytes(s);
    EightHalves(s);
    var h1, h2, h3, h4 := Half(h), Half(Half(h)), Half(Half(Half(h))), Half(Half(Half(Half(h))));
    var h5, h6, h7, h8 := Half(h4), Half(Half(h4)), Half(Half(Half(h4))), Half(Half(Half(Half(h4))));
    hide Half, Odd, HighBytes, Shift8;
    assert LowClear(h7, 1) && Halves(h7, 1) == h8;
    assert LowClear(h6, 2) && Halves(h6, 2) == h8;
    assert LowClear(h5, 3) && Halves(h5, 3) == h8;
    assert LowClear(h4, 4) && Halves(h4, 4) == h8;
    assert LowClear(h3, 5) && Halves(h3, 5) == h8;
    assert LowClear(h2, 6) && Halves(h2, 6) == h8;
    assert LowClear(h1, 7) && Halves(h1, 7) == h8;
  }

  lemma EightHalves(s: bv32)
    ensures var h := HighBytes(s);
            var h4 := Half(Half(Half(Half(h))));
            && !Odd(h) && !Odd(Half(h)) && !Odd(Half(Half(h))) && !Odd(Half(Half(Half(h))))
            && !Odd(h4) && !Odd(Half(h4)) && !Odd(Half(Half(h4))) && !Odd(Half(Half(Half(h4))))
            && Half(Half(Half(Half(h4)))) == Shift8(s)
  {
    var h := HighBytes(s);
    LowNibbles(s);
    FourHalves(h);
    FourHalves(h >> 4);
    hide *;
  }

  lemma LowNibbles(s: bv32)
    ensures HighBytes(s) & 0xF == 0 && (HighBytes(s) >> 4) & 0xF == 0
    ensures (HighBytes(s) >> 4) >> 4 == Shift8(s)
  {
  }

  lemma FourHalves(h: bv32)
    requires h & 0xF == 0
    ensures !Odd(h) && !Odd(Half(h)) && !Odd(Half(Half(h))) && !Odd(Half(Half(Half(h))))
    ensures Half(Half(Half(Half(h)))) == h >> 4
  {
  }

  lemma SplitWord(s: bv32)
    ensures Xor(HighBytes(s), LowByte(s)) == s
  {
  }

  lemma HighUntouched(s: bv32, b: byte)
    ensures Shift8(Xor(s, Word(b))) == Shift8(s)
  {
  }

  /** The table-driven step and the bit loop are the same function of register and byte. */
  lemma TableStep(s: bv32, b: byte)
    ensures ByteStep(s, b) == Xor(Shift8(s), TableEntry(LowByte(Xor(s, Word(b)))))
  {
    hide Steps, Xor, Word, HighBytes, LowByte, Shift8, LowClear, Halves;
    var x := Xor(s, Word(b));
    SplitWord(x);
    StepsLinear(HighBytes(x), LowByte(x), 8);
    HighBytesClear(x);
    ClearSteps(HighBytes(x), 8);
    HighUntouched(s, b);
  }

  // ----- the register fed bit by bit -----

  function BitWord(b: bool): bv32 { if b then 1 else 0 }

  /** The bit-serial register: each message bit is added at the low end before a shift. */
  function RunBits(s: bv32, w: seq<bool>): bv32
    decreases w
  {
    if w == [] then s else RunBits(BitStep(Xor(s, BitWord(w[0]))), w[1..])
  }

  function Twice(s: bv32): bv32 { s << 1 }

  predicate Top(s: bv32) { s & 0x8000_0000 != 0 }

  /** The top n bits of a word are clear. */
  predicate HighClear(s: bv32, n: nat)
    decreases n
  {
    n == 0 || (!Top(s) && HighClear(Twice(s), n - 1))
  }

  /** At most 32 bits as one word, first bit lowest. */
  function Pack(w: seq<bool>): bv32 {
    if w == [] then 0 else Xor(BitWord(w[0]), Twice(Pack(w[1..])))
  }

  lemma HighLinear(a: bv32, b: bv32)
    ensures Twice(Xor(a, b)) == Xor(Twice(a), Twice(b))
    ensures !Top(a) && !Top(b) ==> !Top(Xor(a, b))
  {
  }

  lemma {:induction false} HighClearXor(a: bv32, b: bv32, n: nat)
    requires HighClear(a, n) && HighClear(b, n)
    ensures HighClear(Xor(a, b), n)
    decreases n
  {
    hide Xor, Twice, Top;
    if n > 0 {
      HighLinear(a, b);
      HighClearXor(Twice(a), Twice(b), n - 1);
    }
  }

  lemma {:induction false} HighClearFewer(a: bv32, n: nat, m: nat)
    requires HighClear(a, n) && m <= n
    ensures HighClear(a, m)
    decreases n
  {
    hide Twice, Top;
    if m > 0 { HighClearFewer(Twice(a), n - 1, m - 1); }
  }

  lemma FourTwices(s: bv32)
    requires s & 0xF000_0000 == 0
    ensures !Top(s) && !Top(Twice(s)) && !Top(Twice(Twice(s))) && !Top(Twice(Twice(Twice(s))))
    ensures Twice(Twice(Twice(Twice(s)))) == s << 4
  {
  }

  lemma HighClearFour(s: bv32, t: bv32, n: nat)
    requires s & 0xF000_0000 == 0 && t == s << 4 && HighClear(t, n)
    ensures HighClear(s, n + 4)
  {
    FourTwices(s);
    hide Twice, Top;
    assert HighClear(Twice(Twice(s)), n + 2);
  }

  lemma {:induction false} HighClearBit(b: bool, n: nat)
    requires n <= 31
    ensures HighClear(BitWord(b), n)
  {
    if b {
      assert HighClear(0x8000_0000, 0);
      assert HighClear(0x2000_0000, 2) && HighClear(0x1000_0000, 3);
      HighClearFour(0x0100_0000, 0x1000_0000, 3);
      HighClearFour(0x0010_0000, 0x0100_0000, 7);
      HighClearFour(0x0001_0000, 0x0010_0000, 11);
      HighClearFour(0x0000_1000, 0x0001_0000, 15);
      HighClearFour(0x0000_0100, 0x0000_1000, 19);
      HighClearFour(0x0000_0010, 0x0000_0100, 23);
      HighClearFour(0x0000_0001, 0x0000_0010, 27);
      HighClearFewer(1, 31, n);
    } else {
      HighClearZero(n);
    }
  }

  lemma {:induction false} HighClearZero(n: nat)
    ensures HighClear(0, n)
  {
    if n > 0 {
      assert Twice(0) == 0;
      HighClearZero(n - 1);
    }
  }

  lemma {:induction false} PackFits(w: seq<bool>)
    requires |w| <= 32
    ensures HighClear(Pack(w), 32 - |w|)
  {
    hide Xor, Twice, Top, BitWord;
    if w == [] {
      HighClearZero(32);
    } else {
      PackFits(w[1..]);
      HighClearBit(w[0], 32 - |w|);
      HighClearXor(BitWord(w[0]), Twice(Pack(w[1..])), 32 - |w|);
    }
  }

  lemma ShiftOut(s: bv32)
    requires !Top(s)
    ensures BitStep(Twice(s)) == s
  {
  }

  /** Feeding up to 32 bits one at a time is adding the packed word and shifting as often. */
  lemma {:induction false} PackedRun(s: bv32, w: seq<bool>)
    requires |w| <= 32
    ensures RunBits(s, w) == Steps(Xor(s, Pack(w)), |w|)
    decreases w
  {
    hide Xor, Twice, Top, BitWord, BitStep;
    if w == [] {
      XorZero(s);
    } else {
      var b, p := BitWord(w[0]), Pack(w[1..]);
      PackFits(w[1..]);
      ShiftOut(p);
      XorAssoc(s, b, Twice(p));
      BitStepLinear(Xor(s, b), Twice(p));
      StepsAdd(Xor(s, Pack(w)), 1, |w| - 1);
      assert Steps(Xor(s, Pack(w)), 1) == BitStep(Xor(s, Pack(w)));
      PackedRun(BitStep(Xor(s, b)), w[1..]);
    }
  }

  lemma {:induction false} PackZero(w: seq<bool>)
    requires |w| <= 32 && Pack(w) == 0
    ensures forall i :: 0 <= i < |w| ==> !w[i]
  {
    if w != [] {
      PackFits(w[1..]);
      LowBitSeparate(w[0], Pack(w[1..]));
      PackZero(w[1..]);
      assert w == [w[0]] + w[1..];
    }
  }

  lemma LowBitSeparate(b: bool, p: bv32)
    requires !Top(p) && Xor(BitWord(b), Twice(p)) == 0
    ensures !b && p == 0
  {
  }

  lemma {:induction false} RunBitsConcat(s: bv32, v: seq<bool>, w: seq<bool>)
    ensures RunBits(s, v + w) == RunBits(RunBits(s, v), w)
    decreases v
  {
    hide Xor, BitStep, BitWord;
    if v == [] {
      assert v + w == w;
    } else {
      RunBitsConcat(BitStep(Xor(s, BitWord(v[0]))), v[1..], w);
      assert (v + w)[1..] == v[1..] + w;
    }
  }

  /** Quiet bits only shift the register. */
  lemma {:induction false} RunZeros(s: bv32, w: seq<bool>)
    requires forall i :: 0 <= i < |w| ==> !w[i]
    ensures RunBits(s, w) == 0 <==> s == 0
    decreases w
  {
    hide Xor, BitStep;
    if w != [] {
      XorZero(s);
      BitStepInjective(s);
      RunZeros(BitStep(s), w[1..]);
    }
  }

  /** The bit-by-bit exclusive or of two bit strings. */
  function Diff(v: seq<bool>, w: seq<bool>): (d: seq<bool>)
    requires |v| == |w|
    ensures |d| == |v| && forall i :: 0 <= i < |d| ==> d[i] == (v[i] != w[i])
  {
    seq(|v|, i requires 0 <= i < |v| => v[i] != w[i])
  }

  lemma BitWordDiff(a: bool, b: bool)
    ensures Xor(BitWord(a), BitWord(b)) == BitWord(a != b)
  {
  }

  /** The difference of two registers is the register of the difference. */
  lemma {:induction false} RunBitsDiff(s: bv32, t: bv32, v: seq<bool>, w: seq<bool>)
    requires |v| == |w|
    ensures Xor(RunBits(s, v), RunBits(t, w)) == RunBits(Xor(s, t), Diff(v, w))
    decreases v
  {
    hide Xor, BitStep, BitWord;
    if v != [] {
      var a, b := BitWord(v[0]), BitWord(w[0]);
      BitStepLinear(Xor(s, a), Xor(t, b));
      XorPairs(s, a, t, b);
      BitWordDiff(v[0], w[0]);
      RunBitsDiff(BitStep(Xor(s, a)), BitStep(Xor(t, b)), v[1..], w[1..]);
      assert Diff(v, w)[1..] == Diff(v[1..], w[1..]);
    }
  }

  // ----- bytes as bits -----

  function ByteBits(b: byte): (w: seq<bool>)
    ensures |w| == 8
  {
    [b & 1 != 0, b & 2 != 0, b & 4 != 0, b & 8 != 0, b & 16 != 0, b & 32 != 0, b & 64 != 0, b & 128 != 0]
  }

  /** A message as bits, in the order in which they enter the register. */
  function Bits(m: seq<byte>): (w: seq<bool>)
    ensures |w| == 8 * |m|
  {
    if m == [] then [] else Bits(m[..|m| - 1]) + ByteBits(m[|m| - 1])
  }

  lemma ByteBitsDiffer(a: byte, b: byte)
    requires ByteBits(a) == ByteBits(b)
    ensures a == b
  {
    assert ByteBits(a)[0] == ByteBits(b)[0] && ByteBits(a)[1] == ByteBits(b)[1];
    assert ByteBits(a)[2] == ByteBits(b)[2] && ByteBits(a)[3] == ByteBits(b)[3];
    assert ByteBits(a)[4] == ByteBits(b)[4] && ByteBits(a)[5] == ByteBits(b)[5];
    assert ByteBits(a)[6] == ByteBits(b)[6] && ByteBits(a)[7] == ByteBits(b)[7];
  }

  lemma {:induction false} BitsInjective(m: seq<byte>, n: seq<byte>)
    requires |m| == |n| && Bits(m) == Bits(n)
    ensures m == n
  {
    hide ByteBits;
    if m != [] {
      var k := |m| - 1;
      assert Bits(m)[..8 * k] == Bits(m[..k]) && Bits(n)[..8 * k] == Bits(n[..k]);
      assert Bits(m)[8 * k..] == ByteBits(m[k]) && Bits(n)[8 * k..] == ByteBits(n[k]);
      BitsInjective(m[..k], n[..k]);
      ByteBitsDiffer(m[k], n[k]);
      assert m == m[..k] + [m[k]] && n == n[..k] + [n[k]];
    }
  }

  /** Four bits above a word that already holds the bits after them. */
  function Nibble(b0: bool, b1: bool, b2: bool, b3: bool, rest: bv32): bv32 {
    Xor(BitWord(b0), Twice(Xor(BitWord(b1), Twice(Xor(BitWord(b2), Twice(Xor(BitWord(b3), Twice(rest))))))))
  }

  lemma ByteIsNibbles(b: byte)
    ensures var w := ByteBits(b);
            Nibble(w[0], w[1], w[2], w[3], Nibble(w[4], w[5], w[6], w[7], 0)) == Word(b)
  {
  }

  /** The eight bits of a byte, packed, are the byte. */
  lemma PackByte(b: byte)
    ensures Pack(ByteBits(b)) == Word(b)
  {
    ByteIsNibbles(b);
    var w := ByteBits(b);
    hide Xor, Twice, BitWord, Word, ByteBits;
    PackNibble(w[4..]);
    PackNibble(w);
    assert w[4..][4..] == [];
  }

  lemma {:induction false} PackNibble(w: seq<bool>)
    requires |w| >= 4
    ensures Pack(w) == Nibble(w[0], w[1], w[2], w[3], Pack(w[4..]))
  {
    hide Xor, Twice, BitWord;
    assert w[1..][1..] == w[2..] && w[2..][1..] == w[3..] && w[3..][1..] == w[4..];
    assert Pack(w[2..]) == Xor(BitWord(w[2]), Twice(Xor(BitWord(w[3]), Twice(Pack(w[4..])))));
  }

  /** The byte loop of the code is the bit-serial register. */
  lemma {:induction false} RunIsBitSerial(s: bv32, m: seq<byte>)
    ensures Run(s, m) == RunBits(s, Bits(m))
  {
    hide Xor, Word, ByteBits;
    if m != [] {
      var k := |m| - 1;
      RunIsBitSerial(s, m[..k]);
      RunBitsConcat(s, Bits(m[..k]), ByteBits(m[k]));
      PackedRun(Run(s, m[..k]), ByteBits(m[k]));
      PackByte(m[k]);
    }
  }

  // ----- what the checksum detects -----

  lemma {:induction false} CrcDifference(m: seq<byte>, n: seq<byte>)
    requires |m| == |n|
    ensures Crc(m) == Crc(n) <==> RunBits(0, Diff(Bits(m), Bits(n))) == 0
  {
    hide Xor, Run, RunBits, Bits;
    var a, b := Run(ONES, m), Run(ONES, n);
    RunIsBitSerial(ONES, m);
    RunIsBitSerial(ONES, n);
    RunBitsDiff(ONES, ONES, Bits(m), Bits(n));
    XorEqual(ONES, ONES);
    XorEqual(a, b);
    XorEqual(Xor(a, ONES), Xor(b, ONES));
    XorPairs(a, ONES, b, ONES);
    XorZero(Xor(a, b));
  }

  /** The messages agree outside a window of 32 consecutive bits starting at bit p. */
  ghost predicate DifferOnlyWithin(m: seq<byte>, n: seq<byte>, p: nat)
    requires |m| == |n|
  {
    forall i :: 0 <= i < 8 * |m| && !(p <= i < p + 32) ==> Bits(m)[i] == Bits(n)[i]
  }

  /** Every error burst of at most 32 bits, at any bit position, changes the checksum. */
  lemma BurstDetected(m: seq<byte>, n: seq<byte>, p: nat)
    requires |m| == |n| && m != n
    requires DifferOnlyWithin(m, n, p)
    ensures Crc(m) != Crc(n)
  {
    hide Crc, RunBits, Bits;
    CrcDifference(m, n);
    var v, w := Bits(m), Bits(n);
    var d := Diff(v, w);
    if v == w { BitsInjective(m, n); }
    var i :| 0 <= i < |v| && v[i] != w[i];
    assert d[i];
    var e := if p + 32 <= |d| then p + 32 else |d|;
    assert d[p..e][i - p];
    assert forall k :: 0 <= k < p ==> !d[..p][k];
    assert forall k :: 0 <= k < |d| - e ==> d[e..][k] == d[e + k] == (v[e + k] != w[e + k]);
    IsolatedBurst(d[..p], d[p..e], d[e..], i - p);
    assert d == d[..p] + d[p..e] + d[e..];
  }

  /** A nonzero window between quiet bits leaves the register nonzero. */
  lemma {:induction false} IsolatedBurst(u: seq<bool>, w: seq<bool>, v: seq<bool>, k: nat)
    requires |w| <= 32 && k < |w| && w[k]
    requires forall i :: 0 <= i < |u| ==> !u[i]
    requires forall i :: 0 <= i < |v| ==> !v[i]
    ensures RunBits(0, u + w + v) != 0
  {
    hide RunBits, Pack, Steps, Xor;
    RunBitsConcat(0, u + w, v);
    RunBitsConcat(0, u, w);
    RunZeros(0, u);
    PackedRun(0, w);
    XorZero(Pack(w));
    StepsInjective(Pack(w), |w|);
    if Pack(w) == 0 { PackZero(w); }
    RunZeros(RunBits(0, w), v);
  }

  // ----- an odd number of flipped bits -----

  /** Whether the low k bits of a word hold an odd number of ones. */
  predicate Parity(s: bv32, k: nat)
    decreases k
  {
    k > 0 && Odd(s) != Parity(Half(s), k - 1)
  }

  lemma {:induction false} ParityLinear(a: bv32, b: bv32, k: nat)
    ensures Parity(Xor(a, b), k) == (Parity(a, k) != Parity(b, k))
    decreases k
  {
    hide Xor, Half, Odd;
    if k > 0 {
      XorParts(a, b);
      ParityLinear(Half(a), Half(b), k - 1);
    }
  }

  lemma {:induction false} ParityNext(s: bv32, k: nat)
    ensures Parity(s, k + 1) == (Parity(s, k) != Odd(Halves(s, k)))
    decreases k
  {
    hide Half, Odd;
    if k > 0 { ParityNext(Half(s), k - 1); }
  }

  lemma {:induction false} HalvesAdd(s: bv32, j: nat, k: nat)
    ensures Halves(s, j + k) == Halves(Halves(s, j), k)
    decreases j
  {
    hide Half;
    if j > 0 { HalvesAdd(Half(s), j - 1, k); }
  }

  lemma FourShift(s: bv32)
    ensures Half(Half(Half(Half(s)))) == s >> 4
  {
  }

  lemma {:induction false} EightShift(s: bv32)
    ensures Halves(s, 8) == Shift8(s)
  {
    FourShift(s);
    FourShift(s >> 4);
    assert (s >> 4) >> 4 == Shift8(s);
    hide Half, Shift8;
    assert Halves(s >> 4, 4) == Half(Half(Half(Half(s >> 4)))) by {
      var t := Half(Half(s >> 4));
      assert Halves(t, 2) == Half(Half(t));
    }
    HalvesAdd(s, 4, 4);
    assert Halves(s, 4) == s >> 4 by {
      var t := Half(Half(s));
      assert Halves(t, 2) == Half(Half(t));
    }
  }

  lemma ShiftedOut(s: bv32)
    ensures Shift8(Shift8(Shift8(Shift8(s)))) == 0
  {
  }

  lemma {:induction false} AllShiftedOut(s: bv32)
    ensures Halves(s, 32) == 0
  {
    hide Half, Shift8, Halves;
    EightShift(s);
    EightShift(Shift8(s));
    EightShift(Shift8(Shift8(s)));
    EightShift(Shift8(Shift8(Shift8(s))));
    HalvesAdd(s, 8, 8);
    HalvesAdd(s, 16, 8);
    HalvesAdd(s, 24, 8);
    ShiftedOut(s);
  }

  lemma FourParity(s: bv32, t: bv32, k: nat)
    requires t == s >> 4
    ensures Parity(s, k + 4) ==
            ((s & 1 != 0) != ((s & 2 != 0) != ((s & 4 != 0) != ((s & 8 != 0) != Parity(t, k)))))
  {
    FourOdds(s);
    FourShift(s);
    LowOdds(s);
    hide Half, Odd;
    assert Parity(Half(Half(s)), k + 2) == (Odd(Half(Half(s))) != (Odd(Half(Half(Half(s)))) != Parity(t, k)));
  }

  lemma FourOdds(s: bv32)
    ensures Odd(Half(Half(s))) == (s & 4 != 0) && Odd(Half(Half(Half(s)))) == (s & 8 != 0)
  {
  }

  lemma LowOdds(s: bv32)
    ensures Odd(s) == (s & 1 != 0) && Odd(Half(s)) == (s & 2 != 0)
  {
  }

  /** The reflected polynomial has seventeen ones. */
  lemma PolyIsOdd()
    ensures Parity(POLY, 32)
  {
    FourParity(0x8, 0, 0);
    FourParity(0x82, 0x8, 4);
    FourParity(0x82F, 0x82, 8);
    FourParity(0x82F6, 0x82F, 12);
    FourParity(0x82F6_3, 0x82F6, 16);
    FourParity(0x82F6_3B, 0x82F6_3, 20);
    FourParity(0x82F6_3B7, 0x82F6_3B, 24);
    FourParity(POLY, 0x82F6_3B7, 28);
  }

  /** A shift keeps the parity of the register. */
  lemma {:induction false} StepKeepsParity(s: bv32)
    ensures Parity(BitStep(s), 32) == Parity(s, 32)
  {
    hide Xor, Half, Odd;
    PolyIsOdd();
    ParityLinear(Half(s), POLY, 32);
    ParityNext(Half(s), 31);
    AllShiftedOut(s);
    HalvesAdd(s, 1, 31);
    assert Halves(s, 1) == Half(s);
    EvenZero();
  }

  lemma EvenZero()
    ensures !Odd(0)
  {
  }

  function Ones(w: seq<bool>): nat {
    if w == [] then 0 else (if w[0] then 1 else 0) + Ones(w[1..])
  }

  lemma BitParity(b: bool)
    ensures Parity(BitWord(b), 32) == b
  {
    hide Parity;
    assert Parity(0, 32) == false by { ParityLinear(0, 0, 32); XorZero(0); }
    if b {
      ParityOfOne();
    }
  }

  lemma ParityOfOne()
    ensures Parity(1, 32)
  {
    assert Odd(1) && Half(1) == 0;
    assert !Parity(0, 31) by { ParityLinear(0, 0, 31); XorZero(0); }
  }

  /** The register's parity is its initial parity and that of the bits fed in. */
  lemma {:induction false} RunParity(s: bv32, w: seq<bool>)
    ensures Parity(RunBits(s, w), 32) == (Parity(s, 32) != (Ones(w) % 2 == 1))
    decreases w
  {
    hide Xor, BitStep, BitWord, Parity;
    if w != [] {
      var t := Xor(s, BitWord(w[0]));
      RunParity(BitStep(t), w[1..]);
      StepKeepsParity(t);
      ParityLinear(s, BitWord(w[0]), 32);
      BitParity(w[0]);
    }
  }

  /** Any odd number of flipped bits, wherever they are, changes the checksum. */
  lemma {:induction false} OddErrorsDetected(m: seq<byte>, n: seq<byte>)
    requires |m| == |n| && Ones(Diff(Bits(m), Bits(n))) % 2 == 1
    ensures Crc(m) != Crc(n)
  {
    hide *;
    CrcDifference(m, n);
    RunParity(0, Diff(Bits(m), Bits(n)));
    ParityLinear(0, 0, 32);
    XorZero(0);
  }

  lemma {:induction false} FourBitSteps(s: bv32, t: bv32)
    requires BitStep(BitStep(BitStep(BitStep(s)))) == t
    ensures Steps(s, 4) == t
  {
    hide BitStep;
    assert Steps(s, 2) == BitStep(BitStep(s)) by { assert Steps(s, 1) == BitStep(s); }
  }

  lemma ByteValue(s: bv32, b: byte, x: bv32, y: bv32, t: bv32)
    requires x == Xor(s, Word(b))
    requires BitStep(BitStep(BitStep(BitStep(x)))) == y
    requires BitStep(BitStep(BitStep(BitStep(y)))) == t
    ensures ByteStep(s, b) == t
  {
    hide Xor, Word, BitStep;
    FourBitSteps(x, y);
    FourBitSteps(y, t);
    StepsAdd(x, 4, 4);
  }

  /** One more byte, with the register before, at its entry, half way and after. */
  lemma {:induction false} Append(s: bv32, m: seq<byte>, b: byte, x: bv32, y: bv32, t: bv32)
    requires Run(ONES, m) == s && x == Xor(s, Word(b))
    requires BitStep(BitStep(BitStep(BitStep(x)))) == y
    requires BitStep(BitStep(BitStep(BitStep(y)))) == t
    ensures Run(ONES, m + [b]) == t
  {
    ByteValue(s, b, x, y, t);
    hide ByteStep;
    assert (m + [b])[..|m|] == m;
  }

  /** The standard check value: the checksum of the nine ASCII digits 1 to 9. */
  lemma CheckValue()
    ensures Crc([0x31, 0x32, 0x33, 0x34, 0x35, 0x36, 0x37, 0x38, 0x39]) == 0xE306_9283
  {
    var m: seq<byte> := [0x31, 0x32, 0x33, 0x34, 0x35, 0x36, 0x37, 0x38, 0x39];
    CheckFirstHalf(m);
    hide Run;
    Append(0x09C50B11, m[..4], 0x35, 0x09C50B24, 0x41E74D0E, 0xE72EDCCA);
    assert m[..4] + [0x35] == m[..5];
    Append(0xE72EDCCA, m[..5], 0x36, 0xE72EDCFC, 0xCDFFCB0B, 0xBECA8E79);
    assert m[..5] + [0x36] == m[..6];
    Append(0xBECA8E79, m[..6], 0x37, 0xBECA8E4E, 0xE8DC00FE, 0xEDBD6815);
    assert m[..6] + [0x37] == m[..7];
    Append(0xEDBD6815, m[..7], 0x38, 0xEDBD682D, 0xDD083729, 0x9F787F65);
    assert m[..7] + [0x38] == m[..8];
    Append(0x9F787F65, m[..8], 0x39, 0x9F787F5C, 0xCA7AA131, 0x1CF96D7C);
    assert m[..8] + [0x39] == m[..9];
    assert m[..9] == m;
  }

  lemma CheckFirstHalf(m: seq<byte>)
    requires |m| >= 4 && m[0] == 0x31 && m[1] == 0x32 && m[2] == 0x33 && m[3] == 0x34
    ensures Run(ONES, m[..4]) == 0x09C50B11
  {
    hide Run;
    assert Run(ONES, m[..0]) == ONES by { EmptyRun(ONES); }
    Append(0xFFFFFFFF, m[..0], 0x31, 0xFFFFFFCE, 0xECCF57E6, 0x6F0A661C);
    assert m[..0] + [0x31] == m[..1];
    Append(0x6F0A661C, m[..1], 0x32, 0x6F0A662E, 0xE5C00E78, 0x8CAA3B9F);
    assert m[..1] + [0x32] == m[..2];
    Append(0x8CAA3B9F, m[..2], 0x33, 0x8CAA3BAC, 0xCB47857E, 0xEF84D04D);
    assert m[..2] + [0x33] == m[..3];
    Append(0xEF84D04D, m[..3], 0x34, 0xEF84D079, 0x9C50B110, 0x09C50B11);
    assert m[..3] + [0x34] == m[..4];
  }

  lemma {:induction false} EmptyRun(s: bv32)
    ensures Run(s, []) == s
  {
  }
}
