/**
 Bytes, and the little- and big-endian fields of stored and loaded images.
 */
module Bytes {
  import opened Bits

  type byte = bv8

  function Octet(b: byte): (r: nat)
    ensures r < 256
  {
    b as nat
  }

  function AsByte(n: nat): byte
    requires n < 256
  {
    n as byte
  }

  function Le16(s: seq<byte>, at: nat): (r: nat)
    requires at + 2 <= |s|
    ensures r < U16
  {
    Octet(s[at]) + 256 * Octet(s[at + 1])
  }

  function Le32(s: seq<byte>, at: nat): (r: nat)
    requires at + 4 <= |s|
    ensures r < U32
  {
    Le16(s, at) + U16 * Le16(s, at + 2)
  }

  function Le64(s: seq<byte>, at: nat): (r: nat)
    requires at + 8 <= |s|
    ensures r < U64
  {
    Le32(s, at) + U32 * Le32(s, at + 4)
  }

  function PutLe16(n: nat): (s: seq<byte>)
    ensures |s| == 2
  {
    [AsByte(n % 256), AsByte(n / 256 % 256)]
  }

  function PutLe32(n: nat): (s: seq<byte>)
    ensures |s| == 4
  {
    PutLe16(n % U16) + PutLe16(n / U16)
  }

  /** The byte of a number is that number. */
  lemma OctetOf(n: nat)
    requires n < 256
    ensures Octet(n as byte) == n
  {
    var b := ByteOf(n);
    ByteAgain(b);
  }

  /** Counting up reaches every number below 256. */
  lemma {:induction false} ByteOf(n: nat) returns (b: byte)
    requires n < 256
    ensures b as nat == n
  {
    if n == 0 {
      b := 0;
    } else {
      var c := ByteOf(n - 1);
      NextByte(c);
      b := c + 1;
    }
  }

  lemma NextByte(b: byte)
    requires b as nat < 255
    ensures (b + 1) as nat == b as nat + 1
  {
  }

  lemma ByteAgain(b: byte)
    ensures (b as nat) as byte == b
  {
  }

  /** Bytes and numbers below 256 correspond. */
  lemma SameByte(n: nat, b: byte)
    requires n < 256
    ensures n as byte == b <==> Octet(b) == n
  {
    OctetOf(n);
    OctetAgain(b);
    hide Octet;
  }

  lemma OctetAgain(b: byte)
    ensures Octet(b) as byte == b
  {
    ByteAgain(b);
  }

  lemma DecodeLe16(n: nat, s: seq<byte>, at: nat)
    requires n < U16 && at + 2 <= |s| && s[at..at + 2] == PutLe16(n)
    ensures Le16(s, at) == n
  {
    hide Octet;
    TwoBytes(n);
    assert s[at] == s[at..at + 2][0] && s[at + 1] == s[at..at + 2][1];
  }

  lemma TwoBytes(n: nat)
    requires n < U16
    ensures Octet(PutLe16(n)[0]) + 256 * Octet(PutLe16(n)[1]) == n
  {
    hide Octet, AsByte;
    AsByteOf(n % 256);
    AsByteOf(n / 256 % 256);
  }

  lemma AsByteOf(n: nat)
    requires n < 256
    ensures Octet(AsByte(n)) == n
  {
    OctetOf(n);
    hide Octet;
  }

  lemma DecodeLe32(n: nat, s: seq<byte>, at: nat)
    requires n < U32 && at + 4 <= |s| && s[at..at + 4] == PutLe32(n)
    ensures Le32(s, at) == n
  {
    hide Le16, PutLe16;
    assert s[at..at + 2] == s[at..at + 4][..2] == PutLe16(n % U16);
    assert s[at + 2..at + 4] == s[at..at + 4][2..] == PutLe16(n / U16);
    DecodeLe16(n % U16, s, at);
    DecodeLe16(n / U16, s, at + 2);
  }

  function PutLe64(n: nat): (s: seq<byte>)
    ensures |s| == 8
  {
    PutLe32(n % U32) + PutLe32(n / U32)
  }

  lemma DecodeLe64(n: nat, s: seq<byte>, at: nat)
    requires n < U64 && at + 8 <= |s| && s[at..at + 8] == PutLe64(n)
    ensures Le64(s, at) == n
  {
    hide Le32, PutLe32;
    assert s[at..at + 4] == s[at..at + 8][..4] == PutLe32(n % U32);
    assert s[at + 4..at + 8] == s[at..at + 8][4..] == PutLe32(n / U32);
    DecodeLe32(n % U32, s, at);
    DecodeLe32(n / U32, s, at + 4);
  }

  /** Least significant byte first. */
  lemma LittleEndian(s: seq<byte>)
    requires s == [0x12, 0x34, 0x56, 0x78, 0x9A, 0xBC, 0xDE, 0xF0]
    ensures Le16(s, 0) == 0x3412 && Le32(s, 0) == 0x7856_3412 && Le64(s, 0) == 0xF0DE_BC9A_7856_3412
  {
  }

  // ----- big-endian fields -----

  function Be16(s: seq<byte>, at: nat): (r: nat)
    requires at + 2 <= |s|
    ensures r < U16
  {
    256 * Octet(s[at]) + Octet(s[at + 1])
  }

  function Be32(s: seq<byte>, at: nat): (r: nat)
    requires at + 4 <= |s|
    ensures r < U32
  {
    U16 * Be16(s, at) + Be16(s, at + 2)
  }

  function Be64(s: seq<byte>, at: nat): (r: nat)
    requires at + 8 <= |s|
    ensures r < U64
  {
    Be32(s, at) * U32 + Be32(s, at + 4)
  }

  function PutBe16(n: nat): (s: seq<byte>)
    ensures |s| == 2
  {
    [AsByte(n / 256 % 256), AsByte(n % 256)]
  }

  function PutBe32(n: nat): (s: seq<byte>)
    ensures |s| == 4
  {
    PutBe16(n / U16) + PutBe16(n % U16)
  }

  function PutBe64(n: nat): (s: seq<byte>)
    ensures |s| == 8
  {
    PutBe32(n / U32) + PutBe32(n % U32)
  }

  lemma DecodeBe16(n: nat, s: seq<byte>, at: nat)
    requires n < U16 && at + 2 <= |s| && s[at..at + 2] == PutBe16(n)
    ensures Be16(s, at) == n
  {
    hide Octet;
    TwoBytesBe(n);
    assert s[at] == s[at..at + 2][0] && s[at + 1] == s[at..at + 2][1];
  }

  lemma TwoBytesBe(n: nat)
    requires n < U16
    ensures 256 * Octet(PutBe16(n)[0]) + Octet(PutBe16(n)[1]) == n
  {
    hide Octet, AsByte;
    AsByteOf(n / 256 % 256);
    AsByteOf(n % 256);
  }

  lemma DecodeBe32(n: nat, s: seq<byte>, at: nat)
    requires n < U32 && at + 4 <= |s| && s[at..at + 4] == PutBe32(n)
    ensures Be32(s, at) == n
  {
    hide Be16, PutBe16;
    assert s[at..at + 2] == s[at..at + 4][..2] == PutBe16(n / U16);
    assert s[at + 2..at + 4] == s[at..at + 4][2..] == PutBe16(n % U16);
    DecodeBe16(n / U16, s, at);
    DecodeBe16(n % U16, s, at + 2);
  }

  lemma DecodeBe64(n: nat, s: seq<byte>, at: nat)
    requires n < U64 && at + 8 <= |s| && s[at..at + 8] == PutBe64(n)
    ensures Be64(s, at) == n
  {
    hide Be32, PutBe32;
    assert s[at..at + 4] == s[at..at + 8][..4] == PutBe32(n / U32);
    assert s[at + 4..at + 8] == s[at..at + 8][4..] == PutBe32(n % U32);
    DecodeBe32(n / U32, s, at);
    DecodeBe32(n % U32, s, at + 4);
  }

  /** Most significant byte first. */
  lemma MostSignificantFirst(s: seq<byte>)
    requires s == [0x12, 0x34, 0x56, 0x78, 0x9A, 0xBC, 0xDE, 0xF0]
    ensures Be16(s, 0) == 0x1234 && Be32(s, 0) == 0x1234_5678 && Be64(s, 0) == 0x1234_5678_9ABC_DEF0
  {
  }

  // ----- runs of zeros -----

  function Zeros(k: nat): (s: seq<byte>)
    ensures |s| == k
    ensures forall i :: 0 <= i < k ==> s[i] == 0
  {
    seq(k, _ => 0)
  }
}
