/**
 Decimal printing of a 64-bit word by groups of nine digits, using only the
 divisions of module Division.
 */
module Decimal {
  import opened Bits
  import opened Division

  const GROUP: nat := 1_000_000_000
  const HEX_LO := "0123456789abcdef"

  /** The canonical decimal numeral of v, most significant digit first. */
  function Numeral(v: nat): (s: string)
    ensures |s| >= 1
  {
    if v < 10 then [HEX_LO[v]] else Numeral(v / 10) + [HEX_LO[v % 10]]
  }

  /** The number a decimal numeral denotes. */
  function Value(s: string): int {
    if s == [] then 0 else 10 * Value(s[..|s| - 1]) + (s[|s| - 1] as int - '0' as int)
  }

  /** The digits of v in the order the buffer holds them, least significant first. */
  function DigitsUp(v: nat): (s: string)
    ensures |s| >= 1
  {
    if v < 10 then [HEX_LO[v]] else [HEX_LO[v % 10]] + DigitsUp(v / 10)
  }

  function Pow10(k: nat): (r: nat)
    ensures r >= 1
  {
    if k == 0 then 1 else 10 * Pow10(k - 1)
  }

  function Reverse(s: string): (r: string)
    ensures |r| == |s|
  {
    if s == [] then [] else Reverse(s[1..]) + [s[0]]
  }

  /** Reading a numeral back gives the number: numerals are unambiguous. */
  lemma {:induction false} ValueOfNumeral(v: nat)
    ensures Value(Numeral(v)) == v
  {
    DigitValue(v % 10);
    var s := Numeral(v);
    if v < 10 {
      assert s[..0] == "";
    } else {
      ValueOfNumeral(v / 10);
      assert s[..|s| - 1] == Numeral(v / 10);
    }
  }

  lemma DigitValue(d: nat)
    requires d < 10
    ensures HEX_LO[d] as int - '0' as int == d
  {
  }

  lemma {:induction false} ReverseDigits(v: nat)
    ensures Reverse(DigitsUp(v)) == Numeral(v)
  {
    var s := DigitsUp(v);
    if v >= 10 {
      ReverseDigits(v / 10);
      assert s[1..] == DigitsUp(v / 10);
    } else {
      assert s[1..] == "";
    }
  }

  lemma {:induction false} DigitCount(v: nat, k: nat)
    requires k > 0 && v < Pow10(k)
    ensures |DigitsUp(v)| <= k
  {
    if v >= 10 { DigitCount(v / 10, k - 1); }
  }

  function ZeroDigits(k: nat): (s: string)
    ensures |s| == k
  {
    if k == 0 then "" else "0" + ZeroDigits(k - 1)
  }

  lemma {:induction false} ZeroDigitsGrow(k: nat)
    ensures ZeroDigits(k) + "0" == ZeroDigits(k + 1)
  {
    if k > 0 {
      ZeroDigitsGrow(k - 1);
      assert ZeroDigits(k) + "0" == "0" + (ZeroDigits(k - 1) + "0");
    }
  }

  /** The digits of v with zeros above, k in all. */
  function PaddedUp(v: nat, k: nat): (s: string)
    requires |DigitsUp(v)| <= k
    ensures |s| == k
  {
    DigitsUp(v) + ZeroDigits(k - |DigitsUp(v)|)
  }

  /** Below a nonzero high part, the low k digits are printed in full. */
  lemma {:induction false} GroupDigits(hi: nat, lo: nat, k: nat, n: nat)
    requires hi > 0 && k > 0 && lo < Pow10(k) && n == hi * Pow10(k) + lo
    ensures |DigitsUp(lo)| <= k
    ensures DigitsUp(n) == PaddedUp(lo, k) + DigitsUp(hi)
  {
    hide DigitsUp;
    DigitCount(lo, k);
    var h := hi * Pow10(k - 1);
    TimesTen(hi, Pow10(k - 1));
    LowDigit(h, lo);
    if k == 1 {
      assert h == hi * 1 == hi;
      assert PaddedUp(lo, 1) == [HEX_LO[lo % 10]] by { OneDigit(lo); }
    } else {
      GroupDigits(hi, lo / 10, k - 1, h + lo / 10);
      PaddedStep(lo, k);
      assert PaddedUp(lo, k) + DigitsUp(hi) == [HEX_LO[lo % 10]] + (PaddedUp(lo / 10, k - 1) + DigitsUp(hi));
    }
  }

  lemma {:induction false} OneDigit(v: nat)
    requires v < 10
    ensures DigitsUp(v) == [HEX_LO[v % 10]]
  {
  }

  lemma {:induction false} PaddedStep(lo: nat, k: nat)
    requires k > 1 && |DigitsUp(lo)| <= k
    ensures |DigitsUp(lo / 10)| <= k - 1
    ensures PaddedUp(lo, k) == [HEX_LO[lo % 10]] + PaddedUp(lo / 10, k - 1)
  {
    if lo < 10 {
      assert lo % 10 == lo && lo / 10 == 0;
      assert DigitsUp(0) == "0";
      hide DigitsUp;
      assert ZeroDigits(k - 1) == "0" + ZeroDigits(k - 2);
    } else {
      var c, up := [HEX_LO[lo % 10]], DigitsUp(lo / 10);
      assert DigitsUp(lo) == c + up;
      hide DigitsUp, ZeroDigits;
      assert (c + up) + ZeroDigits(k - |c + up|) == c + (up + ZeroDigits(k - 1 - |up|));
    }
  }

  lemma TimesTen(a: nat, p: nat)
    requires a > 0 && p > 0
    ensures a * (10 * p) == 10 * (a * p) && a * p > 0
  {
  }

  lemma LowDigit(h: nat, lo: nat)
    requires h > 0
    ensures DigitsUp(10 * h + lo) == [HEX_LO[lo % 10]] + DigitsUp(h + lo / 10)
  {
    var v := 10 * h + lo;
    assert v % 10 == lo % 10 && v / 10 == h + lo / 10;
  }

  lemma NinePowers()
    ensures Pow10(9) == GROUP
  {
    assert Pow10(5) == 100000;
  }

  /** The do-while loop that emits one group, least significant digit first. */
  method PutGroup(buf: array<char>, n0: nat, v: nat) returns (n: nat)
    requires v < U32 && n0 + |DigitsUp(v)| <= buf.Length
    modifies buf
    ensures n == n0 + |DigitsUp(v)| <= buf.Length
    ensures buf[..n] == old(buf[..n0]) + DigitsUp(v)
  {
    n := n0;
    var tmp: nat := v;
    while true
      invariant n0 <= n && n + |DigitsUp(tmp)| == n0 + |DigitsUp(v)|
      invariant tmp < U32
      invariant buf[..n] + DigitsUp(tmp) == old(buf[..n0]) + DigitsUp(v)
      decreases tmp
    {
      var q, r := Udiv32(tmp, 10);
      ghost var before := buf[..n];
      buf[n] := HEX_LO[r];
      n := n + 1;
      assert buf[..n] == before + [HEX_LO[r]];
      if q == 0 { break; }
      assert DigitsUp(tmp) == [HEX_LO[r]] + DigitsUp(q);
      assert buf[..n] + DigitsUp(q) == before + ([HEX_LO[r]] + DigitsUp(q));
      tmp := q;
    }
  }

  /** ZeroDigits up to position m. */
  method PadTo(buf: array<char>, n0: nat, m: nat) returns (n: nat)
    requires n0 <= m <= buf.Length
    modifies buf
    ensures n == m && buf[..n] == old(buf[..n0]) + ZeroDigits(m - n0)
  {
    n := n0;
    while n < m
      invariant n0 <= n <= m
      invariant buf[..n] == old(buf[..n0]) + ZeroDigits(n - n0)
    {
      ghost var before := buf[..n];
      buf[n] := '0';
      ZeroDigitsGrow(n - n0);
      n := n + 1;
      assert buf[..n] == before + "0";
      assert buf[..n] == old(buf[..n0]) + (ZeroDigits(n - 1 - n0) + "0");
    }
  }

  /** The number that fmt_dec prints for v: v less what its two divisions drop. */
  function Printed(v: nat): nat {
    LostAtMost(v, GROUP);
    LostAtMost((v - Lost(v, GROUP)) / GROUP, GROUP);
    v - Lost(v, GROUP) - Lost((v - Lost(v, GROUP)) / GROUP, GROUP) * GROUP
  }

  /** Both divisions by 10^9 are exact. */
  predicate PrintsExactly(v: nat) {
    Exact(v, GROUP) && Exact(v / GROUP, GROUP)
  }

  lemma LostAtMost(n: nat, d: nat)
    requires d > 0
    ensures Lost(n, d) <= n
  {
    RemainderAtMost(n / U32, d);
    RemainderAtMost(MiddleDividend(n, d) % U32, d);
    CutTo32(HighRemainder(n, d), n / U16 % U16);
    Halves(n);
  }

  /** fmt_dec prints the canonical numeral of v if and only if both divisions are exact. */
  lemma {:induction false} NumeralIffExact(v: nat)
    ensures Numeral(Printed(v)) == Numeral(v) <==> PrintsExactly(v)
  {
    hide Numeral, Value, Lost, Exact;
    ValueOfNumeral(Printed(v));
    ValueOfNumeral(v);
    LostAtMost(v, GROUP);
    LostAtMost((v - Lost(v, GROUP)) / GROUP, GROUP);
    NothingLostIffExact(v, GROUP);
    NothingLostIffExact(v / GROUP, GROUP);
  }

  /** Every 32-bit value prints exactly. */
  lemma SmallPrints(v: nat)
    requires v < U32
    ensures PrintsExactly(v)
  {
    ExactFamilies(v, GROUP);
    ExactFamilies(v / GROUP, GROUP);
  }

  /** 2^32 is the first value that does not: it prints as 0. */
  lemma FirstWrongValue()
    ensures !PrintsExactly(U32) && Printed(U32) == 0 && Numeral(Printed(U32)) == "0"
  {
    assert HighRemainder(U32, GROUP) == 1;
    assert MiddleRemainder(U32, GROUP) == U16;
    assert Lost(U32, GROUP) == U32;
    assert Lost(0, GROUP) == 0;
  }

  /** The digit buffer of fmt_dec: filled group by group, emitted in reverse. */
  method EmitGroups(top: nat, mid: nat, bot: nat, ghost h: nat, ghost p: nat) returns (out: string)
    requires top < 100 && mid < GROUP && bot < GROUP
    requires h == top * GROUP + mid && p == h * GROUP + bot
    ensures out == Numeral(p)
  {
    hide DigitsUp, Reverse, Numeral, Pow10;
    var buf := new char[20];
    NinePowers();
    DigitCount(bot, 9);
    DigitCount(mid, 9);
    TwoDigits(top);
    var n := PutGroup(buf, 0, bot);
    assert buf[..n] == DigitsUp(bot);
    if top != 0 || mid != 0 {
      n := PadTo(buf, n, 9);
      assert buf[..n] == PaddedUp(bot, 9);
      n := PutGroup(buf, n, mid);
      assert buf[..n] == PaddedUp(bot, 9) + DigitsUp(mid);
    }
    if top != 0 {
      ghost var k := n;
      n := PadTo(buf, n, 18);
      AppendZeroDigits(PaddedUp(bot, 9), mid, k, buf[..n]);
      n := PutGroup(buf, n, top);
    }
    GroupsJoin(top, mid, bot, buf[..n]);
    ReverseDigits(p);
    out := EmitReversed(buf, n);
  }

  /** The digits of the groups, joined low to high, are the digits of the whole number. */
  lemma GroupsJoin(top: nat, mid: nat, bot: nat, s: string)
    requires mid < GROUP && bot < GROUP && |DigitsUp(mid)| <= 9 && |DigitsUp(bot)| <= 9
    requires s == if top != 0 then PaddedUp(bot, 9) + PaddedUp(mid, 9) + DigitsUp(top)
                  else if mid != 0 then PaddedUp(bot, 9) + DigitsUp(mid) else DigitsUp(bot)
    ensures s == DigitsUp((top * GROUP + mid) * GROUP + bot)
  {
    hide DigitsUp, PaddedUp;
    if top != 0 || mid != 0 { GroupOfNine(top * GROUP + mid, bot); }
    if top != 0 {
      GroupOfNine(top, mid);
      assert s == PaddedUp(bot, 9) + (PaddedUp(mid, 9) + DigitsUp(top));
    }
  }

  lemma AppendZeroDigits(low: string, mid: nat, k: nat, s: string)
    requires |low| == 9 && mid < GROUP && k == 9 + |DigitsUp(mid)| <= 18
    requires s == low + DigitsUp(mid) + ZeroDigits(18 - k)
    ensures s == low + PaddedUp(mid, 9)
  {
    assert s == low + (DigitsUp(mid) + ZeroDigits(9 - |DigitsUp(mid)|));
  }

  /** fmt_dec. The characters go out in print order. */
  method FmtDec(v: nat) returns (out: string)
    requires v < U64
    ensures out == Numeral(Printed(v))
    ensures out == Numeral(v) <==> PrintsExactly(v)
  {
    hide Lost, Printed, Numeral, PrintsExactly;
    NumeralIffExact(v);
    if v == 0 {
      ZeroPrints();
      return "0";
    }
    var q1, bot := Div64U32(v, GROUP);
    var q2, mid := Div64U32(q1, GROUP);
    PrintedGroups(v, q1, bot, q2, mid);
    out := EmitGroups(q2 % U32, mid, bot, q2 * GROUP + mid, Printed(v));
  }

  lemma ZeroPrints()
    ensures Numeral(Printed(0)) == "0"
  {
    assert Lost(0, GROUP) == 0;
  }

  lemma PrintedGroups(v: nat, q1: nat, bot: nat, q2: nat, mid: nat)
    requires v < U64 && bot < GROUP && mid < GROUP
    requires v == GROUP * q1 + bot + Lost(v, GROUP)
    requires q1 == GROUP * q2 + mid + Lost(q1, GROUP)
    ensures q1 < U64 && q2 < 19 && Printed(v) == (q2 * GROUP + mid) * GROUP + bot
  {
    LostAtMost(v, GROUP);
    assert (v - Lost(v, GROUP)) / GROUP == q1;
  }

  lemma {:induction false} TwoDigits(t: nat)
    requires t < 100
    ensures |DigitsUp(t)| <= 2
  {
    if t >= 10 { assert t / 10 < 10; }
  }

  lemma GroupOfNine(hi: nat, lo: nat)
    requires hi > 0 && lo < GROUP
    ensures |DigitsUp(lo)| <= 9
    ensures DigitsUp(hi * GROUP + lo) == PaddedUp(lo, 9) + DigitsUp(hi)
  {
    NinePowers();
    GroupDigits(hi, lo, 9, hi * GROUP + lo);
  }

  /** The final loop: the buffer is emitted from its last used cell down. */
  method EmitReversed(buf: array<char>, n: nat) returns (out: string)
    requires n <= buf.Length
    ensures out == Reverse(buf[..n])
  {
    out := "";
    var i := n;
    while i > 0
      invariant 0 <= i <= n
      invariant out + Reverse(buf[..i]) == Reverse(buf[..n])
    {
      i := i - 1;
      out := out + [buf[i]];
      ReverseLast(buf[..i], buf[i]);
      assert buf[..i + 1] == buf[..i] + [buf[i]];
    }
  }

  lemma {:induction false} ReverseLast(s: string, c: char)
    ensures Reverse(s + [c]) == [c] + Reverse(s)
  {
    if s != [] {
      ReverseLast(s[1..], c);
      assert (s + [c])[1..] == s[1..] + [c];
    }
  }

  /** A numeral is not empty, has digits only, and no leading zero unless it is the numeral of 0. */
  lemma {:induction false} Canonical(v: nat)
    ensures var s := Numeral(v);
            && s != "" && (forall i :: 0 <= i < |s| ==> '0' <= s[i] <= '9') && (v > 0 ==> s[0] != '0')
  {
    if v >= 10 { Canonical(v / 10); }
  }
}
