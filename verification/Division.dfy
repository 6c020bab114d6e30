/**
 Division without a divide instruction: 32-bit shift-and-subtract, and the
 64-by-32-bit division built from three 32-bit steps. The firmware's
 udiv32_softp and div64_by_u32 are the same code.
 */
module Division {
  import opened Bits

  /** One step of long division: the next bit of n joins the remainder. */
  lemma LongDivisionStep(d: nat, a: nat, r: nat, hi: nat, lo: nat)
    requires r < d && hi == d * a + r && hi == lo / 2
    ensures var s := 2 * r + lo % 2;
            && s <= lo
            && (s >= d ==> lo == d * (2 * a + 1) + (s - d) && s - d < d && s - d <= lo)
            && (s < d ==> lo == d * (2 * a) + s)
  {
    assert d * (2 * a) == 2 * (d * a);
    assert d * (2 * a + 1) == 2 * (d * a) + d;
    assert d * a >= 0;
  }

  /** Setting bit i of a quotient whose bits below i + 1 are clear. */
  lemma {:induction false} QuotientBit(q: nat, a: nat, i: nat)
    requires q == a * Pow2(i + 1)
    ensures q == (2 * a) * Pow2(i)
    ensures Or(q, Pow2(i)) == (2 * a + 1) * Pow2(i)
  {
    var p := Pow2(i);
    assert Pow2(i + 1) == 2 * p;
    DoubleProduct(a, p);
    assert a * (2 * p) == (2 * a) * p;
    assert (2 * a + 1) * p == (2 * a) * p + p;
    DivideUnique(q, 2 * p, a, 0);
    OrDisjoint(q, i + 1, p);
  }

  lemma {:induction false} ShiftIn(r: nat, b: nat)
    requires b < 2 && 2 * r < U32
    ensures Or((2 * r) % U32, b) == 2 * r + b
  {
    assert Pow2(1) == 2;
    OrDisjoint(2 * r, 1, b);
  }

  /** After the bits above i: a is the quotient so far, r the remainder of n >> i. */
  ghost predicate Divided(n: nat, d: nat, i: nat, a: nat, q: nat, r: nat) {
    q == a * Pow2(i) && Shr(n, i) == d * a + r && r < d && r <= Shr(n, i)
  }

  lemma {:induction false} DividedStep(n: nat, d: nat, i: nat, a: nat, q: nat, r: nat)
    requires n < U32 && Divided(n, d, i + 1, a, q, r)
    ensures var s := Or((2 * r) % U32, Shr(n, i) % 2);
            if s >= d then Divided(n, d, i, 2 * a + 1, Or(q, Pow2(i)), s - d)
            else Divided(n, d, i, 2 * a, q, s)
  {
    var s := Or((2 * r) % U32, Shr(n, i) % 2);
    ShiftIn(r, Shr(n, i) % 2);
    LongDivisionStep(d, a, r, Shr(n, i + 1), Shr(n, i));
    QuotientBit(q, a, i);
    var a1, q1 := 2 * a + 1, Or(q, Pow2(i));
    assert q1 == a1 * Pow2(i);
  }

  /** udiv32: on every pair of words, the exact quotient and remainder; (0, 0) for d == 0. */
  method Udiv32(n: nat, d: nat) returns (q: nat, r: nat)
    requires n < U32 && d < U32
    ensures d > 0 ==> q == n / d && r == n % d
    ensures d > 0 ==> n == d * q + r && r < d
    ensures d == 0 ==> q == 0 && r == 0
  {
    hide Or, Shr, Pow2, Divided;
    q, r := 0, 0;
    if d == 0 { return; }
    ghost var a: nat := 0;
    var i: nat := 32;
    DividedStart(n, d);
    while i > 0
      invariant Divided(n, d, i, a, q, r)
    {
      i := i - 1;
      DividedStep(n, d, i, a, q, r);
      r := Or((2 * r) % U32, Shr(n, i) % 2);
      if r >= d {
        r := r - d;
        q := Or(q, Pow2(i));
        a := 2 * a + 1;
      } else {
        a := 2 * a;
      }
    }
    DividedEnd(n, d, a, q, r);
  }

  lemma DividedEnd(n: nat, d: nat, a: nat, q: nat, r: nat)
    requires d > 0 && Divided(n, d, 0, a, q, r)
    ensures n == d * q + r && r < d && q == n / d && r == n % d
  {
    assert q == a * 1 == a;
    DivideUnique(n, d, q, r);
  }

  lemma DividedStart(n: nat, d: nat)
    requires n < U32 && d > 0
    ensures Divided(n, d, 32, 0, 0, 0)
  {
    hide Pow2;
    AllShifted(n);
    hide Shr;
    assert d * 0 == 0;
  }

  lemma {:induction false} AllShifted(n: nat)
    requires n < U32
    ensures Shr(n, 32) == 0
  {
    ShrDivides(n, 32);
    Powers();
    DivideUnique(n, U32, 0, n);
  }

  function HighRemainder(n: nat, d: nat): nat
    requires d > 0
  {
    n / U32 % d
  }

  /** The second partial dividend, before it is cut to 32 bits. */
  function MiddleDividend(n: nat, d: nat): nat
    requires d > 0
  {
    HighRemainder(n, d) * U16 + n / U16 % U16
  }

  function MiddleRemainder(n: nat, d: nat): nat
    requires d > 0
  {
    MiddleDividend(n, d) % U32 % d
  }

  /** What the 64-by-32 division drops when a partial remainder does not fit 16 bits. */
  function Lost(n: nat, d: nat): nat
    requires d > 0
  {
    HighRemainder(n, d) / U16 * (U16 * U32) + MiddleRemainder(n, d) / U16 * U32
  }

  /** The caller's test for an exact division: two partial remainders fit 16 bits. */
  predicate Exact(n: nat, d: nat)
    requires d > 0
  {
    n / U32 % d < U16 && n / U16 % d < U16
  }

  lemma {:induction false} Or16(x: nat, y: nat)
    requires y < U16
    ensures Or(x * U16, y) == x * U16 + y
  {
    Powers();
    OrDisjoint(x * U16, 16, y);
  }

  lemma {:induction false} Or32(x: nat, y: nat)
    requires y < U32
    ensures Or(x * U32, y) == x * U32 + y
  {
    Powers();
    OrDisjoint(x * U32, 32, y);
  }

  lemma Shift16(r: nat)
    ensures (r * U16) % U32 == r % U16 * U16
  {
  }

  /** div64_u32: the division of n less what was dropped. */
  method Div64U32(n: nat, d: nat) returns (q: nat, r: nat)
    requires n < U64 && d < U32
    ensures d == 0 ==> q == 0 && r == 0
    ensures d > 0 ==> r < d && n == d * q + r + Lost(n, d)
  {
    var hi, lo := n / U32, n % U32;
    var qh, rh := Udiv32(hi, d);
    Shift16(rh);
    Or16(rh % U16, lo / U16);
    var tmp := Or((rh * U16) % U32, lo / U16);
    var qm, rm := Udiv32(tmp, d);
    Shift16(rm);
    Or16(rm % U16, lo % U16);
    tmp := Or((rm * U16) % U32, lo % U16);
    var ql, rl := Udiv32(tmp, d);
    if d > 0 {
      HalfFits(rh % U16 * U16 + lo / U16, rh, d, qm, rm);
      HalfFits(rm % U16 * U16 + lo % U16, rm, d, ql, rl);
    }
    var qlo := Or((qm * U16) % U32, ql);
    q, r := Or(qh * U32, qlo), rl;
    if d > 0 {
      Join(qh, qm, ql);
      MiddleStep(n, d);
      Assemble(n, d, q, qh, rh, qm, rm, ql, rl);
    } else {
      Join(0, 0, 0);
    }
  }

  lemma {:induction false} Join(qh: nat, qm: nat, ql: nat)
    requires qm < U16 && ql < U16
    ensures Or(qh * U32, Or((qm * U16) % U32, ql)) == qh * U32 + (qm * U16 + ql)
  {
    hide Or;
    Or16(qm, ql);
    Or32(qh, qm * U16 + ql);
  }

  /** A 16-bit step has a 16-bit quotient, whatever was dropped. */
  lemma HalfFits(t: nat, r: nat, d: nat, q: nat, s: nat)
    requires r < d && t < U32 && r % U16 * U16 <= t < r % U16 * U16 + U16
    requires t == d * q + s
    ensures q < U16
  {
    assert t < d * U16 by {
      if d <= U16 { assert r % U16 == r; }
    }
    ProductSign(d, q - U16);
    assert d * (q - U16) == d * q - d * U16;
  }

  lemma Assemble(n: nat, d: nat, q: nat, qh: nat, rh: nat, qm: nat, rm: nat, ql: nat, rl: nat)
    requires d > 0 && q == qh * U32 + (qm * U16 + ql)
    requires n / U32 == d * qh + rh && rh == HighRemainder(n, d)
    requires rh % U16 * U16 + n % U32 / U16 == d * qm + rm
    requires rm == MiddleRemainder(n, d)
    requires rm % U16 * U16 + n % U32 % U16 == d * ql + rl
    ensures n == d * q + rl + Lost(n, d)
  {
    Halves(n);
    Distribute(d, qh, qm, ql);
    assert d * q == (d * qh) * U32 + (d * qm) * U16 + d * ql;
  }

  lemma MiddleStep(n: nat, d: nat)
    requires d > 0
    ensures MiddleRemainder(n, d) == (HighRemainder(n, d) % U16 * U16 + n % U32 / U16) % d
  {
    Halves(n);
    CutTo32(HighRemainder(n, d), n / U16 % U16);
  }

  lemma Halves(n: nat)
    ensures n % U32 / U16 == n / U16 % U16 < U16
    ensures n % U32 % U16 == n % U16
    ensures n == n / U32 * U32 + n / U16 % U16 * U16 + n % U16
  {
  }

  lemma CutTo32(r: nat, y: nat)
    requires y < U16
    ensures (r * U16 + y) % U32 == r % U16 * U16 + y
  {
    DivideUnique(r * U16 + y, U32, r / U16, r % U16 * U16 + y);
  }

  lemma Distribute(d: int, x: int, y: int, z: int)
    ensures d * (x * U32 + (y * U16 + z)) == (d * x) * U32 + (d * y) * U16 + d * z
  {
  }

  /** The remainder of a number extended by a low part depends only on the remainder. */
  lemma RemainderExtends(h: nat, d: nat, y: nat)
    requires d > 0
    ensures (h * U16 + y) % d == (h % d * U16 + y) % d
  {
    var t := h % d * U16 + y;
    Distribute(d, 0, h / d, t / d);
    assert h == d * (h / d) + h % d;
    assert t == d * (t / d) + t % d;
    DivideUnique(h * U16 + y, d, h / d * U16 + t / d, t % d);
  }

  /** The exactness test says when nothing is dropped. */
  lemma NothingLostIffExact(n: nat, d: nat)
    requires d > 0
    ensures Lost(n, d) == 0 <==> Exact(n, d)
  {
    var rh := n / U32 % d;
    if rh < U16 {
      var t := rh * U16 + n / U16 % U16;
      DivideUnique(t, U32, 0, t);
      assert n / U16 == n / U32 * U16 + n / U16 % U16;
      RemainderExtends(n / U32, d, n / U16 % U16);
      assert MiddleRemainder(n, d) == n / U16 % d;
    }
  }

  /** div64_u32 is the division of n by d if and only if the test holds. */
  lemma ExactDivision(n: nat, d: nat, q: nat, r: nat)
    requires d > 0 && r < d
    requires n == d * q + r + Lost(n, d)
    ensures (q == n / d && r == n % d) <==> Exact(n, d)
  {
    NothingLostIffExact(n, d);
    assert n == d * (n / d) + n % d;
    if Exact(n, d) {
      DivideUnique(n, d, q, r);
    }
  }

  /** Two families on which the test always holds. */
  lemma ExactFamilies(n: nat, d: nat)
    requires d > 0
    requires d <= U16 || n < U32
    ensures Exact(n, d)
  {
    if n < U32 {
      assert n / U32 == 0;
      DivideUnique(0, d, 0, 0);
      RemainderAtMost(n / U16, d);
    }
  }

  lemma RemainderAtMost(n: nat, d: nat)
    requires d > 0
    ensures n % d <= n
  {
    assert n == d * (n / d) + n % d;
    if n / d > 0 { ProductSign(d, n / d); }
  }
}
