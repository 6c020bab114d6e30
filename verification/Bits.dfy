/**
 Unsigned machine words as bounded naturals: the bitwise operators of C on them,
 defined bit by bit, and the arithmetic meaning of the mask and shift idioms
 that the boot code uses.
 */
module Bits {
  const U16: nat := 0x1_0000
  const U32: nat := 0x1_0000_0000
  const U64: nat := 0x1_0000_0000_0000_0000

  function Pow2(k: nat): (r: nat)
    ensures r >= 1
  {
    if k == 0 then 1 else 2 * Pow2(k - 1)
  }

  /** Bitwise AND. */
  function And(x: nat, y: nat): (r: nat)
    ensures r <= x && r <= y
  {
    if x == 0 || y == 0 then 0 else 2 * And(x / 2, y / 2) + (x % 2) * (y % 2)
  }

  /** Bitwise OR. */
  function Or(x: nat, y: nat): (r: nat)
    ensures r >= x && r >= y
    decreases x + y
  {
    if x == 0 then y
    else if y == 0 then x
    else 2 * Or(x / 2, y / 2) + (if x % 2 == 1 || y % 2 == 1 then 1 else 0)
  }

  /** Complement of x as a word of w bits. */
  function Not(w: nat, x: nat): nat
    requires x < Pow2(w)
  {
    Pow2(w) - 1 - x
  }

  /** Shift right by k bits. */
  function Shr(x: nat, k: nat): (r: nat)
    ensures r <= x
  {
    if k == 0 then x else Shr(x, k - 1) / 2
  }

  lemma {:induction false} ShrDivides(x: nat, k: nat)
    ensures Shr(x, k) == x / Pow2(k)
  {
    if k > 0 {
      ShrDivides(x, k - 1);
      HalveThenDivide(x, Pow2(k - 1));
    }
  }

  /** The powers that the machine's shifts and masks use. */
  lemma Powers()
    ensures Pow2(2) == 4 && Pow2(12) == 4096 && Pow2(16) == U16 && Pow2(32) == U32 && Pow2(64) == U64
  {
    assert Pow2(8) == 256;
    PowSum(8, 8);
    PowSum(16, 16);
    PowSum(32, 32);
  }

  lemma {:induction false} PowSum(a: nat, b: nat)
    ensures Pow2(a + b) == Pow2(a) * Pow2(b)
  {
    if a > 0 {
      PowSum(a - 1, b);
      DoubleProduct(Pow2(a - 1), Pow2(b));
    }
  }

  lemma {:induction false} PowMonotone(a: nat, b: nat)
    requires a <= b
    ensures Pow2(a) <= Pow2(b)
  {
    if a < b { PowMonotone(a, b - 1); }
  }

  /** Halving first and dividing by p is dividing by 2p. */
  lemma HalveThenDivide(x: nat, p: nat)
    requires p > 0
    ensures x / 2 / p == x / (2 * p)
    ensures x / p / 2 == x / (2 * p)
  {
    var q := x / (2 * p);
    var r := x % (2 * p);
    assert x == 2 * p * q + r;
    DivideUnique(x / 2, p, q, r / 2) by { assert x / 2 == p * q + r / 2; assert r / 2 < p; }
    var t := x / p;
    var s := x % p;
    assert x == p * t + s;
    assert t == 2 * (t / 2) + t % 2;
    assert p * t == 2 * p * (t / 2) + p * (t % 2);
    assert p * (t % 2) + s < 2 * p by { if t % 2 == 1 { assert p * (t % 2) == p; } else { assert p * (t % 2) == 0; } }
    assert p * (t % 2) >= 0;
    DivideUnique(x, 2 * p, t / 2, p * (t % 2) + s);
  }

  /** Quotient and remainder are determined by their defining equation. */
  lemma DivideUnique(n: int, d: int, q: int, r: int)
    requires d > 0 && 0 <= r < d && n == d * q + r
    ensures n / d == q && n % d == r
  {
    var e := n / d - q;
    assert d * (n / d) == d * q + d * e;
    assert d * e == r - n % d;
    ProductSign(d, e);
  }

  lemma Monotone(a: int, b: int, d: int)
    requires a <= b && d >= 0
    ensures d * a <= d * b
  {
  }

  /** The product of a positive d and a nonzero e is at least d in size. */
  lemma ProductSign(d: int, e: int)
    requires d > 0
    ensures e > 0 ==> d * e >= d
    ensures e < 0 ==> d * e <= -d
  {
    if e > 0 {
      Monotone(1, e, d);
    } else if e < 0 {
      Monotone(e, -1, d);
    }
  }

  /** x shifted left by k bits. */
  function Shl(x: nat, k: nat): nat {
    if k == 0 then x else 2 * Shl(x, k - 1)
  }

  /** AND of shifted words. */
  lemma {:induction false} AndShifted(x: nat, y: nat, k: nat)
    ensures And(Shl(x, k), Shl(y, k)) == Shl(And(x, y), k)
  {
    hide And;
    if k > 0 {
      AndShifted(x, y, k - 1);
      AndEven(Shl(x, k), Shl(y, k - 1));
      assert Shl(x, k) / 2 == Shl(x, k - 1);
    }
  }

  lemma {:induction false} AndAllOnes(w: nat, x: nat)
    requires x < Pow2(w)
    ensures And(x, Pow2(w) - 1) == x
  {
    if w > 0 && x > 0 {
      AndAllOnes(w - 1, x / 2);
      AndOdd(x, Pow2(w - 1) - 1);
    }
  }

  /** The greatest multiple of p not above x. */
  function Floor(x: nat, p: nat): nat
    requires p > 0
  {
    x / p * p
  }

  /** v & ~(2^k - 1) rounds v down to a multiple of 2^k. */
  lemma MaskDown(w: nat, v: nat, k: nat)
    requires v < Pow2(w) && k <= w
    ensures Pow2(k) - 1 < Pow2(w)
    ensures And(v, Not(w, Pow2(k) - 1)) == v / Pow2(k) * Pow2(k)
  {
    hide And, Not, Pow2;
    PowMonotone(k, w);
    MaskFloor(w, v, k);
  }

  lemma {:induction false} MaskFloor(w: nat, v: nat, k: nat)
    requires v < Pow2(w) && k <= w && Pow2(k) <= Pow2(w)
    ensures And(v, Not(w, Pow2(k) - 1)) == Floor(v, Pow2(k))
  {
    hide And, Not, Floor;
    if k == 0 {
      MaskNothing(w, v);
      FloorOne(v);
    } else {
      MaskFloor(w - 1, v / 2, k - 1);
      NotEven(w, k);
      HalvedMask(v, Pow2(k - 1), Not(w - 1, Pow2(k - 1) - 1));
    }
  }

  lemma FloorOne(v: nat)
    ensures Floor(v, 1) == v
  {
  }

  lemma {:induction false} MaskNothing(w: nat, v: nat)
    requires v < Pow2(w)
    ensures And(v, Not(w, 0)) == v
  {
    AndAllOnes(w, v);
  }

  lemma NotEven(w: nat, k: nat)
    requires 0 < k <= w && Pow2(k - 1) <= Pow2(w - 1)
    ensures Not(w, Pow2(k) - 1) == 2 * Not(w - 1, Pow2(k - 1) - 1)
  {
  }

  lemma {:induction false} HalvedMask(v: nat, p: nat, h: nat)
    requires p > 0 && And(v / 2, h) == Floor(v / 2, p)
    ensures And(v, 2 * h) == Floor(v, 2 * p)
  {
    AndEven(v, h);
    hide And;
    HalveThenDivide(v, p);
    DoubleProduct(v / (2 * p), p);
  }

  /** A clear low bit in one operand clears it in the result. */
  lemma {:induction false} AndEven(v: nat, h: nat)
    ensures And(v, 2 * h) == 2 * And(v / 2, h)
  {
    assert 2 * h / 2 == h && 2 * h % 2 == 0;
    if v != 0 && h != 0 { assert (v % 2) * (2 * h % 2) == 0; }
  }

  /** A set low bit keeps that of the other operand. */
  lemma {:induction false} AndOdd(v: nat, h: nat)
    ensures And(v, 2 * h + 1) == 2 * And(v / 2, h) + v % 2
  {
    assert (2 * h + 1) / 2 == h && (2 * h + 1) % 2 == 1;
    if v == 0 { assert And(v / 2, h) == 0; }
  }

  lemma DoubleProduct(t: int, p: int)
    ensures 2 * (t * p) == t * (2 * p)
    ensures 2 * (t * p) == (2 * t) * p
  {
  }

  /** Or-ing into bits that are clear is adding. */
  lemma {:induction false} OrDisjoint(x: nat, k: nat, y: nat)
    requires x % Pow2(k) == 0 && y < Pow2(k)
    ensures Or(x, y) == x + y
  {
    if k > 0 && x > 0 && y > 0 {
      var t := x / Pow2(k);
      assert x == Pow2(k) * t + 0;
      assert x == 2 * (Pow2(k - 1) * t) by { assert Pow2(k) * t == 2 * (Pow2(k - 1) * t); }
      assert x / 2 == Pow2(k - 1) * t + 0;
      DivideUnique(x / 2, Pow2(k - 1), t, 0);
      OrDisjoint(x / 2, k - 1, y / 2);
    }
  }

  lemma MultipleLess(x: nat, y: nat, p: nat)
    requires p > 0 && x < y && x % p == 0 && y % p == 0
    ensures x + p <= y
  {
    assert x == p * (x / p) && y == p * (y / p);
    assert y - x == p * (y / p - x / p);
    ProductSign(p, y / p - x / p);
  }

  /** The C macro UIOX_ALIGN_UP(v, a) on words of w bits. */
  function AlignUp(w: nat, v: nat, a: nat): nat
    requires 0 < a <= Pow2(w)
  {
    And((v + (a - 1)) % Pow2(w), Not(w, a - 1))
  }

  /** For a power of two and no wrap, AlignUp is the least multiple of a at or above v. */
  lemma {:induction false} AlignUpLeast(w: nat, v: nat, k: nat)
    requires k <= w
    requires v + Pow2(k) - 1 < Pow2(w)
    ensures Pow2(k) <= Pow2(w)
    ensures AlignUp(w, v, Pow2(k)) % Pow2(k) == 0
    ensures v <= AlignUp(w, v, Pow2(k)) < v + Pow2(k)
  {
    PowMonotone(k, w);
    var x := v + (Pow2(k) - 1);
    DivideUnique(x, Pow2(w), 0, x);
    MaskDown(w, x, k);
    RoundDown(x, Pow2(k));
  }

  lemma RoundDown(x: nat, p: nat)
    requires p > 0
    ensures x / p * p % p == 0
    ensures x - p < x / p * p <= x
  {
    assert x == p * (x / p) + x % p;
    DivideUnique(x / p * p, p, x / p, 0);
  }

  /** The lowest bit, and the lowest two. */
  lemma {:induction false} AndOne(x: nat)
    ensures And(x, 1) == x % 2
  {
    AndOdd(x, 0);
  }

  lemma {:induction false} AndThree(x: nat)
    ensures And(x, 3) == x % 4
  {
    AndOdd(x, 1);
    AndOne(x / 2);
    hide And;
  }
}
