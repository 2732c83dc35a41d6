/** Machine words as bounded integers, and their bit operations written out bit by bit. */
module Bits {

  const U16_LIMIT := 0x1_0000
  const U32_LIMIT := 0x1_0000_0000
  const U64_LIMIT := 0x1_0000_0000_0000_0000

  type u16 = x: int | 0 <= x < U16_LIMIT
  type u32 = x: int | 0 <= x < U32_LIMIT
  type u64 = x: int | 0 <= x < U64_LIMIT

  function Pow2(k: nat): (r: nat)
    ensures r > 0
  {
    if k == 0 then 1 else 2 * Pow2(k - 1)
  }

  /** Bitwise AND of two naturals. */
  function And(a: nat, b: nat): nat
  {
    if a == 0 || b == 0 then 0 else (if a % 2 == 1 && b % 2 == 1 then 1 else 0) + 2 * And(a / 2, b / 2)
  }

  /** Bitwise OR of two naturals. */
  function Or(a: nat, b: nat): nat
  {
    if a == 0 then b
    else if b == 0 then a
    else (if a % 2 == 1 || b % 2 == 1 then 1 else 0) + 2 * Or(a / 2, b / 2)
  }

  /** A left shift of a 64-bit word: the high bits fall off. */
  function ShiftLeft(a: u64, k: nat): u64
  {
    a * Pow2(k) % U64_LIMIT
  }

  function ShiftRight(a: nat, k: nat): nat
  {
    if k == 0 then a else ShiftRight(a / 2, k - 1)
  }

  /** 64-bit wrap-around. */
  function Wrap(a: nat): u64
  {
    a % U64_LIMIT
  }

  lemma WrapSmall(a: nat)
    requires a < U64_LIMIT
    ensures Wrap(a) == a
  {
  }

  /** The mask with w one-bits starting at bit k. */
  function Mask(k: nat, w: nat): nat
  {
    ProductBound(Pow2(w) - 1, Pow2(k));
    (Pow2(w) - 1) * Pow2(k)
  }

  lemma ProductBound(d: nat, m: nat)
    ensures d * m >= 0
    ensures d >= 1 ==> d * m >= m
  {
  }

  lemma ScaledAtLeast(a: nat, b: nat, c: nat)
    requires b <= c
    ensures 0 <= a * b <= a * c && 0 <= b * a <= c * a
  {
  }

  lemma {:induction false} Pow2Sum(a: nat, b: nat)
    ensures Pow2(a + b) == Pow2(a) * Pow2(b)
  {
    if a > 0 {
      Pow2Sum(a - 1, b);
      assert Pow2(a) * Pow2(b) == 2 * (Pow2(a - 1) * Pow2(b));
    }
  }

  lemma DivModUnique(x: int, m: int, q: int, r: int)
    requires 0 < m && 0 <= r < m && x == q * m + r
    ensures x / m == q && x % m == r
  {
    var d := x / m - q;
    assert d * m == r - x % m by {
      assert x == x / m * m + x % m;
      assert d * m == x / m * m - q * m;
    }
    ProductBound(if d > 0 then d else -d, m);
  }

  /** Dividing by two first and then by m is dividing by 2m. */
  lemma HalveThenDivide(x: nat, m: nat)
    requires m > 0
    ensures x / (2 * m) == x / 2 / m
    ensures x % (2 * m) == x % 2 + 2 * (x / 2 % m)
  {
    var q, r := x / 2 / m, x / 2 % m;
    assert x / 2 == q * m + r;
    assert x == 2 * (x / 2) + x % 2;
    assert x == q * (2 * m) + (2 * r + x % 2);
    DivModUnique(x, 2 * m, q, 2 * r + x % 2);
  }

  lemma {:induction false} ShiftRightDivides(a: nat, k: nat)
    ensures ShiftRight(a, k) == a / Pow2(k)
  {
    if k == 0 {
      DivModUnique(a, 1, a, 0);
    } else {
      ShiftRightDivides(a / 2, k - 1);
      HalveThenDivide(a, Pow2(k - 1));
    }
  }

  lemma {:induction false} AndLowBits(x: nat, w: nat)
    ensures And(x, Mask(0, w)) == x % Pow2(w)
  {
    if w == 0 {
    } else {
      var half := Pow2(w - 1);
      HalveThenDivide(x, half);
      AndLowBits(x / 2, w - 1);
      assert Mask(0, w) == 2 * Mask(0, w - 1) + 1;
      assert Mask(0, w) / 2 == Mask(0, w - 1) && Mask(0, w) % 2 == 1;
      if x == 0 {
        DivModUnique(x, Pow2(w), 0, 0);
      }
    }
  }

  lemma DoubleFactor(a: int, b: int)
    ensures a * (2 * b) == 2 * (a * b)
  {
  }

  lemma MaskDoubles(k: nat, w: nat)
    requires k > 0
    ensures Mask(k, w) == 2 * Mask(k - 1, w)
  {
    DoubleFactor(Pow2(w) - 1, Pow2(k - 1));
  }

  lemma AndDoubles(x: nat, m: nat)
    ensures And(x, 2 * m) == 2 * And(x / 2, m)
  {
  }

  /** ANDing with a field mask keeps exactly that field of the word, in place. */
  lemma {:induction false} AndField(x: nat, k: nat, w: nat)
    ensures And(x, Mask(k, w)) == x / Pow2(k) % Pow2(w) * Pow2(k)
  {
    if k == 0 {
      AndLowBits(x, w);
    } else {
      var half := Pow2(k - 1);
      HalveThenDivide(x, half);
      AndField(x / 2, k - 1, w);
      var m := Mask(k - 1, w);
      MaskDoubles(k, w);
      DoubleFactor(x / Pow2(k) % Pow2(w), half);
      assert And(x, 2 * m) == 2 * And(x / 2, m) by { AndDoubles(x, m); }
    }
  }

  /** ORing two words whose bits do not overlap adds them. */
  lemma {:induction false} OrDisjoint(a: nat, b: nat, k: nat)
    requires a < Pow2(k)
    ensures Or(a, b * Pow2(k)) == a + b * Pow2(k)
  {
    if k == 0 || a == 0 || b == 0 {
    } else {
      var half := Pow2(k - 1);
      assert b * (2 * half) == 2 * (b * half);
      OrDisjoint(a / 2, b, k - 1);
    }
  }
}
