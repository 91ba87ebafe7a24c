/**
 The bitwise operators of C on non-negative values, bit by bit, and what they
 amount to for the masks and shifts this program uses.
 */
module Bits {

  function Pow2(k: nat): (p: nat)
    ensures p >= 1
  {
    if k == 0 then 1 else 2 * Pow2(k - 1)
  }

  /** `x >> k` */
  function Shr(x: nat, k: nat): nat
  {
    if k == 0 then x else Shr(x / 2, k - 1)
  }

  /** `x << k`, before any truncation to the width of the variable it is stored in */
  function Shl(x: nat, k: nat): nat
    decreases k
  {
    if k == 0 then x else Shl(2 * x, k - 1)
  }

  /** `x & y` */
  function And(x: nat, y: nat): nat
  {
    if x == 0 || y == 0 then 0 else (x % 2) * (y % 2) + 2 * And(x / 2, y / 2)
  }

  /** `x | y` */
  function Or(x: nat, y: nat): nat
  {
    if x == 0 then y
    else if y == 0 then x
    else (if x % 2 == 1 || y % 2 == 1 then 1 else 0) + 2 * Or(x / 2, y / 2)
  }

  lemma HalfMod(x: nat, m: nat)
    requires m >= 1
    ensures x % (2 * m) == x % 2 + 2 * ((x / 2) % m)
    ensures x / (2 * m) == (x / 2) / m
  {
    var q, r := (x / 2) / m, (x / 2) % m;
    assert x / 2 == q * m + r;
    assert x == (2 * m) * q + (2 * r + x % 2);
    DivModUnique(x, 2 * m, q, 2 * r + x % 2);
  }

  lemma DivModUnique(x: int, m: int, q: int, r: int)
    requires m >= 1 && x == m * q + r && 0 <= r < m
    ensures x / m == q && x % m == r
  {
    NoMultipleBetween(m, x / m - q, r - x % m);
  }

  lemma NoMultipleBetween(m: int, d: int, r: int)
    requires m >= 1 && m * d == r && -m < r < m
    ensures d == 0
  {
    if d >= 1 {
      MulAtLeast(m, d);
    } else if d <= -1 {
      MulAtLeast(m, -d);
    }
  }

  lemma MulAtLeast(m: int, d: int)
    requires m >= 0 && d >= 1
    ensures m * d >= m
  {
    assert m * d == m * (d - 1) + m;
  }

  lemma MaskStep(x: nat, m: nat)
    requires m >= 1
    ensures And(x, 2 * m - 1) == x % 2 + 2 * And(x / 2, m - 1)
  {
    var y := 2 * m - 1;
    assert y / 2 == m - 1 && y % 2 == 1;
    assert (x % 2) * 1 == x % 2;
  }

  /** Masking with a power of two minus one is the remainder. */
  lemma {:induction false} MaskIsMod(x: nat, k: nat)
    ensures And(x, Pow2(k) - 1) == x % Pow2(k)
  {
    if k > 0 {
      var m := Pow2(k - 1);
      MaskStep(x, m);
      MaskIsMod(x / 2, k - 1);
      HalfMod(x, m);
    }
  }

  lemma {:induction false} ShrIsDiv(x: nat, k: nat)
    ensures Shr(x, k) == x / Pow2(k)
  {
    if k > 0 {
      ShrIsDiv(x / 2, k - 1);
      HalfMod(x, Pow2(k - 1));
    }
  }

  lemma {:induction false} ShlIsMul(x: nat, k: nat)
    ensures Shl(x, k) == x * Pow2(k)
    decreases k
  {
    if k > 0 {
      ShlIsMul(2 * x, k - 1);
    }
  }

  /** Or-ing into bits that are still clear adds. */
  lemma {:induction false} OrIsSum(x: nat, k: nat, y: nat)
    requires y < Pow2(k)
    ensures Or(x * Pow2(k), y) == x * Pow2(k) + y
  {
    if k > 0 && x > 0 && y > 0 {
      var p := Pow2(k - 1);
      assert x * Pow2(k) == 2 * (x * p);
      OrIsSum(x, k - 1, y / 2);
      assert x * p >= 1;
    } else if k == 0 {
      assert x * Pow2(k) == x;
    }
  }
}
