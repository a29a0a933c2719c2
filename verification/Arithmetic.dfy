/** Facts about integer division that the solver does not find by itself. */
module Arithmetic {

  lemma BetweenMultiples(z: int, d: int)
    requires d > 0
    ensures -d < z * d < d ==> z == 0
  {
    if z >= 1 { assert z * d >= d; }
    if z <= -1 { assert z * d <= -d; }
  }

  lemma DivMod(a: int, d: int)
    requires d > 0
    ensures a == (a / d) * d + a % d && 0 <= a % d < d
  {
  }

  lemma DivModUnique(a: int, d: int, q: int, r: int)
    requires d > 0 && a == q * d + r && 0 <= r < d
    ensures a / d == q && a % d == r
  {
    var q' := a / d;
    DivMod(a, d);
    assert (q - q') * d == q * d - q' * d;
    BetweenMultiples(q - q', d);
  }

  /** The remainder of a sum, without a division. */
  lemma ModAdd(a: int, j: int, d: int)
    requires d > 0 && 0 <= j <= d
    ensures (a + j) % d == if a % d + j < d then a % d + j else a % d + j - d
  {
    var q, r := a / d, a % d;
    DivMod(a, d);
    if r + j < d {
      DivModUnique(a + j, d, q, r + j);
    } else {
      assert (q + 1) * d == q * d + d;
      DivModUnique(a + j, d, q + 1, r + j - d);
    }
  }

  /** Numbers that are less than `d` apart have different remainders. */
  lemma ModDistinct(a: int, b: int, d: int)
    requires d > 0 && a < b < a + d
    ensures a % d != b % d
  {
    ModAdd(a, b - a, d);
  }

  // ----- Powers of two and bit masks -----

  function Pow2(k: nat): (r: int)
    ensures r >= 1
  {
    if k == 0 then 1 else 2 * Pow2(k - 1)
  }

  /** Bitwise and of two non-negative numbers. */
  function BitAnd(a: int, b: int): (r: int)
    requires a >= 0 && b >= 0
    ensures r >= 0
    decreases a
  {
    if a == 0 || b == 0 then 0 else 2 * BitAnd(a / 2, b / 2) + if a % 2 == 1 && b % 2 == 1 then 1 else 0
  }

  lemma HalfMod(a: int, m: int)
    requires a >= 0 && m > 0
    ensures a % (2 * m) == 2 * ((a / 2) % m) + a % 2
  {
    var h := a / 2;
    var q, r := h / m, h % m;
    assert h == q * m + r;
    assert a == q * (2 * m) + (2 * r + a % 2);
    DivModUnique(a, 2 * m, q, 2 * r + a % 2);
  }

  /** Masking with size_mask is the remainder modulo the size. */
  lemma {:induction false} AndMask(a: int, k: nat)
    requires a >= 0
    ensures BitAnd(a, Pow2(k) - 1) == a % Pow2(k)
    decreases k
  {
    if k > 0 {
      var p := Pow2(k - 1);
      HalfMod(a, p);
      AndMask(a / 2, k - 1);
      assert Pow2(k) - 1 == 2 * (p - 1) + 1;
      assert (Pow2(k) - 1) / 2 == p - 1 && (Pow2(k) - 1) % 2 == 1;
    }
  }

  /** Bitwise or of two non-negative numbers. */
  function BitOr(a: int, b: int): int
    requires a >= 0 && b >= 0
    decreases a
  {
    if a == 0 then b else if b == 0 then a else 2 * BitOr(a / 2, b / 2) + if a % 2 == 1 || b % 2 == 1 then 1 else 0
  }

  /** A number shifted left by k bits has room for k more. */
  lemma {:induction false} OrIsPlus(a: int, b: int, k: nat)
    requires a >= 0 && 0 <= b < Pow2(k)
    ensures a * Pow2(k) >= 0 && BitOr(a * Pow2(k), b) == a * Pow2(k) + b
    decreases k
  {
    if k > 0 && a > 0 {
      var p := Pow2(k - 1);
      OrIsPlus(a, b / 2, k - 1);
      assert a * Pow2(k) == 2 * (a * p);
      assert a * p >= 1;
    }
  }

  lemma {:induction false} Pow2Add(a: nat, b: nat)
    ensures Pow2(a + b) == Pow2(a) * Pow2(b)
  {
    if a > 0 {
      Pow2Add(a - 1, b);
      assert 2 * (Pow2(a - 1) * Pow2(b)) == (2 * Pow2(a - 1)) * Pow2(b);
    }
  }
}
