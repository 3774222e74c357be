/** Small facts about products and quotients that the solver should not have to search for. */
module Arith {

  lemma MulStep(k: int, b: int)
    ensures k * (b + 1) == k * b + k
  {
  }

  lemma {:induction false} MulLe(k: nat, a: int, b: int)
    requires a <= b
    ensures k * a <= k * b
    decreases b - a
  {
    if a < b {
      MulLe(k, a, b - 1);
      MulStep(k, b - 1);
    }
  }

  /** Block a of size k lies wholly before block b. */
  lemma Blocks(k: nat, a: nat, b: nat, i: nat)
    requires a < b && i < k
    ensures 0 <= k * a && k * a + i < k * b
  {
    MulLe(k, 0, a);
    MulLe(k, a + 1, b);
    MulStep(k, a);
  }

  lemma DistinctBlocks(k: nat, a: nat, b: nat, i: nat, j: nat)
    requires i < k && j < k
    ensures k * a + i == k * b + j ==> a == b && i == j
  {
    if a < b {
      Blocks(k, a, b, i);
    } else if b < a {
      Blocks(k, b, a, j);
    }
  }

  lemma DivMod(x: nat, d: nat)
    requires d > 0
    ensures x == d * (x / d) + x % d && 0 <= x % d < d
  {
  }

  lemma SameDivMod(x: nat, y: nat, d: nat)
    requires d > 0
    ensures x / d == y / d && x % d == y % d ==> x == y
  {
    DivMod(x, d);
    DivMod(y, d);
  }

  /** Quotient and remainder are determined by the division equation. */
  lemma ModUnique(x: int, d: int, q: int, r: int)
    requires d > 0 && x == d * q + r && 0 <= r < d
    ensures x / d == q && x % d == r
  {
    var q2, r2 := x / d, x % d;
    assert x == d * q2 + r2;
    assert d * (q2 - q) == r - r2;
    if q2 > q {
      MulLe(d, 1, q2 - q);
    } else if q2 < q {
      MulLe(d, q2 - q, -1);
    }
  }

  /** Entry c of width w starts inside a block of w * n bytes, at a multiple of w. */
  lemma Scaled(c: nat, w: nat, n: nat)
    requires w > 0 && n > 0
    ensures w * n > 0 && c * w / (w * n) == c / n && c * w % (w * n) == c % n * w <= w * n - w
  {
    MulLe(w, 1, n);
    MulLe(w, c % n, n - 1);
    assert c * w == w * n * (c / n) + c % n * w by {
      assert c == n * (c / n) + c % n;
    }
    ModUnique(c * w, w * n, c / n, c % n * w);
  }
}
