/** The few facts about division and products that the block and frame arithmetic needs. */
module Arithmetic {

  function Min(a: int, b: int): int {
    if a <= b then a else b
  }

  lemma DivMod(x: nat, m: nat)
    requires m > 0
    ensures x == (x / m) * m + x % m && 0 <= x / m && 0 <= x % m < m
  {
  }

  lemma DivModUnique(q: nat, r: nat, m: nat)
    requires r < m
    ensures (q * m + r) / m == q && (q * m + r) % m == r
  {
    var x := q * m + r;
    DivMod(x, m);
    ProductGap(x / m, q, m);
    ProductGap(q, x / m, m);
  }

  lemma ProductGap(a: nat, b: nat, m: nat)
    ensures a < b ==> (a + 1) * m <= b * m
    ensures a * m + m == (a + 1) * m
  {
    if a < b {
      ProductMonotone(a + 1, b, m);
    }
  }

  lemma ProductMonotone(a: nat, b: nat, m: nat)
    requires a <= b
    ensures a * m <= b * m
  {
    assert b * m - a * m == (b - a) * m;
  }

  lemma SquareBound(a: nat, r: nat, m: nat)
    requires a < m && r < m
    ensures a * m + r < m * m
  {
    ProductGap(a, m, m);
  }

  lemma QuotientBound(x: nat, m: nat, n: nat)
    requires m > 0 && x < n * m
    ensures x / m < n
  {
    DivMod(x, m);
    if n <= x / m {
      ProductMonotone(n, x / m, m);
    }
  }

  /** Where block i of the given size starts.  Stated by recursion to keep products out of the proofs below. */
  function Offset(i: nat, size: nat): nat {
    if i == 0 then 0 else Offset(i - 1, size) + size
  }

  lemma {:induction false} OffsetIsProduct(i: nat, size: nat)
    ensures Offset(i, size) == i * size
  {
    if i > 0 {
      OffsetIsProduct(i - 1, size);
      ProductGap(i - 1, i, size);
    }
  }

  lemma {:induction false} OffsetGap(i: nat, j: nat, size: nat)
    requires i < j
    ensures Offset(i, size) + size <= Offset(j, size)
  {
    if i < j - 1 {
      OffsetGap(i, j - 1, size);
    }
  }
}
