/** Integer helpers shared by both comparison strategies and the result:
    `Math.min`/`Math.max` and the number of unordered pairs. */
module Counting {
  function Max(a: int, b: int): int { if a >= b then a else b }

  function Min(a: int, b: int): int { if a <= b then a else b }

  /** The number of unordered pairs among m items. */
  function PairsAmong(m: int): nat
  {
    if m <= 0 then 0 else m * (m - 1) / 2
  }

  lemma PairsAmongSucc(m: nat)
    ensures PairsAmong(m + 1) == PairsAmong(m) + m
  {
    assert (m + 1) * m == m * (m - 1) + 2 * m;
  }

  /** Moving one item from a group of b into a group of a keeps the count of
      pairs inside the first group plus pairs across the two. */
  lemma PairsAmongStep(a: nat, b: nat)
    ensures PairsAmong(a + 1) + (a + 1) * b == PairsAmong(a) + a * (b + 1) + b
  {
    PairsAmongSucc(a);
    assert (a + 1) * b == a * b + b && a * (b + 1) == a * b + a;
  }

  lemma {:induction false} PairsAmongSum(a: nat, b: nat)
    ensures PairsAmong(a + b) == PairsAmong(a) + a * b + PairsAmong(b)
  {
    if b > 0 {
      PairsAmongSum(a, b - 1);
      PairsAmongSucc(a + b - 1);
      PairsAmongSucc(b - 1);
    }
  }

  lemma PairsAmongMonotone(m: nat, n: nat)
    requires m <= n
    ensures PairsAmong(m) <= PairsAmong(n)
  {
    if m > 0 {
      assert m * (m - 1) <= m * (n - 1);
      assert m * (n - 1) <= n * (n - 1);
    }
  }
}
