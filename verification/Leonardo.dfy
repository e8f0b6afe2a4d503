/** The Leonardo numbers, which give the sizes of the heaps that smoothsort builds. */
module Leonardo {

  /** The size of a Leonardo heap of order k. */
  function L(k: nat): (n: nat)
    ensures 1 <= n
  {
    if k < 2 then 1 else L(k - 1) + L(k - 2) + 1
  }

  lemma {:induction false} Monotone(j: nat, k: nat)
    requires j <= k
    ensures L(j) <= L(k)
    decreases k
  {
    if j < k {
      Monotone(j, k - 1);
    }
  }

  /** From order 1 on the numbers grow strictly, so a size bound is a bound on orders. */
  lemma {:induction false} StrictlyMonotone(j: nat, k: nat)
    requires 1 <= j < k
    ensures L(j) < L(k)
    decreases k
  {
    if j < k - 1 {
      StrictlyMonotone(j, k - 1);
    }
  }
}
