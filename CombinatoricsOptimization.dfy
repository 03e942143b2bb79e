/** Choosing the smaller of k and n - k (python/algorithms/Combinatorics/utils/optimization.py). */
module CombinatoricsOptimization {
  import opened BinomialMath

  /** `optimize_k(n, k) = min(k, n - k)`. */
  function OptimizeK(n: int, k: int): (r: int)
    ensures r <= k && r <= n - k
    ensures r == k || r == n - k
  {
    if k <= n - k then k else n - k
  }

  /** For valid inputs the optimised k lies in [0, n/2] and selects the same binomial coefficient. */
  lemma OptimizeKPreservesBinomial(n: nat, k: nat)
    requires k <= n
    ensures 0 <= OptimizeK(n, k) && 2 * OptimizeK(n, k) <= n
    ensures Binom(n, OptimizeK(n, k)) == Binom(n, k)
  {
    BinomSymmetric(n, k);
  }
}
