/** Input checks shared by the combinatorics functions (python/algorithms/Combinatorics/utils/validation.py). */
module CombinatoricsValidation {
  import opened Wrappers

  /**
   * `validate_inputs(n, k)`: `None` when 0 <= k <= n, otherwise the first failing check in the
   * order n, then k, then k > n.
   */
  function ValidateInputs(n: int, k: int): (r: Option<Error>)
    ensures r.None? <==> 0 <= k <= n
    ensures r == Some(ValueError("n must be non-negative")) <==> n < 0
    ensures r == Some(ValueError("k must be non-negative")) <==> n >= 0 && k < 0
    ensures r == Some(ValueError("k cannot be greater than n")) <==> n >= 0 && k >= 0 && k > n
  {
    if n < 0 then Some(ValueError("n must be non-negative"))
    else if k < 0 then Some(ValueError("k must be non-negative"))
    else if k > n then Some(ValueError("k cannot be greater than n"))
    else None
  }
}
