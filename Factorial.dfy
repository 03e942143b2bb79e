/** Factorial, recursive and iterative (python/algorithms/factorial.py). */
module Factorial {
  import opened Wrappers

  /** The recursive definition `factorial` computes once its input has been validated. */
  function Fact(n: nat): (r: nat)
    ensures r >= 1
    ensures n >= 1 ==> r >= n
  {
    if n == 0 then 1 else n * Fact(n - 1)
  }

  /** `_validate_factorial_input`. */
  function ValidateFactorialInput(n: int): (r: Option<Error>)
    ensures r.None? <==> n >= 0
  {
    if n < 0 then Some(ValueError("Factorial is not defined for negative numbers")) else None
  }

  /** `factorial`: raises ValueError on a negative input. */
  function Factorial(n: int): (r: Result<nat>)
    ensures r.Ok? <==> n >= 0
    ensures r.Ok? ==> r.value >= 1 && r.value >= n
  {
    match ValidateFactorialInput(n)
    case Some(e) => Err(e)
    case None => Ok(Fact(n))
  }

  /** `factorial_iterative`: the running product 1 * 2 * ... * n. */
  method FactorialIterative(n: int) returns (r: Result<nat>)
    ensures r == Factorial(n)
  {
    var check := ValidateFactorialInput(n);
    if check.Some? {
      return Err(check.value);
    }
    var result: nat := 1;
    for i := 1 to n + 1
      invariant result == Fact(i - 1)
    {
      result := result * i;
    }
    return Ok(result);
  }

  lemma FactorialOfFive()
    ensures Factorial(5) == Ok(120)
  {
    assert Fact(5) == 120;
  }
}
