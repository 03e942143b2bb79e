/**
 * The sum n + (n-1) + ... + 1 computed with an explicit call stack and by recursion
 * (python/algorithms/iteration_recursion_comparison.py). Each execution context `{n_value: n}`
 * is modelled by the integer it holds.
 */
module SumToOne {
  import opened Wrappers

  /** The stack after pushing the contexts hi, hi-1, ..., lo+1 in that order. */
  function Pushed(hi: int, lo: int): (s: seq<int>)
    requires lo <= hi
    ensures |s| == hi - lo
    ensures forall i | 0 <= i < |s| :: s[i] == hi - i
    decreases hi - lo
  {
    if lo == hi then [] else Pushed(hi, lo + 1) + [lo + 1]
  }

  /** `recursive_sum_to_one`: 1 at the base, else n plus the sum below it; ValueError for n <= 0. */
  function RecursiveSumToOne(n: int): (r: Result<int>)
    ensures r.Ok? <==> n > 0
    ensures r.Ok? ==> 2 * r.value == n * (n + 1)
  {
    if n <= 0 then Err(ValueError("Input must be a positive integer"))
    else if n == 1 then Ok(n)
    else
      var rest := RecursiveSumToOne(n - 1);
      Ok(n + rest.value)
  }

  /**
   * `iterative_sum_to_one`: pushes the contexts n, n-1, ..., 1, then pops them all, adding each
   * value; returns the sum together with the (emptied) stack.
   */
  method IterativeSumToOne(n0: int) returns (r: Result<(int, seq<int>)>)
    ensures r.Ok? <==> n0 > 0
    ensures r.Ok? ==> r.value.1 == [] && Ok(r.value.0) == RecursiveSumToOne(n0)
  {
    if n0 <= 0 {
      return Err(ValueError("Input must be a positive integer"));
    }
    var result := 0;
    var callStack: seq<int> := [];
    var n := n0;
    while n >= 1
      invariant 0 <= n <= n0
      invariant callStack == Pushed(n0, n)
    {
      callStack := callStack + [n];
      n := n - 1;
      assert callStack == Pushed(n0, n);
    }
    assert callStack == Pushed(n0, 0);
    while |callStack| != 0
      invariant forall i | 0 <= i < |callStack| :: callStack[i] == n0 - i
      invariant |callStack| <= n0 && 2 * result == (n0 - |callStack|) * (n0 - |callStack| + 1)
      decreases |callStack|
    {
      var popped := callStack[|callStack| - 1];
      callStack := callStack[..|callStack| - 1];
      result := result + popped;
    }
    return Ok((result, callStack));
  }
}
