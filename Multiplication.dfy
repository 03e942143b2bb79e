/** Multiplication by repeated addition (python/algorithms/multiplication.py). */
module Multiplication {

  /** `_validate_multiplication_inputs`: moves the sign of the multiplier into a flag. */
  function NormalizeInputs(multiplicand: int, multiplier: int): (r: (int, nat, bool))
    ensures r.0 == multiplicand && r.1 as int == (if multiplier < 0 then -multiplier else multiplier)
    ensures r.2 <==> multiplier < 0
    ensures (if r.2 then -(r.0 * r.1) else r.0 * r.1) == multiplicand * multiplier
  {
    if multiplier < 0 then (multiplicand, -multiplier, true) else (multiplicand, multiplier, false)
  }

  /** `multiplication`: adds the multiplicand |multiplier| times, then restores the sign. */
  method Multiply(multiplicand: int, multiplier: int) returns (product: int)
    ensures product == multiplicand * multiplier
  {
    if multiplier == 0 {
      return 0;
    }
    var (m, n, isNegative) := NormalizeInputs(multiplicand, multiplier);
    var acc := 0;
    for i := 0 to n
      invariant acc == i * m
    {
      acc := acc + m;
    }
    product := if isNegative then -acc else acc;
  }

  /** The inner `_recursive_multiply(m, n)`: m added n times. */
  function RecursiveMultiply(m: int, n: nat): (r: int)
    ensures r == m * n
  {
    if n == 0 then 0 else m + RecursiveMultiply(m, n - 1)
  }

  /** `multiplication_recursive`. */
  function MultiplyRecursive(multiplicand: int, multiplier: int): (r: int)
    ensures r == multiplicand * multiplier
  {
    if multiplier == 0 then 0
    else
      var (m, n, isNegative) := NormalizeInputs(multiplicand, multiplier);
      var p := RecursiveMultiply(m, n);
      if isNegative then -p else p
  }
}
