/** Decimal digit sums, iterative and recursive (python/algorithms/sum_digits.py). */
module SumDigits {
  import opened Wrappers

  /** `_validate_non_negative`. */
  function ValidateNonNegative(n: int): (r: Option<Error>)
    ensures r.None? <==> n >= 0
  {
    if n < 0 then Some(ValueError("Not defined for negative numbers")) else None
  }

  /** `sum_digits_recursive` on a validated input: n for a single digit, else last digit plus the rest. */
  function DigitSum(n: nat): (r: nat)
    ensures r <= n
    ensures n > 0 ==> r > 0
  {
    if n <= 9 then n else n % 10 + DigitSum(n / 10)
  }

  /** `sum_digits_recursive`, raising ValueError for a negative input. */
  function SumDigitsRecursive(n: int): (r: Result<nat>)
    ensures r.Ok? <==> n >= 0
  {
    match ValidateNonNegative(n)
    case Some(e) => Err(e)
    case None => Ok(DigitSum(n))
  }

  /** `sum_digits_iterative`: accumulates n % 10 and divides by 10 until n is 0. */
  method SumDigitsIterative(n: int) returns (r: Result<nat>)
    ensures r == SumDigitsRecursive(n)
  {
    var check := ValidateNonNegative(n);
    if check.Some? {
      return Err(check.value);
    }
    var total: nat := 0;
    var rest: nat := n;
    while rest > 0
      invariant total + DigitSum(rest) == DigitSum(n)
    {
      total := total + rest % 10;
      rest := rest / 10;
    }
    return Ok(total);
  }

  /** Casting out nines: the digit sum is congruent to the number modulo 9. */
  lemma {:induction false} DigitSumModNine(n: nat)
    ensures DigitSum(n) % 9 == n % 9
  {
    if n > 9 {
      var q, d := n / 10, n % 10;
      DigitSumModNine(q);
      var k := NinesApart(DigitSum(q), q);
      assert DigitSum(n) == d + DigitSum(q);
      assert n == DigitSum(n) + 9 * (q - k);
      ShiftByNines(n, DigitSum(n), q - k);
    }
  }

  /** Numbers with the same remainder modulo 9 differ by a multiple of 9. */
  lemma NinesApart(x: int, y: int) returns (k: int)
    requires x % 9 == y % 9
    ensures x == y + 9 * k
  {
    k := x / 9 - y / 9;
  }

  /** Adding a multiple of 9 keeps the remainder modulo 9. */
  lemma ShiftByNines(x: int, y: int, k: int)
    requires x == y + 9 * k
    ensures x % 9 == y % 9
  {
    var r := y % 9;
    assert y == 9 * (y / 9) + r;
    assert x == 9 * (y / 9 + k) + r;
  }
}
