/**
 * The integer helpers of python/data_science/probability/utilities.py: a validating binomial
 * coefficient computed by the multiplicative formula, and the positive-integer guard.
 */
module ProbabilityUtilities {
  import opened Wrappers
  import opened BinomialMath

  // ---------------------------------------------------------------- f-string integers

  predicate IsDigit(c: char)
  {
    '0' <= c <= '9'
  }

  function DigitChar(d: nat): (c: char)
    requires d < 10
    ensures IsDigit(c) && c as int - '0' as int == d
  {
    ('0' as int + d) as char
  }

  /** The decimal digits of a natural number, most significant first, with no leading zero. */
  function NatDigits(n: nat): (s: string)
    ensures |s| >= 1 && forall i | 0 <= i < |s| :: IsDigit(s[i])
    ensures |s| > 1 ==> s[0] != '0'
  {
    if n < 10 then [DigitChar(n)] else NatDigits(n / 10) + [DigitChar(n % 10)]
  }

  /** Python's `str(i)` for an integer, as an f-string renders it: a minus sign for negatives. */
  function IntText(i: int): (s: string)
    ensures |s| >= 1
    ensures (s[0] == '-') <==> i < 0
  {
    if i < 0 then "-" + NatDigits(-i) else NatDigits(i)
  }

  /** Reading decimal digits back as a number: the partner of NatDigits. */
  function ParseDigits(s: string): nat
    requires forall i | 0 <= i < |s| :: IsDigit(s[i])
  {
    if |s| == 0 then 0
    else
      assert IsDigit(s[|s| - 1]);
      ParseDigits(s[..|s| - 1]) * 10 + (s[|s| - 1] as int - '0' as int)
  }

  /** Reading the rendered digits gives the number back. */
  lemma {:induction false} NatDigitsRoundTrip(n: nat)
    ensures ParseDigits(NatDigits(n)) == n
  {
    if n >= 10 {
      NatDigitsRoundTrip(n / 10);
      var s := NatDigits(n);
      assert s[..|s| - 1] == NatDigits(n / 10);
    }
  }

  /** Different naturals have different digits. */
  lemma NatDigitsInjective(x: nat, y: nat)
    requires NatDigits(x) == NatDigits(y)
    ensures x == y
  {
    NatDigitsRoundTrip(x);
    NatDigitsRoundTrip(y);
  }

  /** Different integers render differently, so each message names its own argument. */
  lemma IntTextInjective(a: int, b: int)
    requires IntText(a) == IntText(b)
    ensures a == b
  {
    if a < 0 {
      assert b < 0;
      var da, db := NatDigits(-a), NatDigits(-b);
      assert ("-" + da)[1..] == da;
      assert ("-" + db)[1..] == db;
      NatDigitsInjective(-a, -b);
    } else {
      assert b >= 0;
      NatDigitsInjective(a, b);
    }
  }

  // ---------------------------------------------------------------- validated helpers

  /** Line 77. */
  function NegativeNMessage(n: int): string
  {
    "n must be non-negative, got " + IntText(n)
  }

  /** Line 79. */
  function NegativeKMessage(k: int): string
  {
    "k must be non-negative, got " + IntText(k)
  }

  /** Line 81. */
  function KAboveNMessage(k: int, n: int): string
  {
    "k cannot be greater than n, got k=" + IntText(k) + ", n=" + IntText(n)
  }

  /** `binomial_coefficient(n, k)`: ValueError for n < 0, k < 0 or k > n; otherwise C(n, k). */
  method BinomialCoefficient(n: int, k0: int) returns (r: Result<nat>)
    ensures r.Ok? <==> 0 <= k0 <= n
    ensures r == Err(ValueError(NegativeNMessage(n))) <==> n < 0
    ensures r == Err(ValueError(NegativeKMessage(k0))) <==> n >= 0 && k0 < 0
    ensures r == Err(ValueError(KAboveNMessage(k0, n))) <==> n >= 0 && k0 >= 0 && k0 > n
    ensures r.Ok? ==> r.value == Binom(n, k0)
  {
    if n < 0 {
      assert NegativeNMessage(n)[0] == 'n';
      return Err(ValueError(NegativeNMessage(n)));
    }
    if k0 < 0 {
      assert NegativeKMessage(k0)[0] == 'k' && NegativeKMessage(k0)[2] == 'm';
      return Err(ValueError(NegativeKMessage(k0)));
    }
    if k0 > n {
      assert KAboveNMessage(k0, n)[0] == 'k' && KAboveNMessage(k0, n)[2] == 'c';
      return Err(ValueError(KAboveNMessage(k0, n)));
    }
    if k0 == 0 || k0 == n {
      BinomDiagonal(n);
      return Ok(1);
    }
    var k := if k0 < n - k0 then k0 else n - k0;
    BinomSymmetric(n, k0);
    var result: nat := 1;
    for i := 0 to k
      invariant result == Binom(n, i)
    {
      ExactDivisionStep(n, i);
      result := result * (n - i) / (i + 1);
    }
    return Ok(result);
  }

  /** C(5, 2) by Pascal's rule. */
  lemma FiveChooseTwo()
    ensures Binom(5, 2) == 10
  {
    assert Binom(1, 1) == 1 && Binom(1, 2) == 0;
    assert Binom(2, 1) == 2 && Binom(2, 2) == 1;
    assert Binom(3, 1) == 3 && Binom(3, 2) == 3;
    assert Binom(4, 1) == 4 && Binom(4, 2) == 6;
  }

  /** C(10, 5) by the multiplicative formula, one factor at a time. */
  lemma TenChooseFive()
    ensures Binom(10, 5) == 252
  {
    MultiplicativeStep(10, 0);
    assert Binom(10, 1) == 10;
    MultiplicativeStep(10, 1);
    assert 2 * Binom(10, 2) == 90;
    MultiplicativeStep(10, 2);
    assert 3 * Binom(10, 3) == 360;
    MultiplicativeStep(10, 3);
    assert 4 * Binom(10, 4) == 840;
    MultiplicativeStep(10, 4);
    assert 5 * Binom(10, 5) == 1260;
  }

  /** The values the tests pin down. */
  lemma KnownCoefficients()
    ensures Binom(5, 2) == 10
    ensures Binom(10, 5) == 252
    ensures Binom(10, 3) == Binom(10, 7)
  {
    FiveChooseTwo();
    TenChooseFive();
    BinomSymmetric(10, 3);
  }

  /** The message of line 200. */
  function NotPositiveMessage(value: int): string
  {
    "Value must be a positive integer, got " + IntText(value)
  }

  /**
   * `validate_positive_integer`: ValueError naming the argument unless it is an integer greater
   * than 0; two rejected arguments never share a message.
   */
  function ValidatePositiveInteger(value: int): (r: Option<Error>)
    ensures r.None? <==> value > 0
    ensures r.Some? ==> r.value == ValueError(NotPositiveMessage(value))
  {
    if value <= 0 then Some(ValueError(NotPositiveMessage(value))) else None
  }

  /** The rejection message identifies the rejected value. */
  lemma RejectionsDiffer(a: int, b: int)
    requires a <= 0 && b <= 0 && a != b
    ensures ValidatePositiveInteger(a) != ValidatePositiveInteger(b)
  {
    if ValidatePositiveInteger(a) == ValidatePositiveInteger(b) {
      var pre := "Value must be a positive integer, got ";
      assert NotPositiveMessage(a)[|pre|..] == IntText(a);
      assert NotPositiveMessage(b)[|pre|..] == IntText(b);
      IntTextInjective(a, b);
    }
  }
}
