/**
 * The reference definition of the binomial coefficient C(n, k) that every binomial implementation in
 * the repository is proved against: Pascal's rule, with C(n, 0) = 1 and C(0, k) = 0 for k > 0.
 */
module BinomialMath {
  import Factorial

  function Binom(n: nat, k: nat): nat
  {
    if k == 0 then 1 else if n == 0 then 0 else Binom(n - 1, k - 1) + Binom(n - 1, k)
  }

  lemma {:induction false} BinomAboveIsZero(n: nat, k: nat)
    requires k > n
    ensures Binom(n, k) == 0
  {
    if n > 0 {
      BinomAboveIsZero(n - 1, k - 1);
      BinomAboveIsZero(n - 1, k);
    }
  }

  lemma {:induction false} BinomDiagonal(n: nat)
    ensures Binom(n, n) == 1
  {
    if n > 0 {
      BinomDiagonal(n - 1);
      BinomAboveIsZero(n - 1, n);
    }
  }

  /** Pascal's identity, for the index range the implementations use. */
  lemma PascalIdentity(n: nat, k: nat)
    requires 1 <= k <= n
    ensures Binom(n, k) == Binom(n - 1, k - 1) + Binom(n - 1, k)
  {
  }

  /** Symmetry: C(n, k) = C(n, n - k). */
  lemma {:induction false} BinomSymmetric(n: nat, k: nat)
    requires k <= n
    ensures Binom(n, k) == Binom(n, n - k)
  {
    if k == 0 {
      BinomDiagonal(n);
    } else if k == n {
      BinomDiagonal(n);
    } else {
      // C(n,k) = C(n-1,k-1) + C(n-1,k) = C(n-1,n-k) + C(n-1,n-1-k) = C(n,n-k)
      BinomSymmetric(n - 1, k - 1);
      BinomSymmetric(n - 1, k);
      assert Binom(n, n - k) == Binom(n - 1, n - k - 1) + Binom(n - 1, n - k);
    }
  }

  /** The closed form: C(n, k) * k! * (n - k)! = n!. */
  lemma {:induction false} BinomFactorial(n: nat, k: nat)
    requires k <= n
    ensures Binom(n, k) * Factorial.Fact(k) * Factorial.Fact(n - k) == Factorial.Fact(n)
  {
    if k == 0 {
      assert Binom(n, k) == 1 && Factorial.Fact(0) == 1;
    } else if k == n {
      BinomDiagonal(n);
      assert Factorial.Fact(0) == 1;
    } else {
      BinomFactorial(n - 1, k - 1);
      BinomFactorial(n - 1, k);
      assert n - 1 - (k - 1) == n - k && n - 1 - k == n - k - 1;
      ClosedFormStep(Binom(n - 1, k - 1), Binom(n - 1, k), k, n - k,
                     Factorial.Fact(k - 1), Factorial.Fact(n - k - 1), Factorial.Fact(n - 1),
                     Factorial.Fact(k), Factorial.Fact(n - k), Binom(n, k), Factorial.Fact(n));
    }
  }

  /** The step of the closed form from n - 1 to n, on plain numbers. */
  lemma ClosedFormStep(a: int, b: int, k: int, m: int, x: int, y: int, f: int, fk: int, fm: int, c: int, fn: int)
    requires fk == k * x && fm == m * y
    requires a * x * fm == f && b * fk * y == f
    requires c == a + b && fn == (k + m) * f
    ensures c * fk * fm == fn
  {
    Combine(a, b, k, x, m, y, f, fk, fm);
  }

  /** Gathering the two Pascal terms of the closed form. */
  lemma Combine(a: int, b: int, k: int, x: int, m: int, y: int, f: int, fk: int, fm: int)
    requires fk == k * x && fm == m * y
    requires a * x * fm == f && b * fk * y == f
    ensures (a + b) * fk * fm == (k + m) * f
  {
    calc {
      (a + b) * fk * fm;
      a * fk * fm + b * fk * fm;
      { assert a * fk * fm == k * (a * x * fm); }
      k * (a * x * fm) + b * fk * fm;
      { assert b * fk * fm == m * (b * fk * y); }
      k * (a * x * fm) + m * (b * fk * y);
      k * f + m * f;
    }
  }

  /** Cancelling a positive common factor. */
  lemma CancelFactor(a: int, b: int, c: int)
    requires c > 0 && a * c == b * c
    ensures a == b
  {
    if a != b {
      var t := if a < b then b - a else a - b;
      assert t * c == (if a < b then b * c - a * c else a * c - b * c);
      PositiveProduct(t, c);
      assert false;
    }
  }

  lemma PositiveProduct(x: int, y: int)
    requires x > 0 && y > 0
    ensures x * y > 0
  {
  }

  /** The step of the multiplicative formula: (i + 1) * C(n, i + 1) = (n - i) * C(n, i). */
  lemma MultiplicativeStep(n: nat, i: nat)
    requires i < n
    ensures (i + 1) * Binom(n, i + 1) == (n - i) * Binom(n, i)
  {
    BinomFactorial(n, i + 1);
    BinomFactorial(n, i);
    var b1, b0 := Binom(n, i + 1), Binom(n, i);
    var fi, fr := Factorial.Fact(i), Factorial.Fact(n - i - 1);
    var fi1, fni := Factorial.Fact(i + 1), Factorial.Fact(n - i);
    assert fi1 == (i + 1) * fi;
    assert fni == (n - i) * fr;
    assert b1 * fi1 * fr == Factorial.Fact(n) by {
      assert n - (i + 1) == n - i - 1;
    }
    assert b0 * fi * fni == Factorial.Fact(n);
    StepAlgebra(b1, b0, i + 1, n - i, fi, fr, fi1, fni, Factorial.Fact(n));
  }

  lemma StepAlgebra(b1: int, b0: int, p: int, q: int, x: int, y: int, fx: int, fy: int, f: int)
    requires x > 0 && y > 0 && fx == p * x && fy == q * y
    requires b1 * fx * y == f && b0 * x * fy == f
    ensures p * b1 == q * b0
  {
    assert (p * b1) * (x * y) == b1 * fx * y;
    assert (q * b0) * (x * y) == b0 * x * fy;
    PositiveProduct(x, y);
    CancelFactor(p * b1, q * b0, x * y);
  }

  /** After replacing the running product C(n, i) by C(n, i) * (n - i) // (i + 1), the division is exact. */
  lemma ExactDivisionStep(n: nat, i: nat)
    requires i < n
    ensures Binom(n, i) * (n - i) % (i + 1) == 0
    ensures Binom(n, i) * (n - i) / (i + 1) == Binom(n, i + 1)
  {
    MultiplicativeStep(n, i);
    var b0, b1 := Binom(n, i), Binom(n, i + 1);
    assert b0 * (n - i) == (i + 1) * b1;
    DivideExact(b1, i + 1);
  }

  lemma DivideExact(q: int, d: int)
    requires d > 0
    ensures (d * q) % d == 0 && (d * q) / d == q
  {
    var v := d * q;
    var x, r := v / d, v % d;
    assert v == d * x + r && 0 <= r < d;
    if q != x {
      var t := if q > x then q - x else x - q;
      assert d * t == d + d * (t - 1);
      assert d * t == (if q > x then r else -r);
      PositiveOrZero(d, t - 1);
      assert false;
    }
  }

  lemma PositiveOrZero(x: int, y: int)
    requires x >= 0 && y >= 0
    ensures x * y >= 0
  {
  }
}
