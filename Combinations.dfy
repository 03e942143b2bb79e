/** Binomial coefficients by five methods (python/algorithms/Combinatorics/combinations.py). */
module Combinations {
  import opened Wrappers
  import opened BinomialMath
  import Factorial
  import CombinatoricsValidation
  import CombinatoricsOptimization

  /**
   * `BinomialMethod`; the LRU-cached variant shares the plain recursion's body. `Unsupported`
   * stands for any other value passed as the method, with `name` the text `str()` gives for it.
   */
  datatype BinomialMethod = Iterative | Memoized | Tabulation | Recursive | RecursiveLruCache
                          | Unsupported(name: string)

  /** `_binomial_iterative`: the multiplicative formula after replacing k by min(k, n - k). */
  method BinomialIterative(n: nat, k0: nat) returns (result: nat)
    requires k0 <= n
    ensures result == Binom(n, k0)
  {
    var k := CombinatoricsOptimization.OptimizeK(n, k0);
    CombinatoricsOptimization.OptimizeKPreservesBinomial(n, k0);
    result := 1;
    for i := 0 to k
      invariant result == Binom(n, i)
    {
      ExactDivisionStep(n, i);
      result := result * (n - i) / (i + 1);
    }
  }

  /** Every memo entry holds the binomial coefficient of its key. */
  ghost predicate MemoCorrect(memo: map<(nat, nat), nat>)
  {
    forall key | key in memo :: memo[key] == Binom(key.0, key.1)
  }

  /**
   * `_binomial_memoized(n, k, memo)`: Pascal's recursion that stores every computed (n, k) in the
   * shared dictionary; `memo` is the dictionary on entry and `memoOut` the same dictionary on return.
   */
  method BinomialMemoized(n: nat, k: nat, memo: map<(nat, nat), nat>) returns (result: nat, memoOut: map<(nat, nat), nat>)
    requires k <= n && MemoCorrect(memo)
    ensures result == Binom(n, k)
    ensures MemoCorrect(memoOut) && memo.Keys <= memoOut.Keys
    ensures (n, k) in memo ==> memoOut == memo
    decreases n
  {
    if (n, k) in memo {
      return memo[(n, k)], memo;
    }
    if k == 0 || k == n {
      BinomDiagonal(n);
      return 1, memo;
    }
    var a, b;
    a, memoOut := BinomialMemoized(n - 1, k - 1, memo);
    b, memoOut := BinomialMemoized(n - 1, k, memoOut);
    result := a + b;
    memoOut := memoOut[(n, k) := result];
  }

  /** The inner loop of `_binomial_tabulation` for row i: columns 1 .. min(i, k) from the row above. */
  method FillRow(table: array2<nat>, above: nat, i: nat)
    requires i == above + 1 && i < table.Length0 && 1 <= table.Length1
    requires forall c | 0 <= c < table.Length1 :: table[above, c] == Binom(above, c)
    requires forall c | 0 <= c < table.Length1 :: table[i, c] == (if c == 0 then 1 else 0)
    modifies table
    ensures forall c | 0 <= c < table.Length1 :: table[i, c] == Binom(i, c)
    ensures forall r, c | 0 <= r < table.Length0 && r != i && 0 <= c < table.Length1 :: table[r, c] == old(table[r, c])
  {
    var k := table.Length1 - 1;
    var upper := if i + 1 < k + 1 then i + 1 else k + 1;
    for j := 1 to upper
      invariant forall c | 0 <= c < j :: table[i, c] == Binom(i, c)
      invariant forall c | j <= c <= k :: table[i, c] == (if c == 0 then 1 else 0)
      invariant forall r, c | 0 <= r < table.Length0 && r != i && 0 <= c < table.Length1 :: table[r, c] == old(table[r, c])
    {
      table[i, j] := table[i - 1, j - 1] + table[i - 1, j];
    }
    forall c | upper <= c <= k
      ensures table[i, c] == Binom(i, c)
    {
      BinomAboveIsZero(i, c);
    }
  }

  /**
   * `_binomial_tabulation`: fills Pascal's triangle row by row in an (n + 1) x (k' + 1) table, with
   * k' = min(k, n - k), and returns its bottom-right entry.
   */
  method BinomialTabulation(n: nat, k0: nat) returns (result: nat)
    requires k0 <= n
    ensures result == Binom(n, k0)
  {
    var k := CombinatoricsOptimization.OptimizeK(n, k0);
    CombinatoricsOptimization.OptimizeKPreservesBinomial(n, k0);
    var table := new nat[n + 1, k + 1]((i, j) => 0);
    for i := 0 to n + 1
      invariant forall r, c | 0 <= r < i && 0 <= c <= k :: table[r, c] == (if c == 0 then 1 else 0)
      invariant forall r, c | i <= r <= n && 0 <= c <= k :: table[r, c] == 0
    {
      table[i, 0] := 1;
    }
    for i := 1 to n + 1
      invariant forall r, c | 0 <= r < i && 0 <= c <= k :: table[r, c] == Binom(r, c)
      invariant forall r, c | i <= r <= n && 0 <= c <= k :: table[r, c] == (if c == 0 then 1 else 0)
    {
      FillRow(table, i - 1, i);
    }
    result := table[n, k];
  }

  /** `_binomial_recursive` (and the body of `_binomial_recursive_lru`): Pascal's rule with k == 0 or k == n as base. */
  function BinomialRecursive(n: nat, k: nat): (r: nat)
    requires k <= n
    ensures r == Binom(n, k)
  {
    if k == 0 || k == n then
      BinomDiagonal(n);
      1
    else BinomialRecursive(n - 1, k - 1) + BinomialRecursive(n - 1, k)
  }

  /**
   * `binomial_coefficient(n, k, method)`: validates, returns 1 at the edges, then dispatches. Every
   * method returns C(n, k) = n! / (k! (n - k)!).
   */
  method BinomialCoefficient(n: int, k: int, m: BinomialMethod := Iterative) returns (r: Result<nat>)
    ensures CombinatoricsValidation.ValidateInputs(n, k).Some? ==>
      r == Err(CombinatoricsValidation.ValidateInputs(n, k).value)
    ensures CombinatoricsValidation.ValidateInputs(n, k).None? ==>
      (r.Err? <==> m.Unsupported? && k != 0 && k != n)
    ensures CombinatoricsValidation.ValidateInputs(n, k).None? && r.Err? ==>
      r.error == ValueError("Unsupported method: " + m.name)
    ensures r.Ok? ==> 0 <= k <= n && r.value == Binom(n, k)
  {
    var check := CombinatoricsValidation.ValidateInputs(n, k);
    if check.Some? {
      return Err(check.value);
    }
    if k == 0 || k == n {
      BinomDiagonal(n);
      return Ok(1);
    }
    var value: nat;
    match m {
      case Iterative => value := BinomialIterative(n, k);
      case Memoized =>
        var memo;
        value, memo := BinomialMemoized(n, k, map[]);
      case Tabulation => value := BinomialTabulation(n, k);
      case Recursive => value := BinomialRecursive(n, k);
      case RecursiveLruCache => value := BinomialRecursive(n, k);
      case Unsupported(name) => return Err(ValueError("Unsupported method: " + name));
    }
    return Ok(value);
  }

  /** The value every method returns satisfies the factorial formula, is symmetric and obeys Pascal's identity. */
  lemma BinomialProperties(n: nat, k: nat)
    requires k <= n
    ensures Binom(n, k) * Factorial.Fact(k) * Factorial.Fact(n - k) == Factorial.Fact(n)
    ensures Binom(n, k) == Binom(n, n - k)
    ensures 1 <= k ==> Binom(n, k) == Binom(n - 1, k - 1) + Binom(n - 1, k)
  {
    BinomFactorial(n, k);
    BinomSymmetric(n, k);
  }
}
