/** k-permutations: counting and four generators (python/algorithms/Combinatorics/permutations.py). */
module Permutations {
  import opened Wrappers
  import CombinatoricsValidation
  import Factorial
  import opened Sequences

  /**
   * `PermutationMethod`. `Unsupported` stands for any other value passed as the method, with
   * `name` the text `str()` gives for it.
   */
  datatype PermutationMethod = Recursive | Backtracking | Lexicographic | Heaps | Unsupported(name: string)

  // ---------------------------------------------------------------- counting

  /** The falling factorial n (n-1) ... (n-k+1): the number of k-permutations of n items. */
  function Falling(n: int, k: nat): int
    decreases k
  {
    if k == 0 then 1 else n * Falling(n - 1, k - 1)
  }

  /** P(n, k) = n! / (n - k)!. */
  lemma {:induction false} FallingFactorial(n: nat, k: nat)
    requires k <= n
    ensures Falling(n, k) * Factorial.Fact(n - k) == Factorial.Fact(n)
  {
    if k > 0 {
      FallingFactorial(n - 1, k - 1);
      var f, g, h := Falling(n - 1, k - 1), Factorial.Fact(n - k), Factorial.Fact(n - 1);
      assert f * g == h by { assert n - 1 - (k - 1) == n - k; }
      assert Falling(n, k) == n * f;
      assert Factorial.Fact(n) == n * h;
      MulAssoc(n, f, g);
    }
  }

  lemma MulAssoc(a: int, b: int, c: int)
    ensures (a * b) * c == a * (b * c)
  {
  }

  /** `permutation_count(n, k)`: validates, then multiplies n, n-1, ..., n-k+1. */
  method PermutationCount(n: int, k: int) returns (r: Result<int>)
    ensures r.Err? <==> CombinatoricsValidation.ValidateInputs(n, k).Some?
    ensures r.Err? ==> r.error == CombinatoricsValidation.ValidateInputs(n, k).value
    ensures r.Ok? ==> r.value == Falling(n, k)
    ensures r.Ok? ==> r.value * Factorial.Fact(n - k) == Factorial.Fact(n)
  {
    var check := CombinatoricsValidation.ValidateInputs(n, k);
    if check.Some? {
      return Err(check.value);
    }
    FallingFactorial(n, k);
    if k == 0 {
      return Ok(1);
    }
    var result := 1;
    var i := n;
    while i > n - k
      invariant n - k <= i <= n
      invariant result == Falling(n, n - i)
    {
      FallingStep(n, n - i);
      result := result * i;
      i := i - 1;
    }
    return Ok(result);
  }

  /** Extending the falling product by its next factor. */
  lemma {:induction false} FallingStep(n: int, j: nat)
    decreases j
    ensures Falling(n, j + 1) == Falling(n, j) * (n - j)
  {
    if j > 0 {
      FallingStep(n - 1, j - 1);
      var f := Falling(n - 1, j - 1);
      assert Falling(n, j + 1) == n * (f * (n - 1 - (j - 1)));
    }
  }

  // ---------------------------------------------------------------- the recursive generator

  /** `items[:i] + items[i+1:]`. */
  function Remove<T>(items: seq<T>, i: nat): (r: seq<T>)
    requires i < |items|
    ensures |r| == |items| - 1
  {
    items[..i] + items[i + 1..]
  }

  /** Removing position i takes exactly one copy of items[i] out of the elements. */
  lemma RemoveMultiset<T>(items: seq<T>, i: nat)
    requires i < |items|
    ensures multiset(Remove(items, i)) + multiset{items[i]} == multiset(items)
  {
    assert items == items[..i] + [items[i]] + items[i + 1..];
  }

  /** `[[x] + p for p in ps]`. */
  function PrependAll<T(==)>(x: T, ps: seq<seq<T>>): (r: seq<seq<T>>)
    ensures |r| == |ps|
    ensures forall j | 0 <= j < |ps| :: r[j] == [x] + ps[j]
  {
    seq(|ps|, j requires 0 <= j < |ps| => [x] + ps[j])
  }

  /** `_generate_recursive(items, k)`: each item in turn, followed by every (k-1)-permutation of the others. */
  function GenerateRecursive<T(==)>(items: seq<T>, k: nat): seq<seq<T>>
    decreases k, |items| + 1
  {
    if k == 0 then [[]] else GenerateFrom(items, k, 0)
  }

  /** The iterations i, i+1, ... of the loop in `_generate_recursive`. */
  function GenerateFrom<T(==)>(items: seq<T>, k: nat, i: nat): seq<seq<T>>
    requires k > 0 && i <= |items|
    decreases k, |items| - i
  {
    if i == |items| then []
    else PrependAll(items[i], GenerateRecursive(Remove(items, i), k - 1)) + GenerateFrom(items, k, i + 1)
  }

  /** Each generated list has length k and uses items from distinct positions (a sub-multiset). */
  predicate DrawnFrom<T(==)>(p: seq<T>, items: seq<T>, k: nat)
  {
    |p| == k && multiset(p) <= multiset(items)
  }

  /** The recursive generator yields exactly P(n, k) lists, each a k-arrangement of the items. */
  lemma {:induction false} GenerateRecursiveShape<T>(items: seq<T>, k: nat)
    ensures |GenerateRecursive(items, k)| == Falling(|items|, k)
    ensures forall p | p in GenerateRecursive(items, k) :: DrawnFrom(p, items, k)
    decreases k, |items| + 1
  {
    if k > 0 {
      GenerateFromShape(items, k, 0);
    }
  }

  lemma {:induction false} GenerateFromShape<T>(items: seq<T>, k: nat, i: nat)
    requires k > 0 && i <= |items|
    ensures |GenerateFrom(items, k, i)| == (|items| - i) * Falling(|items| - 1, k - 1)
    ensures forall p | p in GenerateFrom(items, k, i) :: DrawnFrom(p, items, k)
    decreases k, |items| - i
  {
    if i < |items| {
      var rest := Remove(items, i);
      GenerateRecursiveShape(rest, k - 1);
      GenerateFromShape(items, k, i + 1);
      var head := PrependAll(items[i], GenerateRecursive(rest, k - 1));
      var tail := GenerateFrom(items, k, i + 1);
      PrependDrawn(items, i, GenerateRecursive(rest, k - 1), k);
      FromStep(items, k, i, head, tail, GenerateFrom(items, k, i), Falling(|items| - 1, k - 1));
    }
  }

  /** One iteration of the loop adds f lists drawn from the items to the ones after it. */
  lemma FromStep<T>(items: seq<T>, k: nat, i: nat, head: seq<seq<T>>, tail: seq<seq<T>>, whole: seq<seq<T>>, f: int)
    requires i < |items| && whole == head + tail
    requires |head| == f && |tail| == (|items| - (i + 1)) * f
    requires forall p | p in head :: DrawnFrom(p, items, k)
    requires forall p | p in tail :: DrawnFrom(p, items, k)
    ensures |whole| == (|items| - i) * f
    ensures forall p | p in whole :: DrawnFrom(p, items, k)
  {
    assert (|items| - i) * f == f + (|items| - (i + 1)) * f;
  }

  /** Putting item i in front of lists drawn from the other items gives lists drawn from all of them. */
  lemma PrependDrawn<T>(items: seq<T>, i: nat, ps: seq<seq<T>>, k: nat)
    requires 0 < k && i < |items|
    requires forall q | q in ps :: DrawnFrom(q, Remove(items, i), k - 1)
    ensures forall p | p in PrependAll(items[i], ps) :: DrawnFrom(p, items, k)
  {
    var head := PrependAll(items[i], ps);
    RemoveMultiset(items, i);
    forall p | p in head
      ensures DrawnFrom(p, items, k)
    {
      var j :| 0 <= j < |head| && head[j] == p;
      assert ps[j] in ps;
      assert multiset(p) == multiset{items[i]} + multiset(ps[j]);
    }
  }

  /** Completeness: every k-arrangement drawn from the items is generated. */
  lemma {:induction false} GenerateRecursiveComplete<T>(items: seq<T>, k: nat, p: seq<T>)
    requires DrawnFrom(p, items, k)
    ensures p in GenerateRecursive(items, k)
    decreases k
  {
    if k > 0 {
      assert p[0] in multiset(p);
      assert p[0] in multiset(items);
      var i :| 0 <= i < |items| && items[i] == p[0];
      var rest := Remove(items, i);
      RemoveMultiset(items, i);
      assert p == [p[0]] + p[1..];
      assert multiset(p) == multiset{p[0]} + multiset(p[1..]);
      forall x
        ensures multiset(p[1..])[x] <= multiset(rest)[x]
      {
        assert multiset(p)[x] <= multiset(items)[x];
      }
      GenerateRecursiveComplete(rest, k - 1, p[1..]);
      var j :| 0 <= j < |GenerateRecursive(rest, k - 1)| && GenerateRecursive(rest, k - 1)[j] == p[1..];
      var block := PrependAll(items[i], GenerateRecursive(rest, k - 1));
      assert block[j] == p;
      GenerateFromContains(items, k, 0, i, p);
    }
  }

  /** The block of iteration i is part of the output of every earlier start. */
  lemma {:induction false} GenerateFromContains<T>(items: seq<T>, k: nat, start: nat, i: nat, p: seq<T>)
    requires k > 0 && start <= i < |items|
    requires p in PrependAll(items[i], GenerateRecursive(Remove(items, i), k - 1))
    ensures p in GenerateFrom(items, k, start)
    decreases i - start
  {
    if start < i {
      GenerateFromContains(items, k, start + 1, i, p);
    }
  }

  // ---------------------------------------------------------------- backtracking

  /** The number of unset flags among the first n. */
  function FreeCount(used: seq<bool>, n: nat): (r: nat)
    requires n <= |used|
    ensures r <= n
  {
    if n == 0 then 0 else FreeCount(used, n - 1) + (if used[n - 1] then 0 else 1)
  }

  /** The unused items among the first n, in their original order. */
  function Unused<T>(items: seq<T>, used: seq<bool>, n: nat): (r: seq<T>)
    requires |used| == |items| && n <= |items|
    ensures |r| == FreeCount(used, n)
  {
    if n == 0 then [] else Unused(items, used, n - 1) + (if used[n - 1] then [] else [items[n - 1]])
  }

  /** `[c + p for p in ps]`: the lists recorded below the partial permutation c. */
  function PrependSeq<T>(c: seq<T>, ps: seq<seq<T>>): (r: seq<seq<T>>)
    ensures |r| == |ps|
    ensures forall j | 0 <= j < |ps| :: r[j] == c + ps[j]
  {
    seq(|ps|, j requires 0 <= j < |ps| => c + ps[j])
  }

  /**
   * What `backtrack(current, used, k)` appends to the result, as a value:
   * the current list when no item is left to choose, otherwise the lists found
   * by choosing each unused item in index order.
   */
  function Back<T>(items: seq<T>, used: seq<bool>, current: seq<T>, k: nat): seq<seq<T>>
    requires |used| == |items|
    decreases k, |items| + 1
  {
    if k == 0 then [current] else BackFrom(items, used, current, k, 0)
  }

  /** The iterations i, i+1, ... of the loop in `backtrack`. */
  function BackFrom<T>(items: seq<T>, used: seq<bool>, current: seq<T>, k: nat, i: nat): seq<seq<T>>
    requires |used| == |items| && k > 0 && i <= |items|
    decreases k, |items| - i
  {
    if i == |items| then []
    else
      (if used[i] then [] else Back(items, used[i := true], current + [items[i]], k - 1))
      + BackFrom(items, used, current, k, i + 1)
  }

  lemma {:induction false} FreeCountMono(used: seq<bool>, i: nat, n: nat)
    requires i <= n <= |used|
    ensures FreeCount(used, i) <= FreeCount(used, n)
    decreases n - i
  {
    if i < n {
      FreeCountMono(used, i, n - 1);
    }
  }

  /** The unused item at index i sits at position FreeCount(used, i) of the unused list. */
  lemma {:induction false} UnusedAt<T>(items: seq<T>, used: seq<bool>, n: nat, i: nat)
    requires |used| == |items| && i < n <= |items| && !used[i]
    ensures FreeCount(used, i) < |Unused(items, used, n)|
    ensures Unused(items, used, n)[FreeCount(used, i)] == items[i]
  {
    if i < n - 1 {
      UnusedAt(items, used, n - 1, i);
    }
  }

  /** Marking nothing at or after n leaves the first n flags' view unchanged. */
  lemma {:induction false} UnusedMarkBefore<T>(items: seq<T>, used: seq<bool>, n: nat, i: nat)
    requires |used| == |items| && n <= i < |items|
    ensures FreeCount(used[i := true], n) == FreeCount(used, n)
    ensures Unused(items, used[i := true], n) == Unused(items, used, n)
  {
    if n > 0 {
      UnusedMarkBefore(items, used, n - 1, i);
    }
  }

  /** Marking the unused item i removes it from the unused list. */
  lemma {:induction false} UnusedMark<T>(items: seq<T>, used: seq<bool>, n: nat, i: nat)
    requires |used| == |items| && i < n <= |items| && !used[i]
    ensures FreeCount(used, i) < |Unused(items, used, n)|
    ensures Unused(items, used[i := true], n) == Remove(Unused(items, used, n), FreeCount(used, i))
    decreases n, 1
  {
    if n == i + 1 {
      UnusedMarkLast(items, used, i);
    } else {
      UnusedMarkEarlier(items, used, n, i);
    }
  }

  /** The case where i is the last of the first n positions. */
  lemma UnusedMarkLast<T>(items: seq<T>, used: seq<bool>, i: nat)
    requires |used| == |items| && i < |items| && !used[i]
    ensures FreeCount(used, i) < |Unused(items, used, i + 1)|
    ensures Unused(items, used[i := true], i + 1) == Remove(Unused(items, used, i + 1), FreeCount(used, i))
  {
    var c := FreeCount(used, i);
    UnusedMarkBefore(items, used, i, i);
    var before := Unused(items, used, i);
    assert Unused(items, used, i + 1) == before + [items[i]];
    assert (before + [items[i]])[..c] == before;
  }

  /** The case where position n-1 comes after i: the recursion covers the first n-1. */
  lemma {:induction false} UnusedMarkEarlier<T>(items: seq<T>, used: seq<bool>, n: nat, i: nat)
    requires |used| == |items| && i + 1 < n <= |items| && !used[i]
    ensures FreeCount(used, i) < |Unused(items, used, n)|
    ensures Unused(items, used[i := true], n) == Remove(Unused(items, used, n), FreeCount(used, i))
    decreases n, 0
  {
    UnusedMark(items, used, n - 1, i);
    UnusedMarkTail(items, used, n, i);
    RemoveAppend(Unused(items, used, n - 1), if used[n - 1] then [] else [items[n - 1]], FreeCount(used, i));
  }

  /** The last of the first n flags is untouched by marking an earlier index. */
  lemma UnusedMarkTail<T>(items: seq<T>, used: seq<bool>, n: nat, i: nat)
    requires |used| == |items| && i < n - 1 && n <= |items|
    ensures Unused(items, used[i := true], n)
         == Unused(items, used[i := true], n - 1) + (if used[n - 1] then [] else [items[n - 1]])
    ensures Unused(items, used, n) == Unused(items, used, n - 1) + (if used[n - 1] then [] else [items[n - 1]])
  {
    assert used[i := true][n - 1] == used[n - 1];
  }

  lemma RemoveAppend<T>(a: seq<T>, b: seq<T>, c: nat)
    requires c < |a|
    ensures Remove(a + b, c) == Remove(a, c) + b
  {
    assert (a + b)[..c] == a[..c];
    assert (a + b)[c + 1..] == a[c + 1..] + b;
  }

  lemma PrependSeqAppend<T>(c: seq<T>, a: seq<seq<T>>, b: seq<seq<T>>)
    ensures PrependSeq(c, a + b) == PrependSeq(c, a) + PrependSeq(c, b)
  {
  }

  lemma PrependSeqPrependAll<T>(c: seq<T>, x: T, ps: seq<seq<T>>)
    ensures PrependSeq(c, PrependAll(x, ps)) == PrependSeq(c + [x], ps)
  {
    forall j | 0 <= j < |ps|
      ensures c + ([x] + ps[j]) == (c + [x]) + ps[j]
    {
    }
  }

  /** Backtracking over the flags equals the recursive generator run on the unused items. */
  lemma {:induction false} BackIsRecursive<T>(items: seq<T>, used: seq<bool>, current: seq<T>, k: nat)
    requires |used| == |items|
    ensures Back(items, used, current, k) == PrependSeq(current, GenerateRecursive(Unused(items, used, |items|), k))
    decreases k, |items| + 1
  {
    if k == 0 {
      assert current + [] == current;
    } else {
      BackFromIsRecursive(items, used, current, k, 0);
    }
  }

  lemma {:induction false} BackFromIsRecursive<T>(items: seq<T>, used: seq<bool>, current: seq<T>, k: nat, i: nat)
    requires |used| == |items| && k > 0 && i <= |items|
    ensures FreeCount(used, i) <= |Unused(items, used, |items|)|
    ensures BackFrom(items, used, current, k, i)
         == PrependSeq(current, GenerateFrom(Unused(items, used, |items|), k, FreeCount(used, i)))
    decreases k, |items| - i, 1
  {
    if i == |items| {
      BackFromEnd(items, used, current, k);
    } else if used[i] {
      BackStepUsed(items, used, current, k, i);
    } else {
      BackStepUnused(items, used, current, k, i);
    }
  }

  /** Past the last index the loop adds nothing, and the generator has no item left to start from. */
  lemma BackFromEnd<T>(items: seq<T>, used: seq<bool>, current: seq<T>, k: nat)
    requires |used| == |items| && k > 0
    ensures FreeCount(used, |items|) <= |Unused(items, used, |items|)|
    ensures BackFrom(items, used, current, k, |items|)
         == PrependSeq(current, GenerateFrom(Unused(items, used, |items|), k, FreeCount(used, |items|)))
  {
    assert PrependSeq(current, []) == [];
  }

  /** One loop iteration that skips the used item i. */
  lemma BackStepUsed<T>(items: seq<T>, used: seq<bool>, current: seq<T>, k: nat, i: nat)
    requires |used| == |items| && k > 0 && i < |items| && used[i]
    ensures FreeCount(used, i) <= |Unused(items, used, |items|)|
    ensures BackFrom(items, used, current, k, i)
         == PrependSeq(current, GenerateFrom(Unused(items, used, |items|), k, FreeCount(used, i)))
    decreases k, |items| - i, 0
  {
    BackFromIsRecursive(items, used, current, k, i + 1);
    assert FreeCount(used, i + 1) == FreeCount(used, i);
    BackFromSkip(items, used, current, k, i);
  }

  /** A used item adds nothing to the loop's output. */
  lemma BackFromSkip<T>(items: seq<T>, used: seq<bool>, current: seq<T>, k: nat, i: nat)
    requires |used| == |items| && k > 0 && i < |items| && used[i]
    ensures BackFrom(items, used, current, k, i) == BackFrom(items, used, current, k, i + 1)
  {
    var rest := BackFrom(items, used, current, k, i + 1);
    assert [] + rest == rest;
  }

  /** One loop iteration that picks the unused item i. */
  lemma {:induction false} BackStepUnused<T>(items: seq<T>, used: seq<bool>, current: seq<T>, k: nat, i: nat)
    requires |used| == |items| && k > 0 && i < |items| && !used[i]
    ensures FreeCount(used, i) < |Unused(items, used, |items|)|
    ensures BackFrom(items, used, current, k, i)
         == PrependSeq(current, GenerateFrom(Unused(items, used, |items|), k, FreeCount(used, i)))
    decreases k, |items| - i, 0
  {
    BackFromIsRecursive(items, used, current, k, i + 1);
    var unused := Unused(items, used, |items|);
    var c := FreeCount(used, i);
    UnusedAt(items, used, |items|, i);
    UnusedMark(items, used, |items|, i);
    assert FreeCount(used, i + 1) == c + 1;
    BackIsRecursive(items, used[i := true], current + [items[i]], k - 1);
    var sub := GenerateRecursive(Remove(unused, c), k - 1);
    var here := Back(items, used[i := true], current + [items[i]], k - 1);
    var rest := GenerateFrom(unused, k, c + 1);
    assert GenerateFrom(unused, k, c) == PrependAll(items[i], sub) + rest;
    PrependSeqGlue(current, items[i], sub, rest);
    assert BackFrom(items, used, current, k, i) == here + BackFrom(items, used, current, k, i + 1);
  }

  lemma PrependSeqGlue<T>(c: seq<T>, x: T, sub: seq<seq<T>>, rest: seq<seq<T>>)
    ensures PrependSeq(c + [x], sub) + PrependSeq(c, rest) == PrependSeq(c, PrependAll(x, sub) + rest)
  {
    PrependSeqPrependAll(c, x, sub);
    PrependSeqAppend(c, PrependAll(x, sub), rest);
  }

  lemma {:induction false} UnusedNone<T>(items: seq<T>, used: seq<bool>, n: nat)
    requires |used| == |items| && n <= |items|
    requires forall j | 0 <= j < |used| :: !used[j]
    ensures Unused(items, used, n) == items[..n]
  {
    if n > 0 {
      UnusedNone(items, used, n - 1);
      assert items[..n] == items[..n - 1] + [items[n - 1]];
    }
  }

  /** `_generate_backtracking(items, k)` lists exactly what `_generate_recursive(items, k)` lists, in the same order. */
  lemma BacktrackingIsRecursive<T>(items: seq<T>, k: nat)
    ensures Back(items, seq(|items|, _ => false), [], k) == GenerateRecursive(items, k)
  {
    var used := seq(|items|, _ => false);
    UnusedNone(items, used, |items|);
    assert items[..|items|] == items;
    BackIsRecursive(items, used, [], k);
    var g := GenerateRecursive(items, k);
    forall j | 0 <= j < |g|
      ensures PrependSeq([], g)[j] == g[j]
    {
      assert [] + g[j] == g[j];
    }
  }

  /**
   * `backtrack(current, used, remaining_k)`: chooses each unused item in turn,
   * marks it, recurses, and unmarks it. The list `result` it appends to is threaded
   * through as a value.
   */
  method Backtrack<T>(items: seq<T>, used: array<bool>, current: seq<T>, remainingK: nat, acc: seq<seq<T>>)
    returns (result: seq<seq<T>>)
    requires used.Length == |items|
    modifies used
    ensures used[..] == old(used[..])
    ensures result == acc + Back(items, old(used[..]), current, remainingK)
    decreases remainingK
  {
    if remainingK == 0 {
      return acc + [current];
    }
    ghost var flags := used[..];
    result := acc;
    for i := 0 to |items|
      invariant used[..] == flags
      invariant result + BackFrom(items, flags, current, remainingK, i) == acc + Back(items, flags, current, remainingK)
    {
      if !used[i] {
        used[i] := true;
        assert used[..] == flags[i := true];
        result := Backtrack(items, used, current + [items[i]], remainingK - 1, result);
        used[i] := false;
        assert used[..] == flags;
      }
    }
  }

  /** `_generate_backtracking(items, k)`. */
  method GenerateBacktracking<T>(items: seq<T>, k: nat) returns (result: seq<seq<T>>)
    ensures result == GenerateRecursive(items, k)
  {
    var used := new bool[|items|](_ => false);
    assert used[..] == seq(|items|, _ => false);
    result := Backtrack(items, used, [], k, []);
    BacktrackingIsRecursive(items, k);
  }

  /**
   * `permutation_iterator(items, k)`: the lists it yields, in order. Past validation
   * it runs the same backtracking as `_generate_backtracking`.
   */
  function PermutationIterator<T>(items: seq<T>, k: int): (r: Result<seq<seq<T>>>)
    ensures r.Err? <==> CombinatoricsValidation.ValidateInputs(|items|, k).Some?
    ensures r.Ok? ==> r.value == GenerateRecursive(items, k)
  {
    match CombinatoricsValidation.ValidateInputs(|items|, k)
    case Some(e) => Err(e)
    case None =>
      if k == 0 then Ok([[]])
      else
        BacktrackingIsRecursive(items, k);
        Ok(Back(items, seq(|items|, _ => false), [], k))
  }

  // ---------------------------------------------------------------- next permutation

  /** Step 1 of `_next_permutation`: from i downwards, the first i with s[i] < s[i+1], or -1. */
  function ScanAscent(s: seq<int>, i: int): (r: int)
    requires -1 <= i <= |s| - 2
    ensures -1 <= r <= i
    ensures r >= 0 ==> s[r] < s[r + 1]
    ensures forall m | r < m <= i :: s[m] >= s[m + 1]
    decreases i + 1
  {
    if i >= 0 && s[i] >= s[i + 1] then ScanAscent(s, i - 1) else i
  }

  /** Step 2: from j downwards, the first j with s[j] > s[i]. */
  function ScanAbove(s: seq<int>, i: nat, j: nat): (r: nat)
    requires i < j < |s| && s[i] < s[i + 1]
    ensures i < r <= j && s[r] > s[i]
    ensures forall m | r < m <= j :: s[m] <= s[i]
    decreases j
  {
    if s[j] <= s[i] then ScanAbove(s, i, j - 1) else j
  }

  /**
   * `_next_permutation` on a non-empty list, as a value: None when no ascent exists;
   * otherwise the list with s[i] and s[j] exchanged and the part after i reversed.
   */
  function NextArrangement(s: seq<int>): Option<seq<int>>
    requires |s| >= 1
  {
    var i := ScanAscent(s, |s| - 2);
    if i == -1 then None
    else
      var j := ScanAbove(s, i, |s| - 1);
      var t := s[i := s[j]][j := s[i]];
      Some(t[..i + 1] + Reverse(t[i + 1..]))
  }

  /** The successor spelled out for a known pivot and partner. */
  lemma NextArrangementUnfold(s: seq<int>, i: int, j: nat)
    requires |s| >= 1 && i == ScanAscent(s, |s| - 2) && i >= 0
    requires j == ScanAbove(s, i, |s| - 1)
    ensures NextArrangement(s) == Some(s[i := s[j]][j := s[i]][..i + 1] + Reverse(s[i := s[j]][j := s[i]][i + 1..]))
  {
  }

  /** The successor is missing exactly for the last arrangement, the non-increasing one. */
  lemma NextArrangementNone(s: seq<int>)
    requires |s| >= 1
    ensures NextArrangement(s).None? <==> NonIncreasing(s)
  {
    var i := ScanAscent(s, |s| - 2);
    if i == -1 {
      AdjacentNonIncreasing(s);
    } else {
      assert s[i] < s[i + 1];
    }
  }

  /** The pivot i of a list with an ascent. */
  function Pivot(s: seq<int>): (i: nat)
    requires |s| >= 1 && NextArrangement(s).Some?
    ensures i < |s| - 1
  {
    ScanAscent(s, |s| - 2)
  }

  /** The partner j of the pivot: the last position holding a value above s[i]. */
  function Partner(s: seq<int>): (j: nat)
    requires |s| >= 1 && NextArrangement(s).Some?
    ensures Pivot(s) < j < |s|
  {
    ScanAbove(s, Pivot(s), |s| - 1)
  }

  /** What the two scans establish about s. */
  lemma ScanFacts(s: seq<int>)
    requires |s| >= 1 && NextArrangement(s).Some?
    ensures NonIncreasing(s[Pivot(s) + 1..])
    ensures s[Pivot(s)] < s[Partner(s)]
    ensures forall m | Partner(s) < m < |s| :: s[m] <= s[Pivot(s)]
  {
    var i := Pivot(s);
    AdjacentNonIncreasing(s[i + 1..]);
  }

  /** The successor agrees with s before the pivot and holds s[j] at the pivot. */
  lemma SuccessorPrefix(s: seq<int>)
    requires |s| >= 1 && NextArrangement(s).Some?
    ensures |NextArrangement(s).value| == |s|
    ensures forall m | 0 <= m < Pivot(s) :: NextArrangement(s).value[m] == s[m]
    ensures NextArrangement(s).value[Pivot(s)] == s[Partner(s)]
  {
  }

  /** The successor is an arrangement of the same elements. */
  lemma SuccessorMultiset(s: seq<int>)
    requires |s| >= 1 && NextArrangement(s).Some?
    ensures multiset(NextArrangement(s).value) == multiset(s)
  {
    var i, j := Pivot(s), Partner(s);
    var t := s[i := s[j]][j := s[i]];
    assert multiset(t) == multiset(s);
    ReverseMultiset(t[i + 1..]);
    assert t == t[..i + 1] + t[i + 1..];
  }

  /** After the pivot the successor is in ascending order. */
  lemma SuccessorTailSorted(s: seq<int>)
    requires |s| >= 1 && NextArrangement(s).Some?
    ensures Sorted(NextArrangement(s).value[Pivot(s) + 1..])
  {
    ScanFacts(s);
    var i, j := Pivot(s), Partner(s);
    var t := s[i := s[j]][j := s[i]];
    var tail := t[i + 1..];
    forall a, b | 0 <= a < b < |tail|
      ensures tail[a] >= tail[b]
    {
      assert s[i + 1..][a] >= s[i + 1..][b];
      if i + 1 + b == j {
        assert s[i + 1 + a] >= s[j];
      } else if i + 1 + a == j {
        assert s[i + 1 + b] <= s[i];
      }
    }
    assert NextArrangement(s).value[i + 1..] == Reverse(tail);
  }

  /**
   * `_next_permutation` turns s into its lexicographic successor: an arrangement
   * of the same elements, larger than s, and no larger than any other such arrangement.
   */
  lemma NextArrangementIsSuccessor(s: seq<int>, q: seq<int>)
    requires |s| >= 1 && NextArrangement(s).Some?
    requires |q| == |s| && multiset(q) == multiset(s) && LexLess(s, q)
    ensures multiset(NextArrangement(s).value) == multiset(s)
    ensures LexLess(s, NextArrangement(s).value)
    ensures NextArrangement(s).value == q || LexLess(NextArrangement(s).value, q)
  {
    ScanFacts(s);
    SuccessorPrefix(s);
    SuccessorMultiset(s);
    var i := Pivot(s);
    var u := NextArrangement(s).value;
    assert LexLessAt(s, u, i);
    var p: nat :| LexLessAt(s, q, p);
    FirstDifferenceNotAfterPivot(s, q, p);
    if p < i {
      assert LexLessAt(s, q, p);
      assert LexLessAt(u, q, p);
    } else {
      SuccessorAtPivot(s, q);
    }
  }

  /** A larger arrangement of the same elements first leaves s no later than the pivot. */
  lemma FirstDifferenceNotAfterPivot(s: seq<int>, q: seq<int>, p: nat)
    requires |s| >= 1 && NextArrangement(s).Some?
    requires |q| == |s| && multiset(q) == multiset(s) && LexLessAt(s, q, p)
    ensures p <= Pivot(s)
  {
    if p > Pivot(s) {
      SuffixMultiset(s, q, p);
      assert q[p] in multiset(q[p..]) by { assert q[p..][0] == q[p]; }
      InSuffix(s, p, q[p]);
      var m :| p <= m < |s| && s[m] == q[p];
      NonIncreasingAfterPivot(s, p, m);
      assert false;
    }
  }

  /** After the pivot the list does not increase. */
  lemma NonIncreasingAfterPivot(s: seq<int>, a: nat, b: nat)
    requires |s| >= 1 && NextArrangement(s).Some?
    requires Pivot(s) < a <= b < |s|
    ensures s[a] >= s[b]
  {
    ScanFacts(s);
    var i := Pivot(s);
    if a < b {
      assert s[i + 1..][a - i - 1] >= s[i + 1..][b - i - 1];
    }
  }

  /** Every value after the pivot that exceeds s[i] is at least s[j]. */
  lemma AboveIsAtLeastPartner(s: seq<int>, m: nat)
    requires |s| >= 1 && NextArrangement(s).Some?
    requires Pivot(s) < m < |s| && s[m] > s[Pivot(s)]
    ensures s[m] >= s[Partner(s)]
  {
    ScanFacts(s);
    var i, j := Pivot(s), Partner(s);
    assert m <= j;
    assert s[i + 1..][m - (i + 1)] >= s[i + 1..][j - (i + 1)];
  }

  /** The case where q first leaves s at the pivot position. */
  lemma SuccessorAtPivot(s: seq<int>, q: seq<int>)
    requires |s| >= 1 && NextArrangement(s).Some?
    requires |q| == |s| && multiset(q) == multiset(s)
    requires LexLessAt(s, q, Pivot(s))
    ensures NextArrangement(s).value == q || LexLess(NextArrangement(s).value, q)
  {
    SuccessorPrefix(s);
    var i := Pivot(s);
    var u := NextArrangement(s).value;
    SuffixMultiset(s, q, i);
    assert q[i] in multiset(q[i..]) by { assert q[i..][0] == q[i]; }
    InSuffix(s, i, q[i]);
    var m :| i <= m < |s| && s[m] == q[i];
    AboveIsAtLeastPartner(s, m);
    if q[i] > u[i] {
      assert LexLessAt(u, q, i);
    } else {
      SuccessorEqualAtPivot(s, q);
    }
  }

  /** When q also holds s[j] at the pivot, the sorted tail of the successor decides. */
  lemma SuccessorEqualAtPivot(s: seq<int>, q: seq<int>)
    requires |s| >= 1 && NextArrangement(s).Some?
    requires |q| == |s| && multiset(q) == multiset(s)
    requires forall m | 0 <= m < Pivot(s) :: q[m] == s[m]
    requires q[Pivot(s)] == NextArrangement(s).value[Pivot(s)]
    ensures NextArrangement(s).value == q || LexLess(NextArrangement(s).value, q)
  {
    SuccessorPrefix(s);
    SuccessorMultiset(s);
    SuccessorTailSorted(s);
    SortedTailIsLeast(NextArrangement(s).value, q, Pivot(s) + 1);
  }

  /** Among lists agreeing before n, the one whose part from n on is sorted is the least. */
  lemma SortedTailIsLeast(u: seq<int>, q: seq<int>, n: nat)
    requires |u| == |q| && n <= |u| && multiset(u) == multiset(q)
    requires forall m | 0 <= m < n :: u[m] == q[m]
    requires Sorted(u[n..])
    ensures u == q || LexLess(u, q)
  {
    SuffixMultiset(u, q, n);
    SortedIsLexMin(u[n..], q[n..]);
    if u[n..] == q[n..] {
      AgreeThenEqual(u, q, n);
    } else {
      var p: nat :| LexLessAt(u[n..], q[n..], p);
      LexLessAfter(u, q, n, p);
    }
  }

  /** Lists that agree before n and from n on are equal. */
  lemma AgreeThenEqual(u: seq<int>, q: seq<int>, n: nat)
    requires |u| == |q| && n <= |u|
    requires forall m | 0 <= m < n :: u[m] == q[m]
    requires u[n..] == q[n..]
    ensures u == q
  {
    forall m | n <= m < |u|
      ensures u[m] == q[m]
    {
      assert u[n..][m - n] == q[n..][m - n];
    }
  }

  /** Agreeing before n and being smaller from n on makes u smaller. */
  lemma LexLessAfter(u: seq<int>, q: seq<int>, n: nat, p: nat)
    requires |u| == |q| && n <= |u|
    requires forall m | 0 <= m < n :: u[m] == q[m]
    requires LexLessAt(u[n..], q[n..], p)
    ensures LexLess(u, q)
  {
    forall m | n <= m < n + p
      ensures u[m] == q[m]
    {
      assert u[n..][m - n] == q[n..][m - n];
    }
    assert u[n..][p] < q[n..][p];
    assert LexLessAt(u, q, n + p);
  }

  /**
   * `_next_permutation(arr)`: on an empty list the negative index raises IndexError;
   * otherwise arr is rearranged in place into its successor, or left alone and
   * False returned when it is the last arrangement.
   */
  method NextPermutation(a: array<int>) returns (r: Result<bool>)
    modifies a
    ensures r.Err? <==> a.Length == 0
    ensures r.Err? ==> a[..] == old(a[..])
    ensures r.Ok? ==> (r.value <==> NextArrangement(old(a[..])).Some?)
    ensures r.Ok? ==> a[..] == if r.value then NextArrangement(old(a[..])).value else old(a[..])
  {
    if a.Length == 0 {
      return Err(IndexError("list index out of range"));
    }
    ghost var s := a[..];
    var i := FindPivot(a[..]);
    if i == -1 {
      assert NextArrangement(s) == None;
      return Ok(false);
    }
    var j := FindPartner(a[..], i);
    NextArrangementUnfold(s, i, j);
    ghost var t := s[i := s[j]][j := s[i]];
    a[i], a[j] := a[j], a[i];
    assert a[..] == t;
    ReverseSuffix(a, i + 1);
    assert a[..] == NextArrangement(s).value;
    return Ok(true);
  }

  /** Step 1 of `_next_permutation` as a loop: walk left while the list does not ascend. */
  method FindPivot(s: seq<int>) returns (i: int)
    requires |s| >= 1
    ensures i == ScanAscent(s, |s| - 2)
  {
    i := |s| - 2;
    while i >= 0 && s[i] >= s[i + 1]
      invariant -1 <= i <= |s| - 2
      invariant ScanAscent(s, i) == ScanAscent(s, |s| - 2)
      decreases i + 1
    {
      i := i - 1;
    }
  }

  /** Step 2 as a loop: walk left from the end to the first value above s[i]. */
  method FindPartner(s: seq<int>, i: nat) returns (j: nat)
    requires i < |s| - 1 && s[i] < s[i + 1]
    ensures j == ScanAbove(s, i, |s| - 1)
  {
    j := |s| - 1;
    while s[j] <= s[i]
      invariant i < j < |s|
      invariant ScanAbove(s, i, j) == ScanAbove(s, i, |s| - 1)
      decreases j
    {
      j := j - 1;
    }
  }

  /** `arr[start:] = reversed(arr[start:])`. */
  method ReverseSuffix(a: array<int>, start: nat)
    requires start <= a.Length
    modifies a
    ensures a[..] == old(a[..])[..start] + Reverse(old(a[..])[start..])
  {
    var t := a[..];
    forall m | start <= m < a.Length {
      a[m] := t[a.Length - 1 - (m - start)];
    }
    ghost var u := t[..start] + Reverse(t[start..]);
    forall m | 0 <= m < a.Length
      ensures a[m] == u[m]
    {
      if m >= start {
        var k := m - start;
        assert u[m] == Reverse(t[start..])[k];
        assert Reverse(t[start..])[k] == t[start..][|t| - start - 1 - k];
      }
    }
    assert a[..] == u;
  }

  // ---------------------------------------------------------------- lexicographic generation

  /** q uses every item exactly once. */
  predicate IsArrangement<T(==)>(q: seq<T>, items: seq<T>)
  {
    |q| == |items| && multiset(q) == multiset(items)
  }

  /** The arrangements of the items that come after x: finitely many, so a termination measure. */
  ghost function Above(items: seq<int>, x: seq<int>): set<seq<int>>
  {
    set q | q in GenerateRecursive(items, |items|) && LexLess(x, q)
  }

  /** Moving to a larger arrangement shrinks the set of those still ahead. */
  lemma AboveShrinks(items: seq<int>, x: seq<int>, y: seq<int>)
    requires IsArrangement(y, items) && LexLess(x, y)
    ensures Above(items, y) < Above(items, x)
  {
    GenerateRecursiveComplete(items, |items|, y);
    assert y in Above(items, x);
    LexLessIrreflexive(y);
    forall q | q in Above(items, y)
      ensures q in Above(items, x)
    {
      LexLessTransitive(x, y, q);
    }
  }

  /** Every arrangement not beyond x is already listed. */
  ghost predicate CoversUpTo(items: seq<int>, listed: seq<seq<int>>, x: seq<int>)
  {
    forall q | IsArrangement(q, items) && !LexLess(x, q) :: q in listed
  }

  /** Each listed arrangement is lexicographically smaller than the next one. */
  predicate StrictlyIncreasing(listed: seq<seq<int>>)
  {
    forall t | 0 < t < |listed| :: LexLess(listed[t - 1], listed[t])
  }

  /** The sorted list is the first arrangement. */
  lemma CoversSorted(items: seq<int>)
    ensures CoversUpTo(items, [SortedCopy(items)], SortedCopy(items))
  {
    forall q | IsArrangement(q, items) && !LexLess(SortedCopy(items), q)
      ensures q in [SortedCopy(items)]
    {
      SortedIsLexMin(SortedCopy(items), q);
    }
  }

  /** Appending the successor keeps the list complete up to the new last element. */
  lemma CoversStep(items: seq<int>, listed: seq<seq<int>>, last: seq<int>)
    requires |last| >= 1 && NextArrangement(last).Some? && IsArrangement(last, items)
    requires CoversUpTo(items, listed, last)
    ensures CoversUpTo(items, listed + [NextArrangement(last).value], NextArrangement(last).value)
  {
    var next := NextArrangement(last).value;
    SuccessorMultiset(last);
    forall q | IsArrangement(q, items) && !LexLess(next, q)
      ensures q in listed + [next]
    {
      if LexLess(last, q) {
        NextArrangementIsSuccessor(last, q);
      } else {
        assert q in listed;
      }
    }
  }

  /** Once the last element is non-increasing, every arrangement is listed. */
  lemma CoversAll(items: seq<int>, listed: seq<seq<int>>, last: seq<int>)
    requires IsArrangement(last, items) && NonIncreasing(last)
    requires CoversUpTo(items, listed, last)
    ensures forall q | IsArrangement(q, items) :: q in listed
  {
    forall q | IsArrangement(q, items)
      ensures q in listed
    {
      NonIncreasingIsLexMax(last, q);
    }
  }

  /** What the lexicographic listing keeps true: it starts sorted, uses the items, increases, and skips nothing. */
  ghost predicate LexListing(items: seq<int>, listed: seq<seq<int>>)
  {
    && |listed| >= 1 && listed[0] == SortedCopy(items)
    && (forall t | 0 <= t < |listed| :: IsArrangement(listed[t], items))
    && StrictlyIncreasing(listed)
    && CoversUpTo(items, listed, listed[|listed| - 1])
  }

  lemma ListingStart(items: seq<int>)
    ensures LexListing(items, [SortedCopy(items)])
  {
    CoversSorted(items);
  }

  /** Appending the successor of the last listed arrangement keeps the listing invariant. */
  lemma ListingStep(items: seq<int>, listed: seq<seq<int>>)
    requires LexListing(items, listed) && |items| >= 1
    requires NextArrangement(listed[|listed| - 1]).Some?
    ensures IsArrangement(NextArrangement(listed[|listed| - 1]).value, items)
    ensures LexListing(items, listed + [NextArrangement(listed[|listed| - 1]).value])
  {
    var last := listed[|listed| - 1];
    var next := NextArrangement(last).value;
    SuccessorMultiset(last);
    NextArrangementIsSuccessorLess(last);
    CoversStep(items, listed, last);
    var longer := listed + [next];
    forall t | 0 <= t < |longer|
      ensures IsArrangement(longer[t], items)
    {
      if t < |listed| {
        assert longer[t] == listed[t];
      }
    }
    forall t | 0 < t < |longer|
      ensures LexLess(longer[t - 1], longer[t])
    {
      if t < |listed| {
        assert longer[t - 1] == listed[t - 1] && longer[t] == listed[t];
      }
    }
  }

  /**
   * `_generate_lexicographic(items)`: starts from `sorted(items)` and appends each
   * successor found by `_next_permutation` until there is none. On an empty list the
   * first `_next_permutation` call raises IndexError.
   */
  method GenerateLexicographic(items: seq<int>) returns (r: Result<seq<seq<int>>>)
    ensures r.Err? <==> |items| == 0
    ensures r.Ok? ==> |r.value| >= 1 && r.value[0] == SortedCopy(items)
    ensures r.Ok? ==> forall t | 0 <= t < |r.value| :: IsArrangement(r.value[t], items)
    ensures r.Ok? ==> StrictlyIncreasing(r.value)
    ensures r.Ok? ==> forall q | IsArrangement(q, items) :: q in r.value
  {
    var sortedItems := SortedCopy(items);
    var arr := new int[|items|](k requires 0 <= k < |items| => sortedItems[k]);
    assert arr[..] == sortedItems;
    var result := [arr[..]];
    var step := NextPermutation(arr);
    if step.Err? {
      return Err(step.error);
    }
    NextArrangementNone(sortedItems);
    ListingStart(items);
    while step.value
      invariant arr.Length == |items| > 0 && step.Ok?
      invariant LexListing(items, result)
      invariant step.value ==> NextArrangement(result[|result| - 1]) == Some(arr[..])
      invariant !step.value ==> arr[..] == result[|result| - 1] && NonIncreasing(arr[..])
      decreases Above(items, arr[..]), if step.value then 1 else 0
    {
      ListingStep(items, result);
      result := result + [arr[..]];
      ghost var measure := Above(items, arr[..]);
      step := NextPermutation(arr);
      NextArrangementNone(result[|result| - 1]);
      if step.value {
        ListingStep(items, result);
        NextArrangementIsSuccessorLess(result[|result| - 1]);
        AboveShrinks(items, result[|result| - 1], arr[..]);
      }
    }
    CoversAll(items, result, arr[..]);
    return Ok(result);
  }

  /** The successor is larger than the list it follows. */
  lemma NextArrangementIsSuccessorLess(s: seq<int>)
    requires |s| >= 1 && NextArrangement(s).Some?
    ensures LexLess(s, NextArrangement(s).value)
  {
    ScanFacts(s);
    SuccessorPrefix(s);
    assert LexLessAt(s, NextArrangement(s).value, Pivot(s));
  }

  // ---------------------------------------------------------------- Heap's algorithm

  /** The position exchanged with k-1 in iteration i: i when k is even, 0 when k is odd. */
  function HeapSwapIndex(k: nat, i: nat): nat
  {
    if k % 2 == 0 then i else 0
  }

  /** `s[a], s[b] = s[b], s[a]` as a value. */
  function Swap<T>(s: seq<T>, a: nat, b: nat): (r: seq<T>)
    requires a < |s| && b < |s|
    ensures |r| == |s|
  {
    s[a := s[b]][b := s[a]]
  }

  /** Exchanging two positions keeps the elements and every other position. */
  lemma SwapFacts<T>(s: seq<T>, a: nat, b: nat)
    requires a < |s| && b < |s|
    ensures multiset(Swap(s, a, b)) == multiset(s)
    ensures forall m | 0 <= m < |s| && m != a && m != b :: Swap(s, a, b)[m] == s[m]
  {
  }

  /**
   * `generate(k, arr)` as a value: the lists it appends to the result, and the
   * arrangement it leaves in arr.
   */
  function HeapRun<T>(k: nat, s: seq<T>): (r: (seq<seq<T>>, seq<T>))
    requires 1 <= k <= |s|
    ensures |r.1| == |s|
    decreases k, k
  {
    if k == 1 then ([s], s)
    else
      var first := HeapRun(k - 1, s);
      var rest := HeapLoop(k, 0, first.1);
      (first.0 + rest.0, rest.1)
  }

  /** Iterations i, i+1, ..., k-2 of the loop in `generate(k, arr)`. */
  function HeapLoop<T>(k: nat, i: nat, s: seq<T>): (r: (seq<seq<T>>, seq<T>))
    requires 2 <= k <= |s| && i <= k - 1
    ensures |r.1| == |s|
    decreases k, k - 1 - i
  {
    if i == k - 1 then ([], s)
    else
      var swapped := Swap(s, HeapSwapIndex(k, i), k - 1);
      var sub := HeapRun(k - 1, swapped);
      var rest := HeapLoop(k, i + 1, sub.1);
      (sub.0 + rest.0, rest.1)
  }

  /** Each listed arrangement and the final one use the elements of s. */
  ghost predicate HeapOutcome<T>(s: seq<T>, out: (seq<seq<T>>, seq<T>))
  {
    && |out.1| == |s| && multiset(out.1) == multiset(s)
    && forall p | p in out.0 :: |p| == |s| && multiset(p) == multiset(s)
  }

  lemma Arith(k: nat, f: nat)
    requires k >= 2
    ensures f + (k - 1) * f == k * f
  {
  }

  /** Heap's algorithm lists k! arrangements. */
  lemma {:induction false} HeapRunCount<T>(k: nat, s: seq<T>)
    requires 1 <= k <= |s|
    ensures |HeapRun(k, s).0| == Factorial.Fact(k)
    decreases k, k
  {
    if k > 1 {
      var first := HeapRun(k - 1, s);
      HeapRunCount(k - 1, s);
      HeapLoopCount(k, 0, first.1);
      Arith(k, Factorial.Fact(k - 1));
    }
  }

  lemma {:induction false} HeapLoopCount<T>(k: nat, i: nat, s: seq<T>)
    requires 2 <= k <= |s| && i <= k - 1
    ensures |HeapLoop(k, i, s).0| == (k - 1 - i) * Factorial.Fact(k - 1)
    decreases k, k - 1 - i
  {
    if i < k - 1 {
      var swapped := Swap(s, HeapSwapIndex(k, i), k - 1);
      var sub := HeapRun(k - 1, swapped);
      var rest := HeapLoop(k, i + 1, sub.1);
      HeapRunCount(k - 1, swapped);
      HeapLoopCount(k, i + 1, sub.1);
      HeapLoopUnfold(k, i, s);
      CountStep(k, i, |sub.0|, |rest.0|, Factorial.Fact(k - 1));
    }
  }

  lemma CountStep(k: nat, i: nat, a: int, b: int, f: int)
    requires i < k - 1 && a == f && b == (k - 1 - (i + 1)) * f
    ensures a + b == (k - 1 - i) * f
  {
    assert (k - 1 - i) * f == f + (k - 1 - (i + 1)) * f;
  }

  /** Running one stage after another composes their outcomes. */
  lemma OutcomeCompose<T>(s: seq<T>, a: (seq<seq<T>>, seq<T>), b: (seq<seq<T>>, seq<T>))
    requires HeapOutcome(s, a) && HeapOutcome(a.1, b)
    ensures HeapOutcome(s, (a.0 + b.0, b.1))
  {
  }

  /** Every list Heap's algorithm records, and the final state, is an arrangement of the input. */
  lemma {:induction false} HeapRunOutcome<T>(k: nat, s: seq<T>)
    requires 1 <= k <= |s|
    ensures HeapOutcome(s, HeapRun(k, s))
    decreases k, k
  {
    if k > 1 {
      var first := HeapRun(k - 1, s);
      HeapRunOutcome(k - 1, s);
      HeapLoopOutcome(k, 0, first.1);
      OutcomeCompose(s, first, HeapLoop(k, 0, first.1));
    }
  }

  lemma {:induction false} HeapLoopOutcome<T>(k: nat, i: nat, s: seq<T>)
    requires 2 <= k <= |s| && i <= k - 1
    ensures HeapOutcome(s, HeapLoop(k, i, s))
    decreases k, k - 1 - i
  {
    if i < k - 1 {
      var swapped := Swap(s, HeapSwapIndex(k, i), k - 1);
      SwapFacts(s, HeapSwapIndex(k, i), k - 1);
      var sub := HeapRun(k - 1, swapped);
      HeapRunOutcome(k - 1, swapped);
      HeapLoopOutcome(k, i + 1, sub.1);
      OutcomeCompose(s, sub, HeapLoop(k, i + 1, sub.1));
    } else {
      assert HeapLoop(k, i, s) == ([], s);
    }
  }

  /** One iteration of the loop in `generate(k, arr)`. */
  lemma HeapLoopUnfold<T>(k: nat, i: nat, s: seq<T>)
    requires 2 <= k <= |s| && i < k - 1
    ensures var sub := HeapRun(k - 1, Swap(s, HeapSwapIndex(k, i), k - 1));
            HeapLoop(k, i, s) == (sub.0 + HeapLoop(k, i + 1, sub.1).0, HeapLoop(k, i + 1, sub.1).1)
  {
  }

  /** `generate(k, arr)`: the nested function of `_generate_heaps`, result list threaded as a value. */
  method HeapGenerate<T>(k: nat, arr: array<T>, acc: seq<seq<T>>) returns (result: seq<seq<T>>)
    requires 1 <= k <= arr.Length
    modifies arr
    ensures result == acc + HeapRun(k, old(arr[..])).0
    ensures arr[..] == HeapRun(k, old(arr[..])).1
    decreases k, 1
  {
    if k == 1 {
      return acc + [arr[..]];
    }
    ghost var s := arr[..];
    result := HeapGenerate(k - 1, arr, acc);
    for i := 0 to k - 1
      invariant result + HeapLoop(k, i, arr[..]).0 == acc + HeapRun(k, s).0
      invariant HeapLoop(k, i, arr[..]).1 == HeapRun(k, s).1
    {
      result := HeapIteration(k, i, arr, result);
    }
  }

  /** Iteration i of the loop in `generate(k, arr)`: swap, then generate the first k-1 positions. */
  method HeapIteration<T>(k: nat, i: nat, arr: array<T>, acc: seq<seq<T>>) returns (result: seq<seq<T>>)
    requires 2 <= k <= arr.Length && i < k - 1
    modifies arr
    ensures result + HeapLoop(k, i + 1, arr[..]).0 == acc + HeapLoop(k, i, old(arr[..])).0
    ensures HeapLoop(k, i + 1, arr[..]).1 == HeapLoop(k, i, old(arr[..])).1
    decreases k, 0
  {
    ghost var before := arr[..];
    if k % 2 == 0 {
      arr[i], arr[k - 1] := arr[k - 1], arr[i];
    } else {
      arr[0], arr[k - 1] := arr[k - 1], arr[0];
    }
    assert arr[..] == Swap(before, HeapSwapIndex(k, i), k - 1);
    result := HeapGenerate(k - 1, arr, acc);
    HeapLoopUnfold(k, i, before);
  }

  /** `_generate_heaps(items)`: Heap's algorithm on a copy of the items. */
  method GenerateHeaps<T>(items: seq<T>) returns (result: seq<seq<T>>)
    requires |items| >= 1
    ensures |result| == Factorial.Fact(|items|)
    ensures forall p | p in result :: IsArrangement(p, items)
  {
    var arr := new T[|items|](k requires 0 <= k < |items| => items[k]);
    assert arr[..] == items;
    result := HeapGenerate(|items|, arr, []);
    HeapRunCount(|items|, items);
    HeapRunOutcome(|items|, items);
  }

  // ---------------------------------------------------------------- dispatcher

  /**
   * `generate_permutations(items, k, method)`: validates, answers [[]] for k = 0, and
   * otherwise runs the chosen generator; LEXICOGRAPHIC and HEAPS only handle k = n
   * and fall back to the recursive generator below that.
   */
  method GeneratePermutations(items: seq<int>, k: int, m: PermutationMethod := Recursive) returns (r: Result<seq<seq<int>>>)
    ensures CombinatoricsValidation.ValidateInputs(|items|, k).Some? ==>
      r == Err(CombinatoricsValidation.ValidateInputs(|items|, k).value)
    ensures CombinatoricsValidation.ValidateInputs(|items|, k).None? ==> (r.Err? <==> m.Unsupported? && k != 0)
    ensures CombinatoricsValidation.ValidateInputs(|items|, k).None? && r.Err? ==>
      r.error == ValueError("Unsupported method: " + m.name)
    ensures r.Ok? && k == 0 ==> r.value == [[]]
    ensures r.Ok? ==> forall p | p in r.value :: DrawnFrom(p, items, k)
    ensures r.Ok? && m != Heaps ==> forall p | DrawnFrom(p, items, k) :: p in r.value
    ensures r.Ok? && m != Lexicographic ==> |r.value| == Falling(|items|, k)
    ensures r.Ok? && (m == Recursive || m == Backtracking || k < |items|) ==> r.value == GenerateRecursive(items, k)
    ensures r.Ok? && m == Lexicographic && k == |items| > 0 ==> |r.value| >= 1 && r.value[0] == SortedCopy(items) && StrictlyIncreasing(r.value)
  {
    var check := CombinatoricsValidation.ValidateInputs(|items|, k);
    if check.Some? {
      return Err(check.value);
    }
    if k == 0 {
      return Ok([[]]);
    }
    if m.Unsupported? {
      return Err(ValueError("Unsupported method: " + m.name));
    }
    var n := |items|;
    var result: seq<seq<int>>;
    if m == Recursive || (m == Lexicographic && k != n) || (m == Heaps && k != n) {
      result := GenerateRecursive(items, k);
    } else if m == Backtracking {
      result := GenerateBacktracking(items, k);
    } else if m == Lexicographic {
      var lex := GenerateLexicographic(items);
      result := lex.value;
      forall p | DrawnFrom(p, items, k)
        ensures p in result
      {
        DrawnFromAll(p, items);
      }
    } else {
      result := GenerateHeaps(items);
      FallingFactorial(n, n);
    }
    if result == GenerateRecursive(items, k) {
      GenerateRecursiveShape(items, k);
      forall p | DrawnFrom(p, items, k)
        ensures p in result
      {
        GenerateRecursiveComplete(items, k, p);
      }
    }
    return Ok(result);
  }

  /** Drawing as many items as there are is the same as arranging all of them. */
  lemma DrawnFromAll<T>(p: seq<T>, items: seq<T>)
    requires DrawnFrom(p, items, |items|)
    ensures IsArrangement(p, items)
  {
    var d := multiset(items) - multiset(p);
    assert multiset(items) == multiset(p) + d;
    assert |multiset(items)| == |multiset(p)| + |d|;
  }
}
