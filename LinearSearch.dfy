/**
 * Linear search over a list of integers (python/search_and_sort/linear_search.py): the
 * first index of a target, or every index of it.
 */
module LinearSearch {
  import opened Sequences

  /** Line 3: the index reported when the target is absent. */
  const NOT_FOUND: int := -1

  /**
   * Lines 76-90: `linear_search_duplicates_pythonic`, the comprehension over the first
   * `n` positions, in index order.
   */
  function IndicesBelow(values: seq<int>, target: int, n: nat): seq<int>
    requires n <= |values|
  {
    if n == 0 then []
    else IndicesBelow(values, target, n - 1) + (if values[n - 1] == target then [n - 1] else [])
  }

  function LinearSearchDuplicatesPythonic(values: seq<int>, target: int): seq<int>
  {
    IndicesBelow(values, target, |values|)
  }

  /** The comprehension lists, in increasing order, exactly the positions below n holding the target. */
  lemma {:induction false} IndicesBelowFacts(values: seq<int>, target: int, n: nat)
    requires n <= |values|
    ensures Ascending(IndicesBelow(values, target, n))
    ensures forall a | 0 <= a < |IndicesBelow(values, target, n)| :: 0 <= IndicesBelow(values, target, n)[a] < n
    ensures forall i: int :: (i in IndicesBelow(values, target, n) <==> 0 <= i < n && values[i] == target)
  {
    if n > 0 {
      IndicesBelowFacts(values, target, n - 1);
    }
  }

  /** The pythonic version returns, ascending, exactly the indices holding the target. */
  lemma PythonicIsAllIndices(values: seq<int>, target: int)
    ensures Ascending(LinearSearchDuplicatesPythonic(values, target))
    ensures forall i: int :: (i in LinearSearchDuplicatesPythonic(values, target)
      <==> 0 <= i < |values| && values[i] == target)
  {
    IndicesBelowFacts(values, target, |values|);
  }

  /** The first position holding the target heads the list of all positions holding it. */
  lemma FirstMatchHeadsIndices(values: seq<int>, target: int, i: nat)
    requires i < |values| && values[i] == target
    requires forall j | 0 <= j < i :: values[j] != target
    ensures LinearSearchDuplicatesPythonic(values, target) != []
    ensures LinearSearchDuplicatesPythonic(values, target)[0] == i
  {
    var all := LinearSearchDuplicatesPythonic(values, target);
    PythonicIsAllIndices(values, target);
    assert i in all;
    assert all[0] in all;
    assert forall b | 0 <= b < |all| :: all[0] <= all[b];
  }

  /** Lines 5-37: `linear_search`, the first index holding the target, else NOT_FOUND. */
  method LinearSearch(values: seq<int>, target: int) returns (index: int)
    ensures index == NOT_FOUND <==> target !in values
    ensures index != NOT_FOUND ==> (0 <= index < |values| && values[index] == target
      && forall j | 0 <= j < index :: values[j] != target)
    ensures index == (if LinearSearchDuplicatesPythonic(values, target) == [] then NOT_FOUND
                      else LinearSearchDuplicatesPythonic(values, target)[0])
  {
    for i := 0 to |values|
      invariant forall j | 0 <= j < i :: values[j] != target
    {
      if values[i] == target {
        FirstMatchHeadsIndices(values, target, i);
        return i;
      }
    }
    PythonicIsAllIndices(values, target);
    ghost var all := LinearSearchDuplicatesPythonic(values, target);
    if all != [] {
      assert all[0] in all;
    }
    return NOT_FOUND;
  }

  /** Lines 39-74: `linear_search_duplicates`, appending each matching index in turn. */
  method LinearSearchDuplicates(values: seq<int>, target: int) returns (indices: seq<int>)
    ensures indices == LinearSearchDuplicatesPythonic(values, target)
  {
    indices := [];
    for i := 0 to |values|
      invariant indices == IndicesBelow(values, target, i)
    {
      if values[i] == target {
        indices := indices + [i];
      }
    }
  }

  /** The examples of lines 61-68. */
  lemma DuplicatesExamples()
    ensures LinearSearchDuplicatesPythonic([1, 3, 5, 3, 9, 3], 3) == [1, 3, 5]
    ensures LinearSearchDuplicatesPythonic([7, 7, 7], 7) == [0, 1, 2]
    ensures LinearSearchDuplicatesPythonic([], 5) == []
  {
    var v := [1, 3, 5, 3, 9, 3];
    assert IndicesBelow(v, 3, 2) == [1];
    assert IndicesBelow(v, 3, 4) == [1, 3];
    assert IndicesBelow(v, 3, 6) == [1, 3, 5];
  }
}
