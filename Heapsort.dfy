/**
 * Heapsort (python/sort/heapsort.py): every value is added to a max heap, the maximum is
 * removed until the heap is empty, and the resulting descending list is reversed when
 * ascending order is asked for.
 */
module Heapsort {
  import opened Wrappers
  import opened Sequences
  import Heap
  import StandaloneMaxHeap

  /** Reversing a descending list gives an ascending one. */
  lemma ReverseNonIncreasing(s: seq<int>)
    requires NonIncreasing(s)
    ensures Sorted(Reverse(s))
  {
  }

  /** The reversed descending list is the sorted arrangement of the same values. */
  lemma ReversedIsSortedCopy(s: seq<int>, arr: seq<int>)
    requires NonIncreasing(s) && multiset(s) == multiset(arr)
    ensures multiset(Reverse(s)) == multiset(arr) && Sorted(Reverse(s)) && Reverse(s) == SortedCopy(arr)
  {
    ReverseMultiset(s);
    ReverseNonIncreasing(s);
    SortedUnique(Reverse(s), SortedCopy(arr));
  }

  /**
   * Appending a maximum of the values still in the heap, all of which are at most the
   * last value appended, keeps the list descending.
   */
  lemma AppendMaximum(sorted: seq<int>, before: multiset<int>, after: multiset<int>, x: int)
    requires NonIncreasing(sorted)
    requires sorted != [] ==> forall v | v in before :: v <= sorted[|sorted| - 1]
    requires after + multiset{x} == before && forall v | v in before :: v <= x
    ensures NonIncreasing(sorted + [x])
    ensures forall v | v in after :: v <= x
  {
    assert x in before;
    forall v | v in after
      ensures v <= x
    {
      assert before[v] == after[v] + multiset{x}[v];
    }
  }

  /**
   * Lines 25-88, with the heap of python/data_structures/Heap/MaxHeap.py (the one that
   * has `remove_max`). The input is not changed; the result holds the same values,
   * ascending (the one sorted arrangement) or descending.
   */
  method Heapsort(arr: seq<int>, ascending: bool := true) returns (sortedList: seq<int>)
    ensures multiset(sortedList) == multiset(arr)
    ensures ascending ==> Sorted(sortedList) && sortedList == SortedCopy(arr)
    ensures !ascending ==> NonIncreasing(sortedList)
  {
    if arr == [] {
      return [];
    }
    var maxHeap := BuildHeap(arr);
    sortedList := ExtractAll(maxHeap);
    if ascending {
      ReversedIsSortedCopy(sortedList, arr);
      sortedList := Reverse(sortedList);
    }
  }

  /** Lines 69-70, the build phase: every value is added to a new max heap. */
  method BuildHeap(arr: seq<int>) returns (maxHeap: Heap.MaxHeap)
    ensures fresh(maxHeap) && maxHeap.Valid() && maxHeap.Values() == multiset(arr)
  {
    maxHeap := new Heap.MaxHeap();
    for i := 0 to |arr|
      invariant maxHeap.Valid() && maxHeap.Values() == multiset(arr[..i])
    {
      maxHeap.Add(arr[i]);
      assert arr[..i + 1] == arr[..i] + [arr[i]];
    }
    assert arr[..|arr|] == arr;
  }

  /**
   * Lines 73-81, the sort phase: the maximum is removed and appended until the heap is
   * empty, which lists the stored values in descending order.
   */
  method ExtractAll(maxHeap: Heap.MaxHeap) returns (sortedList: seq<int>)
    requires maxHeap.Valid()
    modifies maxHeap
    ensures maxHeap.Valid() && maxHeap.Values() == multiset{}
    ensures multiset(sortedList) == old(maxHeap.Values()) && NonIncreasing(sortedList)
  {
    sortedList := [];
    while maxHeap.size > 0
      invariant maxHeap.Valid()
      invariant multiset(sortedList) + maxHeap.Values() == old(maxHeap.Values())
      invariant NonIncreasing(sortedList)
      invariant sortedList != [] ==> forall v | v in maxHeap.Values() :: v <= sortedList[|sortedList| - 1]
      decreases maxHeap.size
    {
      ghost var before := maxHeap.Values();
      var maxValue := maxHeap.RemoveMax();
      AppendMaximum(sortedList, before, maxHeap.Values(), maxValue.value);
      sortedList := sortedList + [maxValue.value];
    }
    assert maxHeap.heap[1..] == [];
  }

  /**
   * Lines 22 and 75 as written: the stand-alone MaxHeap that line 22 imports has no
   * `remove_max`, so once every value has been added the first extraction raises
   * AttributeError; only the empty input returns normally.
   */
  method HeapsortAsWritten(arr: seq<int>, ascending: bool) returns (r: Result<seq<int>>)
    ensures arr == [] ==> r == Ok([])
    ensures arr != [] ==> r == Err(AttributeError)
  {
    if arr == [] {
      return Ok([]);
    }
    var maxHeap := new StandaloneMaxHeap.MaxHeap();
    for i := 0 to |arr|
      invariant fresh(maxHeap) && maxHeap.Valid() && maxHeap.size == i
    {
      maxHeap.Add(arr[i]);
    }
    assert maxHeap.size > 0;
    r := Err(AttributeError);
  }

  /** The one-element input of the source's tests: [42] as written fails, corrected gives [42]. */
  method SingleElement() returns (asWritten: Result<seq<int>>, corrected: seq<int>)
    ensures asWritten == Err(AttributeError) && corrected == [42]
  {
    asWritten := HeapsortAsWritten([42], true);
    corrected := Heapsort([42], true);
    assert multiset(corrected) == multiset{42};
    assert |corrected| == 1 && corrected[0] in multiset(corrected);
  }
}
