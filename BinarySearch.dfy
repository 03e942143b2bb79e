/**
 * Binary search over a sorted list of integers (python/search/binary_search.py): the
 * recursive version that searches slices, and the version that narrows a window
 * [left, right] of the original list.
 */
module BinarySearch {
  import opened Wrappers
  import opened Sequences

  /**
   * Lines 4-78: `binary_search`. The right half is searched as a fresh list, so an index
   * found there is shifted by mid + 1.
   */
  function BinarySearch(arr: seq<int>, target: int): (r: Option<nat>)
    ensures r.Some? ==> r.value < |arr| && arr[r.value] == target
    ensures Sorted(arr) && target in arr ==> r.Some?
    decreases |arr|
  {
    if |arr| == 0 then None
    else
      var mid := |arr| / 2;
      if arr[mid] == target then Some(mid)
      else if arr[mid] < target then
        SortedSuffix(arr, mid + 1);
        var right := BinarySearch(arr[mid + 1..], target);
        if right.None? then None else Some(mid + 1 + right.value)
      else
        SortedPrefix(arr, mid);
        BinarySearch(arr[..mid], target)
  }

  lemma SortedSuffix(arr: seq<int>, from: nat)
    requires from <= |arr|
    ensures Sorted(arr) ==> Sorted(arr[from..])
  {
    if Sorted(arr) {
      forall i, j | 0 <= i < j < |arr[from..]|
        ensures arr[from..][i] <= arr[from..][j]
      {
        assert arr[from..][i] == arr[from + i] && arr[from..][j] == arr[from + j];
      }
    }
  }

  lemma SortedPrefix(arr: seq<int>, upto: nat)
    requires upto <= |arr|
    ensures Sorted(arr) ==> Sorted(arr[..upto])
  {
  }

  /** Lines 41-42: an empty list finds nothing. */
  lemma SlicingEmpty(target: int)
    ensures BinarySearch([], target) == None
  {
  }

  /**
   * Lines 81-145: `binary_search_two_pointer` on the window arr[left..right] (both ends
   * included); the first call uses left = 0 and right = len(arr) - 1. Every probed mid
   * lies inside the window, and so inside the list.
   */
  function TwoPointer(arr: seq<int>, left: int, right: int, target: int): (r: Option<nat>)
    requires 0 <= left && right < |arr|
    ensures r.Some? ==> left <= r.value <= right && arr[r.value] == target
    ensures Sorted(arr) && (exists i | left <= i <= right :: arr[i] == target) ==> r.Some?
    decreases right + 1 - left
  {
    if left > right then None
    else
      var mid := left + (right - left) / 2;
      if arr[mid] == target then Some(mid)
      else if arr[mid] < target then
        var r := TwoPointer(arr, mid + 1, right, target);
        assert Sorted(arr) ==> forall i | left <= i <= mid :: arr[i] != target;
        r
      else
        var r := TwoPointer(arr, left, mid - 1, target);
        assert Sorted(arr) ==> forall i | mid <= i <= right :: arr[i] != target;
        r
  }

  /** The search over the whole list, as the source's callers start it. */
  function TwoPointerSearch(arr: seq<int>, target: int): (r: Option<nat>)
    ensures r.Some? ==> r.value < |arr| && arr[r.value] == target
    ensures Sorted(arr) ==> (r.None? <==> target !in arr)
  {
    TwoPointer(arr, 0, |arr| - 1, target)
  }

  /** On a sorted list the slicing search finds the target exactly when it is present. */
  lemma SlicingFindsIffPresent(arr: seq<int>, target: int)
    requires Sorted(arr)
    ensures BinarySearch(arr, target).None? <==> target !in arr
  {
  }

  /** In a strictly increasing list a value sits at one position only. */
  lemma AscendingUniqueIndex(arr: seq<int>, i: nat, j: nat)
    requires Ascending(arr) && i < |arr| && j < |arr| && arr[i] == arr[j]
    ensures i == j
  {
  }

  /**
   * On a strictly increasing list (the lists the source compares the two versions on)
   * both versions return the same result.
   */
  lemma ImplementationsMatch(arr: seq<int>, target: int)
    requires Ascending(arr)
    ensures BinarySearch(arr, target) == TwoPointerSearch(arr, target)
  {
    var a := BinarySearch(arr, target);
    var b := TwoPointerSearch(arr, target);
    if a.Some? && b.Some? {
      AscendingUniqueIndex(arr, a.value, b.value);
    }
  }

  /**
   * With duplicates the two versions may report different occurrences: in [5, 5] the
   * slicing version probes index 1 first and the two-pointer version index 0.
   */
  lemma DuplicatesMayDiffer()
    ensures BinarySearch([5, 5], 5) == Some(1)
    ensures TwoPointerSearch([5, 5], 5) == Some(0)
  {
  }

  /** The examples of lines 32-38 and 110-117. */
  lemma Examples()
    ensures BinarySearch([1, 3, 5, 7, 9, 11], 7) == Some(3)
    ensures BinarySearch([1, 3, 5, 7, 9, 11], 4) == None
    ensures TwoPointerSearch([1, 3, 5, 7, 9, 11], 7) == Some(3)
    ensures TwoPointerSearch([1, 3, 5, 7, 9, 11], 4) == None
    ensures TwoPointerSearch([], 5) == None
  {
    var arr := [1, 3, 5, 7, 9, 11];
    assert arr[3..] == [7, 9, 11];
    assert arr[3..][..1] == [7];
    assert arr[3..][..1][..0] == [];
  }
}
