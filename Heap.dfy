/**
 * The list-based binary max heap of python/data_structures/Heap/Heap.py (`BaseHeap`) and
 * python/data_structures/Heap/MaxHeap.py (`MaxHeap`, its only concrete subclass, whose
 * comparisons are folded in here). Slot 0 of the list is a placeholder, so the parent of
 * slot i is i // 2 and its children are 2i and 2i + 1. The spec functions SiftUp and
 * SiftDown say what `heapify_up` and `heapify_down` compute; the lemmas prove that they
 * restore the heap order and only rearrange the stored values.
 */
module Heap {
  import opened Wrappers
  import opened Sequences

  /** Line 25: the root is slot 1. */
  const ROOT_INDEX := 1

  /** Lines 166-182: i // 2 (Dafny's `/` agrees with Python's `//` for a positive divisor). */
  function ParentIndex(index: int): int
  {
    index / 2
  }

  /** Lines 184-200. */
  function LeftChildIndex(index: int): int
  {
    2 * index
  }

  /** Lines 202-218. */
  function RightChildIndex(index: int): int
  {
    2 * index + 1
  }

  /** Both children of a slot have that slot as their parent, and they are adjacent. */
  lemma ChildrenHaveParent(index: int)
    ensures ParentIndex(LeftChildIndex(index)) == index
    ensures ParentIndex(RightChildIndex(index)) == index
    ensures RightChildIndex(index) == LeftChildIndex(index) + 1
  {
  }

  /** A slot other than the root is a child of its parent. */
  lemma ParentHasChild(index: int)
    requires index >= 2
    ensures 1 <= ParentIndex(index) < index
    ensures index == LeftChildIndex(ParentIndex(index)) || index == RightChildIndex(ParentIndex(index))
  {
  }

  /** Every stored value is at most its parent (MaxHeap.py lines 9-10). */
  ghost predicate HeapOrdered(h: seq<int>)
  {
    forall i | 2 <= i < |h| :: h[i / 2] >= h[i]
  }

  /** The order holds at every slot except possibly slot k, which may exceed its parent. */
  ghost predicate OrderedExcept(h: seq<int>, k: int)
  {
    forall i | 2 <= i < |h| && i != k :: h[i / 2] >= h[i]
  }

  /** The order holds at every slot except possibly the children of slot k. */
  ghost predicate OrderedBelow(h: seq<int>, k: int)
  {
    forall i | 2 <= i < |h| && i / 2 != k :: h[i / 2] >= h[i]
  }

  /** The parent of slot k is at least every child of slot k. */
  ghost predicate Bridge(h: seq<int>, k: int)
  {
    forall c | 2 <= c < |h| && c / 2 == k && k >= 2 :: h[k / 2] >= h[c]
  }

  /** Exchanging two stored values keeps the multiset of stored values. */
  lemma SwappedValues(h: seq<int>, i: int, j: int)
    requires 1 <= i < |h| && 1 <= j < |h|
    ensures multiset(Swapped(h, i, j)[1..]) == multiset(h[1..])
  {
    var t := h[1..];
    assert Swapped(h, i, j)[1..] == t[i - 1 := t[j - 1]][j - 1 := t[i - 1]];
  }

  /**
   * MaxHeap.py lines 81-107: the larger child of slot k, the left one when there is no
   * right one, and the right one when they are equal.
   */
  function TargetChild(h: seq<int>, k: int): (t: int)
    requires 1 <= k && 2 * k < |h|
    ensures t == 2 * k || (t == 2 * k + 1 && t < |h|)
    ensures forall c | 2 * k <= c <= 2 * k + 1 && c < |h| :: h[c] <= h[t]
    ensures 2 * k + 1 < |h| && h[2 * k] == h[2 * k + 1] ==> t == 2 * k + 1
  {
    if 2 * k + 1 > |h| - 1 then 2 * k
    else if h[2 * k] > h[2 * k + 1] then 2 * k
    else 2 * k + 1
  }

  /** Lines 58-80: the value at slot k rises while it is larger than its parent. */
  ghost function SiftUp(h: seq<int>, k: int): seq<int>
    requires 1 <= k < |h|
    decreases k
  {
    if k > 1 && h[k] > h[k / 2] then SiftUp(Swapped(h, k, k / 2), k / 2) else h
  }

  /** Lines 82-105: the value at slot k sinks while its larger child is larger than it. */
  ghost function SiftDown(h: seq<int>, k: int): seq<int>
    requires 1 <= k
    decreases |h| - k
  {
    if 2 * k < |h| && h[TargetChild(h, k)] > h[k] then
      var t := TargetChild(h, k);
      SiftDown(Swapped(h, k, t), t)
    else h
  }

  /** One rising swap moves the exception from slot k to its parent. */
  lemma SiftUpStep(h: seq<int>, k: int)
    requires 2 <= k < |h| && h[k] > h[k / 2]
    requires OrderedExcept(h, k) && Bridge(h, k)
    ensures OrderedExcept(Swapped(h, k, k / 2), k / 2) && Bridge(Swapped(h, k, k / 2), k / 2)
  {
    var p := k / 2;
    var g := Swapped(h, k, p);
    forall i | 2 <= i < |g| && i != p
      ensures g[i / 2] >= g[i]
    {
      if i == k {
      } else if i / 2 == p {
        assert h[p] >= h[i];
      } else if i / 2 == k {
        assert h[p] >= h[i];
      }
    }
    forall c | 2 <= c < |g| && c / 2 == p && p >= 2
      ensures g[p / 2] >= g[c]
    {
      assert h[p / 2] >= h[p];
      if c != k {
        assert h[p] >= h[c];
      }
    }
  }

  /**
   * Sifting up from slot k restores the heap order when it was broken only at k, and
   * only rearranges the stored values.
   */
  lemma {:induction false} SiftUpOrders(h: seq<int>, k: int)
    requires 1 <= k < |h| && OrderedExcept(h, k) && Bridge(h, k)
    ensures |SiftUp(h, k)| == |h|
    ensures HeapOrdered(SiftUp(h, k))
    ensures multiset(SiftUp(h, k)[1..]) == multiset(h[1..])
    decreases k
  {
    if k > 1 && h[k] > h[k / 2] {
      SiftUpStep(h, k);
      SwappedValues(h, k, k / 2);
      SiftUpOrders(Swapped(h, k, k / 2), k / 2);
    }
  }

  /** One sinking swap moves the exception from slot k to the child it swapped with. */
  lemma SiftDownStep(h: seq<int>, k: int)
    requires 1 <= k && 2 * k < |h| && h[TargetChild(h, k)] > h[k]
    requires OrderedBelow(h, k) && Bridge(h, k)
    ensures OrderedBelow(Swapped(h, k, TargetChild(h, k)), TargetChild(h, k))
    ensures Bridge(Swapped(h, k, TargetChild(h, k)), TargetChild(h, k))
  {
    var t := TargetChild(h, k);
    var g := Swapped(h, k, t);
    forall i | 2 <= i < |g| && i / 2 != t
      ensures g[i / 2] >= g[i]
    {
      if i == t {
      } else if i / 2 == k {
      } else if i == k {
        assert h[k / 2] >= h[t];
      }
    }
    forall c | 2 <= c < |g| && c / 2 == t && t >= 2
      ensures g[t / 2] >= g[c]
    {
      assert h[t] >= h[c];
    }
  }

  /**
   * Sifting down from slot k restores the heap order when it was broken only below k,
   * and only rearranges the stored values.
   */
  lemma {:induction false} SiftDownOrders(h: seq<int>, k: int)
    requires 1 <= k && |h| >= 1 && OrderedBelow(h, k) && Bridge(h, k)
    ensures |SiftDown(h, k)| == |h|
    ensures HeapOrdered(SiftDown(h, k))
    ensures multiset(SiftDown(h, k)[1..]) == multiset(h[1..])
    decreases |h| - k
  {
    if 2 * k < |h| && h[TargetChild(h, k)] > h[k] {
      var t := TargetChild(h, k);
      SiftDownStep(h, k);
      SwappedValues(h, k, t);
      SiftDownOrders(Swapped(h, k, t), t);
    } else {
      forall i | 2 <= i < |h|
        ensures h[i / 2] >= h[i]
      {
        if i / 2 == k {
          assert i < 2 * k + 2;
        }
      }
    }
  }

  /** Every stored value is at most its ancestors, by induction along the parent chain. */
  lemma {:induction false} AncestorBound(h: seq<int>, i: int)
    requires HeapOrdered(h) && 1 <= i < |h|
    ensures h[1] >= h[i]
    decreases i
  {
    if i > 1 {
      AncestorBound(h, i / 2);
    }
  }

  /** In a heap-ordered list the root holds the largest stored value. */
  lemma RootIsMax(h: seq<int>)
    requires HeapOrdered(h) && |h| >= 2
    ensures forall v | v in multiset(h[1..]) :: v <= h[1]
  {
    forall v | v in multiset(h[1..])
      ensures v <= h[1]
    {
      var i :| 0 <= i < |h[1..]| && h[1..][i] == v;
      AncestorBound(h, i + 1);
    }
  }

  /** Lines 158-160: the last value overwrites the root and the last slot goes. */
  ghost function LastToRoot(h: seq<int>): seq<int>
    requires |h| >= 3
  {
    h[1 := h[|h| - 1]][..|h| - 1]
  }

  /**
   * After the last value replaces the root, only the root may be out of order, and the
   * stored values are the old ones without the old root.
   */
  lemma LastToRootValues(h: seq<int>)
    requires HeapOrdered(h) && |h| >= 3
    ensures |LastToRoot(h)| == |h| - 1 && OrderedBelow(LastToRoot(h), 1)
    ensures multiset(LastToRoot(h)[1..]) + multiset{h[1]} == multiset(h[1..])
  {
    var g := LastToRoot(h);
    assert h[1..] == [h[1]] + g[2..] + [h[|h| - 1]];
    assert g[1..] == [h[|h| - 1]] + g[2..];
  }

  class MaxHeap {
    /** Slot 0 stands for the None placeholder and is never read. */
    var heap: seq<int>
    var size: int

    /** `size` is the number of stored values, and they are in max-heap order. */
    ghost predicate Valid()
      reads this
    {
      size >= 0 && |heap| == size + 1 && HeapOrdered(heap)
    }

    /** The stored values. */
    ghost function Values(): multiset<int>
      reads this
    {
      if heap == [] then multiset{} else multiset(heap[1..])
    }

    /** Heap.py lines 27-38: only the placeholder, and size 0. */
    constructor ()
      ensures Valid() && size == 0 && Values() == multiset{}
    {
      heap := [0];
      size := 0;
    }

    /** Lines 41-56: `add` appends the value and sifts it up from the last slot. */
    method Add(value: int)
      requires Valid()
      modifies this
      ensures Valid() && size == old(size) + 1
      ensures Values() == old(Values()) + multiset{value}
      ensures heap == SiftUp(old(heap) + [value], old(size) + 1)
    {
      size := size + 1;
      heap := heap + [value];
      assert heap[1..] == old(heap[1..]) + [value];
      HeapifyUp();
    }

    /** MaxHeap.py lines 49-60: swap when the child is larger than its parent. */
    function ShouldSwapUp(childIndex: int, parentIndex: int): (r: bool)
      requires 0 <= childIndex < |heap| && 0 <= parentIndex < |heap|
      reads this
      ensures r <==> !(heap[parentIndex] >= heap[childIndex])
    {
      heap[childIndex] > heap[parentIndex]
    }

    /** MaxHeap.py lines 63-78: swap when the chosen child is larger than its parent. */
    function ShouldSwapDown(parentIndex: int, childIndex: int): (r: bool)
      requires 0 <= childIndex < |heap| && 0 <= parentIndex < |heap|
      reads this
      ensures r <==> !(heap[parentIndex] >= heap[childIndex])
    {
      heap[childIndex] > heap[parentIndex]
    }

    /** Lines 235-248: `_has_child`, slot `index` has a child among the stored values. */
    function HasChild(index: int): (r: bool)
      reads this
      ensures index >= 1 ==> (r <==> exists c | 1 <= c <= size :: ParentIndex(c) == index)
    {
      ChildrenHaveParent(index);
      LeftChildIndex(index) <= size
    }

    /** MaxHeap.py lines 81-107: `_get_target_child_index`, the larger child (see TargetChild). */
    function GetTargetChildIndex(index: int): (r: int)
      requires 1 <= index && LeftChildIndex(index) < |heap|
      reads this
      ensures r == LeftChildIndex(index) || (r == RightChildIndex(index) && r < |heap|)
      ensures forall c | LeftChildIndex(index) <= c <= RightChildIndex(index) && c < |heap| :: heap[c] <= heap[r]
      ensures RightChildIndex(index) < |heap| && heap[LeftChildIndex(index)] == heap[RightChildIndex(index)] ==> r == RightChildIndex(index)
    {
      TargetChild(heap, index)
    }

    /** Lines 220-233: `_swap` exchanges two slots. */
    method Swap(index1: int, index2: int)
      requires 0 <= index1 < |heap| && 0 <= index2 < |heap|
      modifies this
      ensures heap == Swapped(old(heap), index1, index2) && size == old(size)
    {
      heap := heap[index1 := heap[index2]][index2 := heap[index1]];
    }

    /**
     * Lines 58-80: `heapify_up` from the last slot. When only the last value may be
     * out of order, the result is the heap order again over the same values.
     */
    method HeapifyUp()
      requires size >= 1 && |heap| == size + 1 && OrderedExcept(heap, size) && Bridge(heap, size)
      modifies this
      ensures heap == SiftUp(old(heap), old(size)) && size == old(size)
      ensures Valid() && Values() == old(Values())
    {
      SiftUpOrders(heap, size);
      var currentIndex := size;
      while currentIndex > ROOT_INDEX
        invariant 1 <= currentIndex < |heap| && size == old(size)
        invariant SiftUp(heap, currentIndex) == SiftUp(old(heap), old(size))
        decreases currentIndex
      {
        var parentIndex := ParentIndex(currentIndex);
        if ShouldSwapUp(currentIndex, parentIndex) {
          Swap(currentIndex, parentIndex);
          currentIndex := parentIndex;
        } else {
          break;
        }
      }
    }

    /**
     * Lines 82-105: `heapify_down` from the root. When only the root may be out of
     * order, the result is the heap order again over the same values.
     */
    method HeapifyDown()
      requires size >= 0 && |heap| == size + 1 && OrderedBelow(heap, ROOT_INDEX)
      modifies this
      ensures heap == SiftDown(old(heap), ROOT_INDEX) && size == old(size)
      ensures Valid() && Values() == old(Values())
    {
      SiftDownOrders(heap, ROOT_INDEX);
      var currentIndex := ROOT_INDEX;
      while HasChild(currentIndex)
        invariant 1 <= currentIndex && |heap| == size + 1 && size == old(size)
        invariant SiftDown(heap, currentIndex) == SiftDown(old(heap), ROOT_INDEX)
        decreases |heap| - currentIndex
      {
        var targetChildIndex := GetTargetChildIndex(currentIndex);
        if ShouldSwapDown(currentIndex, targetChildIndex) {
          Swap(currentIndex, targetChildIndex);
          currentIndex := targetChildIndex;
        } else {
          break;
        }
      }
    }

    /** Lines 107-119: `peek`, None when empty, otherwise the root, which is the largest value. */
    function Peek(): (r: Option<int>)
      requires Valid()
      reads this
      ensures r.None? <==> Values() == multiset{}
      ensures r.Some? ==> r.value in Values() && forall v | v in Values() :: v <= r.value
    {
      if size == 0 then None
      else
        RootIsMax(heap);
        Some(heap[ROOT_INDEX])
    }

    /** Lines 121-131: `is_empty`. */
    function IsEmpty(): (r: bool)
      requires Valid()
      reads this
      ensures r <==> Values() == multiset{}
    {
      size == 0
    }

    /**
     * Lines 133-162: `_remove_root`. An empty heap gives None and stays as it was;
     * otherwise the root (the largest value) is returned, the last value takes its slot
     * and sinks, and one fewer value is stored.
     */
    method RemoveRoot() returns (r: Option<int>)
      requires Valid()
      modifies this
      ensures Valid()
      ensures old(size) == 0 ==> r == None && heap == old(heap) && size == 0
      ensures old(size) > 0 ==> r.Some? && size == old(size) - 1
      ensures old(size) > 0 ==> Values() + multiset{r.value} == old(Values())
      ensures old(size) > 0 ==> forall v | v in old(Values()) :: v <= r.value
    {
      if size == 0 {
        return None;
      }
      var rootValue := heap[ROOT_INDEX];
      RootIsMax(heap);
      if size == 1 {
        heap := heap[..|heap| - 1];
        size := 0;
        assert old(heap[1..]) == [rootValue];
        return Some(rootValue);
      }
      ghost var before := heap;
      LastToRootValues(before);
      heap := heap[ROOT_INDEX := heap[size]];
      size := size - 1;
      heap := heap[..|heap| - 1];
      assert heap == LastToRoot(before);
      HeapifyDown();
      return Some(rootValue);
    }

    /** MaxHeap.py lines 31-46: `remove_max` is `_remove_root`. */
    method RemoveMax() returns (r: Option<int>)
      requires Valid()
      modifies this
      ensures Valid()
      ensures old(size) == 0 ==> r == None && heap == old(heap) && size == 0
      ensures old(size) > 0 ==> r.Some? && size == old(size) - 1
      ensures old(size) > 0 ==> Values() + multiset{r.value} == old(Values())
      ensures old(size) > 0 ==> forall v | v in old(Values()) :: v <= r.value
    {
      r := RemoveRoot();
    }
  }

  /** Removing twice from a heap holding 5, 1 and 3 gives 5, then 3. */
  method RemoveInOrder() returns (first: Option<int>, second: Option<int>)
    ensures first == Some(5) && second == Some(3)
  {
    var h := new MaxHeap();
    h.Add(5);
    h.Add(1);
    h.Add(3);
    assert h.Values() == multiset{5, 1, 3};
    first := h.RemoveMax();
    assert first.value in multiset{5, 1, 3} && first.value >= 5;
    assert h.Values() == multiset{1, 3};
    second := h.RemoveMax();
    assert second.value in multiset{1, 3} && second.value >= 3;
  }
}
