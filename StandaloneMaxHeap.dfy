/**
 * The stand-alone max heap of python/data_structures/MaxHeap.py: the same 1-based list
 * as the Heap module's, with only `add` and `heapify_up`. Its order, index arithmetic
 * and sift-up function are the Heap module's.
 */
module StandaloneMaxHeap {
  import opened Heap
  import opened Sequences

  class MaxHeap {
    /** Slot 0 stands for the None placeholder and is never read. */
    var heap: seq<int>
    var size: int

    /** `size` is the number of stored values, and they are in max-heap order. */
    ghost predicate Valid()
      reads this
    {
      size >= 0 && |heap| == size + 1 && HeapOrdered(heap)
    }

    /** Lines 32-43: only the placeholder, and size 0. */
    constructor ()
      ensures Valid() && size == 0 && heap == [0]
    {
      heap := [0];
      size := 0;
    }

    /**
     * Lines 46-61: `add` appends the value, counts it and sifts it up; the stored values
     * grow by exactly that value and stay in max-heap order.
     */
    method Add(value: int)
      requires Valid()
      modifies this
      ensures Valid() && size == old(size) + 1
      ensures multiset(heap[1..]) == multiset(old(heap[1..])) + multiset{value}
      ensures heap == SiftUp(old(heap) + [value], old(size) + 1)
    {
      size := size + 1;
      heap := heap + [value];
      assert heap[1..] == old(heap[1..]) + [value];
      HeapifyUp();
    }

    /**
     * Lines 63-89: `heapify_up` from the last slot, swapping with the parent while the
     * value is larger. When only the last value may be out of order, the result is the
     * heap order again over the same values.
     */
    method HeapifyUp()
      requires size >= 1 && |heap| == size + 1 && OrderedExcept(heap, size) && Bridge(heap, size)
      modifies this
      ensures heap == SiftUp(old(heap), old(size)) && size == old(size)
      ensures Valid() && multiset(heap[1..]) == multiset(old(heap[1..]))
    {
      SiftUpOrders(heap, size);
      var index := size;
      while index > 1
        invariant 1 <= index < |heap| && size == old(size)
        invariant SiftUp(heap, index) == SiftUp(old(heap), old(size))
        decreases index
      {
        var parentIndex := ParentIndex(index);
        if heap[index] > heap[parentIndex] {
          Swap(index, parentIndex);
          index := parentIndex;
        } else {
          break;
        }
      }
    }

    /** Lines 149-162: `_swap` exchanges two slots. */
    method Swap(index1: int, index2: int)
      requires 0 <= index1 < |heap| && 0 <= index2 < |heap|
      modifies this
      ensures heap == Swapped(old(heap), index1, index2) && size == old(size)
    {
      heap := heap[index1 := heap[index2]][index2 := heap[index1]];
    }
  }

  /** The three sift-ups performed when 10, 20 and 30 are added in turn. */
  lemma SiftUpSteps()
    ensures SiftUp([0, 10], 1) == [0, 10]
    ensures SiftUp([0, 10, 20], 2) == [0, 20, 10]
    ensures SiftUp([0, 20, 10, 30], 3) == [0, 30, 10, 20]
  {
    assert Swapped([0, 10, 20], 2, 1) == [0, 20, 10];
    assert Swapped([0, 20, 10, 30], 3, 1) == [0, 30, 10, 20];
  }

  /** Adding 10, 20 and 30 leaves 30 at the root, then 10 and 20. */
  method AddTenTwentyThirty() returns (stored: seq<int>)
    ensures stored == [30, 10, 20]
  {
    SiftUpSteps();
    var h := new MaxHeap();
    assert h.heap == [0];
    h.Add(10);
    assert h.heap == [0, 10];
    h.Add(20);
    assert h.heap == [0, 20, 10];
    h.Add(30);
    stored := h.heap[1..];
  }
}
