/**
 * The linked queue of python/data_structures/Queue.py: nodes from head to tail, an
 * optional maximum size, and a size counter. Values leave in the order they came in.
 */
module Queue {
  import opened Wrappers
  import opened SinglePointNode

  class Queue<T> {
    var head: Node?<T>
    var tail: Node?<T>
    var maxSize: Option<int>
    var size: int
    /** The nodes from head to tail, and the values they hold. */
    ghost var nodes: seq<Node<T>>
    ghost var Contents: seq<T>

    /** The nodes, as the set of objects a method may change. */
    ghost function Repr(): set<object>
      reads this
    {
      set n | n in nodes :: n as object
    }

    /** The chain from `head` visits `nodes` once each, in order, and ends at `tail`. */
    ghost predicate Valid()
      reads this, nodes
    {
      |nodes| == |Contents| == size
      && (head == null <==> nodes == []) && (tail == null <==> nodes == [])
      && (nodes != [] ==> head == nodes[0] && tail == nodes[|nodes| - 1] && tail.next == null)
      && (forall i | 0 <= i < |nodes| - 1 :: nodes[i].next == nodes[i + 1])
      && (forall i, j | 0 <= i < j < |nodes| :: nodes[i] != nodes[j])
      && (forall i | 0 <= i < |nodes| :: nodes[i].data == Contents[i])
    }

    /** Lines 4-8: an empty queue with the given maximum size (None for no maximum). */
    constructor (maxSize: Option<int>)
      ensures Valid() && Contents == [] && nodes == [] && this.maxSize == maxSize
    {
      head := null;
      tail := null;
      this.maxSize := maxSize;
      size := 0;
      nodes := [];
      Contents := [];
    }

    /** Lines 45-46: `get_size`, the number of values stored. */
    function GetSize(): (r: int)
      requires Valid()
      reads this, nodes
      ensures r == |Contents|
    {
      size
    }

    /** Lines 48-49: room for one more unless the maximum has been reached. */
    function HasSpace(): (r: bool)
      requires Valid()
      reads this, nodes
      ensures r <==> maxSize.None? || |Contents| < maxSize.value
    {
      maxSize.None? || maxSize.value > size
    }

    /** Lines 51-52: `is_empty`, the counter is zero exactly when no value is stored. */
    function IsEmpty(): (r: bool)
      requires Valid()
      reads this, nodes
      ensures r <==> Contents == []
    {
      size == 0
    }

    /**
     * Lines 10-22: `enqueue`. On a full queue nothing happens and nothing is reported;
     * otherwise the value is linked in after the tail.
     */
    method Enqueue(value: T)
      requires Valid()
      modifies this, Repr()
      ensures Valid() && maxSize == old(maxSize)
      ensures fresh(Repr() - old(Repr()))
      ensures old(HasSpace()) ==> Contents == old(Contents) + [value]
      ensures !old(HasSpace()) ==> Contents == old(Contents)
    {
      if HasSpace() {
        var added := new Node(value, null);
        if IsEmpty() {
          head := added;
          tail := added;
        } else {
          assert tail in nodes;
          tail.next := added;
          tail := added;
        }
        size := size + 1;
        nodes := nodes + [added];
        Contents := Contents + [value];
      }
    }

    /**
     * Lines 24-40: `dequeue`. An empty queue gives None and nothing changes; otherwise
     * the value at the head is removed and returned.
     */
    method Dequeue() returns (r: Option<T>)
      requires Valid()
      modifies this
      ensures Valid() && maxSize == old(maxSize)
      ensures old(Contents) == [] ==> r == None && Contents == []
      ensures old(Contents) != [] ==> r == Some(old(Contents)[0]) && Contents == old(Contents)[1..]
    {
      if !IsEmpty() {
        var removed := head;
        assert |nodes| > 1 ==> removed.next == nodes[1];
        if size == 1 {
          head := null;
          tail := null;
        } else {
          head := removed.next;
        }
        size := size - 1;
        nodes := nodes[1..];
        Contents := Contents[1..];
        return Some(removed.data);
      } else {
        return None;
      }
    }

    /**
     * Lines 42-43: `peek` reads the head's value; on an empty queue the head is None and
     * the read raises AttributeError.
     */
    function Peek(): (r: Result<T>)
      requires Valid()
      reads this, nodes
      ensures Contents == [] ==> r == Err(AttributeError)
      ensures Contents != [] ==> r == Ok(Contents[0])
    {
      if head == null then Err(AttributeError) else Ok(head.data)
    }
  }

  /** Two values enqueued into an empty queue come out in the order they went in (FIFO). */
  method FirstInFirstOut<T>(a: T, b: T) returns (first: Option<T>, second: Option<T>)
    ensures first == Some(a) && second == Some(b)
  {
    var q := new Queue<T>(None);
    q.Enqueue(a);
    q.Enqueue(b);
    first := q.Dequeue();
    second := q.Dequeue();
  }
}
