/**
 * The linked stack of python/data_structures/Stack.py: a chain of nodes from the top
 * down, an optional limit on the number of elements, and a size counter.
 */
module Stack {
  import opened Wrappers
  import opened SinglePointNode

  class Stack<T> {
    var top: Node?<T>
    var limit: Option<int>
    var size: int
    /** The nodes from the top down, and the values they hold. */
    ghost var nodes: seq<Node<T>>
    ghost var Contents: seq<T>

    /** The chain from `top` visits `nodes` in order, ends in None, and `size` counts it. */
    ghost predicate Valid()
      reads this, nodes
    {
      |nodes| == |Contents| == size
      && (top == null <==> nodes == [])
      && (nodes != [] ==> top == nodes[0] && nodes[|nodes| - 1].next == null)
      && (forall i | 0 <= i < |nodes| - 1 :: nodes[i].next == nodes[i + 1])
      && (forall i | 0 <= i < |nodes| :: nodes[i].data == Contents[i])
    }

    /** Lines 9-18: an empty stack with the given limit (None for no limit). */
    constructor (limit: Option<int>)
      ensures Valid() && Contents == [] && this.limit == limit
    {
      top := null;
      this.limit := limit;
      size := 0;
      nodes := [];
      Contents := [];
    }

    /** Lines 66-72: room for one more unless the limit has been reached. */
    function HasSpace(): (r: bool)
      requires Valid()
      reads this, nodes
      ensures r <==> limit.None? || |Contents| < limit.value
    {
      limit.None? || limit.value > size
    }

    /** Lines 74-80: `is_empty`, the counter is zero exactly when no value is stored. */
    function IsEmpty(): (r: bool)
      requires Valid()
      reads this, nodes
      ensures r <==> Contents == []
    {
      size == 0
    }

    /**
     * Lines 20-34: `push`. On a full stack it raises OverflowError and nothing changes;
     * otherwise the value becomes the new top.
     */
    method Push(value: T) returns (r: Result<()>)
      requires Valid()
      modifies this
      ensures Valid() && limit == old(limit)
      ensures old(HasSpace()) ==> r == Ok(()) && Contents == [value] + old(Contents)
      ensures !old(HasSpace()) ==> r == Err(OverflowError("Stack is full")) && Contents == old(Contents)
    {
      if !HasSpace() {
        return Err(OverflowError("Stack is full"));
      }
      var pushed := new Node(value, null);
      pushed.next := top;
      top := pushed;
      size := size + 1;
      nodes := [pushed] + nodes;
      Contents := [value] + Contents;
      r := Ok(());
    }

    /**
     * Lines 37-52: `pop`. An empty stack raises IndexError; otherwise the last value
     * pushed is removed and returned.
     */
    method Pop() returns (r: Result<T>)
      requires Valid()
      modifies this
      ensures Valid() && limit == old(limit)
      ensures old(Contents) == [] ==> r == Err(IndexError("Cannot pop from empty stack")) && Contents == []
      ensures old(Contents) != [] ==> r == Ok(old(Contents)[0]) && Contents == old(Contents)[1..]
    {
      if IsEmpty() {
        return Err(IndexError("Cannot pop from empty stack"));
      }
      var popped := top;
      assert |nodes| > 1 ==> popped.next == nodes[1];
      top := popped.next;
      size := size - 1;
      nodes := nodes[1..];
      Contents := Contents[1..];
      r := Ok(popped.data);
    }

    /** Lines 54-63: `peek`, the top value without removing it, or None when empty. */
    function Peek(): (r: Option<T>)
      requires Valid()
      reads this, nodes
      ensures Contents == [] ==> r == None
      ensures Contents != [] ==> r == Some(Contents[0])
    {
      if IsEmpty() then None else Some(top.data)
    }
  }

  /** Push then pop gives back the pushed value and the stack as it was (LIFO). */
  method PushThenPop<T>(s: Stack<T>, value: T) returns (popped: Result<T>)
    requires s.Valid() && s.HasSpace()
    modifies s
    ensures s.Valid() && s.Contents == old(s.Contents)
    ensures popped == Ok(value)
  {
    var pushed := s.Push(value);
    popped := s.Pop();
  }
}
