/**
 * The doubly linked list of python/data_structures/DoublyLinkedLIst.py: nodes linked
 * both ways between a head and a tail. Every node holds a value or None.
 */
module DoublyLinkedList {
  import opened Wrappers
  import opened TwoPointNode
  import LinkedList

  /** No element occurs twice. */
  predicate Distinct<T(==)>(s: seq<T>)
  {
    forall i, j | 0 <= i < j < |s| :: s[i] != s[j]
  }

  /** Cutting one position out of a sequence without repeats leaves none. */
  lemma DistinctWithout<T>(s: seq<T>, k: nat)
    requires Distinct(s) && k < |s|
    ensures Distinct(s[..k] + s[k + 1..])
  {
    var t := s[..k] + s[k + 1..];
    forall i, j | 0 <= i < j < |t|
      ensures t[i] != t[j]
    {
      var i' := if i < k then i else i + 1;
      var j' := if j < k then j else j + 1;
      assert t[i] == s[i'] && t[j] == s[j'];
    }
  }

  class DoublyLinkedList<T(==)> {
    var head: Node?<Option<T>>
    var tail: Node?<Option<T>>
    /** The nodes from head to tail, and the values they hold. */
    ghost var nodes: seq<Node<Option<T>>>
    ghost var Contents: seq<Option<T>>

    /** The nodes, as the set of objects whose links a method may change. */
    ghost function Repr(): set<Node<Option<T>>>
      reads this
    {
      set n | n in nodes
    }

    /**
     * The chain from `head` visits `nodes` once each and ends at `tail`; every `prev`
     * link is the reverse of a `next` link, and the two ends point to None.
     */
    ghost predicate Valid()
      reads this, nodes
    {
      |nodes| == |Contents|
      && (head == null <==> nodes == []) && (tail == null <==> nodes == [])
      && (nodes != [] ==>
            head == nodes[0] && tail == nodes[|nodes| - 1] && head.prev == null && tail.next == null)
      && (forall i | 0 <= i < |nodes| - 1 :: nodes[i].next == nodes[i + 1] && nodes[i + 1].prev == nodes[i])
      && Distinct(nodes)
      && (forall i | 0 <= i < |nodes| :: nodes[i].data == Contents[i])
    }

    /** Lines 5-7: an empty list. */
    constructor ()
      ensures Valid() && Contents == []
    {
      head := null;
      tail := null;
      nodes := [];
      Contents := [];
    }

    /** Lines 10-21: `insert`, the value becomes the new head; an empty list gets it as its tail too. */
    method Insert(value: Option<T>)
      requires Valid()
      modifies this, Repr()`prev
      ensures Valid() && Contents == [value] + old(Contents)
      ensures fresh(Repr() - old(Repr()))
    {
      var newHead := new Node(value);
      var currentHead := head;
      if currentHead != null {
        currentHead.SetPrev(newHead);
        newHead.SetNext(currentHead);
      }
      head := newHead;
      if tail == null {
        tail := newHead;
      }
      nodes := [newHead] + nodes;
      Contents := [value] + Contents;
    }

    /** Lines 24-35: `append`, the value becomes the new tail; an empty list gets it as its head too. */
    method Append(value: Option<T>)
      requires Valid()
      modifies this, Repr()`next
      ensures Valid() && Contents == old(Contents) + [value]
      ensures fresh(Repr() - old(Repr()))
    {
      var newTail := new Node(value);
      var currentTail := tail;
      if currentTail != null {
        currentTail.SetNext(newTail);
        newTail.SetPrev(currentTail);
      }
      tail := newTail;
      if head == null {
        head := newTail;
      }
      nodes := nodes + [newTail];
      Contents := Contents + [value];
    }

    /**
     * Lines 38-52: `remove_head`. An empty list gives None; otherwise the head's value is
     * returned and the next node becomes the head. When the head was also the tail, the
     * nested `remove_tail` of line 50 moves the tail to the removed node's `prev`, which
     * is None, and stops because the head is already None.
     */
    method RemoveHead() returns (r: Option<T>)
      requires Valid()
      modifies this, Repr()`prev
      ensures Valid() && Repr() <= old(Repr())
      ensures old(Contents) == [] ==> r == None && Contents == []
      ensures old(Contents) != [] ==> r == old(Contents)[0] && Contents == old(Contents)[1..]
    {
      var removed := head;
      if removed == null {
        return None;
      }
      assert |nodes| > 1 ==> removed.next == nodes[1];
      head := removed.next;
      if head != null {
        head.SetPrev(null);
      }
      if removed == tail {
        tail := removed.prev;
      }
      nodes := nodes[1..];
      Contents := Contents[1..];
      return removed.data;
    }

    /**
     * Lines 54-68: `remove_tail`. An empty list gives None; otherwise the tail's value is
     * returned and the previous node becomes the tail. When the tail was also the head,
     * the nested `remove_head` of line 66 moves the head to the removed node's `next`,
     * which is None, and stops because the tail is already None.
     */
    method RemoveTail() returns (r: Option<T>)
      requires Valid()
      modifies this, Repr()`next
      ensures Valid() && Repr() <= old(Repr())
      ensures old(Contents) == [] ==> r == None && Contents == []
      ensures old(Contents) != [] ==>
        r == old(Contents)[|old(Contents)| - 1] && Contents == old(Contents)[..|old(Contents)| - 1]
    {
      var removed := tail;
      if removed == null {
        return None;
      }
      assert |nodes| > 1 ==> removed.prev == nodes[|nodes| - 2];
      tail := removed.prev;
      if tail != null {
        tail.SetNext(null);
      }
      if removed == head {
        head := removed.next;
      }
      nodes := nodes[..|nodes| - 1];
      Contents := Contents[..|Contents| - 1];
      return removed.data;
    }

    /** Lines 92-95: a node strictly inside the list is bypassed in both directions. */
    method UnlinkMiddle(removed: Node<Option<T>>, ghost k: nat)
      requires Valid() && 0 < k < |nodes| - 1 && removed == nodes[k]
      modifies this, Repr()`next, Repr()`prev
      ensures Valid()
      ensures nodes == old(nodes[..k] + nodes[k + 1..])
      ensures Contents == old(Contents[..k] + Contents[k + 1..])
    {
      var removedNext := removed.next;
      var removedPrev := removed.prev;
      ghost var before := nodes;
      assert removedNext == before[k + 1] && removedPrev == before[k - 1];
      assert forall i | 0 <= i < |before| && i != k - 1 :: before[i] != removedPrev;
      assert forall i | 0 <= i < |before| && i != k + 1 :: before[i] != removedNext;
      removedNext.prev := removedPrev;
      removedPrev.next := removedNext;
      DistinctWithout(before, k);
      nodes := before[..k] + before[k + 1..];
      Contents := Contents[..k] + Contents[k + 1..];
      forall i | 0 <= i < |nodes| - 1
        ensures nodes[i].next == nodes[i + 1] && nodes[i + 1].prev == nodes[i]
      {
        if i < k - 1 {
          assert nodes[i] == before[i] && nodes[i + 1] == before[i + 1];
        } else if i == k - 1 {
          assert nodes[i] == removedPrev && nodes[i + 1] == removedNext;
        } else {
          assert nodes[i] == before[i + 1] && nodes[i + 1] == before[i + 2];
        }
      }
    }

    /**
     * Lines 71-97: `remove_node_by_value` looks for the first node whose value equals the
     * given one, unlinks it (through `remove_head` or `remove_tail` at either end) and
     * returns that node; with no such node nothing changes and the result is None.
     */
    method RemoveNodeByValue(value: Option<T>) returns (removed: Node?<Option<T>>)
      requires Valid()
      modifies this, Repr()`next, Repr()`prev
      ensures Valid()
      ensures removed == null <==> value !in old(Contents)
      ensures removed != null ==> removed in old(nodes) && removed.data == value
      ensures Contents == LinkedList.RemoveFirst(old(Contents), value)
    {
      removed := null;
      var current := head;
      ghost var k := 0;
      while current != null
        invariant 0 <= k <= |nodes|
        invariant current == (if k < |nodes| then nodes[k] else null)
        invariant forall i | 0 <= i < k :: Contents[i] != value
        decreases |nodes| - k
      {
        if current.data == value {
          removed := current;
          break;
        }
        current := current.next;
        k := k + 1;
      }
      if removed == null {
        LinkedList.RemoveFirstAt(Contents, value, |Contents|);
        return;
      }
      LinkedList.RemoveFirstAt(Contents, value, k);
      if removed == head {
        assert k == 0;
        var _ := RemoveHead();
      } else if removed == tail {
        assert k == |nodes| - 1;
        var _ := RemoveTail();
      } else {
        UnlinkMiddle(removed, k);
      }
    }

    /**
     * Lines 100-107: `stringify`, one line per value that is not None, head to tail;
     * `str` is the parameter `show`.
     */
    method Stringify(show: T -> string) returns (text: string)
      requires Valid()
      ensures text == LinkedList.Rendered(Contents, show)
    {
      text := "";
      var current := head;
      ghost var k := 0;
      while current != null
        invariant 0 <= k <= |nodes|
        invariant current == (if k < |nodes| then nodes[k] else null)
        invariant text == LinkedList.Rendered(Contents[..k], show)
        decreases |nodes| - k
      {
        LinkedList.RenderedAppend(Contents[..k], [current.data], show);
        assert Contents[..k + 1] == Contents[..k] + [current.data];
        if current.data.Some? {
          text := text + show(current.data.value) + "\n";
        }
        current := current.next;
        k := k + 1;
      }
      assert Contents[..k] == Contents;
    }
  }

  /** Values inserted at the head come back from the tail in the order they went in. */
  method InsertThenRemoveTail<T(==)>(a: Option<T>, b: Option<T>) returns (first: Option<T>, second: Option<T>)
    ensures first == a && second == b
  {
    var list := new DoublyLinkedList<T>();
    list.Insert(a);
    list.Insert(b);
    first := list.RemoveTail();
    second := list.RemoveTail();
  }
}
