/**
 * The singly linked list of python/data_structures/LinkedList.py. Every node holds a
 * value or None (the list starts as one node, holding None unless a value is given).
 */
module LinkedList {
  import opened Wrappers
  import opened SinglePointNode

  /** `str(value) + "\n"` for every value that is not None, head to tail. */
  function Rendered<T>(values: seq<Option<T>>, show: T -> string): string
  {
    if values == [] then ""
    else (if values[0].Some? then show(values[0].value) + "\n" else "") + Rendered(values[1..], show)
  }

  /** Rendering a list is rendering its front, then its back. */
  lemma {:induction false} RenderedAppend<T>(front: seq<Option<T>>, back: seq<Option<T>>, show: T -> string)
    ensures Rendered(front + back, show) == Rendered(front, show) + Rendered(back, show)
  {
    if front == [] {
      assert front + back == back;
    } else {
      var x := if front[0].Some? then show(front[0].value) + "\n" else "";
      assert (front + back)[0] == front[0];
      assert (front + back)[1..] == front[1..] + back;
      assert Rendered(front + back, show) == x + Rendered(front[1..] + back, show);
      RenderedAppend(front[1..], back, show);
      assert x + (Rendered(front[1..], show) + Rendered(back, show))
          == (x + Rendered(front[1..], show)) + Rendered(back, show);
    }
  }

  /** Lines 20-21: a list holding only None renders as the empty text (RenderedAppend gives the rest). */
  lemma RenderedSkipsNone<T>(values: seq<Option<T>>, show: T -> string)
    requires forall i | 0 <= i < |values| :: values[i].None?
    ensures Rendered(values, show) == ""
    decreases |values|
  {
    if values != [] {
      RenderedSkipsNone(values[1..], show);
    }
  }

  /** The values with the first one equal to `value` taken out; unchanged when there is none. */
  function RemoveFirst<T(==)>(values: seq<T>, value: T): seq<T>
  {
    if values == [] then []
    else if values[0] == value then values[1..]
    else [values[0]] + RemoveFirst(values[1..], value)
  }

  /**
   * Removing the first occurrence at index k cuts out exactly that position; with no
   * occurrence nothing changes.
   */
  lemma {:induction false} RemoveFirstAt<T>(values: seq<T>, value: T, k: nat)
    requires k <= |values|
    requires forall i | 0 <= i < k :: values[i] != value
    requires k < |values| ==> values[k] == value
    ensures k < |values| ==> RemoveFirst(values, value) == values[..k] + values[k + 1..]
    ensures k == |values| ==> RemoveFirst(values, value) == values
  {
    if values != [] && values[0] != value {
      RemoveFirstAt(values[1..], value, k - 1);
      if k < |values| {
        assert [values[0]] + (values[1..][..k - 1] + values[1..][k..]) == values[..k] + values[k + 1..];
      }
    }
  }

  /** RemoveFirst takes out one occurrence of the value when there is one, and nothing else. */
  lemma {:induction false} RemoveFirstMultiset<T>(values: seq<T>, value: T)
    ensures value in values ==> multiset(RemoveFirst(values, value)) + multiset{value} == multiset(values)
    ensures value !in values ==> RemoveFirst(values, value) == values
  {
    if values != [] {
      assert values == [values[0]] + values[1..];
      if values[0] != value {
        RemoveFirstMultiset(values[1..], value);
      }
    }
  }

  class LinkedList<T(==)> {
    var head: Node?<Option<T>>
    /** The nodes from head to tail, and the values they hold. */
    ghost var nodes: seq<Node<Option<T>>>
    ghost var Contents: seq<Option<T>>

    ghost function Repr(): set<object>
      reads this
    {
      set n | n in nodes :: n as object
    }

    /** The chain from `head` visits `nodes` once each, in order, and ends in None. */
    ghost predicate Valid()
      reads this, nodes
    {
      |nodes| == |Contents|
      && (head == null <==> nodes == [])
      && (nodes != [] ==> head == nodes[0] && nodes[|nodes| - 1].next == null)
      && (forall i | 0 <= i < |nodes| - 1 :: nodes[i].next == nodes[i + 1])
      && (forall i, j | 0 <= i < j < |nodes| :: nodes[i] != nodes[j])
      && (forall i | 0 <= i < |nodes| :: nodes[i].data == Contents[i])
    }

    /** Lines 5-6: a list of one node holding the value (None by default). */
    constructor (value: Option<T> := None)
      ensures Valid() && Contents == [value]
    {
      var node := new Node(value, null);
      head := node;
      nodes := [node];
      Contents := [value];
    }

    /** Lines 11-14: `insert_start`, the value becomes the new head and the old list follows it. */
    method InsertStart(value: Option<T>)
      requires Valid()
      modifies this
      ensures Valid() && Contents == [value] + old(Contents)
      ensures fresh(Repr() - old(Repr()))
    {
      var newNode := new Node(value, null);
      newNode.next := head;
      head := newNode;
      nodes := [newNode] + nodes;
      Contents := [value] + Contents;
    }

    /**
     * Lines 16-23: `stringify_list`, one line per value that is not None, head to tail;
     * `str` is the parameter `show`.
     */
    method StringifyList(show: T -> string) returns (text: string)
      requires Valid()
      ensures text == Rendered(Contents, show)
    {
      text := "";
      var current := head;
      ghost var k := 0;
      while current != null
        invariant 0 <= k <= |nodes|
        invariant current == (if k < |nodes| then nodes[k] else null)
        invariant text == Rendered(Contents[..k], show)
        decreases |nodes| - k
      {
        RenderedAppend(Contents[..k], [current.data], show);
        assert Contents[..k + 1] == Contents[..k] + [current.data];
        if current.data.Some? {
          text := text + show(current.data.value) + "\n";
        }
        current := current.next;
        k := k + 1;
      }
      assert Contents[..k] == Contents;
    }

    /** Only the last node's link is None. */
    lemma LastLinkIsNone(k: nat)
      requires Valid() && k < |nodes|
      ensures nodes[k].next == null <==> k == |nodes| - 1
    {
      if k < |nodes| - 1 {
        assert nodes[k].next == nodes[k + 1];
      }
    }

    /** Lines 32-33: the node after position k is bypassed, and so leaves the list. */
    method UnlinkAfter(current: Node<Option<T>>, ghost k: nat)
      requires Valid() && k + 1 < |nodes| && current == nodes[k]
      modifies this, current
      ensures Valid()
      ensures nodes == old(nodes[..k + 1] + nodes[k + 2..])
      ensures Contents == old(Contents[..k + 1] + Contents[k + 2..])
    {
      assert current.next == nodes[k + 1];
      current.next := current.next.next;
      nodes := nodes[..k + 1] + nodes[k + 2..];
      Contents := Contents[..k + 1] + Contents[k + 2..];
    }

    /**
     * Lines 25-36: `remove_node` unlinks the first node holding the value (the source
     * compares with `is`); with no such node the list is unchanged, and on a list whose
     * head is None reading the head's value raises AttributeError.
     */
    method RemoveNode(value: Option<T>) returns (r: Result<()>)
      requires Valid()
      modifies this, Repr()
      ensures Valid()
      ensures old(Contents) == [] ==> r == Err(AttributeError) && Contents == []
      ensures old(Contents) != [] ==> r == Ok(()) && Contents == RemoveFirst(old(Contents), value)
    {
      var current := head;
      if current == null {
        return Err(AttributeError);
      }
      r := Ok(());
      if current.data == value {
        assert |nodes| > 1 ==> current.next == nodes[1];
        head := current.next;
        nodes := nodes[1..];
        Contents := Contents[1..];
        return;
      }
      ghost var k := 0;
      while current != null && current.next != null
        invariant Valid()
        invariant current != null ==> (0 <= k < |nodes| && current == nodes[k]
          && Contents == old(Contents)
          && forall i | 0 <= i <= k :: Contents[i] != value)
        invariant current == null ==> Contents == RemoveFirst(old(Contents), value)
        invariant forall n | n in nodes :: n in old(nodes)
        decreases if current == null then 0 else |nodes| - k
      {
        var nextNode := current.next;
        assert nextNode == nodes[k + 1];
        if nextNode.data == value {
          RemoveFirstAt(Contents, value, k + 1);
          assert current in old(nodes);
          UnlinkAfter(current, k);
          current := null;
        } else {
          current := nextNode;
          k := k + 1;
        }
      }
      if current != null {
        LastLinkIsNone(k);
        RemoveFirstAt(Contents, value, |Contents|);
      }
    }
  }
}
