/** The doubly linked node of python/data_structures/TwoPointNode.py: a value and links both ways. */
module TwoPointNode {

  class Node<T> {
    var data: T
    var next: Node?<T>
    var prev: Node?<T>

    /** Lines 2-5: stores the value and both links, each None unless given. */
    constructor (data: T, next: Node?<T> := null, prev: Node?<T> := null)
      ensures this.data == data && this.next == next && this.prev == prev
    {
      this.data := data;
      this.next := next;
      this.prev := prev;
    }

    /** Lines 10-11: `set_next`; the value and the other link are untouched. */
    method SetNext(node: Node?<T>)
      modifies this`next
      ensures next == node
    {
      next := node;
    }

    /** Lines 16-17: `set_prev`; the value and the other link are untouched. */
    method SetPrev(node: Node?<T>)
      modifies this`prev
      ensures prev == node
    {
      prev := node;
    }
  }
}
