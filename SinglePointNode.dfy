/** The singly linked node of python/data_structures/SinglePointNode.py: a value and the next node. */
module SinglePointNode {

  class Node<T> {
    var data: T
    var next: Node?<T>

    /** Lines 9-16: stores the value and the next node (None unless given). */
    constructor (data: T, next: Node?<T> := null)
      ensures this.data == data && this.next == next
    {
      this.data := data;
      this.next := next;
    }

    /** Lines 23-25: the `data` setter; the link is untouched. */
    method SetData(value: T)
      modifies this
      ensures data == value && next == old(next)
    {
      data := value;
    }

    /** Lines 32-34: the `next` setter; the value is untouched. */
    method SetNext(node: Node?<T>)
      modifies this
      ensures next == node && data == old(data)
    {
      next := node;
    }
  }
}
