/**
 * The smallest and the largest value of a linked list (python/algorithms/find_min.py,
 * python/algorithms/find_max.py): one pass from the head, keeping the best value so far.
 */
module FindMinMax {
  import opened Wrappers
  import opened LinkedList

  /** Every node holds a number (none holds None). */
  predicate AllPresent(values: seq<Option<int>>)
  {
    forall i | 0 <= i < |values| :: values[i].Some?
  }

  /** The list has at least one node and its head holds a number. */
  predicate HeadPresent(values: seq<Option<int>>)
  {
    values != [] && values[0].Some?
  }

  const EMPTY_MIN := "Cannot find minimum in empty list"
  const EMPTY_MAX := "Cannot find maximum in empty list"

  /**
   * find_min.py lines 4-43. A list without a head, or whose head holds None, raises
   * ValueError; a later None meets `<` and raises TypeError; otherwise the result is
   * one of the values and no value is smaller.
   */
  method FindMin(list: LinkedList<int>) returns (r: Result<int>)
    requires list.Valid()
    ensures !HeadPresent(list.Contents) ==> r == Err(ValueError(EMPTY_MIN))
    ensures HeadPresent(list.Contents) && !AllPresent(list.Contents) ==> r.Err? && r.error.TypeError?
    ensures r.Ok? <==> HeadPresent(list.Contents) && AllPresent(list.Contents)
    ensures r.Ok? ==> Some(r.value) in list.Contents
    ensures r.Ok? ==> forall i | 0 <= i < |list.Contents| :: r.value <= list.Contents[i].value
  {
    if list.head == null || list.head.data.None? {
      return Err(ValueError(EMPTY_MIN));
    }
    var current := list.head;
    var minimumValue := current.data.value;
    ghost var k := 0;
    while current.next != null
      invariant 0 <= k < |list.nodes| && current == list.nodes[k]
      invariant AllPresent(list.Contents[..k + 1])
      invariant Some(minimumValue) in list.Contents[..k + 1]
      invariant forall i | 0 <= i <= k :: minimumValue <= list.Contents[i].value
      decreases |list.nodes| - k
    {
      assert current.next == list.nodes[k + 1];
      current := current.next;
      k := k + 1;
      assert list.Contents[..k + 1] == list.Contents[..k] + [current.data];
      if current.data.None? {
        return Err(TypeError("'<' not supported between instances of 'NoneType' and 'int'"));
      }
      if current.data.value < minimumValue {
        minimumValue := current.data.value;
      }
    }
    list.LastLinkIsNone(k);
    assert list.Contents[..k + 1] == list.Contents;
    r := Ok(minimumValue);
  }

  /**
   * find_max.py lines 4-43: the same pass with `>`. The result is one of the values and
   * no value is larger.
   */
  method FindMax(list: LinkedList<int>) returns (r: Result<int>)
    requires list.Valid()
    ensures !HeadPresent(list.Contents) ==> r == Err(ValueError(EMPTY_MAX))
    ensures HeadPresent(list.Contents) && !AllPresent(list.Contents) ==> r.Err? && r.error.TypeError?
    ensures r.Ok? <==> HeadPresent(list.Contents) && AllPresent(list.Contents)
    ensures r.Ok? ==> Some(r.value) in list.Contents
    ensures r.Ok? ==> forall i | 0 <= i < |list.Contents| :: r.value >= list.Contents[i].value
  {
    if list.head == null || list.head.data.None? {
      return Err(ValueError(EMPTY_MAX));
    }
    var current := list.head;
    var maximumValue := current.data.value;
    ghost var k := 0;
    while current.next != null
      invariant 0 <= k < |list.nodes| && current == list.nodes[k]
      invariant AllPresent(list.Contents[..k + 1])
      invariant Some(maximumValue) in list.Contents[..k + 1]
      invariant forall i | 0 <= i <= k :: maximumValue >= list.Contents[i].value
      decreases |list.nodes| - k
    {
      assert current.next == list.nodes[k + 1];
      current := current.next;
      k := k + 1;
      assert list.Contents[..k + 1] == list.Contents[..k] + [current.data];
      if current.data.None? {
        return Err(TypeError("'>' not supported between instances of 'NoneType' and 'int'"));
      }
      if current.data.value > maximumValue {
        maximumValue := current.data.value;
      }
    }
    list.LastLinkIsNone(k);
    assert list.Contents[..k + 1] == list.Contents;
    r := Ok(maximumValue);
  }
}
