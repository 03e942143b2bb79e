/** Flattening arbitrarily nested lists (python/algorithms/flatten_list.py). */
module FlattenList {

  /** A list element: either a non-list value or a nested list. */
  datatype Item<T> = Leaf(value: T) | Nested(items: seq<Item<T>>)

  predicate IsFlat<T>(s: seq<Item<T>>)
  {
    forall i | 0 <= i < |s| :: s[i].Leaf?
  }

  /** The non-list values of a nested list, left to right. */
  function Leaves<T>(s: seq<Item<T>>): (r: seq<T>)
    decreases s
  {
    if s == [] then []
    else
      match s[0]
      case Leaf(v) => [v] + Leaves(s[1..])
      case Nested(items) => Leaves(items) + Leaves(s[1..])
  }

  function Wrap<T>(vs: seq<T>): (r: seq<Item<T>>)
    ensures |r| == |vs| && IsFlat(r)
    ensures forall i | 0 <= i < |vs| :: r[i] == Leaf(vs[i])
  {
    if vs == [] then [] else [Leaf(vs[0])] + Wrap(vs[1..])
  }

  lemma {:induction false} LeavesAppend<T>(a: seq<Item<T>>, b: seq<Item<T>>)
    ensures Leaves(a + b) == Leaves(a) + Leaves(b)
    decreases |a|
  {
    if a != [] {
      assert (a + b)[0] == a[0] && (a + b)[1..] == a[1..] + b;
      LeavesAppend(a[1..], b);
      match a[0] {
        case Leaf(v) =>
        case Nested(items) =>
      }
    } else {
      assert a + b == b;
    }
  }

  lemma {:induction false} LeavesOfFlat<T>(s: seq<Item<T>>)
    requires IsFlat(s)
    ensures |Leaves(s)| == |s|
    ensures forall i | 0 <= i < |s| :: s[i] == Leaf(Leaves(s)[i])
  {
    if s != [] {
      LeavesOfFlat(s[1..]);
    }
  }

  /**
   * `flatten_list`: walks the items, appending a value and extending with the flattened form of a
   * nested list. The result is flat and lists the leaves in their original order.
   */
  method Flatten<T>(values: seq<Item<T>>) returns (flattened: seq<Item<T>>)
    ensures IsFlat(flattened)
    ensures flattened == Wrap(Leaves(values))
    decreases values
  {
    flattened := [];
    for i := 0 to |values|
      invariant IsFlat(flattened)
      invariant flattened == Wrap(Leaves(values[..i]))
    {
      var item := values[i];
      assert values[..i + 1] == values[..i] + [item];
      LeavesAppend(values[..i], [item]);
      WrapAppend(Leaves(values[..i]), Leaves([item]));
      match item {
        case Nested(items) =>
          var inner := Flatten(items);
          flattened := flattened + inner;
        case Leaf(v) =>
          flattened := flattened + [item];
      }
    }
    assert values[..|values|] == values;
  }

  lemma WrapAppend<T>(a: seq<T>, b: seq<T>)
    ensures Wrap(a + b) == Wrap(a) + Wrap(b)
  {
  }

  /** A list with no nested lists comes back element for element. */
  lemma FlatInputUnchanged<T>(values: seq<Item<T>>)
    requires IsFlat(values)
    ensures Wrap(Leaves(values)) == values
  {
    LeavesOfFlat(values);
  }

  /** Flattening is idempotent. */
  lemma FlattenIdempotent<T>(values: seq<Item<T>>)
    ensures Wrap(Leaves(Wrap(Leaves(values)))) == Wrap(Leaves(values))
  {
    FlatInputUnchanged(Wrap(Leaves(values)));
  }

  /** An empty nested list contributes nothing. */
  lemma EmptyNestedContributesNothing<T>(a: seq<Item<T>>, b: seq<Item<T>>)
    ensures Leaves(a + [Nested([])] + b) == Leaves(a + b)
  {
    LeavesAppend(a + [Nested([])], b);
    LeavesAppend(a, [Nested([])]);
    LeavesAppend(a, b);
    var e: seq<Item<T>> := [Nested([])];
    assert Leaves(e) == [] by {
      assert e[1..] == [];
    }
  }
}
