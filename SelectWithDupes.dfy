/**
 * Selections of k out of n items with repetition allowed
 * (src/main/java/Java/EssentialAlgorithms/Chapter9_Recursion/SelectionsAndPermutations/SelectKOfNWithDupes.java).
 * `select` fills the slots of `selections` from `index` on, each slot taking every item
 * index from the previous slot's value up, and records each completed selection.
 */
module SelectWithDupes {

  /** Positions p .. |s| - 1 of s never go down. */
  predicate NonDecreasingFrom(s: seq<int>, p: int)
  {
    forall a, b | 0 <= a <= b < |s| && p <= a :: s[a] <= s[b]
  }

  predicate InRange(s: seq<int>, n: nat)
  {
    forall a | 0 <= a < |s| :: 0 <= s[a] < n
  }

  /**
   * The index lists recorded by a call whose first |prefix| slots are fixed to prefix,
   * for k slots over n items, in the order they are recorded.
   */
  function Chosen(prefix: seq<int>, k: nat, n: nat): (r: seq<seq<int>>)
    requires |prefix| <= k && InRange(prefix, n)
    ensures forall j | 0 <= j < |r| :: InRange(r[j], n)
    decreases k - |prefix|, n + 1
  {
    if |prefix| == k then [prefix]
    else if |prefix| == 0 then []
    else ChosenBetween(prefix, k, n, prefix[|prefix| - 1], n)
  }

  /** The index lists recorded while slot |prefix| runs over lo .. hi - 1. */
  function ChosenBetween(prefix: seq<int>, k: nat, n: nat, lo: nat, hi: nat): (r: seq<seq<int>>)
    requires |prefix| < k && InRange(prefix, n) && hi <= n
    requires |prefix| > 0 && prefix[|prefix| - 1] <= lo
    ensures forall j | 0 <= j < |r| :: InRange(r[j], n)
    decreases k - |prefix|, hi
  {
    if lo >= hi then []
    else ChosenBetween(prefix, k, n, lo, hi - 1) + Chosen(prefix + [hi - 1], k, n)
  }

  /** A recorded index list: k slots, prefix kept, every index in range, never going down after the fixed slots. */
  predicate Extends(s: seq<int>, prefix: seq<int>, k: nat, n: nat)
  {
    0 < |prefix| <= k && |s| == k && s[..|prefix|] == prefix && InRange(s, n)
    && NonDecreasingFrom(s, |prefix| - 1)
  }

  /** Every list recorded from a non-empty prefix extends it. */
  lemma {:induction false} ChosenSound(prefix: seq<int>, k: nat, n: nat, s: seq<int>)
    requires 0 < |prefix| <= k && InRange(prefix, n)
    requires s in Chosen(prefix, k, n)
    ensures Extends(s, prefix, k, n)
    decreases k - |prefix|, n + 1
  {
    if |prefix| < k {
      ChosenBetweenSound(prefix, k, n, prefix[|prefix| - 1], n, s);
    }
  }

  lemma {:induction false} ChosenBetweenSound(prefix: seq<int>, k: nat, n: nat, lo: nat, hi: nat, s: seq<int>)
    requires 0 < |prefix| < k && InRange(prefix, n) && hi <= n && prefix[|prefix| - 1] <= lo
    requires s in ChosenBetween(prefix, k, n, lo, hi)
    ensures Extends(s, prefix, k, n) && lo <= s[|prefix|] < hi
    decreases k - |prefix|, hi
  {
    var front := ChosenBetween(prefix, k, n, lo, hi - 1);
    if s in front {
      ChosenBetweenSound(prefix, k, n, lo, hi - 1, s);
    } else {
      var next := prefix + [hi - 1];
      ChosenSound(next, k, n, s);
      assert s[..|prefix|] == s[..|next|][..|prefix|];
      assert s[|prefix|] == s[..|next|][|prefix|];
    }
  }

  /** The items at the given indices, in order: one recorded result. */
  function Picked<T>(items: seq<T>, indices: seq<int>): (r: seq<T>)
    requires InRange(indices, |items|)
    ensures |r| == |indices|
    ensures forall a | 0 <= a < |indices| :: r[a] == items[indices[a]]
  {
    seq(|indices|, a requires 0 <= a < |indices| => items[indices[a]])
  }

  function PickedAll<T>(items: seq<T>, lists: seq<seq<int>>): (r: seq<seq<T>>)
    requires forall j | 0 <= j < |lists| :: InRange(lists[j], |items|)
    ensures |r| == |lists|
    ensures forall j | 0 <= j < |lists| :: r[j] == Picked(items, lists[j])
  {
    seq(|lists|, j requires 0 <= j < |lists| => Picked(items, lists[j]))
  }

  lemma PickedAllAppend<T>(items: seq<T>, a: seq<seq<int>>, b: seq<seq<int>>)
    requires forall j | 0 <= j < |a| :: InRange(a[j], |items|)
    requires forall j | 0 <= j < |b| :: InRange(b[j], |items|)
    ensures PickedAll(items, a + b) == PickedAll(items, a) + PickedAll(items, b)
  {
    assert forall j | 0 <= j < |a + b| :: InRange((a + b)[j], |items|);
    var l := PickedAll(items, a + b);
    var r := PickedAll(items, a) + PickedAll(items, b);
    forall j | 0 <= j < |l|
      ensures l[j] == r[j]
    {
      if j >= |a| {
        assert (a + b)[j] == b[j - |a|];
      }
    }
  }

  /** Lines 35-37: the items at every selected index, in slot order. */
  method ItemsAt<T>(selections: array<int>, items: seq<T>) returns (result: seq<T>)
    requires InRange(selections[..], |items|)
    ensures result == Picked(items, selections[..])
  {
    result := [];
    for a := 0 to selections.Length
      invariant result == Picked(items, selections[..a])
    {
      result := result + [items[selections[a]]];
    }
    assert selections[..selections.Length] == selections[..];
  }

  /**
   * `select` (lines 31-49). The list of results is passed in and the extended list
   * returned; the slots before `index` are left as they were.
   */
  method Select<T>(index: nat, selections: array<int>, items: seq<T>, results: seq<seq<T>>)
    returns (out: seq<seq<T>>)
    requires index <= selections.Length && InRange(selections[..index], |items|)
    modifies selections
    ensures selections[..index] == old(selections[..index])
    ensures out == results + PickedAll(items, Chosen(old(selections[..index]), selections.Length, |items|))
    ensures index == selections.Length ==> out == results + [Picked(items, old(selections[..]))]
    ensures index == 0 < selections.Length ==> out == results
    decreases selections.Length - index, 1
  {
    if index == selections.Length {
      var result := ItemsAt(selections, items);
      out := results + [result];
      assert selections[..index] == selections[..];
      assert PickedAll(items, [selections[..]]) == [result];
    } else {
      out := results;
      if index == 0 {
        assert PickedAll(items, []) == [];
      } else {
        var start := selections[index - 1];
        ghost var prefix := selections[..index];
        ghost var k := selections.Length;
        for i := start to |items|
          invariant selections[..index] == prefix
          invariant out == results + PickedAll(items, ChosenBetween(prefix, k, |items|, start, i))
        {
          out := SelectSlot(index, i, selections, items, out, results, start);
        }
        assert ChosenBetween(prefix, k, |items|, start, |items|) == Chosen(prefix, k, |items|);
      }
    }
  }

  /**
   * One pass of the loop in `select` (lines 42-46): slot `index` takes item i, then the
   * later slots are filled; the lists recorded so far grow by those that put i in the slot.
   */
  method SelectSlot<T>(index: nat, i: nat, selections: array<int>, items: seq<T>, acc: seq<seq<T>>,
                       ghost results: seq<seq<T>>, ghost start: nat)
    returns (out: seq<seq<T>>)
    requires 0 < index < selections.Length && i < |items| && InRange(selections[..index], |items|)
    requires selections[index - 1] == start <= i
    requires acc == results + PickedAll(items, ChosenBetween(selections[..index], selections.Length, |items|, start, i))
    modifies selections
    ensures selections[..index] == old(selections[..index])
    ensures out == results + PickedAll(items, ChosenBetween(selections[..index], selections.Length, |items|, start, i + 1))
    decreases selections.Length - index, 0
  {
    ghost var prefix := selections[..index];
    ghost var k := selections.Length;
    selections[index] := i;
    assert selections[..index + 1] == prefix + [i];
    out := Select(index + 1, selections, items, acc);
    assert selections[..index] == selections[..index + 1][..index];
    PickedAllAppend(items, ChosenBetween(prefix, k, |items|, start, i), Chosen(prefix + [i], k, |items|));
  }

  /**
   * Every index list that extends prefix, stays in range and never goes down from the
   * last fixed slot on is recorded.
   */
  lemma {:induction false} ChosenComplete(prefix: seq<int>, k: nat, n: nat, s: seq<int>)
    requires InRange(prefix, n) && Extends(s, prefix, k, n)
    ensures s in Chosen(prefix, k, n)
    decreases k - |prefix|
  {
    if |prefix| < k {
      var p := |prefix|;
      var next := s[..p + 1];
      assert next == prefix + [s[p]];
      assert s[..p][p - 1] == s[p - 1];
      ChosenComplete(next, k, n, s);
      ChosenBetweenHas(prefix, k, n, prefix[p - 1], n, s);
    } else {
      assert s == s[..|prefix|];
    }
  }

  lemma {:induction false} ChosenBetweenHas(prefix: seq<int>, k: nat, n: nat, lo: nat, hi: nat, s: seq<int>)
    requires 0 < |prefix| < k && InRange(prefix, n) && hi <= n && prefix[|prefix| - 1] <= lo
    requires |s| == k && lo <= s[|prefix|] < hi && InRange(prefix + [s[|prefix|]], n)
    requires s in Chosen(prefix + [s[|prefix|]], k, n)
    ensures s in ChosenBetween(prefix, k, n, lo, hi)
    decreases hi
  {
    if s[|prefix|] < hi - 1 {
      ChosenBetweenHas(prefix, k, n, lo, hi - 1, s);
    }
  }

  /**
   * From a non-empty prefix the recursion records exactly the index lists that extend
   * it: k slots, all in range, never going down after the fixed slots.
   */
  lemma ChosenExactly(prefix: seq<int>, k: nat, n: nat)
    requires 0 < |prefix| <= k && InRange(prefix, n)
    ensures forall s :: s in Chosen(prefix, k, n) <==> Extends(s, prefix, k, n)
  {
    forall s
      ensures s in Chosen(prefix, k, n) <==> Extends(s, prefix, k, n)
    {
      if s in Chosen(prefix, k, n) {
        ChosenSound(prefix, k, n, s);
      }
      if Extends(s, prefix, k, n) {
        ChosenComplete(prefix, k, n, s);
      }
    }
  }
}
