/**
 * Merge sort (python/sort/merge_sort.py): a sort that builds new lists. `_merge` walks two
 * sorted lists with an index each, taking the left element on ties, then appends what is
 * left of either side. Elements are compared through `key`; for a list of numbers the key
 * is the number itself.
 */
module MergeSort {

  /** Ascending by key, duplicates allowed. */
  predicate SortedBy<T>(key: T -> int, s: seq<T>)
  {
    forall i, j | 0 <= i < j < |s| :: key(s[i]) <= key(s[j])
  }

  /** The merge the loop of `_merge` performs, one element at a time. */
  function MergeOf<T>(key: T -> int, left: seq<T>, right: seq<T>): (r: seq<T>)
    ensures |r| == |left| + |right|
    decreases |left| + |right|
  {
    if left == [] then right
    else if right == [] then left
    else if key(left[0]) <= key(right[0]) then [left[0]] + MergeOf(key, left[1..], right)
    else [right[0]] + MergeOf(key, left, right[1..])
  }

  /** Which side each element of the merge came from: true for the left side. */
  function Sides<T>(key: T -> int, left: seq<T>, right: seq<T>): (r: seq<bool>)
    ensures |r| == |left| + |right|
    decreases |left| + |right|
  {
    if left == [] then seq(|right|, _ => false)
    else if right == [] then seq(|left|, _ => true)
    else if key(left[0]) <= key(right[0]) then [true] + Sides(key, left[1..], right)
    else [false] + Sides(key, left, right[1..])
  }

  /** The merge holds exactly the elements of both sides. */
  lemma {:induction false} MergeMultiset<T>(key: T -> int, left: seq<T>, right: seq<T>)
    ensures multiset(MergeOf(key, left, right)) == multiset(left) + multiset(right)
    decreases |left| + |right|
  {
    if left != [] && right != [] {
      if key(left[0]) <= key(right[0]) {
        MergeMultiset(key, left[1..], right);
        assert MergeOf(key, left, right) == [left[0]] + MergeOf(key, left[1..], right);
        assert left == [left[0]] + left[1..];
        ConsMultiset(left[0], MergeOf(key, left[1..], right), left[1..], right);
      } else {
        MergeMultiset(key, left, right[1..]);
        assert MergeOf(key, left, right) == [right[0]] + MergeOf(key, left, right[1..]);
        assert right == [right[0]] + right[1..];
        ConsMultiset(right[0], MergeOf(key, left, right[1..]), right[1..], left);
      }
    }
  }

  /** Putting e in front of `rest` and of `a` keeps `rest` holding what `a` and `b` hold. */
  lemma ConsMultiset<T>(e: T, rest: seq<T>, a: seq<T>, b: seq<T>)
    requires multiset(rest) == multiset(a) + multiset(b)
    ensures multiset([e] + rest) == multiset([e] + a) + multiset(b)
  {
  }

  /** A key at most every key of a sorted list can go in front of it. */
  lemma SortedByCons<T>(key: T -> int, h: T, rest: seq<T>)
    requires SortedBy(key, rest) && forall x | x in rest :: key(h) <= key(x)
    ensures SortedBy(key, [h] + rest)
  {
    forall i, j | 0 <= i < j < |[h] + rest|
      ensures key(([h] + rest)[i]) <= key(([h] + rest)[j])
    {
      if i == 0 {
        assert ([h] + rest)[j] in rest;
      }
    }
  }

  /** The head of a sorted list has the smallest key. */
  lemma HeadSmallest<T>(key: T -> int, s: seq<T>, x: T)
    requires SortedBy(key, s) && x in s
    ensures key(s[0]) <= key(x)
  {
  }

  /** Lines 98-118: the merge of two sorted lists is sorted. */
  lemma {:induction false} MergeSorted<T>(key: T -> int, left: seq<T>, right: seq<T>)
    requires SortedBy(key, left) && SortedBy(key, right)
    ensures SortedBy(key, MergeOf(key, left, right))
    decreases |left| + |right|
  {
    if left != [] && right != [] {
      var m := MergeOf(key, left, right);
      if key(left[0]) <= key(right[0]) {
        var rest := MergeOf(key, left[1..], right);
        MergeSorted(key, left[1..], right);
        MergeMultiset(key, left[1..], right);
        forall x | x in rest
          ensures key(left[0]) <= key(x)
        {
          assert x in multiset(rest);
          if x in left[1..] {
            HeadSmallest(key, left, x);
          } else {
            HeadSmallest(key, right, x);
          }
        }
        SortedByCons(key, left[0], rest);
      } else {
        var rest := MergeOf(key, left, right[1..]);
        MergeSorted(key, left, right[1..]);
        MergeMultiset(key, left, right[1..]);
        forall x | x in rest
          ensures key(right[0]) <= key(x)
        {
          assert x in multiset(rest);
          if x in left {
            HeadSmallest(key, left, x);
          } else {
            HeadSmallest(key, right, x);
          }
        }
        SortedByCons(key, right[0], rest);
      }
    }
  }

  /** The elements of s whose side is b, in order. */
  function Pick<T>(s: seq<T>, sides: seq<bool>, b: bool): (r: seq<T>)
    requires |s| == |sides|
    ensures |r| <= |s|
  {
    if s == [] then []
    else (if sides[0] == b then [s[0]] else []) + Pick(s[1..], sides[1..], b)
  }

  /** Picking from a constant side list gives everything or nothing. */
  lemma {:induction false} PickAll<T>(s: seq<T>, b: bool, c: bool)
    ensures Pick(s, seq(|s|, _ => c), b) == if b == c then s else []
  {
    if s != [] {
      assert seq(|s|, _ => c)[1..] == seq(|s| - 1, _ => c);
      PickAll(s[1..], b, c);
    }
  }

  /**
   * Line 106 and lines 115-116: the merge is an interleaving of the two sides. The
   * elements taken from the left are the left list in its order, those taken from the
   * right the right list in its order.
   */
  lemma {:induction false} MergeInterleaves<T>(key: T -> int, left: seq<T>, right: seq<T>)
    ensures Pick(MergeOf(key, left, right), Sides(key, left, right), true) == left
    ensures Pick(MergeOf(key, left, right), Sides(key, left, right), false) == right
    decreases |left| + |right|
  {
    if left == [] {
      PickAll(right, true, false);
      PickAll(right, false, false);
    } else if right == [] {
      PickAll(left, true, true);
      PickAll(left, false, true);
    } else if key(left[0]) <= key(right[0]) {
      MergeInterleaves(key, left[1..], right);
      var m, s := MergeOf(key, left[1..], right), Sides(key, left[1..], right);
      assert ([left[0]] + m)[1..] == m && ([true] + s)[1..] == s;
      assert left == [left[0]] + left[1..];
    } else {
      MergeInterleaves(key, left, right[1..]);
      var m, s := MergeOf(key, left, right[1..]), Sides(key, left, right[1..]);
      assert ([right[0]] + m)[1..] == m && ([false] + s)[1..] == s;
      assert right == [right[0]] + right[1..];
    }
  }

  /** An element whose side is b is among the elements picked for b. */
  lemma {:induction false} PickMember<T>(s: seq<T>, sides: seq<bool>, b: bool, j: int)
    requires |s| == |sides| && 0 <= j < |s| && sides[j] == b
    ensures s[j] in Pick(s, sides, b)
  {
    if j > 0 {
      PickMember(s[1..], sides[1..], b, j - 1);
    }
  }

  /** Each element of the merge comes from the side its flag names. */
  lemma MergeOrigins<T>(key: T -> int, left: seq<T>, right: seq<T>, j: int)
    requires 0 <= j < |left| + |right|
    ensures var m, s := MergeOf(key, left, right), Sides(key, left, right);
      (s[j] ==> m[j] in left) && (!s[j] ==> m[j] in right)
  {
    var m, s := MergeOf(key, left, right), Sides(key, left, right);
    MergeInterleaves(key, left, right);
    PickMember(m, s, s[j], j);
  }

  /**
   * An element flagged false (from the right) comes before an element flagged true (from
   * the left) only when its key is strictly smaller.
   */
  predicate LeftFirst<T>(key: T -> int, m: seq<T>, s: seq<bool>)
  {
    |m| == |s| && forall i, j | 0 <= i < j < |m| && !s[i] && s[j] :: key(m[i]) < key(m[j])
  }

  /** Putting an element in front keeps LeftFirst when a right element is below every later left one. */
  lemma LeftFirstCons<T>(key: T -> int, x: T, b: bool, m: seq<T>, s: seq<bool>)
    requires LeftFirst(key, m, s)
    requires !b ==> forall j | 0 <= j < |m| && s[j] :: key(x) < key(m[j])
    ensures LeftFirst(key, [x] + m, [b] + s)
  {
    var m', s' := [x] + m, [b] + s;
    forall i, j | 0 <= i < j < |m'| && !s'[i] && s'[j]
      ensures key(m'[i]) < key(m'[j])
    {
      assert m'[j] == m[j - 1] && s'[j] == s[j - 1];
      if i > 0 {
        assert m'[i] == m[i - 1] && s'[i] == s[i - 1];
      }
    }
  }

  /**
   * Line 106, `<=` for stability: merging sorted lists, an element from the right comes
   * before an element from the left only when its key is strictly smaller. On equal keys
   * the left element comes first.
   */
  lemma {:induction false} MergeStable<T>(key: T -> int, left: seq<T>, right: seq<T>)
    requires SortedBy(key, left) && SortedBy(key, right)
    ensures LeftFirst(key, MergeOf(key, left, right), Sides(key, left, right))
    decreases |left| + |right|
  {
    if left == [] {
      assert forall k | 0 <= k < |right| :: !Sides(key, left, right)[k];
    } else if right == [] {
      assert forall k | 0 <= k < |left| :: Sides(key, left, right)[k];
    } else if key(left[0]) <= key(right[0]) {
      MergeStable(key, left[1..], right);
      LeftFirstCons(key, left[0], true, MergeOf(key, left[1..], right), Sides(key, left[1..], right));
    } else {
      MergeStable(key, left, right[1..]);
      var m, s := MergeOf(key, left, right[1..]), Sides(key, left, right[1..]);
      forall j | 0 <= j < |m| && s[j]
        ensures key(right[0]) < key(m[j])
      {
        MergeOrigins(key, left, right[1..], j);
        HeadSmallest(key, left, m[j]);
      }
      LeftFirstCons(key, right[0], false, m, s);
    }
  }

  /** Lines 55-118 with one side empty: `_merge` returns the other side. */
  lemma MergeEmptySide<T>(key: T -> int, s: seq<T>)
    ensures MergeOf(key, s, []) == s && MergeOf(key, [], s) == s
  {
  }

  /** The elements of s whose key is x, in their order in s. */
  function WithKey<T>(key: T -> int, s: seq<T>, x: int): (r: seq<T>)
    ensures |r| <= |s|
    ensures forall i | 0 <= i < |r| :: key(r[i]) == x
  {
    if s == [] then [] else (if key(s[0]) == x then [s[0]] else []) + WithKey(key, s[1..], x)
  }

  lemma {:induction false} WithKeyAppend<T>(key: T -> int, a: seq<T>, b: seq<T>, x: int)
    ensures WithKey(key, a + b, x) == WithKey(key, a, x) + WithKey(key, b, x)
  {
    if a == [] {
      assert a + b == b;
    } else {
      assert (a + b)[1..] == a[1..] + b;
      WithKeyAppend(key, a[1..], b, x);
    }
  }

  lemma WithKeyCons<T>(key: T -> int, e: T, s: seq<T>, x: int)
    ensures WithKey(key, [e] + s, x) == (if key(e) == x then [e] else []) + WithKey(key, s, x)
  {
    assert ([e] + s)[1..] == s;
  }

  /** A sorted list whose first key is above x holds no element with key x. */
  lemma {:induction false} NoneWithKey<T>(key: T -> int, s: seq<T>, x: int)
    requires SortedBy(key, s) && s != [] && key(s[0]) > x
    ensures WithKey(key, s, x) == []
  {
    if |s| > 1 {
      assert key(s[1]) >= key(s[0]);
      NoneWithKey(key, s[1..], x);
    }
  }

  /**
   * Stability of one merge: for every key, the merge lists the left side's elements with
   * that key, in their order, before the right side's, in theirs.
   */
  lemma {:induction false} MergeKeepsKeyOrder<T>(key: T -> int, left: seq<T>, right: seq<T>, x: int)
    requires SortedBy(key, left) && SortedBy(key, right)
    ensures WithKey(key, MergeOf(key, left, right), x) == WithKey(key, left, x) + WithKey(key, right, x)
    decreases |left| + |right|
  {
    if left == [] {
    } else if right == [] {
    } else if key(left[0]) <= key(right[0]) {
      SortedTail(key, left);
      MergeKeepsKeyOrder(key, left[1..], right, x);
      TakeLeftKeepsKeyOrder(key, left, right, x);
    } else {
      SortedTail(key, right);
      MergeKeepsKeyOrder(key, left, right[1..], x);
      if key(right[0]) == x {
        NoneWithKey(key, left, x);
      }
      TakeRightKeepsKeyOrder(key, left, right, x);
    }
  }

  /** A merge step that takes the left head keeps the key order the rest of the merge keeps. */
  lemma TakeLeftKeepsKeyOrder<T>(key: T -> int, left: seq<T>, right: seq<T>, x: int)
    requires left != [] && right != [] && key(left[0]) <= key(right[0])
    requires WithKey(key, MergeOf(key, left[1..], right), x) == WithKey(key, left[1..], x) + WithKey(key, right, x)
    ensures WithKey(key, MergeOf(key, left, right), x) == WithKey(key, left, x) + WithKey(key, right, x)
  {
    calc {
      WithKey(key, MergeOf(key, left, right), x);
    == { assert MergeOf(key, left, right) == [left[0]] + MergeOf(key, left[1..], right); }
      WithKey(key, [left[0]] + MergeOf(key, left[1..], right), x);
    == { FrontKeepsKeyOrder(key, left[0], MergeOf(key, left[1..], right), left[1..], WithKey(key, right, x), x); }
      WithKey(key, [left[0]] + left[1..], x) + WithKey(key, right, x);
    == { assert [left[0]] + left[1..] == left; }
      WithKey(key, left, x) + WithKey(key, right, x);
    }
  }

  /**
   * A merge step that takes the right head keeps the key order the rest of the merge keeps,
   * when no left element shares that head's key.
   */
  lemma TakeRightKeepsKeyOrder<T>(key: T -> int, left: seq<T>, right: seq<T>, x: int)
    requires left != [] && right != [] && key(left[0]) > key(right[0])
    requires key(right[0]) == x ==> WithKey(key, left, x) == []
    requires WithKey(key, MergeOf(key, left, right[1..]), x) == WithKey(key, left, x) + WithKey(key, right[1..], x)
    ensures WithKey(key, MergeOf(key, left, right), x) == WithKey(key, left, x) + WithKey(key, right, x)
  {
    calc {
      WithKey(key, MergeOf(key, left, right), x);
    == { assert MergeOf(key, left, right) == [right[0]] + MergeOf(key, left, right[1..]); }
      WithKey(key, [right[0]] + MergeOf(key, left, right[1..]), x);
    == { BackKeepsKeyOrder(key, right[0], MergeOf(key, left, right[1..]), right[1..], WithKey(key, left, x), x); }
      WithKey(key, left, x) + WithKey(key, [right[0]] + right[1..], x);
    == { assert [right[0]] + right[1..] == right; }
      WithKey(key, left, x) + WithKey(key, right, x);
    }
  }

  lemma SortedTail<T>(key: T -> int, s: seq<T>)
    requires SortedBy(key, s) && s != []
    ensures SortedBy(key, s[1..])
  {
  }

  /** Putting e in front of both `rest` and `a` keeps `rest`'s elements with key x those of `a`, then `w`. */
  lemma FrontKeepsKeyOrder<T>(key: T -> int, e: T, rest: seq<T>, a: seq<T>, w: seq<T>, x: int)
    requires WithKey(key, rest, x) == WithKey(key, a, x) + w
    ensures WithKey(key, [e] + rest, x) == WithKey(key, [e] + a, x) + w
  {
    WithKeyCons(key, e, rest, x);
    WithKeyCons(key, e, a, x);
  }

  /**
   * Putting e in front of both `rest` and `b` keeps `rest`'s elements with key x those of `w`,
   * then `b`'s, provided `w` is empty when e itself has key x.
   */
  lemma BackKeepsKeyOrder<T>(key: T -> int, e: T, rest: seq<T>, b: seq<T>, w: seq<T>, x: int)
    requires key(e) == x ==> w == []
    requires WithKey(key, rest, x) == w + WithKey(key, b, x)
    ensures WithKey(key, [e] + rest, x) == w + WithKey(key, [e] + b, x)
  {
    WithKeyCons(key, e, rest, x);
    WithKeyCons(key, e, b, x);
    if key(e) == x {
      assert w + ([e] + WithKey(key, b, x)) == [e] + (w + WithKey(key, b, x));
    } else {
      assert [] + (w + WithKey(key, b, x)) == w + WithKey(key, b, x);
      assert [] + WithKey(key, b, x) == WithKey(key, b, x);
    }
  }

  /**
   * Lines 55-118, `_merge`: the index loop and the two extends build exactly the merge
   * above, whose properties (sorted, both sides' elements, stable, an interleaving) are
   * the lemmas about MergeOf.
   */
  method Merge<T>(key: T -> int, leftSide: seq<T>, rightSide: seq<T>) returns (result: seq<T>)
    ensures result == MergeOf(key, leftSide, rightSide)
  {
    result := [];
    var leftIdx, rightIdx := 0, 0;
    while leftIdx < |leftSide| && rightIdx < |rightSide|
      invariant 0 <= leftIdx <= |leftSide| && 0 <= rightIdx <= |rightSide|
      invariant result + MergeOf(key, leftSide[leftIdx..], rightSide[rightIdx..]) == MergeOf(key, leftSide, rightSide)
      decreases |leftSide| - leftIdx + |rightSide| - rightIdx
    {
      ghost var l, r := leftSide[leftIdx..], rightSide[rightIdx..];
      if key(leftSide[leftIdx]) <= key(rightSide[rightIdx]) {
        assert l[1..] == leftSide[leftIdx + 1..];
        assert MergeOf(key, l, r) == [leftSide[leftIdx]] + MergeOf(key, leftSide[leftIdx + 1..], r);
        result := result + [leftSide[leftIdx]];
        leftIdx := leftIdx + 1;
      } else {
        assert r[1..] == rightSide[rightIdx + 1..];
        assert MergeOf(key, l, r) == [rightSide[rightIdx]] + MergeOf(key, l, rightSide[rightIdx + 1..]);
        result := result + [rightSide[rightIdx]];
        rightIdx := rightIdx + 1;
      }
    }
    result := result + leftSide[leftIdx..];
    result := result + rightSide[rightIdx..];
  }

  /**
   * Lines 21-53, `merge_sort`: a new list that is sorted and holds exactly the input's
   * elements, and is stable: the elements sharing a key keep their relative order. A list
   * of at most one element comes back as it is. The input is a value and is not changed.
   */
  method MergeSortList<T>(key: T -> int, values: seq<T>) returns (result: seq<T>)
    ensures SortedBy(key, result) && multiset(result) == multiset(values)
    ensures forall x :: WithKey(key, result, x) == WithKey(key, values, x)
    ensures |values| <= 1 ==> result == values
    decreases |values|
  {
    if |values| <= 1 {
      return values;
    }
    var middleIndex := |values| / 2;
    var leftSide := MergeSortList(key, values[..middleIndex]);
    var rightSide := MergeSortList(key, values[middleIndex..]);
    result := Merge(key, leftSide, rightSide);
    MergeMultiset(key, leftSide, rightSide);
    MergeSorted(key, leftSide, rightSide);
    assert values == values[..middleIndex] + values[middleIndex..];
    forall x
      ensures WithKey(key, result, x) == WithKey(key, values, x)
    {
      MergeKeepsKeyOrder(key, leftSide, rightSide, x);
      WithKeyAppend(key, values[..middleIndex], values[middleIndex..], x);
    }
  }

  /** The docstring's merges: [1, 3, 5] with [2, 4, 6], and [1, 2, 2] with [2, 3, 3]. */
  lemma MergeExamples()
    ensures MergeOf(x => x, [1, 3, 5], [2, 4, 6]) == [1, 2, 3, 4, 5, 6]
    ensures MergeOf(x => x, [1, 2, 2], [2, 3, 3]) == [1, 2, 2, 2, 3, 3]
  {
  }

  /** Keyed by the number alone, equal numbers keep the left side's element first. */
  lemma StableExample()
    ensures MergeOf((p: (int, char)) => p.0, [(1, 'a'), (2, 'b'), (3, 'c')], [(1, 'd'), (2, 'e'), (3, 'f')])
      == [(1, 'a'), (1, 'd'), (2, 'b'), (2, 'e'), (3, 'c'), (3, 'f')]
  {
  }
}
