/**
 * Bubble sort (python/sort/bubble_sort.py): three in-place sorts of a list that compare
 * neighbours and exchange them when they are out of order. The basic and the optimized
 * versions sort ascending, the descending version the other way round.
 */
module BubbleSort {
  import opened Sequences

  /** x may stay in front of y: `<=` ascending, `>=` descending. */
  predicate Before(x: int, y: int, descending: bool)
  {
    if descending then x >= y else x <= y
  }

  /**
   * Positions m.. of t hold their final values: they are in order among themselves, and
   * every value in front of them may stay in front of each of them.
   */
  predicate SettledFrom(t: seq<int>, m: int, descending: bool)
  {
    0 <= m <= |t|
    && (forall a, b | m <= a < b < |t| :: Before(t[a], t[b], descending))
    && (forall a, b | 0 <= a < m <= b < |t| :: Before(t[a], t[b], descending))
  }

  /** With every position settled, the list is in order. */
  lemma SettledFromStart(t: seq<int>, descending: bool)
    requires SettledFrom(t, 0, descending)
    ensures !descending ==> Sorted(t)
    ensures descending ==> NonIncreasing(t)
  {
  }

  /** Lines 45-65: `_swap` exchanges exactly positions i and j. */
  method Swap(values: array<int>, i: int, j: int)
    requires 0 <= i < values.Length && 0 <= j < values.Length
    modifies values
    ensures values[..] == Swapped(old(values[..]), i, j)
  {
    values[i], values[j] := values[j], values[i];
  }

  /**
   * Where the inner loop stands at `index`, with a settled suffix from `settled`: that
   * suffix is still settled, the value at index may stay behind every value before it, and
   * once the loop has reached settled - 1 the value there may stay behind every value
   * before it.
   */
  predicate PassAt(t: seq<int>, index: int, settled: int, descending: bool)
  {
    0 <= index < |t| && 1 <= settled && SettledFrom(t, settled, descending)
    && (forall k | 0 <= k <= index :: Before(t[k], t[index], descending))
    && (settled - 1 <= index ==> forall k | 0 <= k < settled - 1 :: Before(t[k], t[settled - 1], descending))
  }

  /** One comparison of the inner loop: neighbours index and index + 1, exchanged when out of order. */
  function Compare(t: seq<int>, index: int, descending: bool): (r: seq<int>)
    requires 0 <= index && index + 1 < |t|
    ensures |r| == |t|
  {
    if Before(t[index], t[index + 1], descending) then t else Swapped(t, index, index + 1)
  }

  /** A comparison moves the loop one position on, and never exchanges inside the settled suffix. */
  lemma CompareAdvances(t: seq<int>, index: int, settled: int, descending: bool)
    requires PassAt(t, index, settled, descending) && index + 1 < |t|
    ensures PassAt(Compare(t, index, descending), index + 1, settled, descending)
  {
    var u := Compare(t, index, descending);
    if !Before(t[index], t[index + 1], descending) {
      assert index + 1 < settled;
      PrefixSwapKeepsSettled(t, u, index, settled, descending);
      forall k | 0 <= k <= index + 1
        ensures Before(u[k], u[index + 1], descending)
      {
        if k < index {
          assert u[k] == t[k];
        }
      }
    }
  }

  /** When the loop has passed settled - 1, one more position is settled. */
  lemma PassSettles(t: seq<int>, index: int, m: int, descending: bool)
    requires PassAt(t, index, m + 1, descending) && m <= index
    ensures SettledFrom(t, m, descending)
  {
  }

  /** The list after the comparisons at positions 0 .. count - 1 of one pass. */
  function Compared(t: seq<int>, count: int, descending: bool): (r: seq<int>)
    requires 0 <= count < |t|
    ensures |r| == |t|
  {
    if count == 0 then t else Compare(Compared(t, count - 1, descending), count - 1, descending)
  }

  /** A comparison only rearranges the values. */
  lemma CompareMultiset(t: seq<int>, index: int, descending: bool)
    requires 0 <= index && index + 1 < |t|
    ensures multiset(Compare(t, index, descending)) == multiset(t)
  {
    SwappedMultiset(t, index, index + 1);
  }

  /** The comparisons of a pass only rearrange the values. */
  lemma {:induction false} ComparedMultiset(t: seq<int>, count: int, descending: bool)
    requires 0 <= count < |t|
    ensures multiset(Compared(t, count, descending)) == multiset(t)
  {
    if count > 0 {
      ComparedMultiset(t, count - 1, descending);
      CompareMultiset(Compared(t, count - 1, descending), count - 1, descending);
    }
  }

  /**
   * Given a settled suffix from `settled`, the comparisons up to `count` leave the loop
   * at count with the suffix still settled, and only rearrange the values.
   */
  lemma {:induction false} ComparedAt(t: seq<int>, count: int, settled: int, descending: bool)
    requires 0 <= count < |t| && 1 <= settled && SettledFrom(t, settled, descending)
    ensures PassAt(Compared(t, count, descending), count, settled, descending)
  {
    if count > 0 {
      ComparedAt(t, count - 1, settled, descending);
      var before := Compared(t, count - 1, descending);
      CompareAdvances(before, count - 1, settled, descending);
      assert Compared(t, count, descending) == Compare(before, count - 1, descending);
    }
  }

  /**
   * The inner loop shared by the three sorts (lines 100-107, 164-170 and 189-194):
   * neighbours index and index + 1 are compared for index in range(count), and exchanged
   * when out of order.
   */
  method Pass(values: array<int>, count: int, descending: bool)
    requires 0 <= count < values.Length
    modifies values
    ensures values[..] == Compared(old(values[..]), count, descending)
  {
    var index := 0;
    while index < count
      invariant 0 <= index <= count
      invariant values[..] == Compared(old(values[..]), index, descending)
    {
      if !Before(values[index], values[index + 1], descending) {
        Swap(values, index, index + 1);
      }
      index := index + 1;
    }
  }

  /** Exchanging two neighbours in front of the settled suffix keeps it settled. */
  lemma PrefixSwapKeepsSettled(s: seq<int>, t: seq<int>, index: int, settled: int, descending: bool)
    requires SettledFrom(s, settled, descending) && 0 <= index && index + 1 < settled
    requires t == Swapped(s, index, index + 1)
    ensures SettledFrom(t, settled, descending)
  {
    forall a, b | 0 <= a < settled <= b < |t|
      ensures Before(t[a], t[b], descending)
    {
      if a == index {
        assert t[a] == s[index + 1];
      } else if a == index + 1 {
        assert t[a] == s[index];
      }
    }
  }

  /** How many neighbours pass i compares: range(len - 1) basic, range(len - i - 1) optimized. */
  function Count(n: int, i: int, optimized: bool): int
  {
    if optimized then n - i - 1 else n - 1
  }

  /** The list after the first k passes. */
  function Passed(t: seq<int>, k: int, optimized: bool, descending: bool): (r: seq<int>)
    requires 0 <= k <= |t|
    ensures |r| == |t|
  {
    if k == 0 then t
    else Compared(Passed(t, k - 1, optimized, descending), Count(|t|, k - 1, optimized), descending)
  }

  /** The passes only rearrange the values. */
  lemma {:induction false} PassedMultiset(t: seq<int>, k: int, optimized: bool, descending: bool)
    requires 0 <= k <= |t|
    ensures multiset(Passed(t, k, optimized, descending)) == multiset(t)
  {
    if k > 0 {
      PassedMultiset(t, k - 1, optimized, descending);
      ComparedMultiset(Passed(t, k - 1, optimized, descending), Count(|t|, k - 1, optimized), descending);
    }
  }

  /** After pass k - 1 the last k positions are settled, and the values are only rearranged. */
  lemma {:induction false} PassedSettles(t: seq<int>, k: int, optimized: bool, descending: bool)
    requires 0 <= k <= |t|
    ensures SettledFrom(Passed(t, k, optimized, descending), |t| - k, descending)
  {
    if k > 0 {
      PassedSettles(t, k - 1, optimized, descending);
      var before := Passed(t, k - 1, optimized, descending);
      var count := Count(|t|, k - 1, optimized);
      var m := |t| - k;
      assert |t| - (k - 1) == m + 1;
      ComparedAt(before, count, m + 1, descending);
      var after := Compared(before, count, descending);
      PassSettles(after, count, m, descending);
      assert Passed(t, k, optimized, descending) == after;
    }
  }

  /**
   * The outer loops of `bubble_sort_basic` (lines 93-107), `bubble_sort_optimized`
   * (lines 145-170) and `bubble_sort_descending` (lines 188-194): one pass per position.
   */
  method Passes(values: array<int>, optimized: bool, descending: bool)
    modifies values
    ensures values[..] == Passed(old(values[..]), values.Length, optimized, descending)
  {
    var n := values.Length;
    var i := 0;
    while i < n
      invariant 0 <= i <= n
      invariant values[..] == Passed(old(values[..]), i, optimized, descending)
    {
      Pass(values, Count(n, i, optimized), descending);
      i := i + 1;
    }
  }

  /** Settled ascending: the suffix is sorted and no value in front of it is larger than one in it. */
  lemma SettledAscending(t: seq<int>, m: int)
    requires SettledFrom(t, m, false)
    ensures 0 <= m <= |t| && Sorted(t[m..])
    ensures forall a, b | 0 <= a < m <= b < |t| :: t[a] <= t[b]
  {
    forall a, b | 0 <= a < b < |t[m..]|
      ensures t[m..][a] <= t[m..][b]
    {
      assert Before(t[m + a], t[m + b], false);
    }
  }

  /**
   * A rearrangement of s whose suffix from m is sorted and bounds everything in front of
   * it holds there exactly what the sorted arrangement of s holds: those positions have
   * their final values.
   */
  lemma SuffixIsFinal(s: seq<int>, t: seq<int>, m: int)
    requires 0 <= m <= |t| && Sorted(t[m..]) && multiset(t) == multiset(s)
    requires forall a, b | 0 <= a < m <= b < |t| :: t[a] <= t[b]
    ensures |t| == |s| && t[m..] == SortedCopy(s)[m..]
  {
    assert |t| == |multiset(t)| == |multiset(s)| == |s|;
    var front, back := SortedCopy(t[..m]), t[m..];
    FrontBelowBack(t, m);
    SortedJoin(front, back);
    assert multiset(front + back) == multiset(t) by {
      assert t == t[..m] + back;
    }
    SortedUnique(front + back, SortedCopy(s));
    assert (front + back)[m..] == back;
  }

  /** The sorted arrangement of the front holds nothing larger than a value of the suffix. */
  lemma FrontBelowBack(t: seq<int>, m: int)
    requires 0 <= m <= |t|
    requires forall a, b | 0 <= a < m <= b < |t| :: t[a] <= t[b]
    ensures forall x, y | x in SortedCopy(t[..m]) && y in t[m..] :: x <= y
  {
    var front := SortedCopy(t[..m]);
    forall x, y | x in front && y in t[m..]
      ensures x <= y
    {
      assert x in multiset(t[..m]) by { assert x in multiset(front); }
      var a :| 0 <= a < m && t[..m][a] == x;
      var b :| 0 <= b < |t| - m && t[m..][b] == y;
      assert t[a] <= t[m + b];
    }
  }

  /** Two sorted lists, each value of the first at most each of the second, join sorted. */
  lemma SortedJoin(front: seq<int>, back: seq<int>)
    requires Sorted(front) && Sorted(back)
    requires forall x, y | x in front && y in back :: x <= y
    ensures Sorted(front + back)
  {
    var whole := front + back;
    forall a, b | 0 <= a < b < |whole|
      ensures whole[a] <= whole[b]
    {
      if a < |front| <= b {
        assert whole[a] in front && whole[b] in back;
      }
    }
  }

  /**
   * Lines 156-158: in ascending order, after pass i (i = k - 1) the last i + 1 positions
   * hold the values they have in the sorted result.
   */
  lemma PassedFinal(t: seq<int>, k: int, optimized: bool)
    requires 0 <= k <= |t|
    ensures Passed(t, k, optimized, false)[|t| - k..] == SortedCopy(t)[|t| - k..]
  {
    PassedSettles(t, k, optimized, false);
    PassedMultiset(t, k, optimized, false);
    SettledAscending(Passed(t, k, optimized, false), |t| - k);
    SuffixIsFinal(t, Passed(t, k, optimized, false), |t| - k);
  }

  /** After every pass the list, ascending, is the sorted arrangement of its values. */
  lemma AllPassedSorted(t: seq<int>, optimized: bool)
    ensures Passed(t, |t|, optimized, false) == SortedCopy(t)
  {
    PassedFinal(t, |t|, optimized);
    assert Passed(t, |t|, optimized, false)[0..] == Passed(t, |t|, optimized, false);
  }

  /**
   * Lines 110-170, `bubble_sort_optimized`: the list ends as the sorted arrangement of
   * its old values.
   */
  method BubbleSortOptimized(values: array<int>)
    modifies values
    ensures values[..] == SortedCopy(old(values[..]))
  {
    Passes(values, true, false);
    AllPassedSorted(old(values[..]), true);
  }

  /**
   * Lines 68-107, `bubble_sort_basic`: the list ends as the sorted arrangement of its old
   * values.
   */
  method BubbleSortBasic(values: array<int>)
    modifies values
    ensures values[..] == SortedCopy(old(values[..]))
  {
    Passes(values, false, false);
    AllPassedSorted(old(values[..]), false);
  }

  /**
   * Lines 172-194, `bubble_sort_descending`: the list ends in non-increasing order
   * holding the same values.
   */
  method BubbleSortDescending(values: array<int>)
    modifies values
    ensures NonIncreasing(values[..]) && multiset(values[..]) == multiset(old(values[..]))
  {
    Passes(values, true, true);
    PassedSettles(old(values[..]), values.Length, true, true);
    PassedMultiset(old(values[..]), values.Length, true, true);
    SettledFromStart(values[..], true);
  }

  /** The basic and the optimized versions leave any list in the same order. */
  method ImplementationsMatch(s: seq<int>) returns (basic: seq<int>, optimized: seq<int>)
    ensures basic == optimized == SortedCopy(s)
  {
    var a := new int[|s|](i requires 0 <= i < |s| => s[i]);
    assert a[..] == s;
    BubbleSortBasic(a);
    var b := new int[|s|](i requires 0 <= i < |s| => s[i]);
    assert b[..] == s;
    BubbleSortOptimized(b);
    basic, optimized := a[..], b[..];
  }

  /** The two exchanges of the `_swap` example: [1, 2, 3, 4, 5] becomes [5, 4, 3, 2, 1]. */
  lemma SwapExample()
    ensures Swapped([1, 2, 3, 4, 5], 0, 4) == [5, 2, 3, 4, 1]
    ensures Swapped([5, 2, 3, 4, 1], 1, 3) == [5, 4, 3, 2, 1]
  {
  }
}
