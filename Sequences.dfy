/** Order and shape notions on sequences shared by the search, sort and permutation models. */
module Sequences {

  /** `s[::-1]`. */
  function Reverse<T>(s: seq<T>): (r: seq<T>)
    ensures |r| == |s|
    ensures forall i | 0 <= i < |s| :: r[i] == s[|s| - 1 - i]
  {
    seq(|s|, i requires 0 <= i < |s| => s[|s| - 1 - i])
  }

  lemma ReverseMultiset<T>(s: seq<T>)
    ensures multiset(Reverse(s)) == multiset(s)
    decreases |s|
  {
    if s != [] {
      var r := Reverse(s);
      assert s == s[..|s| - 1] + [s[|s| - 1]];
      assert r == [s[|s| - 1]] + Reverse(s[..|s| - 1]);
      ReverseMultiset(s[..|s| - 1]);
    }
  }

  /** Reversing a concatenation reverses and swaps its parts. */
  lemma ReverseAppend<T>(a: seq<T>, b: seq<T>)
    ensures Reverse(a + b) == Reverse(b) + Reverse(a)
  {
    var r, q := Reverse(a + b), Reverse(b) + Reverse(a);
    assert |r| == |q|;
    forall i | 0 <= i < |r|
      ensures r[i] == q[i]
    {
      if i < |b| {
        assert q[i] == Reverse(b)[i];
      } else {
        assert q[i] == Reverse(a)[i - |b|];
      }
    }
  }

  /** Reversing twice gives the sequence back. */
  lemma ReverseReverse<T>(s: seq<T>)
    ensures Reverse(Reverse(s)) == s
  {
  }

  /** The sequence with the elements at positions i and j exchanged. */
  function Swapped<T>(s: seq<T>, i: int, j: int): (r: seq<T>)
    requires 0 <= i < |s| && 0 <= j < |s|
    ensures |r| == |s| && r[i] == s[j] && r[j] == s[i]
    ensures forall m | 0 <= m < |s| && m != i && m != j :: r[m] == s[m]
  {
    s[i := s[j]][j := s[i]]
  }

  /** Exchanging two elements keeps the multiset of elements. */
  lemma SwappedMultiset<T>(s: seq<T>, i: int, j: int)
    requires 0 <= i < |s| && 0 <= j < |s|
    ensures multiset(Swapped(s, i, j)) == multiset(s)
  {
  }

  /**
   * t is s with the elements at positions lo..hi (inclusive) rearranged: the same
   * multiset of elements, and every position outside the range unchanged.
   */
  predicate Rearranged(s: seq<int>, t: seq<int>, lo: int, hi: int)
  {
    |s| == |t| && multiset(s) == multiset(t)
    && forall k | 0 <= k < |s| && (k < lo || hi < k) :: s[k] == t[k]
  }

  /** Exchanging two positions of lo..hi rearranges lo..hi. */
  lemma SwapRearranges(s: seq<int>, i: int, j: int, lo: int, hi: int)
    requires 0 <= lo <= i <= hi < |s| && lo <= j <= hi
    ensures Rearranged(s, Swapped(s, i, j), lo, hi)
  {
    SwappedMultiset(s, i, j);
  }

  /** A swap inside lo..hi followed by a rearrangement of lo..hi is a rearrangement of lo..hi. */
  lemma SwapThenRearranged(s: seq<int>, i: int, j: int, u: seq<int>, lo: int, hi: int)
    requires 0 <= lo <= i <= hi < |s| && lo <= j <= hi
    requires Rearranged(Swapped(s, i, j), u, lo, hi)
    ensures Rearranged(s, u, lo, hi)
  {
    SwapRearranges(s, i, j, lo, hi);
    RearrangedTrans(s, Swapped(s, i, j), u, lo, hi);
  }

  /** Two rearrangements of lo..hi in a row are one. */
  lemma RearrangedTrans(s: seq<int>, t: seq<int>, u: seq<int>, lo: int, hi: int)
    requires Rearranged(s, t, lo, hi) && Rearranged(t, u, lo, hi)
    ensures Rearranged(s, u, lo, hi)
  {
  }

  /** A rearrangement of lo..hi keeps the multiset of that slice. */
  lemma RearrangedSlice(s: seq<int>, t: seq<int>, lo: int, hi: int)
    requires Rearranged(s, t, lo, hi) && 0 <= lo <= hi + 1 <= |s|
    ensures multiset(s[lo..hi + 1]) == multiset(t[lo..hi + 1])
  {
    var a, m, n, b := s[..lo], s[lo..hi + 1], t[lo..hi + 1], s[hi + 1..];
    assert s == a + m + b;
    assert t == a + n + b;
    assert multiset(m) == multiset(s) - multiset(a) - multiset(b);
  }

  /** A rearrangement of a range is one of any range around it. */
  lemma RearrangedWiden(s: seq<int>, t: seq<int>, lo: int, hi: int, lo': int, hi': int)
    requires Rearranged(s, t, lo, hi) && lo' <= lo && hi <= hi'
    ensures Rearranged(s, t, lo', hi')
  {
  }

  /** An upper bound of the values in lo..hi is one after they are rearranged. */
  lemma RearrangedBelow(s: seq<int>, t: seq<int>, lo: int, hi: int, x: int)
    requires Rearranged(s, t, lo, hi) && 0 <= lo <= hi + 1 <= |s|
    requires forall j | lo <= j <= hi :: s[j] <= x
    ensures forall k | lo <= k <= hi :: t[k] <= x
  {
    RearrangedFrom(s, t, lo, hi);
    forall k | lo <= k <= hi
      ensures t[k] <= x
    {
      var j := SliceIndex(s, lo, hi, t[k]);
    }
  }

  /** A lower bound of the values in lo..hi is one after they are rearranged. */
  lemma RearrangedAbove(s: seq<int>, t: seq<int>, lo: int, hi: int, x: int)
    requires Rearranged(s, t, lo, hi) && 0 <= lo <= hi + 1 <= |s|
    requires forall j | lo <= j <= hi :: x <= s[j]
    ensures forall k | lo <= k <= hi :: x <= t[k]
  {
    RearrangedFrom(s, t, lo, hi);
    forall k | lo <= k <= hi
      ensures x <= t[k]
    {
      var j := SliceIndex(s, lo, hi, t[k]);
    }
  }

  /** After a rearrangement of lo..hi, every value there was already somewhere in lo..hi. */
  lemma RearrangedFrom(s: seq<int>, t: seq<int>, lo: int, hi: int)
    requires Rearranged(s, t, lo, hi) && 0 <= lo <= hi + 1 <= |s|
    ensures forall k | lo <= k <= hi :: t[k] in s[lo..hi + 1]
  {
    RearrangedSlice(s, t, lo, hi);
    forall k | lo <= k <= hi
      ensures t[k] in s[lo..hi + 1]
    {
      assert t[k] == t[lo..hi + 1][k - lo];
      assert t[k] in multiset(s[lo..hi + 1]);
    }
  }

  /** A value of the slice lo..hi sits at some position of lo..hi. */
  lemma SliceIndex(s: seq<int>, lo: int, hi: int, v: int) returns (j: int)
    requires 0 <= lo <= hi + 1 <= |s| && v in s[lo..hi + 1]
    ensures lo <= j <= hi && s[j] == v
  {
    var i :| 0 <= i < hi + 1 - lo && s[lo..hi + 1][i] == v;
    j := lo + i;
  }

  /** Strictly increasing. */
  predicate Ascending(s: seq<int>)
  {
    forall a, b | 0 <= a < b < |s| :: s[a] < s[b]
  }

  /** Ascending order, duplicates allowed. */
  predicate Sorted(s: seq<int>)
  {
    forall i, j | 0 <= i < j < |s| :: s[i] <= s[j]
  }

  /** Descending order, duplicates allowed. */
  predicate NonIncreasing(s: seq<int>)
  {
    forall i, j | 0 <= i < j < |s| :: s[i] >= s[j]
  }

  /** a and b have equal length, agree before position p and a[p] < b[p]. */
  predicate LexLessAt(a: seq<int>, b: seq<int>, p: nat)
  {
    |a| == |b| && p < |a| && (forall i | 0 <= i < p :: a[i] == b[i]) && a[p] < b[p]
  }

  /** Python's `a < b` on two lists of equal length. */
  predicate LexLess(a: seq<int>, b: seq<int>)
  {
    exists p: nat | p < |a| :: LexLessAt(a, b, p)
  }

  lemma LexLessIrreflexive(a: seq<int>)
    ensures !LexLess(a, a)
  {
  }

  lemma LexLessTransitive(a: seq<int>, b: seq<int>, c: seq<int>)
    requires LexLess(a, b) && LexLess(b, c)
    ensures LexLess(a, c)
  {
    var p: nat :| LexLessAt(a, b, p);
    assert LexLessAt(a, b, p);
    var q: nat :| LexLessAt(b, c, q);
    assert LexLessAt(b, c, q);
    var m := if p < q then p else q;
    assert LexLessAt(a, c, m);
  }

  /** Two different lists of equal length are ordered one way or the other. */
  lemma LexTotal(a: seq<int>, b: seq<int>)
    requires |a| == |b|
    ensures a == b || LexLess(a, b) || LexLess(b, a)
  {
    {
      var p := 0;
      while p < |a| && a[p] == b[p]
        invariant p <= |a|
        invariant forall i | 0 <= i < p :: a[i] == b[i]
      {
        p := p + 1;
      }
      if p == |a| {
        assert a == b;
      } else if a[p] < b[p] {
        assert LexLessAt(a, b, p);
      } else {
        assert LexLessAt(b, a, p);
      }
    }
  }

  /** A list that is not non-increasing has two neighbours in ascending order. */
  lemma AdjacentNonIncreasing(s: seq<int>)
    requires forall i | 0 <= i < |s| - 1 :: s[i] >= s[i + 1]
    ensures NonIncreasing(s)
  {
    forall i, j | 0 <= i < j < |s|
      ensures s[i] >= s[j]
    {
      var k := i;
      while k < j
        invariant i <= k <= j
        invariant s[i] >= s[k]
      {
        k := k + 1;
      }
    }
  }

  /** Equal multisets and equal prefixes give equal multisets of the suffixes. */
  lemma SuffixMultiset(a: seq<int>, b: seq<int>, p: nat)
    requires |a| == |b| && p <= |a| && multiset(a) == multiset(b)
    requires forall i | 0 <= i < p :: a[i] == b[i]
    ensures multiset(a[p..]) == multiset(b[p..])
  {
    assert a[..p] == b[..p];
    assert a == a[..p] + a[p..];
    assert b == b[..p] + b[p..];
    assert multiset(a) == multiset(a[..p]) + multiset(a[p..]);
    assert multiset(b) == multiset(b[..p]) + multiset(b[p..]);
    forall x
      ensures multiset(a[p..])[x] == multiset(b[p..])[x]
    {
      assert multiset(a)[x] == multiset(a[..p])[x] + multiset(a[p..])[x];
    }
  }

  /** Some position at or after p holds each element of the multiset of s[p..]. */
  lemma InSuffix(s: seq<int>, p: nat, x: int)
    requires p <= |s| && x in multiset(s[p..])
    ensures exists m | p <= m < |s| :: s[m] == x
  {
    var m :| 0 <= m < |s[p..]| && s[p..][m] == x;
    assert s[p + m] == x;
  }

  /** A sorted list is the lexicographically smallest arrangement of its elements. */
  lemma {:induction false} SortedIsLexMin(s: seq<int>, q: seq<int>)
    requires Sorted(s) && |q| == |s| && multiset(q) == multiset(s)
    ensures s == q || LexLess(s, q)
    decreases |s|
  {
    if s != [] && s != q {
      assert q[0] in multiset(s) by { assert q[0] in multiset(q); }
      InSuffix(s, 0, q[0]);
      assert s[0] <= q[0];
      if s[0] < q[0] {
        assert LexLessAt(s, q, 0);
      } else {
        SuffixMultiset(s, q, 1);
        SortedIsLexMin(s[1..], q[1..]);
        assert s[1..] != q[1..] by {
          assert s == [s[0]] + s[1..] && q == [q[0]] + q[1..];
        }
        var p: nat :| LexLessAt(s[1..], q[1..], p);
        assert LexLessAt(s[1..], q[1..], p);
        assert LexLessAt(s, q, p + 1);
      }
    }
  }

  /** A non-increasing list is the lexicographically largest arrangement of its elements. */
  lemma NonIncreasingIsLexMax(s: seq<int>, q: seq<int>)
    requires NonIncreasing(s) && |q| == |s| && multiset(q) == multiset(s)
    ensures !LexLess(s, q)
  {
    if LexLess(s, q) {
      var p: nat :| LexLessAt(s, q, p);
      assert LexLessAt(s, q, p);
      SuffixMultiset(s, q, p);
      assert q[p] in multiset(q[p..]) by { assert q[p..][0] == q[p]; }
      InSuffix(s, p, q[p]);
      assert false;
    }
  }

  /** Two sorted arrangements of the same elements are the same list. */
  lemma SortedUnique(a: seq<int>, b: seq<int>)
    requires Sorted(a) && Sorted(b) && multiset(a) == multiset(b)
    ensures a == b
  {
    assert |a| == |multiset(a)| == |multiset(b)| == |b|;
    SortedIsLexMin(a, b);
    SortedIsLexMin(b, a);
    if a != b {
      LexLessTransitive(a, b, a);
      LexLessIrreflexive(a);
      assert false;
    }
  }

  /** Putting a lower bound in front of a sorted list keeps it sorted. */
  lemma SortedCons(h: int, rest: seq<int>)
    requires Sorted(rest) && forall y | y in rest :: h <= y
    ensures Sorted([h] + rest)
  {
    forall i, j | 0 <= i < j < |[h] + rest|
      ensures ([h] + rest)[i] <= ([h] + rest)[j]
    {
      if i == 0 {
        assert rest[j - 1] in rest;
      }
    }
  }

  /** Inserts x before the first larger element of a sorted list. */
  function Insert(x: int, s: seq<int>): (r: seq<int>)
    requires Sorted(s)
    ensures |r| == |s| + 1
    ensures forall y | y in r :: y == x || y in s
    ensures Sorted(r) && multiset(r) == multiset(s) + multiset{x}
  {
    if s == [] || x <= s[0] then
      SortedCons(x, s);
      [x] + s
    else
      var rest := Insert(x, s[1..]);
      assert s == [s[0]] + s[1..];
      SortedCons(s[0], rest);
      [s[0]] + rest
  }

  /** Python's `sorted(items)` on integers: the ascending arrangement of the items. */
  function SortedCopy(s: seq<int>): (r: seq<int>)
    ensures |r| == |s|
    ensures Sorted(r) && multiset(r) == multiset(s)
  {
    if s == [] then []
    else
      assert s == [s[0]] + s[1..];
      Insert(s[0], SortedCopy(s[1..]))
  }
}
