/**
 * Pivot selection for quicksort (python/sort/PivotStrategy.py): given the inclusive range
 * [start, end] of a list, each strategy names the index whose value becomes the pivot.
 */
module PivotStrategy {
  import opened Wrappers

  /** Lines 6-12. */
  datatype PivotStrategy = MIDPOINT | RANDOM | FIRST | LAST | MEDIAN_OF_THREE

  /** `start + (end - start) // 2`; Dafny's `/` by 2 rounds down like Python's `//`. */
  function Mid(start: int, end: int): int
  {
    start + (end - start) / 2
  }

  /** The midpoint lies in the range and is its lower middle. */
  lemma MidInRange(start: int, end: int)
    requires start <= end
    ensures start <= Mid(start, end) <= end
    ensures 0 <= (end - Mid(start, end)) - (Mid(start, end) - start) <= 1
  {
  }

  /** One of the three candidates of `_median_of_three_index`: an index and its value. */
  datatype Candidate = Candidate(index: int, value: int)

  /** The candidates' values are in ascending order. */
  predicate ByValue(cs: seq<Candidate>)
  {
    forall i, j | 0 <= i < j < |cs| :: cs[i].value <= cs[j].value
  }

  /** A candidate whose value is at most every value of a sorted list can go in front. */
  lemma ByValueCons(h: Candidate, rest: seq<Candidate>)
    requires ByValue(rest) && forall d | d in rest :: h.value <= d.value
    ensures ByValue([h] + rest)
  {
    forall i, j | 0 <= i < j < |[h] + rest|
      ensures ([h] + rest)[i].value <= ([h] + rest)[j].value
    {
      if i == 0 {
        assert rest[j - 1] in rest;
      }
    }
  }

  /**
   * One insertion step of a stable sort by value: c goes after every candidate whose
   * value is at most its own, so candidates with equal values keep their order.
   */
  function InsertByValue(c: Candidate, cs: seq<Candidate>): (r: seq<Candidate>)
    ensures |r| == |cs| + 1
  {
    if cs == [] then [c]
    else if c.value < cs[0].value then [c] + cs
    else [cs[0]] + InsertByValue(c, cs[1..])
  }

  /** Inserting into a sorted list keeps it sorted and adds exactly the one candidate. */
  lemma {:induction false} InsertByValueSorted(c: Candidate, cs: seq<Candidate>)
    requires ByValue(cs)
    ensures var r := InsertByValue(c, cs);
      (forall d | d in r :: d == c || d in cs)
      && ByValue(r) && multiset(r) == multiset(cs) + multiset{c}
  {
    if cs == [] {
    } else if c.value < cs[0].value {
      ByValueCons(c, cs);
    } else {
      var rest := InsertByValue(c, cs[1..]);
      InsertByValueSorted(c, cs[1..]);
      assert cs == [cs[0]] + cs[1..];
      assert forall d | d in cs[1..] :: cs[0].value <= d.value;
      ByValueCons(cs[0], rest);
    }
  }

  /**
   * Line 52, `candidates.sort(key=lambda x: x[1])`: Python's stable sort, written as an
   * insertion sort from the left.
   */
  function SortByValue(cs: seq<Candidate>): (r: seq<Candidate>)
    ensures |r| == |cs|
  {
    if cs == [] then []
    else InsertByValue(cs[|cs| - 1], SortByValue(cs[..|cs| - 1]))
  }

  /** The sort orders the candidates by value and keeps exactly the same candidates. */
  lemma {:induction false} SortByValueSorted(cs: seq<Candidate>)
    ensures ByValue(SortByValue(cs)) && multiset(SortByValue(cs)) == multiset(cs)
  {
    if cs != [] {
      SortByValueSorted(cs[..|cs| - 1]);
      InsertByValueSorted(cs[|cs| - 1], SortByValue(cs[..|cs| - 1]));
      assert cs == cs[..|cs| - 1] + [cs[|cs| - 1]];
    }
  }

  /** How many of the three values are below, and above, the value x. */
  function CountBelow(a: int, b: int, c: int, x: int): int
  {
    (if a < x then 1 else 0) + (if b < x then 1 else 0) + (if c < x then 1 else 0)
  }

  function CountAbove(a: int, b: int, c: int, x: int): int
  {
    (if a > x then 1 else 0) + (if b > x then 1 else 0) + (if c > x then 1 else 0)
  }

  /**
   * Lines 47-53: the index, among start, the midpoint and end, whose value is the median
   * of the three values: at most one of them is smaller and at most one is larger. When
   * all three values are equal the stable sort leaves the midpoint in the middle.
   */
  function MedianOfThreeIndex(values: seq<int>, start: int, end: int): (r: int)
    requires 0 <= start < |values| && 0 <= end < |values|
    ensures r == start || r == Mid(start, end) || r == end
    ensures 0 <= r < |values|
    ensures CountBelow(values[start], values[Mid(start, end)], values[end], values[r]) <= 1
    ensures CountAbove(values[start], values[Mid(start, end)], values[end], values[r]) <= 1
    ensures values[start] == values[Mid(start, end)] == values[end] ==> r == Mid(start, end)
  {
    var mid := Mid(start, end);
    var candidates := [Candidate(start, values[start]), Candidate(mid, values[mid]), Candidate(end, values[end])];
    MedianOfSorted(candidates[0], candidates[1], candidates[2]);
    SortByValue(candidates)[1].index
  }

  /** Inserting into a one-element list. */
  lemma InsertIntoOne(c: Candidate, d: Candidate)
    ensures InsertByValue(c, [d]) == if c.value < d.value then [c, d] else [d, c]
  {
    if c.value >= d.value {
      assert [d][1..] == [];
    }
  }

  /** Inserting into a sorted two-element list. */
  lemma InsertIntoTwo(c: Candidate, d0: Candidate, d1: Candidate)
    requires d0.value <= d1.value
    ensures InsertByValue(c, [d0, d1]) ==
      if c.value < d0.value then [c, d0, d1]
      else if c.value < d1.value then [d0, c, d1]
      else [d0, d1, c]
  {
    if c.value >= d0.value {
      assert [d0, d1][1..] == [d1];
      InsertIntoOne(c, d1);
    }
  }

  /** The stable sort of three candidates, step by step. */
  lemma SortThree(a: Candidate, b: Candidate, c: Candidate)
    ensures SortByValue([a, b, c]) == InsertByValue(c, InsertByValue(b, [a]))
  {
    assert [a, b, c][..2] == [a, b] && [a, b][..1] == [a] && [a][..0] == [];
    assert SortByValue([a]) == [a];
  }

  /**
   * The middle of three candidates sorted by value is one of them, and its value has at
   * most one of the three below it and at most one above it; three equal values keep
   * their order.
   */
  lemma MedianOfSorted(a: Candidate, b: Candidate, c: Candidate)
    ensures var m := SortByValue([a, b, c])[1];
      (m == a || m == b || m == c)
      && CountBelow(a.value, b.value, c.value, m.value) <= 1
      && CountAbove(a.value, b.value, c.value, m.value) <= 1
      && (a.value == b.value == c.value ==> m == b)
  {
    SortThree(a, b, c);
    InsertIntoOne(b, a);
    if b.value < a.value {
      InsertIntoTwo(c, b, a);
    } else {
      InsertIntoTwo(c, a, b);
    }
  }

  const EMPTY_RANGE := "empty range in randrange()"

  /**
   * Lines 19-44: the pivot index for the inclusive range [start, end]. FIRST gives start,
   * LAST gives end, MIDPOINT the lower middle, MEDIAN_OF_THREE the index of the median of
   * the first, middle and last values, and RANDOM any index of the range, chosen by
   * `draw`; `random.randint` rejects an empty range with ValueError. Whenever the range is
   * not empty the index lies inside it.
   */
  function SelectPivotIndex(values: seq<int>, start: int, end: int, strategy: PivotStrategy, draw: nat): (r: Result<int>)
    requires strategy == MEDIAN_OF_THREE ==> 0 <= start < |values| && 0 <= end < |values|
    ensures r.Err? <==> strategy == RANDOM && start > end
    ensures r.Err? ==> r.error == ValueError(EMPTY_RANGE)
    ensures strategy == FIRST ==> r == Ok(start)
    ensures strategy == LAST ==> r == Ok(end)
    ensures strategy == MIDPOINT && start <= end ==>
      0 <= (end - r.value) - (r.value - start) <= 1
    ensures strategy == MEDIAN_OF_THREE ==>
      r.Ok? && (r.value == start || r.value == Mid(start, end) || r.value == end)
      && 0 <= r.value < |values| && var v := values[r.value];
      CountBelow(values[start], values[Mid(start, end)], values[end], v) <= 1
      && CountAbove(values[start], values[Mid(start, end)], values[end], v) <= 1
    ensures r.Ok? && start <= end ==> start <= r.value <= end
  {
    match strategy
    case FIRST => Ok(start)
    case LAST => Ok(end)
    case MIDPOINT =>
      if start <= end then MidInRange(start, end); Ok(Mid(start, end)) else Ok(Mid(start, end))
    case RANDOM =>
      if start <= end then Ok(start + draw % (end - start + 1)) else Err(ValueError(EMPTY_RANGE))
    case MEDIAN_OF_THREE =>
      if start <= end then MidInRange(start, end); Ok(MedianOfThreeIndex(values, start, end))
      else Ok(MedianOfThreeIndex(values, start, end))
  }

  /** Every draw of RANDOM is reachable: each index of a non-empty range is chosen by some draw. */
  lemma RandomCoversRange(values: seq<int>, start: int, end: int, i: int)
    requires start <= i <= end
    ensures SelectPivotIndex(values, start, end, RANDOM, i - start) == Ok(i)
  {
    var n := end - start + 1;
    assert (i - start) % n == i - start;
  }

  /** On [3, 1, 2] the median of the first, middle and last values is 2, at index 2. */
  lemma MedianExample()
    ensures MedianOfThreeIndex([3, 1, 2], 0, 2) == 2
  {
  }
}
