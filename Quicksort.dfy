/**
 * Quicksort (python/sort/quicksort.py): the recursive sort and the version with an
 * explicit stack of ranges, both in place over the inclusive range [start, end], with a
 * partition strategy from python/sort/PartitionStrategy.py.
 */
module Quicksort {
  import opened Wrappers
  import opened Sequences
  import opened PivotStrategy
  import opened PartitionStrategy

  /**
   * The partition strategies quicksort can be given. Quicksort calls
   * `partition(values, start, end)`, so each runs with its class's default pivot strategy.
   */
  datatype Partitioner =
    | Lomuto                      // LomutoPartition, MIDPOINT
    | RandomPivot                 // RandomPivotPartition, RANDOM
    | MedianOfThree               // MedianOfThreePartition, MEDIAN_OF_THREE
    | Hoare                       // HoarePartition, FIRST
    | Sedgewick                   // SedgewickPartition, FIRST
    | ThreeWay                    // ThreeWayPartition, MIDPOINT
    | FatPivot                    // FatPivotPartition() without key functions, MIDPOINT
    | Hybrid(h: HybridPartition)  // HybridPartition, its own choice

  /** Positions lo..hi of t are in ascending order (nothing to say for fewer than two). */
  predicate SortedRange(t: seq<int>, lo: int, hi: int)
  {
    forall i, j | lo <= i < j <= hi && 0 <= i && j < |t| :: t[i] <= t[j]
  }

  /** The object whose depth counter quicksort may change: the Hybrid strategy's. */
  function DepthFrame(strategy: Partitioner): set<HybridPartition>
  {
    if strategy.Hybrid? then {strategy.h} else {}
  }

  /**
   * Lines 60 and 91, `partition_strategy.partition(values, start, end)`: for each modelled
   * strategy (Lomuto, random pivot, median of three, Hoare, Sedgewick, three-way, fat pivot
   * without key functions, hybrid) the range is rearranged around the returned position p.
   * RANDOM draws an arbitrary index of the range.
   */
  method Partition(strategy: Partitioner, values: array<int>, start: int, end: int) returns (p: int)
    requires 0 <= start < end < values.Length
    modifies values
    ensures Splits(values[..], start, end, p) && Rearranged(old(values[..]), values[..], start, end)
  {
    var draw: nat :| true;
    match strategy {
      case Lomuto =>
        p := LomutoPartition(values, start, end, MIDPOINT, draw);
      case RandomPivot =>
        p := LomutoPartition(values, start, end, RANDOM, draw);
      case MedianOfThree =>
        p := LomutoPartition(values, start, end, MEDIAN_OF_THREE, draw);
      case Hoare =>
        p := HoarePartition(values, start, end, FIRST, draw);
      case Sedgewick =>
        p := SedgewickPartition(values, start, end, FIRST, draw);
      case ThreeWay =>
        p := ThreeWayPartition(values, start, end, MIDPOINT, draw);
      case FatPivot =>
        p := KeylessFatPivotPartition(values, start, end, draw);
      case Hybrid(h) =>
        p := h.Partition(values, start, end, draw);
    }
  }

  /** `FatPivotPartition()` without key functions, at its MIDPOINT default: Lomuto's split. */
  method KeylessFatPivotPartition(values: array<int>, start: int, end: int, draw: nat) returns (p: int)
    requires 0 <= start <= end < values.Length
    modifies values
    ensures LomutoSplit(values[..], start, end, p) && Rearranged(old(values[..]), values[..], start, end)
  {
    ghost var pivotIndex := PivotAt(values[..], start, end, MIDPOINT, draw);
    FatPivotDefaultIsLomuto(values[..], start, end, pivotIndex);
    LomutoPartitions(values[..], start, end, pivotIndex);
    p := FatPivotPartition(NewFatKeys(None, None), values, start, end, MIDPOINT, draw);
  }

  /**
   * Lines 60-64: after the partition and the sorts of both sides, the whole range is in
   * order and holds the same values.
   */
  lemma SortedAroundPivot(v0: seq<int>, v1: seq<int>, v2: seq<int>, v3: seq<int>, start: int, p: int, end: int)
    requires 0 <= start <= p <= end < |v0|
    requires Rearranged(v0, v1, start, end) && Splits(v1, start, end, p)
    requires Rearranged(v1, v2, start, p - 1) && SortedRange(v2, start, p - 1)
    requires Rearranged(v2, v3, p + 1, end) && SortedRange(v3, p + 1, end)
    ensures Rearranged(v0, v3, start, end) && SortedRange(v3, start, end)
  {
    RearrangedWiden(v1, v2, start, p - 1, start, end);
    RearrangedWiden(v2, v3, p + 1, end, start, end);
    RearrangedTrans(v0, v1, v2, start, end);
    RearrangedTrans(v0, v2, v3, start, end);
    RearrangedBelow(v1, v2, start, p - 1, v1[p]);
    RearrangedAbove(v2, v3, p + 1, end, v1[p]);
    assert v3[p] == v1[p];
    forall i, j | start <= i < j <= end
      ensures v3[i] <= v3[j]
    {
      if j < p {
        assert v3[i] == v2[i] && v3[j] == v2[j];
      } else if i < p {
        assert v3[i] == v2[i] <= v1[p];
      }
    }
  }

  /**
   * Lines 27-68 from the defaults on: a range of fewer than two positions is left alone;
   * otherwise the range ends in ascending order holding the same values, and nothing
   * outside it changes. A Hybrid strategy's depth goes up by one around each partition
   * and comes back down, so the call leaves it as it found it.
   */
  method Quicksort(values: array<int>, start: int, end: int, strategy: Partitioner)
    requires start < end ==> 0 <= start && end < values.Length
    modifies values, DepthFrame(strategy)`currentDepth
    ensures start >= end ==> values[..] == old(values[..])
    ensures Rearranged(old(values[..]), values[..], start, end) && SortedRange(values[..], start, end)
    ensures strategy.Hybrid? ==> strategy.h.currentDepth == old(strategy.h.currentDepth)
    decreases end - start
  {
    if start >= end {
      return;
    }
    if strategy.Hybrid? {
      strategy.h.currentDepth := strategy.h.currentDepth + 1;
    }
    ghost var v0 := values[..];
    var pivotPosition := Partition(strategy, values, start, end);
    ghost var v1 := values[..];
    Quicksort(values, start, pivotPosition - 1, strategy);
    ghost var v2 := values[..];
    Quicksort(values, pivotPosition + 1, end, strategy);
    if strategy.Hybrid? {
      strategy.h.currentDepth := strategy.h.currentDepth - 1;
    }
    SortedAroundPivot(v0, v1, v2, values[..], start, pivotPosition, end);
  }

  /** Positions lo..hi of t hold the sorted arrangement of what s holds there. */
  predicate SortedInPlace(s: seq<int>, t: seq<int>, lo: int, hi: int)
  {
    0 <= lo <= hi + 1 <= |s| == |t| && t[lo..hi + 1] == SortedCopy(s[lo..hi + 1])
  }

  /** A range in ascending order that holds the range's old values is their sorted arrangement. */
  lemma SortedRangeIsSortedCopy(s: seq<int>, t: seq<int>, lo: int, hi: int)
    requires Rearranged(s, t, lo, hi) && SortedRange(t, lo, hi) && 0 <= lo <= hi + 1 <= |s|
    ensures SortedInPlace(s, t, lo, hi)
  {
    RearrangedSlice(s, t, lo, hi);
    var u := t[lo..hi + 1];
    forall i, j | 0 <= i < j < |u|
      ensures u[i] <= u[j]
    {
      assert u[i] == t[lo + i] && u[j] == t[lo + j];
    }
    SortedUnique(u, SortedCopy(s[lo..hi + 1]));
  }

  /** Lines 44-45 and 76-77: start defaults to 0. */
  function StartOr(start: Option<int>): int
  {
    if start.Some? then start.value else 0
  }

  /** Lines 46-47 and 78-79: end defaults to the last index. */
  function EndOr(end: Option<int>, length: int): int
  {
    if end.Some? then end.value else length - 1
  }

  /** Lines 48-49 and 80-81: the strategy defaults to Lomuto. */
  function StrategyOr(strategy: Option<Partitioner>): Partitioner
  {
    if strategy.Some? then strategy.value else Lomuto
  }

  /**
   * Lines 27-68 as called: after the defaults, the range [start, end] is replaced by the
   * sorted arrangement of its values and every other position is unchanged; a range of
   * fewer than two positions changes nothing.
   */
  method QuicksortCall(values: array<int>, start: Option<int>, end: Option<int>, strategy: Option<Partitioner>)
    requires StartOr(start) < EndOr(end, values.Length) ==> 0 <= StartOr(start) && EndOr(end, values.Length) < values.Length
    modifies values, DepthFrame(StrategyOr(strategy))`currentDepth
    ensures StartOr(start) >= EndOr(end, values.Length) ==> values[..] == old(values[..])
    ensures StartOr(start) < EndOr(end, values.Length) ==>
      SortedInPlace(old(values[..]), values[..], StartOr(start), EndOr(end, values.Length))
    ensures Rearranged(old(values[..]), values[..], StartOr(start), EndOr(end, values.Length))
  {
    var lo, hi := StartOr(start), EndOr(end, values.Length);
    ghost var before := values[..];
    Quicksort(values, lo, hi, StrategyOr(strategy));
    if lo < hi {
      SortedRangeIsSortedCopy(before, values[..], lo, hi);
    }
  }

  // ---------------------------------------------------------------------------------
  // The iterative version (lines 71-102): a stack of pending ranges.

  /** A range with at least two positions, the only kind a partition is run on. */
  predicate Live(r: (int, int))
  {
    r.0 < r.1
  }

  /** Some pending range holds both positions i and j. */
  predicate Together(stack: seq<(int, int)>, i: int, j: int)
  {
    exists r | r in stack :: r.0 <= i && j <= r.1
  }

  /** The pending ranges with two or more positions lie in [lo, hi] and do not overlap. */
  predicate Pending(stack: seq<(int, int)>, lo: int, hi: int)
  {
    (forall r | r in stack && Live(r) :: lo <= r.0 && r.1 <= hi)
    && (forall a, b | 0 <= a < b < |stack| && Live(stack[a]) && Live(stack[b]) ::
          stack[a].1 < stack[b].0 || stack[b].1 < stack[a].0)
  }

  /** Any two positions of [lo, hi] that no pending range holds together are in order. */
  predicate Settled(t: seq<int>, stack: seq<(int, int)>, lo: int, hi: int)
  {
    forall i, j | lo <= i < j <= hi && 0 <= i && j < |t| && !Together(stack, i, j) :: t[i] <= t[j]
  }

  /** What is left to do: twice the positions of each pending range, plus one per range. */
  function Work(stack: seq<(int, int)>): nat
  {
    if stack == [] then 0
    else
      var r := stack[|stack| - 1];
      Work(stack[..|stack| - 1]) + 2 * (if r.0 <= r.1 then r.1 - r.0 + 1 else 0) + 1
  }

  /** Pushing a range adds its work. */
  lemma WorkPush(stack: seq<(int, int)>, r: (int, int))
    ensures Work(stack + [r]) == Work(stack) + 2 * (if r.0 <= r.1 then r.1 - r.0 + 1 else 0) + 1
  {
    assert (stack + [r])[..|stack|] == stack;
  }

  /** Line 83: the one pending range is the whole range, so nothing is settled yet. */
  lemma StackStart(t: seq<int>, start: int, end: int)
    ensures Pending([(start, end)], start, end) && Settled(t, [(start, end)], start, end)
  {
    forall i, j | start <= i < j <= end
      ensures Together([(start, end)], i, j)
    {
      assert (start, end) in [(start, end)];
    }
  }

  /** Lines 86-89: a popped range of fewer than two positions is dropped. */
  lemma DropRange(t: seq<int>, rest: seq<(int, int)>, r: (int, int), lo: int, hi: int)
    requires !Live(r) && Pending(rest + [r], lo, hi) && Settled(t, rest + [r], lo, hi)
    ensures Pending(rest, lo, hi) && Settled(t, rest, lo, hi) && Work(rest) < Work(rest + [r])
  {
    WorkPush(rest, r);
    forall a, b | 0 <= a < b < |rest|
      ensures rest[a] == (rest + [r])[a] && rest[b] == (rest + [r])[b]
    {
    }
    forall i, j | lo <= i < j <= hi && Together(rest + [r], i, j)
      ensures Together(rest, i, j)
    {
      var q :| q in rest + [r] && q.0 <= i && j <= q.1;
      assert q != r;
    }
  }

  /**
   * A position inside the popped range and one outside it were in no pending range
   * together: the popped range was the only one holding the inside position.
   */
  lemma Apart(rest: seq<(int, int)>, lo: int, hi: int, start: int, end: int, x: int, y: int)
    requires Pending(rest + [(lo, hi)], start, end) && lo < hi && x < y
    requires (lo <= x <= hi < y) || (x < lo <= y <= hi)
    ensures !Together(rest + [(lo, hi)], x, y)
  {
    var stack := rest + [(lo, hi)];
    assert stack[|rest|] == (lo, hi);
    forall a | 0 <= a < |stack|
      ensures !(stack[a].0 <= x && y <= stack[a].1)
    {
      if a != |rest| && stack[a].0 <= x && y <= stack[a].1 {
        assert Live(stack[a]);
      }
    }
  }

  /** After the partition, every value of the range is at most each settled value to its right. */
  lemma BelowRight(v0: seq<int>, v1: seq<int>, rest: seq<(int, int)>, lo: int, hi: int, start: int, end: int, j: int)
    requires 0 <= start && end < |v0| && Pending(rest + [(lo, hi)], start, end) && lo < hi
    requires Settled(v0, rest + [(lo, hi)], start, end) && Rearranged(v0, v1, lo, hi)
    requires hi < j <= end
    ensures forall k | lo <= k <= hi :: v1[k] <= v1[j]
  {
    assert (lo, hi) in rest + [(lo, hi)];
    forall k | lo <= k <= hi
      ensures v0[k] <= v0[j]
    {
      Apart(rest, lo, hi, start, end, k, j);
    }
    RearrangedBelow(v0, v1, lo, hi, v0[j]);
  }

  /** After the partition, every value of the range is at least each settled value to its left. */
  lemma AboveLeft(v0: seq<int>, v1: seq<int>, rest: seq<(int, int)>, lo: int, hi: int, start: int, end: int, i: int)
    requires 0 <= start && end < |v0| && Pending(rest + [(lo, hi)], start, end) && lo < hi
    requires Settled(v0, rest + [(lo, hi)], start, end) && Rearranged(v0, v1, lo, hi)
    requires start <= i < lo
    ensures forall k | lo <= k <= hi :: v1[i] <= v1[k]
  {
    assert (lo, hi) in rest + [(lo, hi)];
    forall k | lo <= k <= hi
      ensures v0[i] <= v0[k]
    {
      Apart(rest, lo, hi, start, end, i, k);
    }
    RearrangedAbove(v0, v1, lo, hi, v0[i]);
  }

  /**
   * Lines 91-102: partitioning the popped range and pushing both sides keeps every
   * position pair that no pending range holds together in order.
   */
  lemma PartitionSettles(v0: seq<int>, v1: seq<int>, rest: seq<(int, int)>, lo: int, p: int, hi: int,
                         start: int, end: int, next: seq<(int, int)>)
    requires 0 <= start && end < |v0| && Pending(rest + [(lo, hi)], start, end) && lo < hi
    requires Settled(v0, rest + [(lo, hi)], start, end)
    requires Rearranged(v0, v1, lo, hi) && Splits(v1, lo, hi, p)
    requires forall r :: r in next <==> r in rest || r == (lo, p - 1) || r == (p + 1, hi)
    ensures Settled(v1, next, start, end)
  {
    assert (lo, hi) in rest + [(lo, hi)];
    assert (lo, p - 1) in next && (p + 1, hi) in next;
    forall i, j | start <= i < j <= end && !Together(next, i, j)
      ensures v1[i] <= v1[j]
    {
      if lo <= i && j <= hi {
        assert !(j <= p - 1) && !(p + 1 <= i);
      } else if lo <= i <= hi {
        BelowRight(v0, v1, rest, lo, hi, start, end, j);
      } else if lo <= j <= hi {
        AboveLeft(v0, v1, rest, lo, hi, start, end, i);
      } else {
        forall q | q in rest + [(lo, hi)]
          ensures !(q.0 <= i && j <= q.1)
        {
          if q != (lo, hi) {
            assert q in next;
          }
        }
      }
    }
  }

  /** Replacing the popped range by two disjoint parts of it keeps the pending ranges disjoint. */
  lemma PendingReplace(rest: seq<(int, int)>, r: (int, int), x: (int, int), y: (int, int), start: int, end: int)
    requires Pending(rest + [r], start, end) && Live(r)
    requires Live(x) ==> r.0 <= x.0 && x.1 <= r.1
    requires Live(y) ==> r.0 <= y.0 && y.1 <= r.1
    requires Live(x) && Live(y) ==> x.1 < y.0 || y.1 < x.0
    ensures Pending(rest + [x, y], start, end)
  {
    var stack := rest + [r];
    var next := rest + [x, y];
    assert stack[|rest|] == r && next[|rest|] == x && next[|rest| + 1] == y;
    forall a | 0 <= a < |rest|
      ensures next[a] == stack[a]
    {
    }
    forall q | q in next && Live(q)
      ensures start <= q.0 && q.1 <= end
    {
      assert q in rest || q == x || q == y;
      assert r in stack;
    }
  }

  /** Lines 97-102: both sides lie inside the popped range, which overlapped no other. */
  lemma PartitionPending(rest: seq<(int, int)>, lo: int, p: int, hi: int, start: int, end: int, next: seq<(int, int)>)
    requires Pending(rest + [(lo, hi)], start, end) && lo <= p <= hi && lo < hi
    requires next == rest + [(lo, p - 1), (p + 1, hi)] || next == rest + [(p + 1, hi), (lo, p - 1)]
    ensures Pending(next, start, end)
  {
    if next == rest + [(lo, p - 1), (p + 1, hi)] {
      PendingReplace(rest, (lo, hi), (lo, p - 1), (p + 1, hi), start, end);
    } else {
      PendingReplace(rest, (lo, hi), (p + 1, hi), (lo, p - 1), start, end);
    }
  }

  /** Lines 97-102: the two sides together hold less work than the popped range. */
  lemma PartitionWork(rest: seq<(int, int)>, lo: int, p: int, hi: int, next: seq<(int, int)>)
    requires lo <= p <= hi
    requires next == rest + [(lo, p - 1), (p + 1, hi)] || next == rest + [(p + 1, hi), (lo, p - 1)]
    ensures Work(next) < Work(rest + [(lo, hi)])
  {
    WorkPush(rest, (lo, hi));
    if next == rest + [(lo, p - 1), (p + 1, hi)] {
      assert next == rest + [(lo, p - 1)] + [(p + 1, hi)];
      WorkPush(rest + [(lo, p - 1)], (p + 1, hi));
      WorkPush(rest, (lo, p - 1));
    } else {
      assert next == rest + [(p + 1, hi)] + [(lo, p - 1)];
      WorkPush(rest + [(p + 1, hi)], (lo, p - 1));
      WorkPush(rest, (p + 1, hi));
    }
  }

  /**
   * The loop invariant of the iterative version: the pending ranges lie in [start, end]
   * and do not overlap, pairs no pending range holds are in order, [start, end] has been
   * rearranged, and for fewer than two positions nothing has changed.
   */
  predicate Sorting(s: seq<int>, t: seq<int>, stack: seq<(int, int)>, start: int, end: int)
  {
    Pending(stack, start, end) && Settled(t, stack, start, end) && Rearranged(s, t, start, end)
    && (start >= end ==> t == s)
  }

  /** Line 83: the invariant holds for the one-range stack. */
  lemma SortingStart(s: seq<int>, start: int, end: int)
    ensures Sorting(s, s, [(start, end)], start, end)
  {
    StackStart(s, start, end);
  }

  /** Lines 86-89: dropping a range of fewer than two positions keeps the invariant. */
  lemma SortingDrop(s: seq<int>, t: seq<int>, rest: seq<(int, int)>, r: (int, int), start: int, end: int)
    requires Sorting(s, t, rest + [r], start, end) && !Live(r)
    ensures Sorting(s, t, rest, start, end) && Work(rest) < Work(rest + [r])
  {
    DropRange(t, rest, r, start, end);
  }

  /** A live popped range lies inside [start, end]. */
  lemma SortingLive(s: seq<int>, t: seq<int>, rest: seq<(int, int)>, r: (int, int), start: int, end: int)
    requires Sorting(s, t, rest + [r], start, end) && Live(r)
    ensures start <= r.0 < r.1 <= end
  {
    assert r in rest + [r];
  }

  /** Lines 91-102: partitioning a live range and pushing its sides keeps the invariant. */
  lemma SortingStep(s: seq<int>, v0: seq<int>, v1: seq<int>, rest: seq<(int, int)>, lo: int, p: int, hi: int,
                    start: int, end: int, next: seq<(int, int)>)
    requires 0 <= start && end < |v0| && Sorting(s, v0, rest + [(lo, hi)], start, end) && lo < hi
    requires Rearranged(v0, v1, lo, hi) && Splits(v1, lo, hi, p)
    requires next == rest + [(lo, p - 1), (p + 1, hi)] || next == rest + [(p + 1, hi), (lo, p - 1)]
    ensures Sorting(s, v1, next, start, end) && Work(next) < Work(rest + [(lo, hi)])
  {
    SortingLive(s, v0, rest, (lo, hi), start, end);
    PartitionPending(rest, lo, p, hi, start, end, next);
    PartitionWork(rest, lo, p, hi, next);
    forall r ensures r in next <==> r in rest || r == (lo, p - 1) || r == (p + 1, hi) {
    }
    PartitionSettles(v0, v1, rest, lo, p, hi, start, end, next);
    RearrangedWiden(v0, v1, lo, hi, start, end);
    RearrangedTrans(s, v0, v1, start, end);
  }

  /** Line 85: with the stack empty, [start, end] is in order. */
  lemma SortingDone(s: seq<int>, t: seq<int>, start: int, end: int)
    requires Sorting(s, t, [], start, end)
    ensures Rearranged(s, t, start, end) && SortedRange(t, start, end)
  {
    forall i, j | start <= i < j <= end && 0 <= i && j < |t|
      ensures t[i] <= t[j]
    {
      assert !Together([], i, j);
    }
  }

  /**
   * Lines 91-102, one pass of the loop on a live range: partition it and push its two
   * sides, the larger first. `right_size` counts one less than the right side holds, so
   * with two sides of the same size the left is pushed first and the right ends on top.
   */
  method PartitionAndPush(values: array<int>, strategy: Partitioner, rest: seq<(int, int)>, lo: int, hi: int,
                          ghost s: seq<int>, start: int, end: int) returns (stack: seq<(int, int)>)
    requires 0 <= start && end < values.Length && start <= lo < hi <= end
    requires Sorting(s, values[..], rest + [(lo, hi)], start, end)
    modifies values
    ensures Sorting(s, values[..], stack, start, end) && Work(stack) < Work(rest + [(lo, hi)])
  {
    ghost var v0 := values[..];
    var pivotPosition := Partition(strategy, values, lo, hi);
    var leftSize := pivotPosition - lo;
    var rightSize := hi - pivotPosition - 1;
    if leftSize > rightSize {
      stack := rest + [(lo, pivotPosition - 1)];
      stack := stack + [(pivotPosition + 1, hi)];
      assert stack == rest + [(lo, pivotPosition - 1), (pivotPosition + 1, hi)];
    } else {
      stack := rest + [(pivotPosition + 1, hi)];
      stack := stack + [(lo, pivotPosition - 1)];
      assert stack == rest + [(pivotPosition + 1, hi), (lo, pivotPosition - 1)];
    }
    SortingStep(s, v0, values[..], rest, lo, pivotPosition, hi, start, end, stack);
  }

  /**
   * Lines 71-102 from the defaults on: ranges are popped from a stack; one of fewer than
   * two positions is dropped, any other is partitioned and its two sides pushed, the
   * larger first. When the stack is empty the range is in ascending order holding the
   * same values, and nothing outside it has changed. Unlike the recursive version this
   * one leaves a Hybrid strategy's depth alone.
   */
  method QuicksortIterative(values: array<int>, start: int, end: int, strategy: Partitioner)
    requires start < end ==> 0 <= start && end < values.Length
    modifies values
    ensures start >= end ==> values[..] == old(values[..])
    ensures Rearranged(old(values[..]), values[..], start, end) && SortedRange(values[..], start, end)
  {
    var stack := [(start, end)];
    SortingStart(values[..], start, end);
    while stack != []
      invariant Sorting(old(values[..]), values[..], stack, start, end)
      decreases Work(stack)
    {
      var range := stack[|stack| - 1];
      ghost var popped := stack;
      stack := stack[..|stack| - 1];
      assert popped == stack + [range];
      var lo, hi := range.0, range.1;
      if lo >= hi {
        SortingDrop(old(values[..]), values[..], stack, range, start, end);
        continue;
      }
      SortingLive(old(values[..]), values[..], stack, range, start, end);
      stack := PartitionAndPush(values, strategy, stack, lo, hi, old(values[..]), start, end);
    }
    SortingDone(old(values[..]), values[..], start, end);
  }

  /**
   * Lines 71-102 as called: after the defaults, the range [start, end] is replaced by the
   * sorted arrangement of its values and every other position is unchanged; a range of
   * fewer than two positions changes nothing.
   */
  method QuicksortIterativeCall(values: array<int>, start: Option<int>, end: Option<int>, strategy: Option<Partitioner>)
    requires StartOr(start) < EndOr(end, values.Length) ==> 0 <= StartOr(start) && EndOr(end, values.Length) < values.Length
    modifies values
    ensures StartOr(start) >= EndOr(end, values.Length) ==> values[..] == old(values[..])
    ensures StartOr(start) < EndOr(end, values.Length) ==>
      SortedInPlace(old(values[..]), values[..], StartOr(start), EndOr(end, values.Length))
    ensures Rearranged(old(values[..]), values[..], StartOr(start), EndOr(end, values.Length))
  {
    var lo, hi := StartOr(start), EndOr(end, values.Length);
    ghost var before := values[..];
    QuicksortIterative(values, lo, hi, StrategyOr(strategy));
    if lo < hi {
      SortedRangeIsSortedCopy(before, values[..], lo, hi);
    }
  }
}
