/**
 * The partition schemes of quicksort (python/sort/PartitionStrategy.py). Each rearranges
 * the inclusive range [start, end] of a list in place around a pivot value and returns a
 * position. Each scheme is a method on an array, proved equal to a function on sequences
 * that follows the same steps; what the scheme guarantees is proved about that function.
 */
module PartitionStrategy {
  import opened Wrappers
  import opened Sequences
  import opened PivotStrategy

  /** The index chosen by `select_pivot_index` for a non-empty range. */
  function PivotAt(s: seq<int>, start: int, end: int, strategy: PivotStrategy, draw: nat): (i: int)
    requires 0 <= start <= end < |s|
    ensures start <= i <= end
  {
    SelectPivotIndex(s, start, end, strategy, draw).value
  }

  /** What quicksort needs of a partition: nothing left of p is larger, nothing right of p smaller. */
  predicate Splits(t: seq<int>, start: int, end: int, p: int)
  {
    0 <= start <= p <= end < |t|
    && (forall k | start <= k < p :: t[k] <= t[p])
    && (forall k | p < k <= end :: t[p] <= t[k])
  }

  // ---------------------------------------------------------------------------------
  // Lomuto (lines 65-149), also used by RandomPivotPartition and MedianOfThreePartition.

  /** Lomuto's promise (lines 95-99): left of p smaller than the pivot, right of p not smaller. */
  predicate LomutoSplit(t: seq<int>, start: int, end: int, p: int)
  {
    0 <= start <= p <= end < |t|
    && (forall k | start <= k < p :: t[k] < t[p])
    && (forall k | p < k <= end :: t[p] <= t[k])
  }

  /**
   * Lines 130-135: the scan of positions idx..end-1; every value below the pivot is
   * swapped to the partition index, which then moves up by one.
   */
  function LomutoScan(s: seq<int>, idx: int, end: int, pi: int, pivot: int): (r: (seq<int>, int))
    requires 0 <= pi <= idx <= end < |s|
    ensures |r.0| == |s| && pi <= r.1 <= end
    decreases end - idx
  {
    if idx == end then (s, pi)
    else if s[idx] < pivot then LomutoScan(Swapped(s, idx, pi), idx + 1, end, pi + 1, pivot)
    else LomutoScan(s, idx + 1, end, pi, pivot)
  }

  /** Scan invariant: in start..pi-1 every value is below the pivot, in pi..idx-1 none is. */
  predicate LomutoInvariant(t: seq<int>, start: int, pi: int, idx: int, pivot: int)
    requires 0 <= start <= pi <= idx <= |t|
  {
    (forall k | start <= k < pi :: t[k] < pivot) && (forall k | pi <= k < idx :: t[k] >= pivot)
  }

  /** One step of the scan that swaps keeps the invariant. */
  lemma LomutoStep(s: seq<int>, start: int, idx: int, pi: int, pivot: int)
    requires 0 <= start <= pi <= idx < |s| && s[idx] < pivot
    requires LomutoInvariant(s, start, pi, idx, pivot)
    ensures LomutoInvariant(Swapped(s, idx, pi), start, pi + 1, idx + 1, pivot)
  {
  }

  /** The scan only exchanges positions in start..end-1. */
  lemma {:induction false} LomutoScanRearranges(s: seq<int>, start: int, idx: int, end: int, pi: int, pivot: int)
    requires 0 <= start <= pi <= idx <= end < |s|
    ensures Rearranged(s, LomutoScan(s, idx, end, pi, pivot).0, start, end - 1)
    decreases end - idx
  {
    if idx < end {
      if s[idx] < pivot {
        var s' := Swapped(s, idx, pi);
        SwapRearranges(s, idx, pi, start, end - 1);
        LomutoScanRearranges(s', start, idx + 1, end, pi + 1, pivot);
        RearrangedTrans(s, s', LomutoScan(s', idx + 1, end, pi + 1, pivot).0, start, end - 1);
      } else {
        LomutoScanRearranges(s, start, idx + 1, end, pi, pivot);
      }
    }
  }

  /**
   * The scan keeps its invariant: below the partition index every value is smaller than
   * the pivot, from there up to the scanned position none is.
   */
  lemma {:induction false} LomutoScanSplits(s: seq<int>, start: int, idx: int, end: int, pi: int, pivot: int)
    requires 0 <= start <= pi <= idx <= end < |s|
    requires LomutoInvariant(s, start, pi, idx, pivot)
    ensures LomutoInvariant(LomutoScan(s, idx, end, pi, pivot).0, start, LomutoScan(s, idx, end, pi, pivot).1, end, pivot)
    decreases end - idx
  {
    if idx < end {
      if s[idx] < pivot {
        LomutoStep(s, start, idx, pi, pivot);
        LomutoScanSplits(Swapped(s, idx, pi), start, idx + 1, end, pi + 1, pivot);
      } else {
        LomutoScanSplits(s, start, idx + 1, end, pi, pivot);
      }
    }
  }

  /**
   * Lines 121-141, `lomuto_partition_with_pivot`: the pivot is swapped to the end, the
   * scan runs, and the pivot is swapped to the partition index, which is returned.
   */
  function LomutoResult(s: seq<int>, start: int, end: int, pivotIndex: int): (r: (seq<int>, int))
    requires 0 <= start <= pivotIndex <= end < |s|
    ensures |r.0| == |s| && start <= r.1 <= end
  {
    var scan := LomutoScan(Swapped(s, pivotIndex, end), start, end, start, s[pivotIndex]);
    (Swapped(scan.0, end, scan.1), scan.1)
  }

  /**
   * Lines 95-99 and 121-141: the pivot value ends at the returned position p, every value
   * in start..p-1 is smaller, every value in p+1..end is at least as large, and only the
   * range [start, end] is rearranged.
   */
  lemma LomutoPartitions(s: seq<int>, start: int, end: int, pivotIndex: int)
    requires 0 <= start <= pivotIndex <= end < |s|
    ensures var r := LomutoResult(s, start, end, pivotIndex);
      LomutoSplit(r.0, start, end, r.1) && r.0[r.1] == s[pivotIndex] && Rearranged(s, r.0, start, end)
  {
    var s1 := Swapped(s, pivotIndex, end);
    SwappedMultiset(s, pivotIndex, end);
    var scan := LomutoScan(s1, start, end, start, s[pivotIndex]);
    LomutoScanSplits(s1, start, start, end, start, s[pivotIndex]);
    LomutoScanRearranges(s1, start, start, end, start, s[pivotIndex]);
    SwappedMultiset(scan.0, end, scan.1);
  }

  /** Lines 121-141 on an array: the steps of `LomutoResult`, in place. */
  method LomutoPartitionWithPivot(values: array<int>, start: int, end: int, pivotIndex: int) returns (p: int)
    requires 0 <= start <= pivotIndex <= end < values.Length
    modifies values
    ensures (values[..], p) == LomutoResult(old(values[..]), start, end, pivotIndex)
    ensures LomutoSplit(values[..], start, end, p) && values[p] == old(values[pivotIndex])
    ensures Rearranged(old(values[..]), values[..], start, end)
  {
    var pivot := values[pivotIndex];
    values[pivotIndex], values[end] := values[end], values[pivotIndex];
    ghost var s1 := values[..];
    assert s1 == Swapped(old(values[..]), pivotIndex, end);
    var partitionIndex := start;
    for idx := start to end
      invariant start <= partitionIndex <= idx
      invariant LomutoScan(values[..], idx, end, partitionIndex, pivot) == LomutoScan(s1, start, end, start, pivot)
    {
      ghost var before := values[..];
      if values[idx] < pivot {
        values[idx], values[partitionIndex] := values[partitionIndex], values[idx];
        assert values[..] == Swapped(before, idx, partitionIndex);
        partitionIndex := partitionIndex + 1;
      }
    }
    ghost var scanned := values[..];
    assert LomutoScan(s1, start, end, start, pivot) == (scanned, partitionIndex);
    values[end], values[partitionIndex] := values[partitionIndex], values[end];
    assert values[..] == Swapped(scanned, end, partitionIndex);
    p := partitionIndex;
    LomutoFinish(old(values[..]), s1, scanned, values[..], start, end, pivotIndex, p);
  }

  /** The array's final state is `LomutoResult`, so the split and the rearrangement hold. */
  lemma LomutoFinish(s0: seq<int>, s1: seq<int>, scanned: seq<int>, final: seq<int>, start: int, end: int, pivotIndex: int, p: int)
    requires 0 <= start <= pivotIndex <= end < |s0|
    requires s1 == Swapped(s0, pivotIndex, end)
    requires LomutoScan(s1, start, end, start, s0[pivotIndex]) == (scanned, p)
    requires start <= p <= end && final == Swapped(scanned, end, p)
    ensures (final, p) == LomutoResult(s0, start, end, pivotIndex)
    ensures LomutoSplit(final, start, end, p) && final[p] == s0[pivotIndex]
    ensures Rearranged(s0, final, start, end)
  {
    LomutoPartitions(s0, start, end, pivotIndex);
  }

  /**
   * Lines 143-149 (and 170-175, 197-202, which differ only in the default strategy):
   * `partition` selects the pivot index and runs `lomuto_partition_with_pivot`.
   */
  method LomutoPartition(values: array<int>, start: int, end: int, pivotStrategy: PivotStrategy, draw: nat)
    returns (p: int)
    requires 0 <= start <= end < values.Length
    modifies values
    ensures (values[..], p) == LomutoResult(old(values[..]), start, end, PivotAt(old(values[..]), start, end, pivotStrategy, draw))
    ensures LomutoSplit(values[..], start, end, p)
    ensures Rearranged(old(values[..]), values[..], start, end)
  {
    var pivotIndex := SelectPivotIndex(values[..], start, end, pivotStrategy, draw);
    p := LomutoPartitionWithPivot(values, start, end, pivotIndex.value);
  }

  // ---------------------------------------------------------------------------------
  // Hoare (lines 224-312) and Sedgewick (lines 334-363, the same steps).

  /** Hoare's promise (lines 254-256): up to p nothing is larger than values[p], after p everything is. */
  predicate HoareSplit(t: seq<int>, start: int, end: int, p: int)
  {
    0 <= start <= p <= end < |t|
    && (forall k | start <= k <= p :: t[k] <= t[p])
    && (forall k | p < k <= end :: t[p] < t[k])
  }

  /** Line 299: `left` moves right past values at most the pivot, without passing `right`. */
  function ScanUp(s: seq<int>, left: int, right: int, pivot: int): (l: int)
    requires 0 <= left <= right + 1 <= |s|
    ensures left <= l <= right + 1
    ensures forall k | left <= k < l :: s[k] <= pivot
    ensures l <= right ==> s[l] > pivot
    decreases right - left + 1
  {
    if left <= right && s[left] <= pivot then ScanUp(s, left + 1, right, pivot) else left
  }

  /** Line 302: `right` moves left past values above the pivot, without passing `left`. */
  function ScanDown(s: seq<int>, left: int, right: int, pivot: int): (r: int)
    requires 0 <= left <= right + 1 <= |s|
    ensures left - 1 <= r <= right
    ensures forall k | r < k <= right :: s[k] > pivot
    ensures left <= r ==> s[r] <= pivot
    decreases right - left + 1
  {
    if left <= right && s[right] > pivot then ScanDown(s, left, right - 1, pivot) else right
  }

  /**
   * Lines 297-308: rounds of both scans followed by a swap, until the pointers cross;
   * the result is the array and the final `right`. `firstRound` marks the first round, the
   * only one that may start without a swapped pair in front of both pointers.
   */
  function HoareRounds(s: seq<int>, left: int, right: int, pivot: int, firstRound: bool): (r: (seq<int>, int))
    requires 1 <= left <= right + 1 <= |s|
    requires !firstRound ==> left < right && s[left] <= pivot && s[right] > pivot
    ensures |r.0| == |s| && left - 1 <= r.1 <= right
    decreases right - left + 1, if firstRound then 1 else 0
  {
    var l := ScanUp(s, left, right, pivot);
    var r := ScanDown(s, l, right, pivot);
    if l > r then (s, r)
    else HoareRounds(Swapped(s, l, r), l, r, pivot, false)
  }

  /** The rounds only exchange positions in left..right. */
  lemma {:induction false} HoareRoundsRearranges(s: seq<int>, left: int, right: int, pivot: int, firstRound: bool)
    requires 1 <= left <= right + 1 <= |s|
    requires !firstRound ==> left < right && s[left] <= pivot && s[right] > pivot
    ensures Rearranged(s, HoareRounds(s, left, right, pivot, firstRound).0, left, right)
    decreases right - left + 1, if firstRound then 1 else 0
  {
    var l := ScanUp(s, left, right, pivot);
    var r := ScanDown(s, l, right, pivot);
    if l <= r {
      var s' := Swapped(s, l, r);
      SwapRearranges(s, l, r, left, right);
      HoareRoundsRearranges(s', l, r, pivot, false);
      RearrangedTrans(s, s', HoareRounds(s', l, r, pivot, false).0, left, right);
    }
  }

  /** Rounds invariant: after start and before left nothing exceeds the pivot, after right up to end everything does. */
  predicate HoareInvariant(t: seq<int>, start: int, left: int, right: int, end: int, pivot: int)
    requires 0 <= start < left <= end + 1 <= |t| && start <= right
  {
    (forall k | start < k < left :: t[k] <= pivot) && (forall k | right < k <= end :: t[k] > pivot)
  }

  /** A swap of a crossed pair extends both sides of the invariant. */
  lemma HoareStep(s: seq<int>, start: int, l: int, r: int, end: int, pivot: int)
    requires 0 <= start < l < r <= end < |s| && s[l] > pivot && s[r] <= pivot
    requires HoareInvariant(s, start, l, r, end, pivot)
    ensures HoareInvariant(Swapped(s, l, r), start, l, r, end, pivot)
    ensures Swapped(s, l, r)[l] <= pivot && Swapped(s, l, r)[r] > pivot
  {
  }

  /**
   * The rounds keep their invariant, and when the pointers cross, `right` is the last
   * position not above the pivot.
   */
  lemma {:induction false} HoareRoundsSplit(s: seq<int>, start: int, left: int, right: int, end: int, pivot: int, firstRound: bool)
    requires 0 <= start < left <= right + 1 <= end + 1 <= |s|
    requires !firstRound ==> left < right && s[left] <= pivot && s[right] > pivot
    requires HoareInvariant(s, start, left, right, end, pivot)
    ensures var r := HoareRounds(s, left, right, pivot, firstRound);
      HoareInvariant(r.0, start, r.1 + 1, r.1, end, pivot)
    decreases right - left + 1, if firstRound then 1 else 0
  {
    var l := ScanUp(s, left, right, pivot);
    var r := ScanDown(s, l, right, pivot);
    assert HoareInvariant(s, start, l, r, end, pivot);
    if l <= r {
      HoareStep(s, start, l, r, end, pivot);
      HoareRoundsSplit(Swapped(s, l, r), start, l, r, end, pivot, false);
    }
  }

  /**
   * Lines 283-312: the pivot is swapped to `start` when it is elsewhere, the rounds run
   * from start+1 and end, and the pivot is swapped with the final `right`, which is
   * returned.
   */
  function HoareResult(s: seq<int>, start: int, end: int, pivotIndex: int): (r: (seq<int>, int))
    requires 0 <= start <= pivotIndex <= end < |s|
    ensures |r.0| == |s| && start <= r.1 <= end
  {
    var s1 := PivotToStart(s, start, pivotIndex);
    var rounds := HoareRounds(s1, start + 1, end, s[pivotIndex], true);
    (Swapped(rounds.0, start, rounds.1), rounds.1)
  }

  /** The rounds still to run from (left, right) end in `target`. */
  predicate RoundsLeft(t: seq<int>, left: int, right: int, pivot: int, firstRound: bool, target: (seq<int>, int))
    requires 1 <= left <= right + 1 <= |t|
  {
    (!firstRound ==> left < right && t[left] <= pivot && t[right] > pivot)
    && HoareRounds(t, left, right, pivot, firstRound) == target
  }

  /**
   * One round: after both scans, either the pointers have crossed and the rounds are over,
   * or the swap of the two values leaves the remaining rounds to run from the pair.
   */
  lemma HoareRoundAdvance(t: seq<int>, left: int, right: int, pivot: int, firstRound: bool, target: (seq<int>, int), l: int, r: int)
    requires 1 <= left <= right + 1 <= |t| && RoundsLeft(t, left, right, pivot, firstRound, target)
    requires l == ScanUp(t, left, right, pivot) && r == ScanDown(t, l, right, pivot)
    ensures l > r ==> target == (t, r)
    ensures l <= r ==> 1 <= l <= r + 1 <= |t| && RoundsLeft(Swapped(t, l, r), l, r, pivot, false, target)
  {
  }

  /**
   * Lines 254-256 and 283-312: the pivot value ends at the returned position p, nothing
   * in start..p exceeds it, everything in p+1..end does, and only [start, end] is
   * rearranged.
   */
  lemma HoarePartitions(s: seq<int>, start: int, end: int, pivotIndex: int)
    requires 0 <= start <= pivotIndex <= end < |s|
    ensures var r := HoareResult(s, start, end, pivotIndex);
      HoareSplit(r.0, start, end, r.1) && r.0[r.1] == s[pivotIndex] && Rearranged(s, r.0, start, end)
  {
    HoareResultSplits(s, start, end, pivotIndex);
    HoareResultRearranges(s, start, end, pivotIndex);
  }

  /** Lines 289-290: the pivot is moved to `start` when it is elsewhere. */
  function PivotToStart(s: seq<int>, start: int, pivotIndex: int): (s1: seq<int>)
    requires 0 <= start <= pivotIndex < |s|
    ensures |s1| == |s| && s1[start] == s[pivotIndex]
  {
    if pivotIndex != start then Swapped(s, pivotIndex, start) else s
  }

  lemma HoareResultSplits(s: seq<int>, start: int, end: int, pivotIndex: int)
    requires 0 <= start <= pivotIndex <= end < |s|
    ensures var r := HoareResult(s, start, end, pivotIndex);
      HoareSplit(r.0, start, end, r.1) && r.0[r.1] == s[pivotIndex]
  {
    var pivot := s[pivotIndex];
    var s1 := PivotToStart(s, start, pivotIndex);
    var rounds := HoareRounds(s1, start + 1, end, pivot, true);
    HoareRoundsSplit(s1, start, start + 1, end, end, pivot, true);
    HoareRoundsRearranges(s1, start + 1, end, pivot, true);
    assert rounds.0[start] == pivot;
    HoareFinish(rounds.0, start, rounds.1, end, pivot);
  }

  lemma HoareResultRearranges(s: seq<int>, start: int, end: int, pivotIndex: int)
    requires 0 <= start <= pivotIndex <= end < |s|
    ensures Rearranged(s, HoareResult(s, start, end, pivotIndex).0, start, end)
  {
    var pivot := s[pivotIndex];
    var s1 := PivotToStart(s, start, pivotIndex);
    SwapRearranges(s, pivotIndex, start, start, end);
    assert Rearranged(s, s1, start, end);
    var rounds := HoareRounds(s1, start + 1, end, pivot, true);
    HoareRoundsRearranges(s1, start + 1, end, pivot, true);
    var u := Swapped(rounds.0, start, rounds.1);
    SwapRearranges(rounds.0, start, rounds.1, start, end);
    RearrangedTrans(s, s1, rounds.0, start, end);
    RearrangedTrans(s, rounds.0, u, start, end);
  }

  /** Swapping the pivot from `start` to the crossing point p leaves Hoare's split around p. */
  lemma HoareFinish(t: seq<int>, start: int, p: int, end: int, pivot: int)
    requires 0 <= start <= p <= end < |t| && t[start] == pivot
    requires HoareInvariant(t, start, p + 1, p, end, pivot)
    ensures HoareSplit(Swapped(t, start, p), start, end, p) && Swapped(t, start, p)[p] == pivot
  {
  }

  /**
   * Lines 224-312 (and 334-363) on an array: the steps of `HoareResult`, in place; the
   * pivot strategy defaults to FIRST in the source.
   */
  method HoarePartition(values: array<int>, start: int, end: int, pivotStrategy: PivotStrategy, draw: nat)
    returns (p: int)
    requires 0 <= start <= end < values.Length
    modifies values
    ensures (values[..], p) == HoareResult(old(values[..]), start, end, PivotAt(old(values[..]), start, end, pivotStrategy, draw))
    ensures HoareSplit(values[..], start, end, p)
    ensures Rearranged(old(values[..]), values[..], start, end)
  {
    ghost var s0 := values[..];
    var pivotIndex := SelectPivotIndex(values[..], start, end, pivotStrategy, draw).value;
    var pivot := values[pivotIndex];
    if pivotIndex != start {
      values[pivotIndex], values[start] := values[start], values[pivotIndex];
      assert values[..] == Swapped(s0, pivotIndex, start);
    }
    assert values[..] == PivotToStart(s0, start, pivotIndex);
    var right := HoareScan(values, start, end, pivot);
    ghost var rounds := values[..];
    values[start], values[right] := values[right], values[start];
    assert values[..] == Swapped(rounds, start, right);
    p := right;
    ghost var result := HoareResult(s0, start, end, pivotIndex);
    assert values[..] == result.0 && p == result.1;
    HoarePartitions(s0, start, end, pivotIndex);
  }

  /**
   * Lines 292-308: `left` and `right` close in from both ends of start+1..end, swapping
   * each pair that is on the wrong side, until they cross; the result is `right`.
   */
  method HoareScan(values: array<int>, start: int, end: int, pivot: int) returns (right: int)
    requires 0 <= start <= end < values.Length
    modifies values
    ensures (values[..], right) == HoareRounds(old(values[..]), start + 1, end, pivot, true)
  {
    var left := start + 1;
    right := end;
    ghost var firstRound := true;
    ghost var target := HoareRounds(values[..], left, right, pivot, true);
    while true
      invariant start + 1 <= left <= right + 1 <= end + 1
      invariant RoundsLeft(values[..], left, right, pivot, firstRound, target)
      decreases right - left + 1, if firstRound then 1 else 0
    {
      ghost var cur, left0, right0 := values[..], left, right;
      left := ScanUpLoop(values, left, right, pivot);
      right := ScanDownLoop(values, left, right, pivot);
      HoareRoundAdvance(cur, left0, right0, pivot, firstRound, target, left, right);
      if left > right {
        break;
      }
      values[left], values[right] := values[right], values[left];
      assert values[..] == Swapped(cur, left, right);
      firstRound := false;
    }
  }

  /** Lines 298-299: the loop that moves `left` right past values not above the pivot. */
  method ScanUpLoop(values: array<int>, left0: int, right: int, pivot: int) returns (left: int)
    requires 0 <= left0 <= right + 1 <= values.Length
    ensures left == ScanUp(values[..], left0, right, pivot)
  {
    left := left0;
    while left <= right && values[left] <= pivot
      invariant left0 <= left <= right + 1 && ScanUp(values[..], left, right, pivot) == ScanUp(values[..], left0, right, pivot)
      decreases right - left + 1
    {
      left := left + 1;
    }
  }

  /** Lines 301-302: the loop that moves `right` left past values above the pivot. */
  method ScanDownLoop(values: array<int>, left: int, right0: int, pivot: int) returns (right: int)
    requires 0 <= left <= right0 + 1 <= values.Length
    ensures right == ScanDown(values[..], left, right0, pivot)
  {
    right := right0;
    while left <= right && values[right] > pivot
      invariant left - 1 <= right <= right0 && ScanDown(values[..], left, right, pivot) == ScanDown(values[..], left, right0, pivot)
      decreases right - left + 1
    {
      right := right - 1;
    }
  }

  /** Lines 335-363: `SedgewickPartition.partition` runs the same steps as Hoare's. */
  method SedgewickPartition(values: array<int>, start: int, end: int, pivotStrategy: PivotStrategy, draw: nat)
    returns (p: int)
    requires 0 <= start <= end < values.Length
    modifies values
    ensures (values[..], p) == HoareResult(old(values[..]), start, end, PivotAt(old(values[..]), start, end, pivotStrategy, draw))
    ensures HoareSplit(values[..], start, end, p)
    ensures Rearranged(old(values[..]), values[..], start, end)
  {
    p := HoarePartition(values, start, end, pivotStrategy, draw);
  }

  // ---------------------------------------------------------------------------------
  // Three-way (lines 386-518).

  /**
   * Lines 492-505, Dijkstra's flag loop: below `lt` the values smaller than the pivot,
   * from `lt` to `eq` those equal to it, after `gt` the larger ones.
   */
  function FlagLoop(s: seq<int>, lt: int, eq: int, gt: int, pivot: int): (r: (seq<int>, int, int))
    requires 0 <= lt <= eq <= gt + 1 <= |s|
    ensures |r.0| == |s| && lt <= r.1 && r.2 <= gt
    decreases gt - eq + 1
  {
    if eq > gt then (s, lt, gt)
    else if s[eq] < pivot then FlagLoop(Swapped(s, lt, eq), lt + 1, eq + 1, gt, pivot)
    else if s[eq] > pivot then FlagLoop(Swapped(s, eq, gt), lt, eq, gt - 1, pivot)
    else FlagLoop(s, lt, eq + 1, gt, pivot)
  }

  /** The three regions of the flag loop. */
  predicate ThreeRegions(t: seq<int>, start: int, end: int, lt: int, gt: int, pivot: int)
  {
    0 <= start <= lt <= gt + 1 <= end + 1 <= |t|
    && (forall k | start <= k < lt :: t[k] < pivot)
    && (forall k | lt <= k <= gt :: t[k] == pivot)
    && (forall k | gt < k <= end :: t[k] > pivot)
  }

  /** The regions while the flag loop runs: eq..gt is still unexamined. */
  predicate FlagInvariant(t: seq<int>, start: int, end: int, lt: int, eq: int, gt: int, pivot: int)
  {
    0 <= start <= lt <= eq <= gt + 1 <= end + 1 <= |t|
    && (forall k | start <= k < lt :: t[k] < pivot)
    && (forall k | lt <= k < eq :: t[k] == pivot)
    && (forall k | gt < k <= end :: t[k] > pivot)
  }

  /** A smaller value is swapped to `lt`; both `lt` and `eq` advance. */
  lemma FlagStepLess(t: seq<int>, start: int, end: int, lt: int, eq: int, gt: int, pivot: int)
    requires FlagInvariant(t, start, end, lt, eq, gt, pivot) && eq <= gt && t[eq] < pivot
    ensures FlagInvariant(Swapped(t, lt, eq), start, end, lt + 1, eq + 1, gt, pivot)
  {
  }

  /** A larger value is swapped to `gt`, which retreats. */
  lemma FlagStepGreater(t: seq<int>, start: int, end: int, lt: int, eq: int, gt: int, pivot: int)
    requires FlagInvariant(t, start, end, lt, eq, gt, pivot) && eq <= gt && t[eq] > pivot
    ensures FlagInvariant(Swapped(t, eq, gt), start, end, lt, eq, gt - 1, pivot)
  {
  }

  /** The flag loop ends with its three regions. */
  lemma {:induction false} FlagLoopRegions(s: seq<int>, start: int, end: int, lt: int, eq: int, gt: int, pivot: int)
    requires FlagInvariant(s, start, end, lt, eq, gt, pivot)
    ensures var r := FlagLoop(s, lt, eq, gt, pivot); ThreeRegions(r.0, start, end, r.1, r.2, pivot)
    decreases gt - eq + 1
  {
    if eq <= gt {
      if s[eq] < pivot {
        FlagStepLess(s, start, end, lt, eq, gt, pivot);
        FlagLoopRegions(Swapped(s, lt, eq), start, end, lt + 1, eq + 1, gt, pivot);
      } else if s[eq] > pivot {
        FlagStepGreater(s, start, end, lt, eq, gt, pivot);
        FlagLoopRegions(Swapped(s, eq, gt), start, end, lt, eq, gt - 1, pivot);
      } else {
        FlagLoopRegions(s, start, end, lt, eq + 1, gt, pivot);
      }
    }
  }

  /** The flag loop only exchanges positions inside [start, end]. */
  lemma {:induction false} FlagLoopRearranges(s: seq<int>, start: int, end: int, lt: int, eq: int, gt: int, pivot: int)
    requires 0 <= start <= lt <= eq <= gt + 1 <= end + 1 <= |s|
    ensures Rearranged(s, FlagLoop(s, lt, eq, gt, pivot).0, start, end)
    decreases gt - eq + 1, 1
  {
    if eq <= gt {
      if s[eq] < pivot {
        FlagLessRearranges(s, start, end, lt, eq, gt, pivot);
      } else if s[eq] > pivot {
        FlagGreaterRearranges(s, start, end, lt, eq, gt, pivot);
      } else {
        FlagLoopRearranges(s, start, end, lt, eq + 1, gt, pivot);
      }
    }
  }

  /** A round of the flag loop that swaps a smaller value down, and the rest of the loop. */
  lemma {:induction false} FlagLessRearranges(s: seq<int>, start: int, end: int, lt: int, eq: int, gt: int, pivot: int)
    requires 0 <= start <= lt <= eq <= gt < end + 1 <= |s| && s[eq] < pivot
    ensures Rearranged(s, FlagLoop(s, lt, eq, gt, pivot).0, start, end)
    decreases gt - eq + 1, 0
  {
    FlagLoopRearranges(Swapped(s, lt, eq), start, end, lt + 1, eq + 1, gt, pivot);
    SwapThenRearranged(s, lt, eq, FlagLoop(s, lt, eq, gt, pivot).0, start, end);
  }

  /** A round of the flag loop that swaps a larger value up, and the rest of the loop. */
  lemma {:induction false} FlagGreaterRearranges(s: seq<int>, start: int, end: int, lt: int, eq: int, gt: int, pivot: int)
    requires 0 <= start <= lt <= eq <= gt < end + 1 <= |s| && s[eq] > pivot
    ensures Rearranged(s, FlagLoop(s, lt, eq, gt, pivot).0, start, end)
    decreases gt - eq + 1, 0
  {
    FlagLoopRearranges(Swapped(s, eq, gt), start, end, lt, eq, gt - 1, pivot);
    SwapThenRearranged(s, eq, gt, FlagLoop(s, lt, eq, gt, pivot).0, start, end);
  }

  /** Lines 483-505 for a range of at least two positions: the rearranged list, `lt` and `gt`. */
  function ThreeWayResult(s: seq<int>, start: int, end: int, pivotIndex: int): (r: (seq<int>, int, int))
    requires 0 <= start <= pivotIndex <= end < |s|
    ensures |r.0| == |s|
  {
    FlagLoop(s, start, start, end, s[pivotIndex])
  }

  /**
   * Lines 486-505: values below the pivot come first, then the values equal to it, which
   * include the pivot itself so that section is never empty, then the larger values.
   */
  lemma ThreeWayPartitions(s: seq<int>, start: int, end: int, pivotIndex: int)
    requires 0 <= start <= pivotIndex <= end < |s|
    ensures var r := ThreeWayResult(s, start, end, pivotIndex);
      ThreeRegions(r.0, start, end, r.1, r.2, s[pivotIndex]) && r.1 <= r.2 && Rearranged(s, r.0, start, end)
  {
    var r := ThreeWayResult(s, start, end, pivotIndex);
    FlagLoopRegions(s, start, end, start, start, end, s[pivotIndex]);
    FlagLoopRearranges(s, start, end, start, start, end, s[pivotIndex]);
    RearrangedFrom(r.0, s, start, end);
    var j := SliceIndex(r.0, start, end, s[pivotIndex]);
    assert r.1 <= j <= r.2;
  }

  /** Any position of the equal section holds the pivot and splits the range. */
  lemma EqualSectionSplits(t: seq<int>, start: int, end: int, lt: int, gt: int, pivot: int, p: int)
    requires ThreeRegions(t, start, end, lt, gt, pivot) && lt <= p <= gt
    ensures Splits(t, start, end, p) && t[p] == pivot
  {
  }

  /**
   * Lines 386-518 on an array. A range of fewer than two positions returns start and
   * changes nothing; otherwise the flag loop runs and the middle of the equal section is
   * returned. The two fall-back returns of lines 515-518 are never reached, because the
   * equal section always holds the pivot.
   */
  method ThreeWayPartition(values: array<int>, start: int, end: int, pivotStrategy: PivotStrategy, draw: nat)
    returns (p: int)
    requires start < end ==> 0 <= start && end < values.Length
    modifies values
    ensures start >= end ==> p == start && values[..] == old(values[..])
    ensures start < end ==>
      var r := ThreeWayResult(old(values[..]), start, end, PivotAt(old(values[..]), start, end, pivotStrategy, draw));
      values[..] == r.0 && r.1 <= p <= r.2 && ThreeRegions(values[..], start, end, r.1, r.2, values[p])
    ensures start < end ==> Splits(values[..], start, end, p) && Rearranged(old(values[..]), values[..], start, end)
  {
    if start >= end {
      return start;
    }
    var pivotIndex := SelectPivotIndex(values[..], start, end, pivotStrategy, draw).value;
    var pivot := values[pivotIndex];
    ghost var s0 := values[..];
    var lessThan, greaterThan := FlagScan(values, start, end, pivot);
    ghost var r := FlagLoop(s0, start, start, end, pivot);
    assert values[..] == r.0 && lessThan == r.1 && greaterThan == r.2;
    ThreeWayPartitions(s0, start, end, pivotIndex);
    var middleEqual := (lessThan + greaterThan) / 2;
    if lessThan <= middleEqual <= greaterThan {
      EqualSectionSplits(values[..], start, end, lessThan, greaterThan, pivot, middleEqual);
      return middleEqual;
    } else if lessThan > greaterThan {
      assert false;
    } else {
      assert false;
    }
  }

  /** Lines 486-505: the flag loop on the array; the result is the final `lt` and `gt`. */
  method FlagScan(values: array<int>, start: int, end: int, pivot: int) returns (lessThan: int, greaterThan: int)
    requires 0 <= start <= end < values.Length
    modifies values
    ensures (values[..], lessThan, greaterThan) == FlagLoop(old(values[..]), start, start, end, pivot)
  {
    lessThan, greaterThan := start, end;
    var equal := start;
    while equal <= greaterThan
      invariant start <= lessThan <= equal <= greaterThan + 1 <= end + 1
      invariant FlagLoop(values[..], lessThan, equal, greaterThan, pivot) == FlagLoop(old(values[..]), start, start, end, pivot)
      decreases greaterThan - equal + 1
    {
      ghost var cur := values[..];
      if values[equal] < pivot {
        values[lessThan], values[equal] := values[equal], values[lessThan];
        assert values[..] == Swapped(cur, lessThan, equal);
        lessThan := lessThan + 1;
        equal := equal + 1;
      } else if values[equal] > pivot {
        values[equal], values[greaterThan] := values[greaterThan], values[equal];
        assert values[..] == Swapped(cur, equal, greaterThan);
        greaterThan := greaterThan - 1;
      } else {
        equal := equal + 1;
      }
    }
  }

  // ---------------------------------------------------------------------------------
  // Dual pivot (lines 540-582).

  /**
   * Lines 540-582. The two "pivots" are the indices the strategies return, and the loop
   * compares values with those indices, so the result carries no ordering promise; what
   * holds is that the range is only rearranged and the returned `less` lies in it. A
   * range of fewer than two positions returns start and changes nothing.
   */
  method DualPivotPartition(values: array<int>, start: int, end: int, pivotStrategy1: PivotStrategy,
                            pivotStrategy2: PivotStrategy, draw1: nat, draw2: nat) returns (p: int)
    requires start < end ==> 0 <= start && end < values.Length
    modifies values
    ensures start >= end ==> p == start && values[..] == old(values[..])
    ensures start < end ==> start <= p <= end && Rearranged(old(values[..]), values[..], start, end)
  {
    if start >= end {
      return start;
    }
    if values[start] > values[end] {
      SwapRearranges(values[..], start, end, start, end);
      values[start], values[end] := values[end], values[start];
    }
    var pivot1 := SelectPivotIndex(values[..], start, end, pivotStrategy1, draw1).value;
    var pivot2 := SelectPivotIndex(values[..], start, end, pivotStrategy2, draw2).value;
    var less, great := start + 1, end - 1;
    var k := less;
    while k <= great
      invariant start + 1 <= less <= k <= great + 1 <= end
      invariant Rearranged(old(values[..]), values[..], start, end)
      decreases great - k + 1
    {
      if values[k] < pivot1 {
        ExchangeRearranges(values, k, less, start, end);
        less := less + 1;
      } else if values[k] > pivot2 {
        ExchangeRearranges(values, k, great, start, end);
        great := great - 1;
        k := k - 1;
      }
      k := k + 1;
    }
    less := less - 1;
    great := great + 1;
    ExchangeRearranges(values, start, less, start, end);
    ExchangeRearranges(values, end, great, start, end);
    return less;
  }

  /** One exchange of two positions of [lo, hi] on the array, which stays a rearrangement. */
  method ExchangeRearranges(values: array<int>, i: int, j: int, lo: int, hi: int)
    requires 0 <= lo <= i <= hi < values.Length && lo <= j <= hi
    modifies values
    ensures values[..] == Swapped(old(values[..]), i, j)
    ensures forall s: seq<int> | Rearranged(s, old(values[..]), lo, hi) :: Rearranged(s, values[..], lo, hi)
  {
    ghost var before := values[..];
    SwapRearranges(before, i, j, lo, hi);
    values[i], values[j] := values[j], values[i];
    assert values[..] == Swapped(before, i, j);
    forall s: seq<int> | Rearranged(s, before, lo, hi)
      ensures Rearranged(s, values[..], lo, hi)
    {
      RearrangedTrans(s, before, values[..], lo, hi);
    }
  }

  // ---------------------------------------------------------------------------------
  // Fat pivot (lines 603-650).

  /** Lines 603-612: the primary key and the optional secondary key used on ties. */
  datatype FatKeys = FatKeys(keyFunc: int -> int, secondaryKeyFunc: Option<int -> int>)

  /** Lines 603-612: without a key function the key is the value itself. */
  function NewFatKeys(keyFunc: Option<int -> int>, secondaryKeyFunc: Option<int -> int>): (f: FatKeys)
    ensures keyFunc.None? ==> forall x :: f.keyFunc(x) == x
    ensures keyFunc.Some? ==> forall x :: f.keyFunc(x) == keyFunc.value(x)
    ensures f.secondaryKeyFunc == secondaryKeyFunc
  {
    FatKeys(if keyFunc.Some? then keyFunc.value else x => x, secondaryKeyFunc)
  }

  /** Lines 633-641: whether x goes left of the pivot. */
  predicate MovesLeft(keys: FatKeys, x: int, pivot: int)
  {
    if keys.keyFunc(x) == keys.keyFunc(pivot) && keys.secondaryKeyFunc.Some? then
      keys.secondaryKeyFunc.value(x) < keys.secondaryKeyFunc.value(pivot)
    else keys.keyFunc(x) < keys.keyFunc(pivot)
  }

  /** The fat pivot's promise: every value before p goes left of the value at p, none after it does. */
  predicate FatSplit(t: seq<int>, start: int, end: int, p: int, keys: FatKeys)
  {
    0 <= start <= p <= end < |t|
    && (forall k | start <= k < p :: MovesLeft(keys, t[k], t[p]))
    && (forall k | p < k <= end :: !MovesLeft(keys, t[k], t[p]))
  }

  /** Lines 632-645: Lomuto's scan with `MovesLeft` in place of `<`. */
  function FatScan(s: seq<int>, idx: int, end: int, pi: int, keys: FatKeys, pivot: int): (r: (seq<int>, int))
    requires 0 <= pi <= idx <= end < |s|
    ensures |r.0| == |s| && pi <= r.1 <= end
    decreases end - idx
  {
    if idx == end then (s, pi)
    else if MovesLeft(keys, s[idx], pivot) then FatScan(Swapped(s, idx, pi), idx + 1, end, pi + 1, keys, pivot)
    else FatScan(s, idx + 1, end, pi, keys, pivot)
  }

  /** Lines 622-650: the fat-pivot partition, shaped as Lomuto's. */
  function FatPivotResult(s: seq<int>, start: int, end: int, pivotIndex: int, keys: FatKeys): (r: (seq<int>, int))
    requires 0 <= start <= pivotIndex <= end < |s|
    ensures |r.0| == |s| && start <= r.1 <= end
  {
    var scan := FatScan(Swapped(s, pivotIndex, end), start, end, start, keys, s[pivotIndex]);
    (Swapped(scan.0, end, scan.1), scan.1)
  }

  /** With the value itself as key and no secondary key, a fat scan is Lomuto's scan. */
  lemma {:induction false} FatScanIsLomutoScan(s: seq<int>, idx: int, end: int, pi: int, keys: FatKeys, pivot: int)
    requires 0 <= pi <= idx <= end < |s|
    requires (forall x :: keys.keyFunc(x) == x) && keys.secondaryKeyFunc.None?
    ensures FatScan(s, idx, end, pi, keys, pivot) == LomutoScan(s, idx, end, pi, pivot)
    decreases end - idx
  {
    if idx < end {
      assert MovesLeft(keys, s[idx], pivot) <==> s[idx] < pivot;
      if s[idx] < pivot {
        FatScanIsLomutoScan(Swapped(s, idx, pi), idx + 1, end, pi + 1, keys, pivot);
      } else {
        FatScanIsLomutoScan(s, idx + 1, end, pi, keys, pivot);
      }
    }
  }

  /** Lines 611 and 622-650: a FatPivotPartition built without key functions behaves exactly as Lomuto. */
  lemma FatPivotDefaultIsLomuto(s: seq<int>, start: int, end: int, pivotIndex: int)
    requires 0 <= start <= pivotIndex <= end < |s|
    ensures FatPivotResult(s, start, end, pivotIndex, NewFatKeys(None, None)) == LomutoResult(s, start, end, pivotIndex)
  {
    FatScanIsLomutoScan(Swapped(s, pivotIndex, end), start, end, start, NewFatKeys(None, None), s[pivotIndex]);
  }

  /** Fat scan invariant: in start..pi-1 every value goes left of the pivot, in pi..idx-1 none does. */
  predicate FatInvariant(t: seq<int>, start: int, pi: int, idx: int, keys: FatKeys, pivot: int)
    requires 0 <= start <= pi <= idx <= |t|
  {
    (forall k | start <= k < pi :: MovesLeft(keys, t[k], pivot))
    && (forall k | pi <= k < idx :: !MovesLeft(keys, t[k], pivot))
  }

  /** One step of the fat scan that swaps keeps the invariant. */
  lemma FatStep(s: seq<int>, start: int, idx: int, pi: int, keys: FatKeys, pivot: int)
    requires 0 <= start <= pi <= idx < |s| && MovesLeft(keys, s[idx], pivot)
    requires FatInvariant(s, start, pi, idx, keys, pivot)
    ensures FatInvariant(Swapped(s, idx, pi), start, pi + 1, idx + 1, keys, pivot)
  {
  }

  /** The fat scan keeps its invariant up to `end`. */
  lemma {:induction false} FatScanSplits(s: seq<int>, start: int, idx: int, end: int, pi: int, keys: FatKeys, pivot: int)
    requires 0 <= start <= pi <= idx <= end < |s|
    requires FatInvariant(s, start, pi, idx, keys, pivot)
    ensures var r := FatScan(s, idx, end, pi, keys, pivot); FatInvariant(r.0, start, r.1, end, keys, pivot)
    decreases end - idx
  {
    if idx < end {
      if MovesLeft(keys, s[idx], pivot) {
        FatStep(s, start, idx, pi, keys, pivot);
        FatScanSplits(Swapped(s, idx, pi), start, idx + 1, end, pi + 1, keys, pivot);
      } else {
        FatScanSplits(s, start, idx + 1, end, pi, keys, pivot);
      }
    }
  }

  /** The fat scan only exchanges positions in start..end-1. */
  lemma {:induction false} FatScanRearranges(s: seq<int>, start: int, idx: int, end: int, pi: int, keys: FatKeys, pivot: int)
    requires 0 <= start <= pi <= idx <= end < |s|
    ensures Rearranged(s, FatScan(s, idx, end, pi, keys, pivot).0, start, end - 1)
    decreases end - idx
  {
    if idx < end {
      if MovesLeft(keys, s[idx], pivot) {
        FatScanRearranges(Swapped(s, idx, pi), start, idx + 1, end, pi + 1, keys, pivot);
        SwapThenRearranged(s, idx, pi, FatScan(s, idx, end, pi, keys, pivot).0, start, end - 1);
      } else {
        FatScanRearranges(s, start, idx + 1, end, pi, keys, pivot);
      }
    }
  }

  /**
   * Lines 622-650: the pivot ends at the returned position p; every value before it goes
   * left of the pivot by (key, secondary key), none after it does.
   */
  lemma FatPivotPartitions(s: seq<int>, start: int, end: int, pivotIndex: int, keys: FatKeys)
    requires 0 <= start <= pivotIndex <= end < |s|
    ensures var r := FatPivotResult(s, start, end, pivotIndex, keys);
      r.0[r.1] == s[pivotIndex] && Rearranged(s, r.0, start, end) && FatSplit(r.0, start, end, r.1, keys)
  {
    var s1 := Swapped(s, pivotIndex, end);
    SwappedMultiset(s, pivotIndex, end);
    var scan := FatScan(s1, start, end, start, keys, s[pivotIndex]);
    FatScanSplits(s1, start, start, end, start, keys, s[pivotIndex]);
    FatScanRearranges(s1, start, start, end, start, keys, s[pivotIndex]);
    SwappedMultiset(scan.0, end, scan.1);
  }

  /** Lines 614-650 on an array: the steps of `FatPivotResult`, in place. */
  method FatPivotPartition(keys: FatKeys, values: array<int>, start: int, end: int, pivotStrategy: PivotStrategy, draw: nat)
    returns (p: int)
    requires 0 <= start <= end < values.Length
    modifies values
    ensures (values[..], p) == FatPivotResult(old(values[..]), start, end, PivotAt(old(values[..]), start, end, pivotStrategy, draw), keys)
    ensures FatSplit(values[..], start, end, p, keys) && Rearranged(old(values[..]), values[..], start, end)
  {
    ghost var s0 := values[..];
    var pivotIndex := SelectPivotIndex(values[..], start, end, pivotStrategy, draw).value;
    var pivot := values[pivotIndex];
    values[pivotIndex], values[end] := values[end], values[pivotIndex];
    assert values[..] == Swapped(s0, pivotIndex, end);
    var partitionIndex := FatScanLoop(keys, values, start, end, pivot);
    ghost var scanned := values[..];
    values[end], values[partitionIndex] := values[partitionIndex], values[end];
    assert values[..] == Swapped(scanned, end, partitionIndex);
    p := partitionIndex;
    ghost var result := FatPivotResult(s0, start, end, pivotIndex, keys);
    assert values[..] == result.0 && p == result.1;
    FatPivotPartitions(s0, start, end, pivotIndex, keys);
  }

  /** Lines 629-645: the scan of start..end-1 with the multi-key comparison. */
  method FatScanLoop(keys: FatKeys, values: array<int>, start: int, end: int, pivot: int) returns (partitionIndex: int)
    requires 0 <= start <= end < values.Length
    modifies values
    ensures (values[..], partitionIndex) == FatScan(old(values[..]), start, end, start, keys, pivot)
  {
    partitionIndex := start;
    for idx := start to end
      invariant start <= partitionIndex <= idx
      invariant FatScan(values[..], idx, end, partitionIndex, keys, pivot) == FatScan(old(values[..]), start, end, start, keys, pivot)
    {
      var shouldMoveLeft := keys.keyFunc(values[idx]) < keys.keyFunc(pivot);
      if keys.keyFunc(values[idx]) == keys.keyFunc(pivot) && keys.secondaryKeyFunc.Some? {
        shouldMoveLeft := keys.secondaryKeyFunc.value(values[idx]) < keys.secondaryKeyFunc.value(pivot);
      }
      if shouldMoveLeft {
        values[idx], values[partitionIndex] := values[partitionIndex], values[idx];
        partitionIndex := partitionIndex + 1;
      }
    }
  }

  // ---------------------------------------------------------------------------------
  // The list of the docstrings' examples, [64, 34, 25, 12, 22, 11, 90], over its whole range.

  /**
   * Lomuto with the midpoint pivot 12: 11 is the only smaller value, so 12 ends at index 1.
   * The docstring of lines 101-106 shows [11, 12, 25, 64, 22, 34, 90], which is not what the
   * code leaves; the code's result is this one.
   */
  lemma LomutoExample()
    ensures LomutoResult([64, 34, 25, 12, 22, 11, 90], 0, 6, Mid(0, 6)) == ([11, 12, 25, 90, 22, 64, 34], 1)
  {
    var s1 := Swapped([64, 34, 25, 12, 22, 11, 90], 3, 6);
    assert s1 == [64, 34, 25, 90, 22, 11, 12];
    assert Swapped(s1, 5, 0) == [11, 34, 25, 90, 22, 64, 12];
    assert Swapped([11, 34, 25, 90, 22, 64, 12], 6, 1) == [11, 12, 25, 90, 22, 64, 34];
  }

  /** Hoare with the first value 64 as pivot: 64 ends at index 5, as the docstring shows. */
  lemma HoareExample()
    ensures HoareResult([64, 34, 25, 12, 22, 11, 90], 0, 6, 0) == ([11, 34, 25, 12, 22, 64, 90], 5)
  {
    var s := [64, 34, 25, 12, 22, 11, 90];
    assert ScanUp(s, 1, 6, 64) == 6;
    assert ScanDown(s, 6, 6, 64) == 5;
    assert Swapped(s, 0, 5) == [11, 34, 25, 12, 22, 64, 90];
  }

  /**
   * Three-way with the midpoint pivot 12: 12 is alone in its section at index 1. The
   * docstring of lines 417-423 shows 64 before 90, which the code does not leave.
   */
  lemma ThreeWayExample()
    ensures ThreeWayResult([64, 34, 25, 12, 22, 11, 90], 0, 6, Mid(0, 6)) == ([11, 12, 25, 22, 34, 90, 64], 1, 1)
  {
    assert Swapped([64, 34, 25, 12, 22, 11, 90], 0, 6) == [90, 34, 25, 12, 22, 11, 64];
    assert Swapped([90, 34, 25, 12, 22, 11, 64], 0, 5) == [11, 34, 25, 12, 22, 90, 64];
    assert Swapped([11, 34, 25, 12, 22, 90, 64], 0, 0) == [11, 34, 25, 12, 22, 90, 64];
    assert Swapped([11, 34, 25, 12, 22, 90, 64], 1, 4) == [11, 22, 25, 12, 34, 90, 64];
    assert Swapped([11, 22, 25, 12, 34, 90, 64], 1, 3) == [11, 12, 25, 22, 34, 90, 64];
    assert Swapped([11, 12, 25, 22, 34, 90, 64], 2, 2) == [11, 12, 25, 22, 34, 90, 64];
  }

  // ---------------------------------------------------------------------------------
  // Hybrid (lines 671-705).

  class HybridPartition {
    var insertionThreshold: int
    var maxDepth: Option<int>
    var currentDepth: int

    /** Lines 671-683; the source's defaults are 10 and None. */
    constructor (insertionThreshold: int, maxDepth: Option<int>)
      ensures this.insertionThreshold == insertionThreshold && this.maxDepth == maxDepth
      ensures currentDepth == 0
    {
      this.insertionThreshold := insertionThreshold;
      this.maxDepth := maxDepth;
      currentDepth := 0;
    }

    /** Line 701: `max_depth` is set and non-zero (Python truthiness) and the depth exceeds it. */
    predicate TooDeep()
      reads this
    {
      maxDepth.Some? && maxDepth.value != 0 && currentDepth > maxDepth.value
    }

    /**
     * Lines 685-705: small ranges and ordinary depths use median-of-three Lomuto; a range
     * above the threshold past the maximum depth gets a random pivot.
     */
    method Partition(values: array<int>, start: int, end: int, draw: nat) returns (p: int)
      requires 0 <= start <= end < values.Length
      modifies values
      ensures var strategy := if end - start + 1 > insertionThreshold && TooDeep() then RANDOM else MEDIAN_OF_THREE;
        (values[..], p) == LomutoResult(old(values[..]), start, end, PivotAt(old(values[..]), start, end, strategy, draw))
      ensures LomutoSplit(values[..], start, end, p)
      ensures Rearranged(old(values[..]), values[..], start, end)
    {
      var size := end - start + 1;
      if size <= insertionThreshold {
        p := LomutoPartition(values, start, end, MEDIAN_OF_THREE, draw);
        return;
      }
      if maxDepth.Some? && maxDepth.value != 0 && currentDepth > maxDepth.value {
        p := LomutoPartition(values, start, end, RANDOM, draw);
        return;
      }
      p := LomutoPartition(values, start, end, MEDIAN_OF_THREE, draw);
    }
  }
}
