/**
 * The 0/1 backpack (knapsack) problem: a top-down recursion and a bottom-up table
 * (python/algorithms/backpack.py). Weights are non-negative throughout.
 */
module Backpack {
  import opened Wrappers

  function Max(a: int, b: int): int
  {
    if a >= b then a else b
  }

  predicate NonNegative(xs: seq<int>)
  {
    forall k | 0 <= k < |xs| :: xs[k] >= 0
  }

  /** A choice of items: strictly increasing indices, all in [lo, hi). */
  predicate IsSelection(sel: seq<nat>, lo: nat, hi: nat)
  {
    (forall a | 0 <= a < |sel| :: lo <= sel[a] < hi)
    && (forall a, b | 0 <= a < b < |sel| :: sel[a] < sel[b])
  }

  /** The sum of xs over the chosen indices. */
  function Total(xs: seq<int>, sel: seq<nat>): int
    requires forall a | 0 <= a < |sel| :: sel[a] < |xs|
  {
    if sel == [] then 0 else xs[sel[0]] + Total(xs, sel[1..])
  }

  lemma {:induction false} TotalNonNegative(xs: seq<int>, sel: seq<nat>)
    requires forall a | 0 <= a < |sel| :: sel[a] < |xs|
    requires NonNegative(xs)
    ensures Total(xs, sel) >= 0
    decreases |sel|
  {
    if sel != [] {
      TotalNonNegative(xs, sel[1..]);
    }
  }

  lemma {:induction false} TotalSnoc(xs: seq<int>, sel: seq<nat>, x: nat)
    requires forall a | 0 <= a < |sel| :: sel[a] < |xs|
    requires x < |xs|
    ensures Total(xs, sel + [x]) == Total(xs, sel) + xs[x]
    decreases |sel|
  {
    if sel != [] {
      assert (sel + [x])[1..] == sel[1..] + [x];
      TotalSnoc(xs, sel[1..], x);
    }
  }

  /** A selection from items [0, n) whose total weight is at most the capacity. */
  predicate Feasible(weightMax: int, weights: seq<int>, sel: seq<nat>)
  {
    IsSelection(sel, 0, |weights|) && Total(weights, sel) <= weightMax
  }

  // ---------------------------------------------------------------------------
  // recursive_backpack, as written and corrected
  // ---------------------------------------------------------------------------

  /**
   * `recursive_backpack` (lines 23-72) as written: a capacity of exactly 0 ends the
   * recursion, even when items of weight 0 remain.
   */
  function RecursiveBackpack(weightMax: int, weights: seq<int>, values: seq<int>, itemIndex: nat := 0): (r: int)
    requires |weights| <= |values|
    ensures r >= 0
    decreases |weights| - itemIndex
  {
    if weightMax == 0 || itemIndex >= |weights| then 0
    else if weights[itemIndex] > weightMax then
      RecursiveBackpack(weightMax, weights, values, itemIndex + 1)
    else
      var withItem := values[itemIndex]
        + RecursiveBackpack(weightMax - weights[itemIndex], weights, values, itemIndex + 1);
      var withoutItem := RecursiveBackpack(weightMax, weights, values, itemIndex + 1);
      Max(withItem, withoutItem)
  }

  /**
   * The recursion without the `weight_max == 0` shortcut: it stops only when no items
   * remain, so items of weight 0 are still taken at capacity 0.
   */
  function Knapsack(weightMax: int, weights: seq<int>, values: seq<int>, itemIndex: nat): (r: int)
    requires |weights| <= |values|
    ensures r >= 0
    decreases |weights| - itemIndex
  {
    if itemIndex >= |weights| then 0
    else if weights[itemIndex] > weightMax then
      Knapsack(weightMax, weights, values, itemIndex + 1)
    else
      var withItem := values[itemIndex]
        + Knapsack(weightMax - weights[itemIndex], weights, values, itemIndex + 1);
      var withoutItem := Knapsack(weightMax, weights, values, itemIndex + 1);
      Max(withItem, withoutItem)
  }

  /** After the first chosen index, the rest of a selection lies above it. */
  lemma SelectionTail(sel: seq<nat>, lo: nat, hi: nat)
    requires IsSelection(sel, lo, hi) && sel != []
    ensures lo <= sel[0] < hi && IsSelection(sel[1..], sel[0] + 1, hi)
  {
    assert sel[0] == sel[..1][0];
  }

  /** A selection that does not start at lo lies in [lo + 1, hi). */
  lemma SelectionRaise(sel: seq<nat>, lo: nat, hi: nat)
    requires IsSelection(sel, lo, hi) && (sel == [] || sel[0] != lo)
    ensures IsSelection(sel, lo + 1, hi)
  {
    if sel != [] {
      forall a | 0 <= a < |sel|
        ensures lo + 1 <= sel[a]
      {
        if a > 0 {
          assert sel[0] < sel[a];
        }
      }
    }
  }

  /** Before the last chosen index, the rest of a selection lies below it. */
  lemma SelectionFront(sel: seq<nat>, lo: nat, hi: nat)
    requires IsSelection(sel, lo, hi) && sel != []
    ensures lo <= sel[|sel| - 1] < hi && IsSelection(sel[..|sel| - 1], lo, sel[|sel| - 1])
  {
  }

  /** A selection that does not end at hi - 1 lies in [lo, hi - 1). */
  lemma SelectionLower(sel: seq<nat>, lo: nat, hi: nat)
    requires IsSelection(sel, lo, hi) && hi > 0 && (sel == [] || sel[|sel| - 1] != hi - 1)
    ensures IsSelection(sel, lo, hi - 1)
  {
    if sel != [] {
      forall a | 0 <= a < |sel|
        ensures sel[a] < hi - 1
      {
        if a < |sel| - 1 {
          assert sel[a] < sel[|sel| - 1];
        }
      }
    }
  }

  /** Taking item i, when it fits, is one of the two options the recursion weighs. */
  lemma KnapsackOptions(weightMax: int, weights: seq<int>, values: seq<int>, i: nat)
    requires |weights| <= |values| && i < |weights|
    ensures Knapsack(weightMax, weights, values, i) >= Knapsack(weightMax, weights, values, i + 1)
    ensures weights[i] <= weightMax ==>
      (Knapsack(weightMax, weights, values, i) >= values[i] + Knapsack(weightMax - weights[i], weights, values, i + 1))
  {
  }

  /** Taking item i - 1, when it fits, is one of the two options the table weighs. */
  lemma TableOptions(w: int, weights: seq<int>, values: seq<int>, i: nat)
    requires 0 < i <= |weights| <= |values|
    ensures Table(w, weights, values, i) >= Table(w, weights, values, i - 1)
    ensures weights[i - 1] <= w ==>
      (Table(w, weights, values, i) >= values[i - 1] + Table(w - weights[i - 1], weights, values, i - 1))
  {
  }

  /** No selection from items [i, n) that fits is worth more than Knapsack(W, i). */
  lemma {:induction false} KnapsackUpper(
    weightMax: int, weights: seq<int>, values: seq<int>, i: nat, sel: seq<nat>)
    requires |weights| <= |values| && NonNegative(weights)
    requires IsSelection(sel, i, |weights|) && Total(weights, sel) <= weightMax
    ensures Total(values, sel) <= Knapsack(weightMax, weights, values, i)
    decreases |weights| - i, 1
  {
    if sel != [] && sel[0] == i {
      KnapsackUpperTaken(weightMax, weights, values, i, sel);
    } else if sel != [] {
      SelectionRaise(sel, i, |weights|);
      KnapsackUpper(weightMax, weights, values, i + 1, sel);
      KnapsackOptions(weightMax, weights, values, i);
    }
  }

  /** The case where the selection takes item i. */
  lemma {:induction false} KnapsackUpperTaken(
    weightMax: int, weights: seq<int>, values: seq<int>, i: nat, sel: seq<nat>)
    requires |weights| <= |values| && NonNegative(weights)
    requires IsSelection(sel, i, |weights|) && Total(weights, sel) <= weightMax
    requires sel != [] && sel[0] == i
    ensures Total(values, sel) <= Knapsack(weightMax, weights, values, i)
    decreases |weights| - i, 0
  {
    var rest := sel[1..];
    SelectionTail(sel, i, |weights|);
    TotalNonNegative(weights, rest);
    assert Total(weights, sel) == weights[i] + Total(weights, rest);
    assert Total(values, sel) == values[i] + Total(values, rest);
    KnapsackUpper(weightMax - weights[i], weights, values, i + 1, rest);
    KnapsackOptions(weightMax, weights, values, i);
  }

  /** The items the recursion takes, from item i on. */
  function KnapsackChoice(weightMax: int, weights: seq<int>, values: seq<int>, i: nat): (sel: seq<nat>)
    requires |weights| <= |values| && NonNegative(weights) && weightMax >= 0
    ensures IsSelection(sel, i, |weights|)
    ensures Total(weights, sel) <= weightMax
    ensures Total(values, sel) == Knapsack(weightMax, weights, values, i)
    decreases |weights| - i
  {
    if i >= |weights| then []
    else if weights[i] > weightMax then KnapsackChoice(weightMax, weights, values, i + 1)
    else
      var taken := KnapsackChoice(weightMax - weights[i], weights, values, i + 1);
      var skipped := KnapsackChoice(weightMax, weights, values, i + 1);
      if values[i] + Total(values, taken) >= Total(values, skipped) then
        assert ([i] + taken)[1..] == taken;
        [i] + taken
      else skipped
  }

  /**
   * The corrected recursion is the best total value over the selections whose total
   * weight is at most the capacity (lines 9-13): one such selection reaches it and
   * none exceeds it.
   */
  lemma KnapsackIsBest(weightMax: int, weights: seq<int>, values: seq<int>)
    requires |weights| <= |values| && NonNegative(weights) && weightMax >= 0
    ensures exists sel ::
      (Feasible(weightMax, weights, sel) && Total(values, sel) == Knapsack(weightMax, weights, values, 0))
    ensures forall sel | Feasible(weightMax, weights, sel) ::
      Total(values, sel) <= Knapsack(weightMax, weights, values, 0)
  {
    var best := KnapsackChoice(weightMax, weights, values, 0);
    assert Feasible(weightMax, weights, best);
    forall sel | Feasible(weightMax, weights, sel)
      ensures Total(values, sel) <= Knapsack(weightMax, weights, values, 0)
    {
      KnapsackUpper(weightMax, weights, values, 0, sel);
    }
  }

  lemma {:induction false} KnapsackZeroWhenNothingFits(weights: seq<int>, values: seq<int>, i: nat)
    requires |weights| <= |values|
    requires forall k | i <= k < |weights| :: weights[k] > 0
    ensures Knapsack(0, weights, values, i) == 0
    decreases |weights| - i
  {
    if i < |weights| {
      KnapsackZeroWhenNothingFits(weights, values, i + 1);
    }
  }

  /** Without items of weight 0 the shortcut is harmless: both recursions agree. */
  lemma {:induction false} RecursiveBackpackPositiveWeights(
    weightMax: int, weights: seq<int>, values: seq<int>, i: nat)
    requires |weights| <= |values|
    requires forall k | i <= k < |weights| :: weights[k] > 0
    ensures RecursiveBackpack(weightMax, weights, values, i) == Knapsack(weightMax, weights, values, i)
    decreases |weights| - i
  {
    if weightMax == 0 {
      KnapsackZeroWhenNothingFits(weights, values, i);
    } else if i < |weights| {
      RecursiveBackpackPositiveWeights(weightMax, weights, values, i + 1);
      RecursiveBackpackPositiveWeights(weightMax - weights[i], weights, values, i + 1);
    }
  }

  /**
   * Capacity 5, weights [5, 0], values [1, 1]: taking the first item leaves capacity 0,
   * where the shortcut gives up the free second item. The recursion as written returns 1,
   * while both items fit together for a value of 2.
   */
  lemma RecursiveBackpackMissesFreeItem()
    ensures RecursiveBackpack(5, [5, 0], [1, 1], 0) == 1
    ensures Feasible(5, [5, 0], [0, 1]) && Total([1, 1], [0, 1]) == 2
    ensures Knapsack(5, [5, 0], [1, 1], 0) == 2
  {
    var w := [5, 0];
    var v := [1, 1];
    assert RecursiveBackpack(0, w, v, 1) == 0;
    assert RecursiveBackpack(5, w, v, 2) == 0;
    assert RecursiveBackpack(5, w, v, 1) == 1;
    assert Knapsack(0, w, v, 2) == 0;
    assert Knapsack(0, w, v, 1) == 1;
    assert Knapsack(5, w, v, 1) == 1;
    assert [0, 1][1..] == [1];
    assert Total(w, [0, 1]) == 5;
  }

  /** Sum of values[i..]. */
  function SumFrom(xs: seq<int>, i: nat): int
    decreases |xs| - i
  {
    if i >= |xs| then 0 else xs[i] + SumFrom(xs, i + 1)
  }

  /** When all remaining items fit together, the best value is the sum of their values. */
  lemma {:induction false} KnapsackAllFit(weightMax: int, weights: seq<int>, values: seq<int>, i: nat)
    requires |weights| == |values| && NonNegative(weights) && NonNegative(values)
    requires SumFrom(weights, i) <= weightMax
    ensures Knapsack(weightMax, weights, values, i) == SumFrom(values, i)
    decreases |weights| - i
  {
    if i < |weights| {
      SumFromNonNegative(weights, i + 1);
      KnapsackAllFit(weightMax - weights[i], weights, values, i + 1);
      KnapsackAllFit(weightMax, weights, values, i + 1);
    }
  }

  lemma {:induction false} SumFromNonNegative(xs: seq<int>, i: nat)
    requires NonNegative(xs)
    ensures SumFrom(xs, i) >= 0
    decreases |xs| - i
  {
    if i < |xs| {
      SumFromNonNegative(xs, i + 1);
    }
  }

  // ---------------------------------------------------------------------------
  // dynamic_backpack
  // ---------------------------------------------------------------------------

  /** matrix[i][w]: the best value from the first i items at capacity w. */
  function Table(w: int, weights: seq<int>, values: seq<int>, i: nat): (r: int)
    requires i <= |weights| <= |values|
    ensures r >= 0
    decreases i
  {
    if i == 0 then 0
    else if weights[i - 1] <= w then
      Max(values[i - 1] + Table(w - weights[i - 1], weights, values, i - 1), Table(w, weights, values, i - 1))
    else Table(w, weights, values, i - 1)
  }

  /** No selection from the first i items that fits is worth more than Table(w, i). */
  lemma {:induction false} TableUpper(w: int, weights: seq<int>, values: seq<int>, i: nat, sel: seq<nat>)
    requires i <= |weights| <= |values| && NonNegative(weights)
    requires IsSelection(sel, 0, i) && Total(weights, sel) <= w
    ensures Total(values, sel) <= Table(w, weights, values, i)
    decreases i, 1
  {
    if sel != [] && sel[|sel| - 1] == i - 1 {
      TableUpperTaken(w, weights, values, i, sel);
    } else if sel != [] {
      SelectionLower(sel, 0, i);
      TableUpper(w, weights, values, i - 1, sel);
      TableOptions(w, weights, values, i);
    }
  }

  /** The case where the selection takes item i - 1. */
  lemma {:induction false} TableUpperTaken(w: int, weights: seq<int>, values: seq<int>, i: nat, sel: seq<nat>)
    requires i <= |weights| <= |values| && NonNegative(weights)
    requires IsSelection(sel, 0, i) && Total(weights, sel) <= w
    requires sel != [] && sel[|sel| - 1] == i - 1
    ensures Total(values, sel) <= Table(w, weights, values, i)
    decreases i, 0
  {
    var last := |sel| - 1;
    var front := sel[..last];
    SelectionFront(sel, 0, i);
    assert sel == front + [i - 1];
    TotalSnoc(weights, front, i - 1);
    TotalSnoc(values, front, i - 1);
    TotalNonNegative(weights, front);
    TableUpper(w - weights[i - 1], weights, values, i - 1, front);
    TableOptions(w, weights, values, i);
  }

  /** The items the table takes among the first i. */
  function TableChoice(w: int, weights: seq<int>, values: seq<int>, i: nat): (sel: seq<nat>)
    requires i <= |weights| <= |values| && NonNegative(weights) && w >= 0
    ensures IsSelection(sel, 0, i)
    ensures Total(weights, sel) <= w
    ensures Total(values, sel) == Table(w, weights, values, i)
    decreases i
  {
    if i == 0 then []
    else if weights[i - 1] > w then TableChoice(w, weights, values, i - 1)
    else
      var taken := TableChoice(w - weights[i - 1], weights, values, i - 1);
      var skipped := TableChoice(w, weights, values, i - 1);
      if values[i - 1] + Total(values, taken) >= Total(values, skipped) then
        TotalSnoc(weights, taken, i - 1);
        TotalSnoc(values, taken, i - 1);
        taken + [i - 1]
      else skipped
  }

  /** The table's last cell is the best total value over the selections that fit. */
  lemma TableIsBest(weightMax: int, weights: seq<int>, values: seq<int>)
    requires |weights| <= |values| && NonNegative(weights) && weightMax >= 0
    ensures exists sel ::
      (Feasible(weightMax, weights, sel) && Total(values, sel) == Table(weightMax, weights, values, |weights|))
    ensures forall sel | Feasible(weightMax, weights, sel) ::
      Total(values, sel) <= Table(weightMax, weights, values, |weights|)
  {
    var best := TableChoice(weightMax, weights, values, |weights|);
    assert Feasible(weightMax, weights, best);
    forall sel | Feasible(weightMax, weights, sel)
      ensures Total(values, sel) <= Table(weightMax, weights, values, |weights|)
    {
      TableUpper(weightMax, weights, values, |weights|, sel);
    }
  }

  /** The table and the corrected recursion give the same answer. */
  lemma TableIsKnapsack(weightMax: int, weights: seq<int>, values: seq<int>)
    requires |weights| <= |values| && NonNegative(weights) && weightMax >= 0
    ensures Table(weightMax, weights, values, |weights|) == Knapsack(weightMax, weights, values, 0)
  {
    KnapsackIsBest(weightMax, weights, values);
    TableIsBest(weightMax, weights, values);
    var a := KnapsackChoice(weightMax, weights, values, 0);
    var b := TableChoice(weightMax, weights, values, |weights|);
    assert Feasible(weightMax, weights, a) && Feasible(weightMax, weights, b);
  }

  /** Rows 0 .. upto - 1 of the matrix hold the table. */
  ghost predicate RowsFilled(matrix: array2<int>, upto: nat, weights: seq<int>, values: seq<int>)
    reads matrix
  {
    upto <= matrix.Length0 && upto <= |weights| + 1 && |weights| <= |values|
    && forall i, c | 0 <= i < upto && 0 <= c < matrix.Length1 :: matrix[i, c] == Table(c, weights, values, i)
  }

  /**
   * `dynamic_backpack` (lines 75-140). A negative capacity leaves the rows empty and the
   * final `matrix[n][weight_max]` raises IndexError. A negative weight always fits, and the
   * column `current_weight - item_weight` it reads lies beyond the last one by the end of its
   * row, so it raises IndexError too (line 129).
   */
  method DynamicBackpack(weightMax: int, weights: seq<int>, values: seq<int>) returns (r: Result<int>)
    requires |weights| <= |values|
    ensures r.Err? <==> weightMax < 0 || !NonNegative(weights)
    ensures r.Err? ==> r.error == IndexError("list index out of range")
    ensures r.Ok? ==> r.value == Table(weightMax, weights, values, |weights|)
    ensures r.Ok? ==> r.value == Knapsack(weightMax, weights, values, 0)
  {
    var numItems := |weights|;
    var rows := numItems + 1;
    var cols := weightMax + 1;
    if cols <= 0 {
      return Err(IndexError("list index out of range"));
    }
    var matrix := new int[rows, cols]((_, _) => 0);
    for itemIdx := 1 to rows
      invariant RowsFilled(matrix, itemIdx, weights, values)
      invariant forall k | 0 <= k < itemIdx - 1 :: weights[k] >= 0
    {
      for currentWeight := 0 to cols
        invariant RowsFilled(matrix, itemIdx, weights, values)
        invariant forall c | 0 <= c < currentWeight :: matrix[itemIdx, c] == Table(c, weights, values, itemIdx)
        invariant weights[itemIdx - 1] < 0 && currentWeight > 0 ==> currentWeight - 1 - weights[itemIdx - 1] < cols
      {
        var itemWeight := weights[itemIdx - 1];
        var itemValue := values[itemIdx - 1];
        if itemWeight <= currentWeight {
          if currentWeight - itemWeight >= cols {
            return Err(IndexError("list index out of range"));
          }
          var withItem := itemValue + matrix[itemIdx - 1, currentWeight - itemWeight];
          var withoutItem := matrix[itemIdx - 1, currentWeight];
          matrix[itemIdx, currentWeight] := Max(withItem, withoutItem);
        } else {
          matrix[itemIdx, currentWeight] := matrix[itemIdx - 1, currentWeight];
        }
      }
    }
    TableIsKnapsack(weightMax, weights, values);
    return Ok(matrix[numItems, weightMax]);
  }
}
