/** The power set of a list, by bit masks and by recursion on the first element (python/algorithms/power_set.py). */
module PowerSet {

  function Pow2(n: nat): (r: nat)
    ensures r >= 1
  {
    if n == 0 then 1 else 2 * Pow2(n - 1)
  }

  /** Python's `(mask & (1 << position)) > 0` for a non-negative mask. */
  predicate BitSet(mask: nat, position: nat)
  {
    (mask / Pow2(position)) % 2 == 1
  }

  /**
   * The subset a mask selects: values[p] is kept exactly when bit p of the mask
   * is set, in the order of the list.
   */
  function Pick(values: seq<int>, mask: nat): (r: seq<int>)
    ensures |r| <= |values|
  {
    if values == [] then []
    else (if mask % 2 == 1 then [values[0]] else []) + Pick(values[1..], mask / 2)
  }

  lemma MulMono(x: int, y: int, d: int)
    requires x <= y && d >= 0
    ensures x * d <= y * d
  {
    assert y * d - x * d == (y - x) * d;
  }

  lemma DivUnique(a: int, d: int, q: int, r: int)
    requires d > 0 && 0 <= r < d && a == q * d + r
    ensures a / d == q && a % d == r
  {
    var q0 := a / d;
    var r0 := a % d;
    assert a == q0 * d + r0;
    if q > q0 {
      MulMono(q0 + 1, q, d);
      assert false;
    } else if q < q0 {
      MulMono(q + 1, q0, d);
      assert false;
    }
  }

  /** Halving a mask shifts every bit one place down. */
  lemma HalfShift(mask: nat, position: nat)
    ensures BitSet(mask, position + 1) <==> BitSet(mask / 2, position)
  {
    var b := Pow2(position);
    var q := mask / (2 * b);
    var r := mask % (2 * b);
    assert mask == q * (2 * b) + r;
    var h := mask / 2;
    assert mask == 2 * (q * b + r / 2) + r % 2;
    DivUnique(mask, 2, q * b + r / 2, r % 2);
    assert h == q * b + r / 2;
    DivUnique(h, b, q, r / 2);
    assert mask / Pow2(position + 1) == q;
  }

  lemma {:induction false} PickSnoc(values: seq<int>, p: nat, mask: nat)
    requires p < |values|
    ensures Pick(values[..p + 1], mask)
         == Pick(values[..p], mask) + (if BitSet(mask, p) then [values[p]] else [])
    decreases p
  {
    if p == 0 {
      assert values[..1][1..] == [];
    } else {
      var t := values[1..];
      assert values[..p + 1][1..] == t[..p];
      assert values[..p][1..] == t[..p - 1];
      PickSnoc(t, p - 1, mask / 2);
      HalfShift(mask, p - 1);
    }
  }

  /** Lines 30-44: one subset per mask 0 .. 2^n - 1, in mask order. */
  method IterativePowerSet(values: seq<int>) returns (result: seq<seq<int>>)
    ensures |result| == Pow2(|values|)
    ensures forall m | 0 <= m < |result| :: result[m] == Pick(values, m)
  {
    var size := Pow2(|values|);
    result := [];
    for mask := 0 to size
      invariant |result| == mask
      invariant forall m | 0 <= m < mask :: result[m] == Pick(values, m)
    {
      var subset := [];
      for position := 0 to |values|
        invariant subset == Pick(values[..position], mask)
      {
        PickSnoc(values, position, mask);
        if (mask / Pow2(position)) % 2 == 1 {
          subset := subset + [values[position]];
        }
      }
      assert values[..|values|] == values;
      result := result + [subset];
    }
  }

  /** Puts h in front of every list of ss. */
  function PrependEach(h: int, ss: seq<seq<int>>): (r: seq<seq<int>>)
    ensures |r| == |ss|
    ensures forall i | 0 <= i < |ss| :: r[i] == [h] + ss[i]
  {
    seq(|ss|, i requires 0 <= i < |ss| => [h] + ss[i])
  }

  /** Lines 71-81: subsets with the first element, then the subsets without it. */
  function RecursivePowerSet(values: seq<int>): (r: seq<seq<int>>)
    ensures |r| == Pow2(|values|)
  {
    if |values| == 0 then [[]]
    else
      var without := RecursivePowerSet(values[1..]);
      PrependEach(values[0], without) + without
  }

  /** The mask of the subset at position j of the recursive power set. */
  function MaskOf(n: nat, j: nat): (m: nat)
    requires j < Pow2(n)
    ensures m < Pow2(n)
  {
    if n == 0 then 0
    else if j < Pow2(n - 1) then 1 + 2 * MaskOf(n - 1, j)
    else 2 * MaskOf(n - 1, j - Pow2(n - 1))
  }

  /** The position in the recursive power set of the subset with mask m. */
  function PositionOf(n: nat, m: nat): (j: nat)
    requires m < Pow2(n)
    ensures j < Pow2(n)
  {
    if n == 0 then 0
    else if m % 2 == 1 then PositionOf(n - 1, m / 2)
    else Pow2(n - 1) + PositionOf(n - 1, m / 2)
  }

  lemma {:induction false} MaskOfPositionOf(n: nat, m: nat)
    requires m < Pow2(n)
    ensures MaskOf(n, PositionOf(n, m)) == m
    decreases n
  {
    if n > 0 {
      MaskOfPositionOf(n - 1, m / 2);
    }
  }

  /** Unfolds Pick once: bit 0 decides the first element, the other bits the rest. */
  lemma PickFirst(values: seq<int>, mask: nat)
    requires values != []
    ensures mask % 2 == 1 ==> Pick(values, mask) == [values[0]] + Pick(values[1..], mask / 2)
    ensures mask % 2 == 0 ==> Pick(values, mask) == Pick(values[1..], mask / 2)
  {
  }

  /** The recursive power set lists at position j the subset selected by MaskOf(n, j). */
  lemma {:induction false} RecursiveIsPick(values: seq<int>, j: nat)
    requires j < Pow2(|values|)
    ensures RecursivePowerSet(values)[j] == Pick(values, MaskOf(|values|, j))
    decreases |values|, 1
  {
    if |values| > 0 {
      if j < Pow2(|values| - 1) {
        RecursiveIsPickWith(values, j);
      } else {
        RecursiveIsPickWithout(values, j);
      }
    }
  }

  /** The first half: the subsets that keep values[0]. */
  lemma {:induction false} RecursiveIsPickWith(values: seq<int>, j: nat)
    requires |values| > 0 && j < Pow2(|values| - 1)
    ensures RecursivePowerSet(values)[j] == Pick(values, MaskOf(|values|, j))
    decreases |values|, 0
  {
    RecursiveIsPick(values[1..], j);
    FrontIsOdd(values, j);
  }

  /** A position of the first half holds the rest's subset at that position with values[0] in front. */
  lemma FrontIsOdd(values: seq<int>, j: nat)
    requires |values| > 0 && j < Pow2(|values| - 1)
    requires RecursivePowerSet(values[1..])[j] == Pick(values[1..], MaskOf(|values[1..]|, j))
    ensures RecursivePowerSet(values)[j] == Pick(values, MaskOf(|values|, j))
  {
    var rest := values[1..];
    var m := MaskOf(|rest|, j);
    MaskOfFront(|values|, j);
    assert MaskOf(|values|, j) == 1 + 2 * m;
    RecursiveFront(values, j);
    PickOdd(values, m);
  }

  /** The second half: the subsets that leave values[0] out. */
  lemma {:induction false} RecursiveIsPickWithout(values: seq<int>, j: nat)
    requires |values| > 0 && Pow2(|values| - 1) <= j < Pow2(|values|)
    ensures RecursivePowerSet(values)[j] == Pick(values, MaskOf(|values|, j))
    decreases |values|, 0
  {
    var n := |values|;
    var half := Pow2(n - 1);
    RecursiveIsPick(values[1..], j - half);
    RecursiveBack(values, j);
    MaskOfBack(n, j);
    PickEven(values, MaskOf(n - 1, j - half));
  }

  lemma MaskOfFront(n: nat, j: nat)
    requires n > 0 && j < Pow2(n - 1)
    ensures MaskOf(n, j) == 1 + 2 * MaskOf(n - 1, j)
  {
  }

  lemma MaskOfBack(n: nat, j: nat)
    requires n > 0 && Pow2(n - 1) <= j < Pow2(n)
    ensures MaskOf(n, j) == 2 * MaskOf(n - 1, j - Pow2(n - 1))
  {
  }

  /** An odd mask keeps the first element and passes its other bits on. */
  lemma PickOdd(values: seq<int>, m: nat)
    requires values != []
    ensures Pick(values, 1 + 2 * m) == [values[0]] + Pick(values[1..], m)
  {
    assert (1 + 2 * m) / 2 == m && (1 + 2 * m) % 2 == 1;
    PickFirst(values, 1 + 2 * m);
  }

  /** An even mask drops the first element and passes its other bits on. */
  lemma PickEven(values: seq<int>, m: nat)
    requires values != []
    ensures Pick(values, 2 * m) == Pick(values[1..], m)
  {
    assert (2 * m) / 2 == m && (2 * m) % 2 == 0;
    PickFirst(values, 2 * m);
  }

  lemma RecursiveFront(values: seq<int>, j: nat)
    requires |values| > 0 && j < Pow2(|values| - 1)
    ensures RecursivePowerSet(values)[j] == [values[0]] + RecursivePowerSet(values[1..])[j]
  {
    var without := RecursivePowerSet(values[1..]);
    assert (PrependEach(values[0], without) + without)[j] == PrependEach(values[0], without)[j];
  }

  lemma RecursiveBack(values: seq<int>, j: nat)
    requires |values| > 0 && Pow2(|values| - 1) <= j < Pow2(|values|)
    ensures RecursivePowerSet(values)[j] == RecursivePowerSet(values[1..])[j - Pow2(|values| - 1)]
  {
    var without := RecursivePowerSet(values[1..]);
    assert (PrependEach(values[0], without) + without)[j] == without[j - Pow2(|values| - 1)];
  }

  /** Every mask's subset appears in the recursive power set, at position PositionOf(n, m). */
  lemma MaskInRecursive(values: seq<int>, m: nat)
    requires m < Pow2(|values|)
    ensures Pick(values, m) in RecursivePowerSet(values)
  {
    var j := PositionOf(|values|, m);
    RecursiveIsPick(values, j);
    MaskOfPositionOf(|values|, m);
    assert RecursivePowerSet(values)[j] == Pick(values, m);
  }

  /**
   * The two power sets hold the same subsets: every mask's subset is in the recursive
   * result, and the subset at every position j of the recursive result is the subset
   * of the mask MaskOf(n, j), which is below 2^n.
   */
  lemma PowerSetsAgree(values: seq<int>)
    ensures forall m: nat | m < Pow2(|values|) :: Pick(values, m) in RecursivePowerSet(values)
    ensures forall j: nat | j < Pow2(|values|) ::
      MaskOf(|values|, j) < Pow2(|values|) && RecursivePowerSet(values)[j] == Pick(values, MaskOf(|values|, j))
  {
    forall m: nat | m < Pow2(|values|)
      ensures Pick(values, m) in RecursivePowerSet(values)
    {
      MaskInRecursive(values, m);
    }
    forall j: nat | j < Pow2(|values|)
      ensures RecursivePowerSet(values)[j] == Pick(values, MaskOf(|values|, j))
    {
      RecursiveIsPick(values, j);
    }
  }

  /** Mask 0 selects nothing and mask 2^n - 1 selects the whole list. */
  lemma {:induction false} PickExtremes(values: seq<int>)
    ensures Pick(values, 0) == []
    ensures Pick(values, Pow2(|values|) - 1) == values
    decreases |values|
  {
    if values != [] {
      PickExtremes(values[1..]);
      var n := |values|;
      assert (Pow2(n) - 1) / 2 == Pow2(n - 1) - 1;
      assert values == [values[0]] + values[1..];
    }
  }

  /** Every subset of the recursive result keeps the order of the input and takes at most n elements. */
  lemma RecursiveSubsetsAreSubsequences(values: seq<int>, j: nat)
    requires j < Pow2(|values|)
    ensures |RecursivePowerSet(values)[j]| <= |values|
    ensures multiset(RecursivePowerSet(values)[j]) <= multiset(values)
  {
    RecursiveIsPick(values, j);
    PickMultiset(values, MaskOf(|values|, j));
  }

  lemma {:induction false} PickMultiset(values: seq<int>, mask: nat)
    ensures multiset(Pick(values, mask)) <= multiset(values)
    decreases |values|
  {
    if values != [] {
      PickMultiset(values[1..], mask / 2);
      assert values == [values[0]] + values[1..];
    }
  }
}
