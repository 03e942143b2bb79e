/**
 * Longest common subsequence (python/algorithms/longest_common_subsequence.py): the
 * tabulated grid of prefix lengths, its bottom-right cell, and the backtrack through
 * the grid that rebuilds one longest common subsequence.
 */
module Lcs {
  import opened Sequences

  /** c can be obtained from s by deleting characters, keeping the order of the rest. */
  predicate IsSubsequence(c: string, s: string)
    decreases |s|
  {
    |c| == 0
    || (|s| > 0
        && ((c[|c| - 1] == s[|s| - 1] && IsSubsequence(c[..|c| - 1], s[..|s| - 1]))
            || IsSubsequence(c, s[..|s| - 1])))
  }

  /**
   * The length the grid holds for the first i characters of `a` (string1, the columns)
   * and the first j characters of `b` (string2, the rows): the recurrence of lines
   * 269-277, with zero for an empty prefix.
   */
  function LcsLength(a: string, b: string, i: nat, j: nat): nat
    requires i <= |a| && j <= |b|
  {
    if i == 0 || j == 0 then 0
    else if a[i - 1] == b[j - 1] then LcsLength(a, b, i - 1, j - 1) + 1
    else Max(LcsLength(a, b, i, j - 1), LcsLength(a, b, i - 1, j))
  }

  function Max(x: nat, y: nat): nat
  {
    if x >= y then x else y
  }

  /** Deleting characters can always start with the last one kept. */
  lemma {:induction false} SubsequenceDropLast(c: string, s: string)
    requires |c| > 0 && IsSubsequence(c, s)
    ensures IsSubsequence(c[..|c| - 1], s)
    decreases |s|
  {
    if IsSubsequence(c, s[..|s| - 1]) {
      SubsequenceDropLast(c, s[..|s| - 1]);
    }
  }

  /** A subsequence of both strings after dropping a last character. */
  lemma SubsequenceOfShorter(c: string, s: string)
    requires |c| > 0 && |s| > 0 && c[|c| - 1] == s[|s| - 1] && IsSubsequence(c, s)
    ensures IsSubsequence(c[..|c| - 1], s[..|s| - 1])
  {
    if IsSubsequence(c, s[..|s| - 1]) {
      SubsequenceDropLast(c, s[..|s| - 1]);
    }
  }

  /**
   * The grid's value is an upper bound: no common subsequence of the two prefixes is
   * longer (lines 5-12: the grid holds the length of the LONGEST common subsequence).
   */
  lemma {:induction false} NoCommonSubsequenceLonger(c: string, a: string, b: string, i: nat, j: nat)
    requires i <= |a| && j <= |b|
    requires IsSubsequence(c, a[..i]) && IsSubsequence(c, b[..j])
    ensures |c| <= LcsLength(a, b, i, j)
    decreases i + j
  {
    if |c| > 0 {
      assert a[..i][..i - 1] == a[..i - 1] && b[..j][..j - 1] == b[..j - 1];
      var last := c[|c| - 1];
      if a[i - 1] == b[j - 1] {
        if last == a[i - 1] {
          SubsequenceOfShorter(c, a[..i]);
          SubsequenceOfShorter(c, b[..j]);
        } else {
          SubsequenceDropLast(c, a[..i - 1]);
          SubsequenceDropLast(c, b[..j - 1]);
        }
        NoCommonSubsequenceLonger(c[..|c| - 1], a, b, i - 1, j - 1);
      } else if last != a[i - 1] {
        NoCommonSubsequenceLonger(c, a, b, i - 1, j);
      } else {
        NoCommonSubsequenceLonger(c, a, b, i, j - 1);
      }
    }
  }

  /**
   * Lines 159-183: the backtrack from cell (row j, column i), written as the characters
   * it collects in string order. A match moves diagonally, a strictly larger cell above
   * moves up, and otherwise (ties included) the walk moves left.
   */
  function Backtrack(a: string, b: string, i: nat, j: nat): string
    requires i <= |a| && j <= |b|
  {
    if i == 0 || j == 0 then []
    else if a[i - 1] == b[j - 1] then Backtrack(a, b, i - 1, j - 1) + [a[i - 1]]
    else if LcsLength(a, b, i, j - 1) > LcsLength(a, b, i - 1, j) then Backtrack(a, b, i, j - 1)
    else Backtrack(a, b, i - 1, j)
  }

  /**
   * What the backtrack returns is a common subsequence of the two prefixes whose length
   * is the grid's value (lines 136-141).
   */
  lemma {:induction false} BacktrackIsCommon(a: string, b: string, i: nat, j: nat)
    requires i <= |a| && j <= |b|
    ensures IsSubsequence(Backtrack(a, b, i, j), a[..i]) && IsSubsequence(Backtrack(a, b, i, j), b[..j])
    ensures |Backtrack(a, b, i, j)| == LcsLength(a, b, i, j)
  {
    if i > 0 && j > 0 {
      assert a[..i][..i - 1] == a[..i - 1] && b[..j][..j - 1] == b[..j - 1];
      if a[i - 1] == b[j - 1] {
        BacktrackIsCommon(a, b, i - 1, j - 1);
        var r := Backtrack(a, b, i, j);
        assert r[..|r| - 1] == Backtrack(a, b, i - 1, j - 1);
      } else if LcsLength(a, b, i, j - 1) > LcsLength(a, b, i - 1, j) {
        BacktrackIsCommon(a, b, i, j - 1);
      } else {
        BacktrackIsCommon(a, b, i - 1, j);
      }
    }
  }

  /**
   * Lines 189-279: `tabulate_grid`. A (len(string2) + 1) x (len(string1) + 1) grid of
   * zeros is filled row by row; cell [row, col] ends up holding the length for the
   * first col characters of string1 and the first row characters of string2.
   */
  method TabulateGrid(string1: string, string2: string) returns (grid: array2<nat>)
    ensures fresh(grid)
    ensures grid.Length0 == |string2| + 1 && grid.Length1 == |string1| + 1
    ensures forall row, col {:trigger grid[row, col]} | 0 <= row < grid.Length0 && 0 <= col < grid.Length1 ::
      grid[row, col] == LcsLength(string1, string2, col, row)
  {
    var gridWidth := |string1| + 1;
    var gridHeight := |string2| + 1;
    grid := new nat[gridHeight, gridWidth]((_, _) => 0);
    for row := 1 to gridHeight
      invariant forall r, c {:trigger grid[r, c]} | 0 <= r < row && 0 <= c < gridWidth ::
        grid[r, c] == LcsLength(string1, string2, c, r)
      invariant forall r | row <= r < gridHeight :: grid[r, 0] == 0
    {
      FillRow(string1, string2, grid, row);
    }
  }

  /** Lines 261-277: one row of the grid, left to right, from the row above it. */
  method FillRow(string1: string, string2: string, grid: array2<nat>, row: nat)
    requires grid.Length0 == |string2| + 1 && grid.Length1 == |string1| + 1
    requires 0 < row < grid.Length0
    requires forall r, c {:trigger grid[r, c]} | 0 <= r < row && 0 <= c < grid.Length1 ::
      grid[r, c] == LcsLength(string1, string2, c, r)
    requires forall r | row <= r < grid.Length0 :: grid[r, 0] == 0
    modifies grid
    ensures forall r, c {:trigger grid[r, c]} | 0 <= r <= row && 0 <= c < grid.Length1 ::
      grid[r, c] == LcsLength(string1, string2, c, r)
    ensures forall r | row < r < grid.Length0 :: grid[r, 0] == 0
  {
    for col := 1 to grid.Length1
      invariant forall r, c {:trigger grid[r, c]} | 0 <= r < row && 0 <= c < grid.Length1 ::
        grid[r, c] == LcsLength(string1, string2, c, r)
      invariant forall c {:trigger grid[row, c]} | 0 <= c < col ::
        grid[row, c] == LcsLength(string1, string2, c, row)
      invariant forall r | row < r < grid.Length0 :: grid[r, 0] == 0
    {
      var char1 := string1[col - 1];
      var char2 := string2[row - 1];
      var cell: nat;
      if char1 == char2 {
        cell := grid[row - 1, col - 1] + 1;
      } else {
        cell := Max(grid[row - 1, col], grid[row, col - 1]);
      }
      CellValue(string1, string2, col, row, grid[row - 1, col - 1], grid[row - 1, col], grid[row, col - 1], cell);
      grid[row, col] := cell;
    }
  }

  /** The recurrence of lines 269-277 computes the cell from its three neighbours. */
  lemma CellValue(a: string, b: string, i: nat, j: nat, diagonal: nat, up: nat, left: nat, cell: nat)
    requires 0 < i <= |a| && 0 < j <= |b|
    requires diagonal == LcsLength(a, b, i - 1, j - 1)
    requires up == LcsLength(a, b, i, j - 1) && left == LcsLength(a, b, i - 1, j)
    requires cell == (if a[i - 1] == b[j - 1] then diagonal + 1 else Max(up, left))
    ensures cell == LcsLength(a, b, i, j)
  {
  }

  /** Line 78: `lcs_return_length`, the bottom-right cell of the grid. */
  method LcsReturnLength(string1: string, string2: string) returns (length: nat)
    ensures length == LcsLength(string1, string2, |string1|, |string2|)
  {
    var grid := TabulateGrid(string1, string2);
    length := grid[grid.Length0 - 1, grid.Length1 - 1];
  }

  /**
   * Lines 81-186: `lcs_return_subsequence`. The walk from the bottom-right cell collects
   * the matched characters last first and reverses them at the end; the result is a
   * common subsequence whose length is `lcs_return_length`, and no common subsequence
   * is longer.
   */
  method LcsReturnSubsequence(string1: string, string2: string) returns (subsequence: string)
    ensures subsequence == Backtrack(string1, string2, |string1|, |string2|)
    ensures IsSubsequence(subsequence, string1) && IsSubsequence(subsequence, string2)
    ensures |subsequence| == LcsLength(string1, string2, |string1|, |string2|)
  {
    var grid := TabulateGrid(string1, string2);
    var collected: string := [];
    var row := grid.Length0 - 1;
    var col := grid.Length1 - 1;
    ghost var found: string := [];
    while row > 0 && col > 0
      invariant 0 <= row < grid.Length0 && 0 <= col < grid.Length1
      invariant found == Reverse(collected)
      invariant Backtrack(string1, string2, |string1|, |string2|)
        == Backtrack(string1, string2, col, row) + found
      modifies {}
      decreases row + col
    {
      var char1 := string1[col - 1];
      var char2 := string2[row - 1];
      assert grid[row - 1, col] == LcsLength(string1, string2, col, row - 1);
      assert grid[row, col - 1] == LcsLength(string1, string2, col - 1, row);
      if char1 == char2 {
        ghost var rest := Backtrack(string1, string2, col - 1, row - 1);
        assert Backtrack(string1, string2, col, row) == rest + [char1];
        ReverseSnoc(collected, char1);
        assert rest + [char1] + found == rest + ([char1] + found);
        collected := collected + [char1];
        found := [char1] + found;
        row := row - 1;
        col := col - 1;
      } else if grid[row - 1, col] > grid[row, col - 1] {
        assert Backtrack(string1, string2, col, row) == Backtrack(string1, string2, col, row - 1);
        row := row - 1;
      } else {
        assert Backtrack(string1, string2, col, row) == Backtrack(string1, string2, col - 1, row);
        col := col - 1;
      }
    }
    subsequence := Reverse(collected);
    BacktrackIsCommon(string1, string2, |string1|, |string2|);
    assert string1[..|string1|] == string1 && string2[..|string2|] == string2;
  }

  lemma ReverseSnoc(s: string, x: char)
    ensures Reverse(s + [x]) == [x] + Reverse(s)
  {
    assert (s + [x])[..|s|] == s;
  }

  /** The examples of the source's own test table. */
  lemma Examples()
    ensures Backtrack("ABCBDAB", "BDCABA", 7, 6) == "BCBA"
    ensures LcsLength("", "ABC", 0, 3) == 0 && Backtrack("", "ABC", 0, 3) == ""
    ensures LcsLength("AC", "BC", 2, 2) == 1
  {
  }
}
