/**
 * Five ways to list every position of a pattern in a text, overlaps included
 * (python/search/naive_pattern_search.py). `safe_bounds` can also replace the matches.
 */
module NaivePatternSearch {
  import opened Wrappers
  import opened PatternSpec
  import opened Sequences

  /** The two kinds of value `safe_bounds` returns: the index list or the rewritten text. */
  datatype SearchOutcome = Indices(positions: seq<int>) | Rewritten(text: string)

  /** Lines 17-56: a while loop extends the match while characters agree. */
  method SearchCharacter(text: string, pattern: string, replacement: Option<string>) returns (matches: seq<int>)
    ensures matches == Positions(text, pattern, true)
  {
    if |pattern| == 0 {
      return [];
    }
    matches := [];
    var textLength := |text|;
    var patternLength := |pattern|;
    var maxStartPos := textLength - patternLength + 1;
    var textIndex := 0;
    while textIndex < maxStartPos
      invariant 0 <= textIndex <= (if maxStartPos < 0 then 0 else maxStartPos)
      invariant matches == Occurrences(text, pattern, true, textIndex)
    {
      var patternIndex := 0;
      while patternIndex < patternLength && textIndex + patternIndex < textLength
        && text[textIndex + patternIndex] == pattern[patternIndex]
        invariant 0 <= patternIndex <= patternLength
        invariant forall j | 0 <= j < patternIndex :: text[textIndex + j] == pattern[j]
      {
        patternIndex := patternIndex + 1;
      }
      if patternIndex == patternLength {
        matches := matches + [textIndex];
      } else {
        MismatchBlocks(text, pattern, textIndex, patternIndex, true);
      }
      textIndex := textIndex + 1;
    }
    PositionsScan(text, pattern, true, textIndex);
  }

  /** Lines 59-103: counts agreeing characters and stops at the first mismatch. */
  method SearchCounting(text: string, pattern: string, replacement: Option<string>) returns (matches: seq<int>)
    ensures matches == Positions(text, pattern, true)
  {
    if |pattern| == 0 {
      return [];
    }
    matches := [];
    var textLength := |text|;
    var patternLength := |pattern|;
    var maxStartPos := textLength - patternLength + 1;
    var textIndex := 0;
    while textIndex < maxStartPos
      invariant 0 <= textIndex <= (if maxStartPos < 0 then 0 else maxStartPos)
      invariant matches == Occurrences(text, pattern, true, textIndex)
    {
      var matchCount := 0;
      for patternIndex := 0 to patternLength
        invariant matchCount == patternIndex
        invariant forall j | 0 <= j < patternIndex :: text[textIndex + j] == pattern[j]
        invariant textIndex + patternIndex <= textLength
      {
        if textIndex + patternIndex < textLength && text[textIndex + patternIndex] == pattern[patternIndex] {
          matchCount := matchCount + 1;
        } else {
          break;
        }
      }
      if matchCount == patternLength {
        matches := matches + [textIndex];
      } else {
        MismatchBlocks(text, pattern, textIndex, matchCount, true);
      }
      textIndex := textIndex + 1;
    }
    PositionsScan(text, pattern, true, textIndex);
  }

  /** `result[idx:idx + m] = replacement` on a list of characters, with Python's clamping of slice bounds. */
  function SpliceAt(s: string, idx: nat, m: nat, replacement: string): (r: string)
    ensures idx <= |s| ==> |r| >= idx && r[..idx] == s[..idx]
  {
    var lo := if idx <= |s| then idx else |s|;
    var hi := if idx + m <= |s| then idx + m else |s|;
    s[..lo] + replacement + s[hi..]
  }

  /** Lines 152-156: rewrites the match slices one after another, the last match first. */
  function ReplaceBackward(s: string, matches: seq<int>, m: nat, replacement: string): string
    decreases |matches|
  {
    if matches == [] then s
    else
      var last := matches[|matches| - 1];
      var idx := if last >= 0 then last else 0;
      ReplaceBackward(SpliceAt(s, idx, m, replacement), matches[..|matches| - 1], m, replacement)
  }

  /** The text before the first match is kept. */
  lemma {:induction false} ReplaceBackwardKeepsPrefix(s: string, matches: seq<int>, m: nat, replacement: string)
    requires matches != [] && 0 <= matches[0] <= |s| && Ascending(matches)
    ensures |ReplaceBackward(s, matches, m, replacement)| >= matches[0]
    ensures ReplaceBackward(s, matches, m, replacement)[..matches[0]] == s[..matches[0]]
    decreases |matches|
  {
    var last := matches[|matches| - 1];
    var t := SpliceAt(s, last, m, replacement);
    assert last >= matches[0];
    if last <= |s| {
      assert |t| >= last && t[..matches[0]] == t[..last][..matches[0]];
    } else {
      assert t[..matches[0]] == s[..matches[0]];
    }
    if |matches| > 1 {
      var front := matches[..|matches| - 1];
      assert front[0] == matches[0];
      ReplaceBackwardKeepsPrefix(t, front, m, replacement);
    }
  }

  lemma SlicesAgree(s: string, t: string, last: nat, from: nat, f: nat)
    requires from <= f <= last <= |s| && last <= |t| && t[..last] == s[..last]
    ensures t[from..f] == s[from..f]
  {
    forall i | from <= i < f
      ensures t[i] == s[i]
    {
      assert t[i] == t[..last][i] && s[i] == s[..last][i];
    }
  }

  /** Splicing after every listed slice leaves the forward rewrite of the slices before it alone. */
  lemma {:induction false} RewriteForwardSplice(s: string, t: string, front: seq<int>, last: nat, m: nat, replacement: string, from: nat)
    requires last + m <= |s| && t == s[..last] + replacement + s[last + m..]
    requires Disjoint(front, m, from, last)
    ensures Disjoint(front, m, from, |t|) && Disjoint(front + [last], m, from, |s|)
    ensures RewriteForward(t, front, m, replacement, from) == RewriteForward(s, front + [last], m, replacement, from)
    decreases |front|
  {
    DisjointWeaken(front, m, from, last, |t|);
    DisjointSnoc(front, last, m, from, |s|);
    DisjointBound(front, m, from, last);
    if front == [] {
      assert (front + [last])[1..] == [];
      assert t[from..] == s[from..last] + replacement + s[last + m..];
    } else {
      RewriteForwardSpliceStep(s, t, front, last, m, replacement, from);
    }
  }

  lemma {:induction false} RewriteForwardSpliceStep(s: string, t: string, front: seq<int>, last: nat, m: nat, replacement: string, from: nat)
    requires last + m <= |s| && t == s[..last] + replacement + s[last + m..]
    requires front != [] && Disjoint(front, m, from, last)
    requires Disjoint(front, m, from, |t|) && Disjoint(front + [last], m, from, |s|)
    ensures RewriteForward(t, front, m, replacement, from) == RewriteForward(s, front + [last], m, replacement, from)
    decreases |front|, 0
  {
    var all := front + [last];
    var f := front[0];
    var rest := front[1..];
    assert all[0] == f && all[1..] == rest + [last];
    DisjointBound(rest, m, f + m, last);
    SlicesAgree(s, t, last, from, f);
    RewriteForwardSplice(s, t, rest, last, m, replacement, f + m);
    var tail := RewriteForward(t, rest, m, replacement, f + m);
    calc {
      RewriteForward(t, front, m, replacement, from);
      t[from..f] + replacement + tail;
      s[from..f] + replacement + RewriteForward(s, all[1..], m, replacement, f + m);
      RewriteForward(s, all, m, replacement, from);
    }
  }

  /**
   * When the matches do not overlap, rewriting them last first is the same as replacing
   * each match slice by the replacement and keeping every other character.
   */
  lemma {:induction false} ReplaceBackwardDisjoint(s: string, matches: seq<int>, m: nat, replacement: string)
    requires Disjoint(matches, m, 0, |s|)
    ensures ReplaceBackward(s, matches, m, replacement) == RewriteForward(s, matches, m, replacement, 0)
    decreases |matches|
  {
    if matches != [] {
      var front := matches[..|matches| - 1];
      var last := matches[|matches| - 1];
      assert matches == front + [last];
      DisjointSnoc(front, last, m, 0, |s|);
      assert last >= 0 by {
        DisjointFirst(matches, m, 0, |s|, |matches| - 1);
      }
      var t := SpliceAt(s, last, m, replacement);
      RewriteForwardSplice(s, t, front, last, m, replacement, 0);
      ReplaceBackwardDisjoint(t, front, m, replacement);
    }
  }

  /** Overlapping matches merge: in "aaa" the matches of "aa" at 0 and 1 collapse into one "X". */
  lemma OverlapsMerge()
    ensures Positions("aaa", "aa", true) == [0, 1]
    ensures ReplaceBackward("aaa", [0, 1], 2, "X") == "X"
  {
    OccurrencesFacts("aaa", "aa", true, 2);
    assert MatchesAt("aaa", "aa", 0, true) && MatchesAt("aaa", "aa", 1, true);
    assert SpliceAt("aaa", 1, 2, "X") == "aX";
  }

  /**
   * Lines 106-156: stops as soon as the pattern would run past the text; with a
   * replacement it returns the rewritten text instead of the positions.
   */
  method SearchSafeBounds(text: string, pattern: string, replacement: Option<string>) returns (r: SearchOutcome)
    ensures replacement.None? ==> r == Indices(Positions(text, pattern, true))
    ensures replacement.Some? && |pattern| > 0 ==>
      r == Rewritten(ReplaceBackward(text, Positions(text, pattern, true), |pattern|, replacement.value))
    ensures |pattern| == 0 ==> r == Indices([])
  {
    if |pattern| == 0 {
      return Indices([]);
    }
    var matches := [];
    var textLength := |text|;
    var patternLength := |pattern|;
    for textIndex := 0 to textLength
      invariant matches == Occurrences(text, pattern, true, textIndex)
    {
      if textIndex + patternLength > textLength {
        assert Occurrences(text, pattern, true, textIndex) == Positions(text, pattern, true) by {
          OccurrencesPastEnd(text, pattern, textIndex, textLength);
        }
        break;
      }
      var patternIndex := 0;
      while patternIndex < patternLength && text[textIndex + patternIndex] == pattern[patternIndex]
        invariant 0 <= patternIndex <= patternLength
        invariant forall j | 0 <= j < patternIndex :: text[textIndex + j] == pattern[j]
      {
        patternIndex := patternIndex + 1;
      }
      if patternIndex == patternLength {
        matches := matches + [textIndex];
      } else {
        MismatchBlocks(text, pattern, textIndex, patternIndex, true);
      }
    }
    assert matches == Positions(text, pattern, true) by {
      if textLength - patternLength + 1 <= textLength {
        OccurrencesPastEnd(text, pattern, textLength, textLength);
      }
    }
    if replacement.None? {
      return Indices(matches);
    }
    var result := ReplaceBackward(text, matches, patternLength, replacement.value);
    return Rewritten(result);
  }

  /** No match starts where the pattern would run past the end. */
  lemma {:induction false} OccurrencesPastEnd(text: string, pattern: string, upto: nat, bound: nat)
    requires 0 < |pattern| && bound == |text| && upto <= bound + 1
    requires upto + |pattern| > bound || upto == bound
    ensures Occurrences(text, pattern, true, upto) == Positions(text, pattern, true)
  {
    var start := |text| - |pattern| + 1;
    if |pattern| > |text| {
      OccurrencesNone(text, pattern, upto);
    } else if upto >= start {
      OccurrencesStable(text, pattern, start, upto);
    }
  }

  lemma {:induction false} OccurrencesNone(text: string, pattern: string, upto: nat)
    requires |pattern| > |text|
    ensures Occurrences(text, pattern, true, upto) == []
  {
    if upto > 0 {
      OccurrencesNone(text, pattern, upto - 1);
    }
  }

  /** Past the last start position the list of matches no longer grows. */
  lemma {:induction false} OccurrencesStable(text: string, pattern: string, start: nat, upto: nat)
    requires start + |pattern| == |text| + 1 && start <= upto
    ensures Occurrences(text, pattern, true, upto) == Occurrences(text, pattern, true, start)
  {
    if upto > start {
      OccurrencesStable(text, pattern, start, upto - 1);
    }
  }

  /** Lines 159-205: compares the slice `text[i:i + m]` with the pattern. */
  method SearchSlice(text: string, pattern: string, replacement: Option<string>) returns (matches: seq<int>)
    ensures matches == Positions(text, pattern, true)
  {
    if |pattern| == 0 {
      return [];
    }
    matches := [];
    var maxStartPos := |text| - |pattern| + 1;
    var i := 0;
    while i < maxStartPos
      invariant 0 <= i <= (if maxStartPos < 0 then 0 else maxStartPos)
      invariant matches == Occurrences(text, pattern, true, i)
    {
      SliceMatch(text, pattern, i);
      if text[i..i + |pattern|] == pattern {
        matches := matches + [i];
      }
      i := i + 1;
    }
    PositionsScan(text, pattern, true, i);
  }

  /**
   * Lines 210-263: slices for patterns up to `sliceThreshold` characters, a character
   * loop with a flag for longer ones; the threshold does not change the result.
   */
  method SearchTunable(text: string, pattern: string, replacement: Option<string>, sliceThreshold: int)
    returns (matches: seq<int>)
    ensures matches == Positions(text, pattern, true)
  {
    if |pattern| == 0 {
      return [];
    }
    matches := [];
    var textLength := |text|;
    var patternLength := |pattern|;
    if patternLength > textLength {
      return [];
    }
    if patternLength <= sliceThreshold {
      for i := 0 to textLength - patternLength + 1
        invariant matches == Occurrences(text, pattern, true, i)
      {
        SliceMatch(text, pattern, i);
        if text[i..i + patternLength] == pattern {
          matches := matches + [i];
        }
      }
    } else {
      for i := 0 to textLength - patternLength + 1
        invariant matches == Occurrences(text, pattern, true, i)
      {
        var isMatch := true;
        for j := 0 to patternLength
          invariant isMatch
          invariant forall k | 0 <= k < j :: text[i + k] == pattern[k]
        {
          if text[i + j] != pattern[j] {
            MismatchBlocks(text, pattern, i, j, true);
            isMatch := false;
            break;
          }
        }
        if isMatch {
          matches := matches + [i];
        }
      }
    }
    PositionsScan(text, pattern, true, textLength - patternLength + 1);
  }
}
