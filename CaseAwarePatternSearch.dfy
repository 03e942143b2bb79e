/**
 * The five pattern searches again, each with a `case_sensitive` switch
 * (python/search_and_sort/naive_pattern_search_v2.py). Every one returns all match
 * positions, overlaps included, in ascending order; without case sensitivity,
 * characters are compared lowercased.
 */
module CaseAwarePatternSearch {
  import opened PatternSpec

  /** Lines 50-102: a flag that is cleared at the first disagreeing character. */
  method SearchCharacter(text: string, pattern: string, caseSensitive: bool) returns (matches: seq<int>)
    ensures matches == Positions(text, pattern, caseSensitive)
  {
    if |pattern| == 0 {
      return [];
    }
    if |text| == 0 || |pattern| > |text| {
      return [];
    }
    matches := [];
    var textLength := |text|;
    var patternLength := |pattern|;
    var maxSearchPosition := textLength - patternLength + 1;
    for startPosition := 0 to maxSearchPosition
      invariant matches == Occurrences(text, pattern, caseSensitive, startPosition)
    {
      var matchFound := true;
      for offset := 0 to patternLength
        invariant forall j | 0 <= j < offset :: CharsMatch(text[startPosition + j], pattern[j], caseSensitive)
      {
        if !CharsMatch(text[startPosition + offset], pattern[offset], caseSensitive) {
          MismatchBlocks(text, pattern, startPosition, offset, caseSensitive);
          matchFound := false;
          break;
        }
      }
      if matchFound {
        matches := matches + [startPosition];
      }
    }
    PositionsScan(text, pattern, caseSensitive, maxSearchPosition);
  }

  /** Lines 105-162: counts agreeing characters up to the first mismatch. */
  method SearchCounting(text: string, pattern: string, caseSensitive: bool) returns (matches: seq<int>)
    ensures matches == Positions(text, pattern, caseSensitive)
  {
    if |pattern| == 0 {
      return [];
    }
    if |text| == 0 || |pattern| > |text| {
      return [];
    }
    matches := [];
    var textLength := |text|;
    var patternLength := |pattern|;
    var maxSearchPosition := textLength - patternLength + 1;
    for textIndex := 0 to maxSearchPosition
      invariant matches == Occurrences(text, pattern, caseSensitive, textIndex)
    {
      var matchCount := 0;
      for patternIndex := 0 to patternLength
        invariant matchCount == patternIndex
        invariant forall j | 0 <= j < patternIndex :: CharsMatch(text[textIndex + j], pattern[j], caseSensitive)
      {
        if CharsMatch(text[textIndex + patternIndex], pattern[patternIndex], caseSensitive) {
          matchCount := matchCount + 1;
        } else {
          break;
        }
      }
      if matchCount == patternLength {
        matches := matches + [textIndex];
      } else {
        MismatchBlocks(text, pattern, textIndex, matchCount, caseSensitive);
      }
    }
    PositionsScan(text, pattern, caseSensitive, maxSearchPosition);
  }

  /** Lines 166-226: checks that the pattern still fits before comparing at each position. */
  method SearchSafeBounds(text: string, pattern: string, caseSensitive: bool) returns (matches: seq<int>)
    ensures matches == Positions(text, pattern, caseSensitive)
  {
    if |pattern| == 0 {
      return [];
    }
    if |text| == 0 || |pattern| > |text| {
      return [];
    }
    matches := [];
    var textLength := |text|;
    var patternLength := |pattern|;
    var textIndex := 0;
    while textIndex < textLength
      invariant 0 <= textIndex <= textLength - patternLength + 1
      invariant matches == Occurrences(text, pattern, caseSensitive, textIndex)
    {
      if textIndex + patternLength > textLength {
        break;
      }
      var patternIndex := AgreeingPrefix(text, pattern, textIndex, caseSensitive);
      if patternIndex == patternLength {
        matches := matches + [textIndex];
      }
      textIndex := textIndex + 1;
    }
    PositionsScan(text, pattern, caseSensitive, textIndex);
  }

  /** Lines 204-213: how many pattern characters agree at textIndex, stopping at the first that does not. */
  method AgreeingPrefix(text: string, pattern: string, textIndex: nat, caseSensitive: bool) returns (patternIndex: nat)
    requires textIndex + |pattern| <= |text|
    ensures patternIndex <= |pattern|
    ensures patternIndex == |pattern| <==> MatchesAt(text, pattern, textIndex, caseSensitive)
  {
    patternIndex := 0;
    while patternIndex < |pattern|
      invariant 0 <= patternIndex <= |pattern|
      invariant forall j | 0 <= j < patternIndex :: CharsMatch(text[textIndex + j], pattern[j], caseSensitive)
    {
      if CharsMatch(text[textIndex + patternIndex], pattern[patternIndex], caseSensitive) {
        patternIndex := patternIndex + 1;
      } else {
        MismatchBlocks(text, pattern, textIndex, patternIndex, caseSensitive);
        break;
      }
    }
  }

  /** Lines 230-291: compares slices of the lowercased copies when case does not matter. */
  method SearchSlice(text: string, pattern: string, caseSensitive: bool) returns (matches: seq<int>)
    ensures matches == Positions(text, pattern, caseSensitive)
  {
    if |pattern| == 0 {
      return [];
    }
    if |text| == 0 || |pattern| > |text| {
      return [];
    }
    var searchText := SearchForm(text, caseSensitive);
    var searchPattern := SearchForm(pattern, caseSensitive);
    matches := SliceScan(searchText, searchPattern);
    PositionsSearchForm(text, pattern, caseSensitive);
  }

  /** Lines 281-289 and 343-348: compares the slice at every start that leaves room for the pattern. */
  method SliceScan(searchText: string, searchPattern: string) returns (matches: seq<int>)
    requires 0 < |searchPattern| <= |searchText|
    ensures matches == Positions(searchText, searchPattern, true)
  {
    var patternLength := |searchPattern|;
    var maxSearchPosition := |searchText| - patternLength + 1;
    matches := [];
    for i := 0 to maxSearchPosition
      invariant matches == Occurrences(searchText, searchPattern, true, i)
    {
      SliceMatch(searchText, searchPattern, i);
      if searchText[i..i + patternLength] == searchPattern {
        matches := matches + [i];
      }
    }
    PositionsScan(searchText, searchPattern, true, maxSearchPosition);
  }

  /**
   * Lines 294-360: slices for patterns up to `sliceThreshold` characters, characters
   * with early exit for longer ones, both on the compared forms; the threshold does not
   * change the result.
   */
  method SearchTunable(text: string, pattern: string, caseSensitive: bool, sliceThreshold: int)
    returns (matches: seq<int>)
    ensures matches == Positions(text, pattern, caseSensitive)
  {
    if |pattern| == 0 {
      return [];
    }
    if |text| == 0 || |pattern| > |text| {
      return [];
    }
    var searchText := SearchForm(text, caseSensitive);
    var searchPattern := SearchForm(pattern, caseSensitive);
    matches := ScanAdaptive(searchText, searchPattern, sliceThreshold);
    PositionsSearchForm(text, pattern, caseSensitive);
  }

  /** Lines 343-358: the strategy choice and the two scans over the compared forms. */
  method ScanAdaptive(searchText: string, searchPattern: string, sliceThreshold: int) returns (matches: seq<int>)
    requires 0 < |searchPattern| <= |searchText|
    ensures matches == Positions(searchText, searchPattern, true)
  {
    var textLength := |searchText|;
    var patternLength := |searchPattern|;
    if patternLength <= sliceThreshold {
      matches := SliceScan(searchText, searchPattern);
    } else {
      matches := [];
      for i := 0 to textLength - patternLength + 1
        invariant matches == Occurrences(searchText, searchPattern, true, i)
      {
        var isMatch := true;
        for j := 0 to patternLength
          invariant isMatch
          invariant forall k | 0 <= k < j :: searchText[i + k] == searchPattern[k]
        {
          if searchText[i + j] != searchPattern[j] {
            MismatchBlocks(searchText, searchPattern, i, j, true);
            isMatch := false;
            break;
          }
        }
        if isMatch {
          matches := matches + [i];
        }
      }
      PositionsScan(searchText, searchPattern, true, textLength - patternLength + 1);
    }
  }

  /** Case-insensitive search finds every case-sensitive match, and more only through case. */
  lemma SensitiveWithinInsensitive(text: string, pattern: string)
    ensures forall i :: i in Positions(text, pattern, true) ==> i in Positions(text, pattern, false)
  {
    forall i | i in Positions(text, pattern, true)
      ensures i in Positions(text, pattern, false)
    {
      assert i >= 0 && MatchesAt(text, pattern, i, true);
      forall j | 0 <= j < |pattern|
        ensures CharsMatch(text[i + j], pattern[j], false)
      {
        assert CharsMatch(text[i + j], pattern[j], true);
      }
    }
  }
}
