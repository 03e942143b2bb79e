/**
 * Find and replace, left to right and without overlaps
 * (python/search/naive_pattern_search_v3_find_replace.py, and its byte-identical copy
 * python/search_and_sort/naive_pattern_search_v3_find_replace.py). Five variants share
 * the edge-case, single-character and set-up helpers and differ only in how a match is
 * tested; all of them compute `Replaced`.
 */
module FindReplace {
  import opened Wrappers
  import opened PatternSpec

  /** Lines 2-30: `_chars_match`; only one-character strings may be compared. */
  function CharsMatchChecked(textChar: string, patternChar: string, caseSensitive: bool): (r: Result<bool>)
    ensures r.Err? <==> |textChar| != 1 || |patternChar| != 1
    ensures r.Err? ==> r.error == ValueError("Both arguments must be single characters")
    ensures r.Ok? ==> (r.value <==> CharsMatch(textChar[0], patternChar[0], caseSensitive))
    ensures r.Ok? && caseSensitive ==> (r.value <==> textChar == patternChar)
  {
    if |textChar| != 1 || |patternChar| != 1 then Err(ValueError("Both arguments must be single characters"))
    else if caseSensitive then Ok(textChar == patternChar)
    else Ok(LowerChar(textChar[0]) == LowerChar(patternChar[0]))
  }

  /** The compared text holds the compared pattern at `pos`. */
  predicate FormAt(searchText: string, searchPattern: string, pos: nat)
  {
    pos + |searchPattern| <= |searchText| && searchText[pos..pos + |searchPattern|] == searchPattern
  }

  /**
   * The scan all variants perform, on the compared forms: where the pattern form occurs
   * at `pos` the replacement is emitted and m characters are skipped, otherwise the
   * original character at `pos` is copied; once the pattern no longer fits, the rest
   * of the original text is kept.
   */
  function ScanForms(text: string, searchText: string, searchPattern: string, replacement: string, pos: nat): string
    requires |searchText| == |text| && |searchPattern| > 0 && pos <= |text|
    decreases |text| - pos
  {
    var m := |searchPattern|;
    if pos + m > |text| then text[pos..]
    else if FormAt(searchText, searchPattern, pos) then replacement + ScanForms(text, searchText, searchPattern, replacement, pos + m)
    else [text[pos]] + ScanForms(text, searchText, searchPattern, replacement, pos + 1)
  }

  /**
   * What every variant returns: the text itself for an empty pattern or one longer than
   * the text, otherwise the scan over the (lowercased, when case does not matter) forms.
   */
  function Replaced(text: string, pattern: string, replacement: string, caseSensitive: bool): string
  {
    if |pattern| == 0 || |pattern| > |text| then text
    else ScanForms(text, SearchForm(text, caseSensitive), SearchForm(pattern, caseSensitive), replacement, 0)
  }

  /** The start positions at which the scan emits the replacement. */
  function ReplacedAt(searchText: string, searchPattern: string, pos: nat): (r: seq<int>)
    requires |searchPattern| > 0 && pos <= |searchText|
    ensures Disjoint(r, |searchPattern|, pos, |searchText|)
    decreases |searchText| - pos
  {
    var m := |searchPattern|;
    if pos + m > |searchText| then []
    else if FormAt(searchText, searchPattern, pos) then [pos] + ReplacedAt(searchText, searchPattern, pos + m)
    else ReplacedAt(searchText, searchPattern, pos + 1)
  }

  /** One step of ReplacedAt: a match at `pos` is listed and skipped, otherwise the search moves on by one. */
  lemma {:induction false} ReplacedAtStep(searchText: string, searchPattern: string, pos: nat)
    requires |searchPattern| > 0 && pos + |searchPattern| <= |searchText|
    ensures FormAt(searchText, searchPattern, pos) ==> (ReplacedAt(searchText, searchPattern, pos)
      == [pos] + ReplacedAt(searchText, searchPattern, pos + |searchPattern|))
    ensures !FormAt(searchText, searchPattern, pos) ==> (ReplacedAt(searchText, searchPattern, pos)
      == ReplacedAt(searchText, searchPattern, pos + 1))
  {
  }

  /** The scan is the original text with exactly the slices at ReplacedAt rewritten. */
  lemma {:induction false} ScanIsRewrite(text: string, searchText: string, searchPattern: string, replacement: string, pos: nat)
    requires |searchText| == |text| && |searchPattern| > 0 && pos <= |text|
    ensures Disjoint(ReplacedAt(searchText, searchPattern, pos), |searchPattern|, pos, |text|)
    ensures ScanForms(text, searchText, searchPattern, replacement, pos)
         == RewriteForward(text, ReplacedAt(searchText, searchPattern, pos), |searchPattern|, replacement, pos)
    decreases |text| - pos, 1
  {
    if pos + |searchPattern| > |text| {
      assert ReplacedAt(searchText, searchPattern, pos) == [];
    } else if FormAt(searchText, searchPattern, pos) {
      RewriteMatched(text, searchText, searchPattern, replacement, pos);
    } else {
      RewriteSkipped(text, searchText, searchPattern, replacement, pos);
    }
  }

  lemma {:induction false} RewriteMatched(text: string, searchText: string, searchPattern: string, replacement: string, pos: nat)
    requires |searchText| == |text| && |searchPattern| > 0 && pos + |searchPattern| <= |text|
    requires FormAt(searchText, searchPattern, pos)
    ensures ScanForms(text, searchText, searchPattern, replacement, pos)
         == RewriteForward(text, ReplacedAt(searchText, searchPattern, pos), |searchPattern|, replacement, pos)
    decreases |text| - pos, 0
  {
    var m := |searchPattern|;
    var rest := ReplacedAt(searchText, searchPattern, pos + m);
    calc {
      ScanForms(text, searchText, searchPattern, replacement, pos);
    == { ScanStep(text, searchText, searchPattern, replacement, pos, true); }
      replacement + ScanForms(text, searchText, searchPattern, replacement, pos + m);
    == { ScanIsRewrite(text, searchText, searchPattern, replacement, pos + m); }
      replacement + RewriteForward(text, rest, m, replacement, pos + m);
    == { ReplacedAtStep(searchText, searchPattern, pos);
         RewriteAtFirst(text, ReplacedAt(searchText, searchPattern, pos), rest, m, replacement, pos); }
      RewriteForward(text, ReplacedAt(searchText, searchPattern, pos), m, replacement, pos);
    }
  }

  lemma {:induction false} RewriteSkipped(text: string, searchText: string, searchPattern: string, replacement: string, pos: nat)
    requires |searchText| == |text| && |searchPattern| > 0 && pos + |searchPattern| <= |text|
    requires !FormAt(searchText, searchPattern, pos)
    ensures ScanForms(text, searchText, searchPattern, replacement, pos)
         == RewriteForward(text, ReplacedAt(searchText, searchPattern, pos), |searchPattern|, replacement, pos)
    decreases |text| - pos, 0
  {
    var rest := ReplacedAt(searchText, searchPattern, pos + 1);
    calc {
      ScanForms(text, searchText, searchPattern, replacement, pos);
    == { ScanStep(text, searchText, searchPattern, replacement, pos, false); }
      [text[pos]] + ScanForms(text, searchText, searchPattern, replacement, pos + 1);
    == { ScanIsRewrite(text, searchText, searchPattern, replacement, pos + 1); }
      [text[pos]] + RewriteForward(text, rest, |searchPattern|, replacement, pos + 1);
    == { ReplacedAtStep(searchText, searchPattern, pos);
         RewriteShift(text, rest, |searchPattern|, replacement, pos); }
      RewriteForward(text, ReplacedAt(searchText, searchPattern, pos), |searchPattern|, replacement, pos);
    }
  }

  /** Rewriting from a listed slice that starts right here: the replacement, then the rest. */
  lemma {:induction false} RewriteAtFirst(s: string, all: seq<int>, rest: seq<int>, m: nat, replacement: string, first: nat)
    requires all == [first] + rest && Disjoint(all, m, first, |s|)
    ensures RewriteForward(s, all, m, replacement, first)
         == replacement + RewriteForward(s, rest, m, replacement, first + m)
  {
    RewriteCons(s, first, rest, m, replacement, first);
    assert s[first..first] == [];
  }

  /** Rewriting from a first listed slice: the text up to it, the replacement, then the rest. */
  lemma {:induction false} RewriteCons(s: string, first: int, rest: seq<int>, m: nat, replacement: string, from: nat)
    requires Disjoint([first] + rest, m, from, |s|)
    ensures from <= first && first + m <= |s| && Disjoint(rest, m, first + m, |s|)
    ensures RewriteForward(s, [first] + rest, m, replacement, from)
         == s[from..first] + replacement + RewriteForward(s, rest, m, replacement, first + m)
  {
    assert ([first] + rest)[1..] == rest;
    DisjointBound([first] + rest, m, from, |s|);
  }

  /** A character before the first listed slice is copied as it is. */
  lemma {:induction false} RewriteShift(s: string, matches: seq<int>, m: nat, replacement: string, from: nat)
    requires from < |s| && Disjoint(matches, m, from + 1, |s|)
    ensures Disjoint(matches, m, from, |s|)
    ensures RewriteForward(s, matches, m, replacement, from)
         == [s[from]] + RewriteForward(s, matches, m, replacement, from + 1)
  {
    if matches == [] {
      assert s[from..] == [s[from]] + s[from + 1..];
    } else {
      DisjointBound(matches, m, from + 1, |s|);
      var tail := RewriteForward(s, matches[1..], m, replacement, matches[0] + m);
      RewriteShiftCons(s, matches, m, replacement, from, tail);
    }
  }

  lemma {:induction false} RewriteShiftCons(s: string, matches: seq<int>, m: nat, replacement: string, from: nat, tail: string)
    requires from < |s| && matches != [] && Disjoint(matches, m, from + 1, |s|)
    requires Disjoint(matches[1..], m, matches[0] + m, |s|)
    requires tail == RewriteForward(s, matches[1..], m, replacement, matches[0] + m)
    ensures Disjoint(matches, m, from, |s|)
    ensures RewriteForward(s, matches, m, replacement, from)
         == [s[from]] + RewriteForward(s, matches, m, replacement, from + 1)
  {
    var first := matches[0];
    DisjointBound(matches, m, from + 1, |s|);
    var a := s[from + 1..first];
    assert s[from..first] == [s[from]] + a;
    assert RewriteForward(s, matches, m, replacement, from + 1) == a + replacement + tail;
    assert RewriteForward(s, matches, m, replacement, from) == ([s[from]] + a) + replacement + tail;
  }

  /** Every replaced slice is a match of the pattern. */
  lemma {:induction false} ReplacedAtAreMatches(text: string, pattern: string, caseSensitive: bool, pos: nat)
    requires 0 < |pattern| && pos <= |text|
    ensures forall p | p in ReplacedAt(SearchForm(text, caseSensitive), SearchForm(pattern, caseSensitive), pos) ::
      p >= pos && MatchesAt(text, pattern, p, caseSensitive)
    decreases |text| - pos
  {
    var st := SearchForm(text, caseSensitive);
    var sp := SearchForm(pattern, caseSensitive);
    if pos + |pattern| <= |text| {
      MatchesAtSlice(text, pattern, pos, caseSensitive);
      if st[pos..pos + |pattern|] == sp {
        ReplacedAtAreMatches(text, pattern, caseSensitive, pos + |pattern|);
      } else {
        ReplacedAtAreMatches(text, pattern, caseSensitive, pos + 1);
      }
    }
  }

  /**
   * The choice is greedy: a match from `pos` on that is not replaced starts inside a
   * replaced slice that began before it.
   */
  lemma SkippedMatchesOverlap(text: string, pattern: string, caseSensitive: bool, pos: nat, p: nat) returns (c: int)
    requires 0 < |pattern| && pos <= p && pos <= |text| && MatchesAt(text, pattern, p, caseSensitive)
    requires p !in ReplacedAt(SearchForm(text, caseSensitive), SearchForm(pattern, caseSensitive), pos)
    ensures c in ReplacedAt(SearchForm(text, caseSensitive), SearchForm(pattern, caseSensitive), pos)
    ensures c < p < c + |pattern|
  {
    FormsDecideMatches(text, pattern, caseSensitive, p);
    c := SkippedFormOverlap(SearchForm(text, caseSensitive), SearchForm(pattern, caseSensitive), pos, p);
  }

  /** The same on the compared forms: the replaced slice that covers a skipped occurrence. */
  lemma {:induction false} SkippedFormOverlap(searchText: string, searchPattern: string, pos: nat, p: nat) returns (c: int)
    requires 0 < |searchPattern| && pos <= p && pos <= |searchText| && FormAt(searchText, searchPattern, p)
    requires p !in ReplacedAt(searchText, searchPattern, pos)
    ensures c in ReplacedAt(searchText, searchPattern, pos) && c < p < c + |searchPattern|
    decreases |searchText| - pos
  {
    var m := |searchPattern|;
    ReplacedAtStep(searchText, searchPattern, pos);
    if FormAt(searchText, searchPattern, pos) {
      if pos + m <= p {
        c := SkippedFormOverlap(searchText, searchPattern, pos + m, p);
      } else {
        c := pos;
      }
    } else {
      c := SkippedFormOverlap(searchText, searchPattern, pos + 1, p);
    }
  }

  /** With no match anywhere the text comes back unchanged. */
  lemma {:induction false} NoMatchUnchanged(text: string, pattern: string, replacement: string, caseSensitive: bool)
    requires Positions(text, pattern, caseSensitive) == []
    ensures Replaced(text, pattern, replacement, caseSensitive) == text
  {
    if 0 < |pattern| <= |text| {
      var st := SearchForm(text, caseSensitive);
      var sp := SearchForm(pattern, caseSensitive);
      ScanIsRewrite(text, st, sp, replacement, 0);
      ReplacedAtAreMatches(text, pattern, caseSensitive, 0);
      var replaced := ReplacedAt(st, sp, 0);
      HeadIn(replaced);
      assert replaced == [];
      assert text[0..] == text;
    }
  }

  lemma HeadIn(s: seq<int>)
    ensures s == [] || s[0] in s
  {
  }

  /** Replacing a pattern by itself, case-sensitively, changes nothing. */
  lemma {:induction false} SelfReplacementUnchanged(text: string, pattern: string, pos: nat)
    requires 0 < |pattern| && pos <= |text|
    ensures ScanForms(text, text, pattern, pattern, pos) == text[pos..]
    decreases |text| - pos, 1
  {
    if pos + |pattern| > |text| {
      ScanEnd(text, text, pattern, pattern, pos);
    } else if FormAt(text, pattern, pos) {
      ScanStep(text, text, pattern, pattern, pos, true);
      SliceSplit(text, pattern, pos);
      SelfMatched(text, pattern, pos);
    } else {
      SelfSkipped(text, pattern, pos);
    }
  }

  /** A match of the pattern is copied back as it was. */
  lemma {:induction false} SelfMatched(text: string, pattern: string, pos: nat)
    requires 0 < |pattern| && pos + |pattern| <= |text| && FormAt(text, pattern, pos)
    requires ScanForms(text, text, pattern, pattern, pos) == pattern + ScanForms(text, text, pattern, pattern, pos + |pattern|)
    requires text[pos..] == pattern + text[pos + |pattern|..]
    ensures ScanForms(text, text, pattern, pattern, pos) == text[pos..]
    decreases |text| - pos, 0
  {
    SelfReplacementUnchanged(text, pattern, pos + |pattern|);
  }

  /** A text that holds the pattern at `i` is the pattern followed by what comes after it. */
  lemma SliceSplit(s: string, pattern: string, i: nat)
    requires i + |pattern| <= |s| && FormAt(s, pattern, i)
    ensures s[i..] == pattern + s[i + |pattern|..]
  {
    assert s[i..] == s[i..i + |pattern|] + s[i + |pattern|..];
  }

  /** A position where the pattern does not match keeps its character. */
  lemma {:induction false} SelfSkipped(text: string, pattern: string, pos: nat)
    requires 0 < |pattern| && pos + |pattern| <= |text| && !FormAt(text, pattern, pos)
    ensures ScanForms(text, text, pattern, pattern, pos) == text[pos..]
    decreases |text| - pos, 0
  {
    SelfReplacementUnchanged(text, pattern, pos + 1);
    ScanStep(text, text, pattern, pattern, pos, false);
    assert text[pos..] == [text[pos]] + text[pos + 1..];
  }

  /** Left to right without overlaps: "aaaaa" with "aa" replaced by "X" gives "XXa". */
  lemma NonOverlappingExample()
    ensures Replaced("aaaaa", "aa", "X", true) == "XXa"
  {
    var t := "aaaaa";
    assert t[0..2] == "aa" && t[2..4] == "aa";
    assert ScanForms(t, t, "aa", "X", 4) == "a";
  }

  /** Lines 33-45: an early result for an empty pattern or one longer than the text. */
  function EdgeCases(text: string, pattern: string): (r: Option<string>)
    ensures r.Some? <==> |pattern| == 0 || |pattern| > |text|
    ensures r.Some? ==> r.value == text && Replaced(text, pattern, "", true) == text
  {
    if |pattern| == 0 || |pattern| > |text| then Some(text)
    else if |text| == 0 then Some("")
    else None
  }

  /** Python's `str.replace` with a one-character pattern: every occurrence is replaced. */
  function ReplaceEvery(text: string, c: char, replacement: string): string
  {
    if text == [] then [] else (if text[0] == c then replacement else [text[0]]) + ReplaceEvery(text[1..], c, replacement)
  }

  /** The case-insensitive loop of lines 61-67 over the characters from `pos` on. */
  function ReplaceEveryFolded(text: string, c: char, replacement: string, pos: nat): string
    requires pos <= |text|
    decreases |text| - pos
  {
    if pos == |text| then []
    else
      (if LowerChar(text[pos]) == LowerChar(c) then replacement else [text[pos]])
      + ReplaceEveryFolded(text, c, replacement, pos + 1)
  }

  /** For a one-character pattern the scan replaces each matching character. */
  lemma {:induction false} SingleCharScan(text: string, pattern: string, replacement: string, caseSensitive: bool, pos: nat)
    requires |pattern| == 1 && pos <= |text|
    ensures caseSensitive ==> ScanForms(text, text, pattern, replacement, pos) == ReplaceEvery(text[pos..], pattern[0], replacement)
    ensures !caseSensitive ==> (ScanForms(text, Lower(text), Lower(pattern), replacement, pos)
         == ReplaceEveryFolded(text, pattern[0], replacement, pos))
    decreases |text| - pos
  {
    if pos < |text| {
      SingleCharScan(text, pattern, replacement, caseSensitive, pos + 1);
      assert text[pos..][1..] == text[pos + 1..];
      assert text[pos..pos + 1] == [text[pos]];
      if !caseSensitive {
        assert Lower(text)[pos..pos + 1] == [LowerChar(text[pos])];
        assert Lower(pattern) == [LowerChar(pattern[0])];
        assert FormAt(Lower(text), Lower(pattern), pos) <==> LowerChar(text[pos]) == LowerChar(pattern[0]);
      }
    }
  }

  /** Lines 48-68: a one-character pattern is handled without the scan, with the same result. */
  method HandleSingleChar(text: string, pattern: string, replacement: string, caseSensitive: bool)
    returns (r: Option<string>)
    requires 0 < |pattern| <= |text|
    ensures r.Some? <==> |pattern| == 1
    ensures r.Some? ==> r.value == Replaced(text, pattern, replacement, caseSensitive)
  {
    if |pattern| == 1 {
      SingleCharScan(text, pattern, replacement, caseSensitive, 0);
      if caseSensitive {
        assert text[0..] == text;
        return Some(ReplaceEvery(text, pattern[0], replacement));
      } else {
        var result := FoldedReplace(text, pattern[0], replacement);
        return Some(result);
      }
    }
    return None;
  }

  /** Lines 61-67: the character loop that replaces, ignoring case, every occurrence of `c`. */
  method FoldedReplace(text: string, c: char, replacement: string) returns (result: string)
    ensures result == ReplaceEveryFolded(text, c, replacement, 0)
  {
    ghost var full := ReplaceEveryFolded(text, c, replacement, 0);
    result := "";
    for i := 0 to |text|
      invariant result + ReplaceEveryFolded(text, c, replacement, i) == full
    {
      ghost var rest := ReplaceEveryFolded(text, c, replacement, i + 1);
      if LowerChar(text[i]) == LowerChar(c) {
        Regroup(result, replacement, rest);
        result := result + replacement;
      } else {
        Regroup(result, [text[i]], rest);
        result := result + [text[i]];
      }
    }
    assert result + [] == result;
  }

  /** Lines 71-89: the compared forms, the lengths and the last start position plus one. */
  datatype Setup = Setup(searchText: string, searchPattern: string, textLength: nat, patternLength: nat, maxSearchPosition: int)

  function SetupReplacementVariables(text: string, pattern: string, caseSensitive: bool): (r: Setup)
    ensures r.textLength == |r.searchText| == |text| && r.patternLength == |r.searchPattern| == |pattern|
    ensures r.maxSearchPosition == |text| - |pattern| + 1
    ensures r.searchText == SearchForm(text, caseSensitive) && r.searchPattern == SearchForm(pattern, caseSensitive)
  {
    var textLength := |text|;
    var patternLength := |pattern|;
    if caseSensitive then Setup(text, pattern, textLength, patternLength, textLength - patternLength + 1)
    else Setup(Lower(text), Lower(pattern), textLength, patternLength, textLength - patternLength + 1)
  }

  /** The compared forms decide matching: the pattern matches at i exactly where its form occurs in the text's form. */
  lemma FormsDecideMatches(text: string, pattern: string, caseSensitive: bool, i: nat)
    ensures MatchesAt(text, pattern, i, caseSensitive)
        <==> FormAt(SearchForm(text, caseSensitive), SearchForm(pattern, caseSensitive), i)
  {
    if i + |pattern| <= |text| {
      MatchesAtSlice(text, pattern, i, caseSensitive);
    }
  }

  /** Lines 91-94: the original text from `position` on, when anything is left. */
  function AddRemainingCharacters(result: string, text: string, position: nat): (r: string)
    ensures position >= |text| ==> r == result
    ensures position < |text| ==> r == result + text[position..]
  {
    if position < |text| then result + text[position..] else result
  }

  /** One step of the scan: what is emitted at `pos` and where the scan goes on. */
  lemma {:induction false} ScanStep(text: string, searchText: string, searchPattern: string, replacement: string, pos: nat, matched: bool)
    requires |searchText| == |text| && |searchPattern| > 0 && pos + |searchPattern| <= |text|
    requires matched <==> FormAt(searchText, searchPattern, pos)
    ensures matched ==> (ScanForms(text, searchText, searchPattern, replacement, pos)
      == replacement + ScanForms(text, searchText, searchPattern, replacement, pos + |searchPattern|))
    ensures !matched ==> (ScanForms(text, searchText, searchPattern, replacement, pos)
      == [text[pos]] + ScanForms(text, searchText, searchPattern, replacement, pos + 1))
  {
  }

  lemma Regroup(a: string, b: string, c: string)
    ensures a + (b + c) == (a + b) + c
  {
  }

  /** The loop invariant of every variant: the output so far, then the scan from `pos`, is the whole scan. */
  ghost predicate ScanPrefix(text: string, searchText: string, searchPattern: string, replacement: string,
                             result: string, pos: nat, full: string)
    requires |searchText| == |text| && |searchPattern| > 0 && pos <= |text|
  {
    result + ScanForms(text, searchText, searchPattern, replacement, pos) == full
  }

  /** The invariant carried over one step: the replacement after a match, one original character otherwise. */
  lemma {:induction false} ScanAdvance(text: string, searchText: string, searchPattern: string, replacement: string,
                    result: string, pos: nat, matched: bool, full: string)
    requires |searchText| == |text| && |searchPattern| > 0 && pos + |searchPattern| <= |text|
    requires matched <==> FormAt(searchText, searchPattern, pos)
    requires ScanPrefix(text, searchText, searchPattern, replacement, result, pos, full)
    ensures matched ==> ScanPrefix(text, searchText, searchPattern, replacement, result + replacement, pos + |searchPattern|, full)
    ensures !matched ==> ScanPrefix(text, searchText, searchPattern, replacement, result + [text[pos]], pos + 1, full)
  {
    ScanStep(text, searchText, searchPattern, replacement, pos, matched);
    if matched {
      Regroup(result, replacement, ScanForms(text, searchText, searchPattern, replacement, pos + |searchPattern|));
    } else {
      Regroup(result, [text[pos]], ScanForms(text, searchText, searchPattern, replacement, pos + 1));
    }
  }

  /** Once the pattern no longer fits, the scan keeps the rest of the text. */
  lemma {:induction false} ScanEnd(text: string, searchText: string, searchPattern: string, replacement: string, pos: nat)
    requires |searchText| == |text| && |searchPattern| > 0 && pos <= |text| < pos + |searchPattern|
    ensures ScanForms(text, searchText, searchPattern, replacement, pos) == text[pos..]
  {
  }

  /** When the loop stops, appending what is left of the text completes the scan. */
  lemma {:induction false} ScanFinish(text: string, searchText: string, searchPattern: string, replacement: string,
                                      result: string, pos: nat, full: string)
    requires |searchText| == |text| && |searchPattern| > 0 && pos <= |text| < pos + |searchPattern|
    requires ScanPrefix(text, searchText, searchPattern, replacement, result, pos, full)
    ensures AddRemainingCharacters(result, text, pos) == full
  {
    ScanEnd(text, searchText, searchPattern, replacement, pos);
    if pos == |text| {
      assert text[pos..] == [];
      assert result + [] == result;
    }
  }

  /** The whole scan, reached at the end of the text. */
  lemma {:induction false} ScanDone(text: string, searchText: string, searchPattern: string, replacement: string, full: string)
    requires |searchText| == |text| && |searchPattern| > 0
    ensures ScanPrefix(text, searchText, searchPattern, replacement, full, |text|, full)
  {
    ScanEnd(text, searchText, searchPattern, replacement, |text|);
    assert text[|text|..] == [];
    assert full + [] == full;
  }

  /**
   * One step of every variant's loop: after a match, the replacement is appended and the
   * position skips the match; otherwise the character is copied and the position moves by one.
   */
  method Advance(text: string, searchText: string, searchPattern: string, replacement: string,
                 result: string, position: nat, matched: bool, ghost full: string)
    returns (newResult: string, newPosition: nat)
    requires |searchText| == |text| && |searchPattern| > 0 && position + |searchPattern| <= |text|
    requires matched <==> FormAt(searchText, searchPattern, position)
    requires ScanPrefix(text, searchText, searchPattern, replacement, result, position, full)
    ensures matched ==> newResult == result + replacement && newPosition == position + |searchPattern|
    ensures !matched ==> newResult == result + [text[position]] && newPosition == position + 1
    ensures newPosition <= |text|
    ensures ScanPrefix(text, searchText, searchPattern, replacement, newResult, newPosition, full)
  {
    ScanAdvance(text, searchText, searchPattern, replacement, result, position, matched, full);
    if matched {
      newResult := result + replacement;
      newPosition := position + |searchPattern|;
    } else {
      newResult := result + [text[position]];
      newPosition := position + 1;
    }
  }

  /** Lines 162-170: a flag cleared at the first character `_chars_match` rejects. */
  method MatchFlag(text: string, pattern: string, position: nat, caseSensitive: bool) returns (matchFound: bool)
    requires position + |pattern| <= |text|
    ensures matchFound <==> MatchesAt(text, pattern, position, caseSensitive)
  {
    matchFound := true;
    for offset := 0 to |pattern|
      invariant forall j | 0 <= j < offset :: CharsMatch(text[position + j], pattern[j], caseSensitive)
    {
      if !CharsMatch(text[position + offset], pattern[offset], caseSensitive) {
        MismatchBlocks(text, pattern, position, offset, caseSensitive);
        matchFound := false;
        break;
      }
    }
  }

  /** Lines 273-283: the number of characters that agree before the first disagreement. */
  method MatchCount(text: string, pattern: string, position: nat, caseSensitive: bool) returns (matchCount: nat)
    requires position + |pattern| <= |text|
    ensures matchCount <= |pattern|
    ensures matchCount == |pattern| <==> MatchesAt(text, pattern, position, caseSensitive)
  {
    matchCount := 0;
    for patternIndex := 0 to |pattern|
      invariant matchCount == patternIndex
      invariant forall j | 0 <= j < patternIndex :: CharsMatch(text[position + j], pattern[j], caseSensitive)
    {
      if CharsMatch(text[position + patternIndex], pattern[patternIndex], caseSensitive) {
        matchCount := matchCount + 1;
      } else {
        break;
      }
    }
    if matchCount != |pattern| {
      MismatchBlocks(text, pattern, position, matchCount, caseSensitive);
    }
  }

  /** Lines 376-384: advances while characters agree. */
  method MatchPrefix(text: string, pattern: string, position: nat, caseSensitive: bool) returns (patternIndex: nat)
    requires position + |pattern| <= |text|
    ensures patternIndex <= |pattern|
    ensures patternIndex == |pattern| <==> MatchesAt(text, pattern, position, caseSensitive)
  {
    patternIndex := 0;
    while patternIndex < |pattern|
      invariant 0 <= patternIndex <= |pattern|
      invariant forall j | 0 <= j < patternIndex :: CharsMatch(text[position + j], pattern[j], caseSensitive)
    {
      if CharsMatch(text[position + patternIndex], pattern[patternIndex], caseSensitive) {
        patternIndex := patternIndex + 1;
      } else {
        break;
      }
    }
    if patternIndex != |pattern| {
      MismatchBlocks(text, pattern, position, patternIndex, caseSensitive);
    }
  }

  /** Lines 97-184: the flag variant, comparing original characters through `_chars_match`. */
  method FindReplaceCharacter(text: string, pattern: string, replacement: string, caseSensitive: bool := true)
    returns (r: string)
    ensures r == Replaced(text, pattern, replacement, caseSensitive)
  {
    var early := EdgeCases(text, pattern);
    if early.Some? {
      return early.value;
    }
    var single := HandleSingleChar(text, pattern, replacement, caseSensitive);
    if single.Some? {
      return single.value;
    }
    var setup := SetupReplacementVariables(text, pattern, caseSensitive);
    var st, sp := setup.searchText, setup.searchPattern;
    var textLength, patternLength, maxSearchPosition := setup.textLength, setup.patternLength, setup.maxSearchPosition;
    ghost var full := ScanForms(text, st, sp, replacement, 0);
    var result := "";
    var position := 0;
    while position < maxSearchPosition
      invariant 0 <= position <= textLength
      invariant ScanPrefix(text, st, sp, replacement, result, position, full)
      decreases textLength - position
    {
      var matchFound := MatchFlag(text, pattern, position, caseSensitive);
      FormsDecideMatches(text, pattern, caseSensitive, position);
      result, position := Advance(text, st, sp, replacement, result, position, matchFound, full);
    }
    ScanFinish(text, st, sp, replacement, result, position, full);
    r := AddRemainingCharacters(result, text, position);
  }

  /** Lines 188-298: the counting variant. */
  method FindReplaceCounting(text: string, pattern: string, replacement: string, caseSensitive: bool := true)
    returns (r: string)
    ensures r == Replaced(text, pattern, replacement, caseSensitive)
  {
    var early := EdgeCases(text, pattern);
    if early.Some? {
      return early.value;
    }
    var single := HandleSingleChar(text, pattern, replacement, caseSensitive);
    if single.Some? {
      return single.value;
    }
    var setup := SetupReplacementVariables(text, pattern, caseSensitive);
    var st, sp := setup.searchText, setup.searchPattern;
    var textLength, patternLength, maxSearchPosition := setup.textLength, setup.patternLength, setup.maxSearchPosition;
    ghost var full := ScanForms(text, st, sp, replacement, 0);
    var result := "";
    var position := 0;
    while position < maxSearchPosition
      invariant 0 <= position <= textLength
      invariant ScanPrefix(text, st, sp, replacement, result, position, full)
      decreases textLength - position
    {
      var matchCount := MatchCount(text, pattern, position, caseSensitive);
      var matched := matchCount == patternLength;
      FormsDecideMatches(text, pattern, caseSensitive, position);
      result, position := Advance(text, st, sp, replacement, result, position, matched, full);
    }
    ScanFinish(text, st, sp, replacement, result, position, full);
    r := AddRemainingCharacters(result, text, position);
  }

  /** Lines 301-400: the variant that tests, at every position, whether the pattern still fits. */
  method FindReplaceSafeBounds(text: string, pattern: string, replacement: string, caseSensitive: bool := true)
    returns (r: string)
    ensures r == Replaced(text, pattern, replacement, caseSensitive)
  {
    var early := EdgeCases(text, pattern);
    if early.Some? {
      return early.value;
    }
    var single := HandleSingleChar(text, pattern, replacement, caseSensitive);
    if single.Some? {
      return single.value;
    }
    var setup := SetupReplacementVariables(text, pattern, caseSensitive);
    var st, sp := setup.searchText, setup.searchPattern;
    var textLength := setup.textLength;
    var result, position := SafeBoundsLoop(text, pattern, replacement, caseSensitive, setup.searchText,
      setup.searchPattern, textLength, setup.patternLength);
    if position < textLength {
      result := AddRemainingCharacters(result, text, position);
    }
    r := result;
  }

  /**
   * Lines 366-395: the loop of the safe-bounds variant. Once the pattern no longer fits,
   * the rest of the text is appended and the loop stops at the end of the text.
   */
  method SafeBoundsLoop(text: string, pattern: string, replacement: string, caseSensitive: bool,
                        st: string, sp: string, textLength: nat, patternLength: nat)
    returns (result: string, finalPosition: nat)
    requires 0 < |pattern| <= |text|
    requires st == SearchForm(text, caseSensitive) && sp == SearchForm(pattern, caseSensitive)
    requires textLength == |text| == |st| && patternLength == |pattern| == |sp|
    ensures finalPosition == textLength
    ensures result == ScanForms(text, st, sp, replacement, 0)
  {
    ghost var full := ScanForms(text, st, sp, replacement, 0);
    result := "";
    var position := 0;
    while position < textLength
      invariant 0 <= position <= textLength
      invariant ScanPrefix(text, st, sp, replacement, result, position, full)
      decreases textLength - position
    {
      if position + patternLength > textLength {
        ScanFinish(text, st, sp, replacement, result, position, full);
        result := result + text[position..];
        position := textLength;
        ScanDone(text, st, sp, replacement, full);
        break;
      }
      var patternIndex := MatchPrefix(text, pattern, position, caseSensitive);
      var matched := patternIndex == patternLength;
      FormsDecideMatches(text, pattern, caseSensitive, position);
      result, position := Advance(text, st, sp, replacement, result, position, matched, full);
    }
    ScanFinish(text, st, sp, replacement, result, position, full);
    finalPosition := position;
  }

  /** Lines 404-498: compares slices of the compared forms and copies original characters. */
  method FindReplaceSlice(text: string, pattern: string, replacement: string, caseSensitive: bool := true)
    returns (r: string)
    ensures r == Replaced(text, pattern, replacement, caseSensitive)
  {
    var early := EdgeCases(text, pattern);
    if early.Some? {
      return early.value;
    }
    var single := HandleSingleChar(text, pattern, replacement, caseSensitive);
    if single.Some? {
      return single.value;
    }
    var setup := SetupReplacementVariables(text, pattern, caseSensitive);
    r := ReplaceUsingSliceStrategy(text, setup.searchText, setup.searchPattern, replacement,
      setup.maxSearchPosition, setup.patternLength);
  }

  /** Lines 501-606: picks the slice or the character strategy by pattern length; the result is the same. */
  method FindReplaceTunable(text: string, pattern: string, replacement: string, caseSensitive: bool := true, sliceThreshold: int := 4)
    returns (r: string)
    ensures r == Replaced(text, pattern, replacement, caseSensitive)
  {
    var early := EdgeCases(text, pattern);
    if early.Some? {
      return early.value;
    }
    var single := HandleSingleChar(text, pattern, replacement, caseSensitive);
    if single.Some? {
      return single.value;
    }
    var setup := SetupReplacementVariables(text, pattern, caseSensitive);
    if setup.patternLength <= sliceThreshold {
      r := ReplaceUsingSliceStrategy(text, setup.searchText, setup.searchPattern, replacement,
        setup.maxSearchPosition, setup.patternLength);
    } else {
      r := ReplaceUsingCharacterStrategy(text, setup.searchText, setup.searchPattern, replacement,
        setup.maxSearchPosition, setup.patternLength);
    }
  }

  /** Lines 610-676: the scan with slice comparison on prepared forms. */
  method ReplaceUsingSliceStrategy(text: string, searchText: string, searchPattern: string, replacement: string,
                                   maxSearchPosition: int, patternLength: nat) returns (r: string)
    requires |searchText| == |text| && 0 < patternLength == |searchPattern|
    requires maxSearchPosition == |text| - patternLength + 1
    ensures r == ScanForms(text, searchText, searchPattern, replacement, 0)
  {
    ghost var full := ScanForms(text, searchText, searchPattern, replacement, 0);
    var result := "";
    var position := 0;
    while position < maxSearchPosition
      invariant 0 <= position <= |text|
      invariant ScanPrefix(text, searchText, searchPattern, replacement, result, position, full)
      decreases |text| - position
    {
      var matched := FormAt(searchText, searchPattern, position);
      result, position := Advance(text, searchText, searchPattern, replacement, result, position, matched, full);
    }
    ScanFinish(text, searchText, searchPattern, replacement, result, position, full);
    r := AddRemainingCharacters(result, text, position);
  }

  /** Lines 729-735: advances while the compared forms agree. */
  method FormPrefix(searchText: string, searchPattern: string, position: nat) returns (patternIndex: nat)
    requires position + |searchPattern| <= |searchText|
    ensures patternIndex == |searchPattern| <==> FormAt(searchText, searchPattern, position)
  {
    patternIndex := 0;
    while patternIndex < |searchPattern|
      invariant 0 <= patternIndex <= |searchPattern|
      invariant forall k | 0 <= k < patternIndex :: searchText[position + k] == searchPattern[k]
    {
      if searchText[position + patternIndex] == searchPattern[patternIndex] {
        patternIndex := patternIndex + 1;
      } else {
        break;
      }
    }
    if patternIndex < |searchPattern| {
      assert searchText[position..position + |searchPattern|][patternIndex] != searchPattern[patternIndex];
    } else {
      assert searchText[position..position + |searchPattern|] == searchPattern;
    }
  }

  /** Lines 679-752: the scan with early-exit character comparison on prepared forms. */
  method ReplaceUsingCharacterStrategy(text: string, searchText: string, searchPattern: string, replacement: string,
                                       maxSearchPosition: int, patternLength: nat) returns (r: string)
    requires |searchText| == |text| && 0 < patternLength == |searchPattern|
    requires maxSearchPosition == |text| - patternLength + 1
    ensures r == ScanForms(text, searchText, searchPattern, replacement, 0)
  {
    ghost var full := ScanForms(text, searchText, searchPattern, replacement, 0);
    var result := "";
    var position := 0;
    while position < maxSearchPosition
      invariant 0 <= position <= |text|
      invariant ScanPrefix(text, searchText, searchPattern, replacement, result, position, full)
      decreases |text| - position
    {
      var patternIndex := FormPrefix(searchText, searchPattern, position);
      var matched := patternIndex == patternLength;
      result, position := Advance(text, searchText, searchPattern, replacement, result, position, matched, full);
    }
    ScanFinish(text, searchText, searchPattern, replacement, result, position, full);
    r := AddRemainingCharacters(result, text, position);
  }
}
