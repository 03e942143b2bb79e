/**
 * What the pattern-search and find/replace code computes, stated once: ASCII
 * lowercasing, character comparison with or without case, the positions where a
 * pattern occurs, and their basic facts.
 */
module PatternSpec {
  import opened Sequences

  /** Python's `str.lower()` on one character, for the ASCII letters. */
  function LowerChar(c: char): char
  {
    if 'A' <= c <= 'Z' then (c as int + 32) as char else c
  }

  /** `s.lower()`: lowercases every character and keeps the length. */
  function Lower(s: string): (r: string)
    ensures |r| == |s|
  {
    seq(|s|, i requires 0 <= i < |s| => LowerChar(s[i]))
  }

  /** The text that is compared: the string itself, or its lowercased copy. */
  function SearchForm(s: string, caseSensitive: bool): (r: string)
    ensures |r| == |s|
  {
    if caseSensitive then s else Lower(s)
  }

  /**
   * `_chars_match` (naive_pattern_search_v2.py): plain equality when case-sensitive,
   * equality of the lowercased characters otherwise.
   */
  predicate CharsMatch(textChar: char, patternChar: char, caseSensitive: bool)
  {
    if caseSensitive then textChar == patternChar else LowerChar(textChar) == LowerChar(patternChar)
  }

  lemma CharsMatchSearchForm(text: string, pattern: string, caseSensitive: bool, i: nat, j: nat)
    requires i < |text| && j < |pattern|
    ensures CharsMatch(text[i], pattern[j], caseSensitive)
        <==> SearchForm(text, caseSensitive)[i] == SearchForm(pattern, caseSensitive)[j]
  {
  }

  /** The pattern fits in the text at position i and matches it character by character. */
  predicate MatchesAt(text: string, pattern: string, i: nat, caseSensitive: bool)
  {
    i + |pattern| <= |text|
    && forall j | 0 <= j < |pattern| :: CharsMatch(text[i + j], pattern[j], caseSensitive)
  }

  /** A match is a slice of the compared text equal to the compared pattern. */
  lemma MatchesAtSlice(text: string, pattern: string, i: nat, caseSensitive: bool)
    requires i + |pattern| <= |text|
    ensures MatchesAt(text, pattern, i, caseSensitive)
        <==> SearchForm(text, caseSensitive)[i..i + |pattern|] == SearchForm(pattern, caseSensitive)
  {
    var st := SearchForm(text, caseSensitive);
    var sp := SearchForm(pattern, caseSensitive);
    if MatchesAt(text, pattern, i, caseSensitive) {
      forall j | 0 <= j < |pattern|
        ensures st[i..i + |pattern|][j] == sp[j]
      {
        CharsMatchSearchForm(text, pattern, caseSensitive, i + j, j);
      }
    }
    if st[i..i + |pattern|] == sp {
      forall j | 0 <= j < |pattern|
        ensures CharsMatch(text[i + j], pattern[j], caseSensitive)
      {
        assert st[i..i + |pattern|][j] == st[i + j];
        CharsMatchSearchForm(text, pattern, caseSensitive, i + j, j);
      }
    }
  }

  /** One disagreeing character, or running past the text, rules out a match at i. */
  lemma MismatchBlocks(text: string, pattern: string, i: nat, j: nat, caseSensitive: bool)
    requires j < |pattern|
    requires i + j >= |text| || !CharsMatch(text[i + j], pattern[j], caseSensitive)
    ensures !MatchesAt(text, pattern, i, caseSensitive)
  {
  }

  /** Case-sensitive matching is slice equality on the strings themselves. */
  lemma SliceMatch(text: string, pattern: string, i: nat)
    requires i + |pattern| <= |text|
    ensures MatchesAt(text, pattern, i, true) <==> text[i..i + |pattern|] == pattern
  {
    MatchesAtSlice(text, pattern, i, true);
  }

  /** The match positions below `upto`, in ascending order. */
  function Occurrences(text: string, pattern: string, caseSensitive: bool, upto: nat): seq<int>
  {
    if upto == 0 then []
    else
      var front := Occurrences(text, pattern, caseSensitive, upto - 1);
      if MatchesAt(text, pattern, upto - 1, caseSensitive) then front + [upto - 1] else front
  }

  /** The scan lists, in ascending order, exactly the match positions below `upto`. */
  lemma {:induction false} OccurrencesFacts(text: string, pattern: string, caseSensitive: bool, upto: nat)
    ensures Ascending(Occurrences(text, pattern, caseSensitive, upto))
    ensures forall a | 0 <= a < |Occurrences(text, pattern, caseSensitive, upto)| ::
      0 <= Occurrences(text, pattern, caseSensitive, upto)[a] < upto
    ensures forall i: int :: (i in Occurrences(text, pattern, caseSensitive, upto)
      <==> 0 <= i < upto && MatchesAt(text, pattern, i, caseSensitive))
  {
    if upto > 0 {
      OccurrencesFacts(text, pattern, caseSensitive, upto - 1);
    }
  }

  /**
   * Every position, overlaps included, where a non-empty pattern matches; an empty
   * pattern, or one longer than the text, has none.
   */
  function Positions(text: string, pattern: string, caseSensitive: bool): (r: seq<int>)
    ensures Ascending(r)
    ensures forall i: int :: (i in r <==> |pattern| > 0 && 0 <= i && MatchesAt(text, pattern, i, caseSensitive))
  {
    if |pattern| == 0 || |pattern| > |text| then []
    else
      OccurrencesFacts(text, pattern, caseSensitive, |text| - |pattern| + 1);
      Occurrences(text, pattern, caseSensitive, |text| - |pattern| + 1)
  }

  /** A non-empty pattern's positions are the matches found by scanning every start that leaves room for it. */
  lemma PositionsScan(text: string, pattern: string, caseSensitive: bool, upto: int)
    requires |pattern| > 0 && 0 <= upto
    requires upto == |text| - |pattern| + 1 || (upto == 0 && |text| - |pattern| + 1 <= 0)
    ensures Occurrences(text, pattern, caseSensitive, upto) == Positions(text, pattern, caseSensitive)
  {
  }

  /** Case-insensitive positions are the case-sensitive positions in the lowercased strings. */
  lemma PositionsLowered(text: string, pattern: string)
    ensures Positions(text, pattern, false) == Positions(Lower(text), Lower(pattern), true)
  {
    var lt := Lower(text);
    var lp := Lower(pattern);
    if 0 < |pattern| <= |text| {
      var upto := |text| - |pattern| + 1;
      calc {
        Positions(text, pattern, false);
      == { PositionsScan(text, pattern, false, upto); }
        Occurrences(text, pattern, false, upto);
      == { OccurrencesLowered(text, pattern, upto); }
        Occurrences(lt, lp, true, upto);
      == { PositionsScan(lt, lp, true, upto); }
        Positions(lt, lp, true);
      }
    } else {
      assert Positions(text, pattern, false) == [] == Positions(lt, lp, true);
    }
  }

  /** The case-insensitive scan finds what the case-sensitive scan of the lowercased strings finds. */
  lemma OccurrencesLowered(text: string, pattern: string, upto: nat)
    ensures Occurrences(text, pattern, false, upto) == Occurrences(Lower(text), Lower(pattern), true, upto)
  {
    AllMatchesLowered(text, pattern);
    OccurrencesSame(text, pattern, Lower(text), Lower(pattern), upto);
  }

  lemma AllMatchesLowered(text: string, pattern: string)
    ensures forall i: nat :: MatchesAt(text, pattern, i, false) <==> MatchesAt(Lower(text), Lower(pattern), i, true)
  {
    forall i: nat
      ensures MatchesAt(text, pattern, i, false) <==> MatchesAt(Lower(text), Lower(pattern), i, true)
    {
      MatchesLowered(text, pattern, i);
    }
  }

  /** A case-insensitive match at i is a case-sensitive match of the lowercased strings. */
  lemma MatchesLowered(text: string, pattern: string, i: nat)
    ensures MatchesAt(text, pattern, i, false) <==> MatchesAt(Lower(text), Lower(pattern), i, true)
  {
    if i + |pattern| <= |text| {
      forall j | 0 <= j < |pattern|
        ensures CharsMatch(text[i + j], pattern[j], false) <==> CharsMatch(Lower(text)[i + j], Lower(pattern)[j], true)
      {
        assert Lower(text)[i + j] == LowerChar(text[i + j]);
        assert Lower(pattern)[j] == LowerChar(pattern[j]);
      }
    }
  }

  /** Searching with or without case is searching, case-sensitively, in the compared forms. */
  lemma PositionsSearchForm(text: string, pattern: string, caseSensitive: bool)
    ensures Positions(text, pattern, caseSensitive)
         == Positions(SearchForm(text, caseSensitive), SearchForm(pattern, caseSensitive), true)
  {
    if !caseSensitive {
      PositionsLowered(text, pattern);
    }
  }

  lemma {:induction false} OccurrencesSame(text: string, pattern: string, lt: string, lp: string, upto: nat)
    requires forall i: nat :: MatchesAt(text, pattern, i, false) <==> MatchesAt(lt, lp, i, true)
    ensures Occurrences(text, pattern, false, upto) == Occurrences(lt, lp, true, upto)
  {
    if upto > 0 {
      OccurrencesSame(text, pattern, lt, lp, upto - 1);
    }
  }

  /**
   * The match positions start at `from` or later, each is at least m past the one
   * before it, and the last leaves room for m characters of an n-character text.
   */
  predicate Disjoint(matches: seq<int>, m: nat, from: int, n: int)
    decreases |matches|
  {
    if matches == [] then from <= n
    else from <= matches[0] && Disjoint(matches[1..], m, matches[0] + m, n)
  }

  /** Every listed slice, and the starting point, lie inside the text. */
  lemma {:induction false} DisjointBound(matches: seq<int>, m: nat, from: int, n: int)
    requires Disjoint(matches, m, from, n)
    ensures from <= n
    ensures matches != [] ==> matches[0] + m <= n
    decreases |matches|
  {
    if matches != [] {
      DisjointBound(matches[1..], m, matches[0] + m, n);
    }
  }

  lemma {:induction false} DisjointSnoc(front: seq<int>, last: int, m: nat, from: int, n: int)
    ensures Disjoint(front + [last], m, from, n) <==> Disjoint(front, m, from, last) && last + m <= n
    decreases |front|
  {
    if front == [] {
      assert [last][1..] == [];
    } else {
      assert (front + [last])[1..] == front[1..] + [last];
      DisjointSnoc(front[1..], last, m, front[0] + m, n);
    }
  }

  /** The text from `from` on with every listed slice of m characters replaced, read left to right. */
  function RewriteForward(s: string, matches: seq<int>, m: nat, replacement: string, from: nat): string
    requires Disjoint(matches, m, from, |s|)
    decreases |matches|
  {
    if matches == [] then s[from..]
    else
      DisjointBound(matches, m, from, |s|);
      s[from..matches[0]] + replacement + RewriteForward(s, matches[1..], m, replacement, matches[0] + m)
  }

  lemma {:induction false} DisjointWeaken(matches: seq<int>, m: nat, from: int, n: int, n': int)
    requires Disjoint(matches, m, from, n) && n <= n'
    ensures Disjoint(matches, m, from, n')
    decreases |matches|
  {
    if matches != [] {
      DisjointWeaken(matches[1..], m, matches[0] + m, n, n');
    }
  }

  lemma {:induction false} DisjointFirst(matches: seq<int>, m: nat, from: int, n: int, a: nat)
    requires Disjoint(matches, m, from, n) && a < |matches|
    ensures from <= matches[a]
    decreases a
  {
    if a > 0 {
      DisjointFirst(matches[1..], m, matches[0] + m, n, a - 1);
    }
  }
}
