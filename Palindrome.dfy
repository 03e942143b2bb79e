/**
 * The four palindrome checks of python/algorithms/palindrome.py. A text is a palindrome
 * when it reads the same reversed; the comparison is exact, so case and spaces count.
 */
module Palindrome {
  import opened Sequences

  /** What all four checks decide. */
  predicate IsPalindrome(text: string)
  {
    text == Reverse(text)
  }

  /** Every position from `lo` up to the middle agrees with its mirror position. */
  predicate MirrorFrom(text: string, lo: nat)
  {
    forall i | lo <= i < |text| && i < |text| - 1 - i :: text[i] == text[|text| - 1 - i]
  }

  /** Being a palindrome is agreeing with the mirror position over the first half. */
  lemma PalindromeMirror(text: string)
    ensures IsPalindrome(text) <==> MirrorFrom(text, 0)
  {
    var rev := Reverse(text);
    if MirrorFrom(text, 0) {
      forall i | 0 <= i < |text|
        ensures text[i] == rev[i]
      {
        if |text| - 1 - i < i {
          assert text[|text| - 1 - i] == text[|text| - 1 - (|text| - 1 - i)];
        }
      }
    }
  }

  /** Stripping the first and last characters: both must agree and the inside be a palindrome. */
  lemma PalindromeStrip(text: string)
    requires |text| > 1
    ensures IsPalindrome(text)
        <==> text[0] == text[|text| - 1] && IsPalindrome(text[1..|text| - 1])
  {
    PalindromeMirror(text);
    PalindromeMirror(text[1..|text| - 1]);
    MirrorStrip(text);
  }

  /** The mirror comparison of a text is its end pair's and then its inside's. */
  lemma MirrorStrip(text: string)
    requires |text| > 1
    ensures MirrorFrom(text, 0) <==> text[0] == text[|text| - 1] && MirrorFrom(text[1..|text| - 1], 0)
  {
    var inner := text[1..|text| - 1];
    if text[0] == text[|text| - 1] && MirrorFrom(inner, 0) {
      forall i | 0 <= i < |text| - 1 - i
        ensures text[i] == text[|text| - 1 - i]
      {
        if i > 0 {
          assert text[i] == inner[i - 1];
          assert text[|text| - 1 - i] == inner[|inner| - 1 - (i - 1)];
        }
      }
    }
    if MirrorFrom(text, 0) {
      forall i | 0 <= i < |inner| - 1 - i
        ensures inner[i] == inner[|inner| - 1 - i]
      {
        assert inner[i] == text[i + 1];
        assert inner[|inner| - 1 - i] == text[|text| - 1 - (i + 1)];
      }
    }
  }

  /** Lines 1-38: `is_palindrome`, comparing `front_index` with its mirror up to the middle. */
  method IsPalindromeTwoPointer(text: string) returns (b: bool)
    ensures b <==> IsPalindrome(text)
  {
    PalindromeMirror(text);
    var textLength := |text|;
    var middleIdx := textLength / 2;
    for frontIndex := 0 to middleIdx
      invariant forall i | 0 <= i < frontIndex :: text[i] == text[textLength - 1 - i]
    {
      var backIndex := textLength - frontIndex - 1;
      if text[frontIndex] != text[backIndex] {
        return false;
      }
    }
    return true;
  }

  /** Lines 40-68: `is_palindrome_quadratic`, stripping both ends while more than one character is left. */
  method IsPalindromeQuadratic(text: string) returns (b: bool)
    ensures b <==> IsPalindrome(text)
  {
    var t := text;
    while |t| > 1
      invariant IsPalindrome(text) <==> IsPalindrome(t)
    {
      PalindromeStrip(t);
      if t[0] != t[|t| - 1] {
        return false;
      }
      t := t[1..|t| - 1];
    }
    PalindromeMirror(t);
    return true;
  }

  /** Lines 109-119: `_helper(left, right)`, the inner recursion over a mirrored pair of indices. */
  function Helper(text: string, left: int, right: int): bool
    requires 0 <= left && left + right == |text| - 1
    decreases right - left
  {
    if left >= right then true
    else if text[left] != text[right] then false
    else Helper(text, left + 1, right - 1)
  }

  /** The helper accepts exactly when the pairs from `left` inward all agree. */
  lemma {:induction false} HelperMirror(text: string, left: nat, right: int)
    requires left + right == |text| - 1
    ensures Helper(text, left, right) <==> MirrorFrom(text, left)
    decreases right - left
  {
    if left < right {
      HelperMirror(text, left + 1, right - 1);
    }
  }

  /** Lines 70-121: `is_palindrome_recursive_optimized`. */
  function IsPalindromeRecursiveOptimized(text: string): bool
  {
    Helper(text, 0, |text| - 1)
  }

  lemma RecursiveOptimizedCorrect(text: string)
    ensures IsPalindromeRecursiveOptimized(text) <==> IsPalindrome(text)
  {
    HelperMirror(text, 0, |text| - 1);
    PalindromeMirror(text);
  }

  /** Lines 124-169: `is_palindrome_recursive_quadratic`, recursion on the stripped slice. */
  function IsPalindromeRecursiveQuadratic(text: string): bool
    decreases |text|
  {
    if |text| <= 1 then true
    else if text[0] != text[|text| - 1] then false
    else IsPalindromeRecursiveQuadratic(text[1..|text| - 1])
  }

  lemma {:induction false} RecursiveQuadraticCorrect(text: string)
    ensures IsPalindromeRecursiveQuadratic(text) <==> IsPalindrome(text)
    decreases |text|
  {
    if |text| <= 1 {
      PalindromeMirror(text);
    } else {
      PalindromeStrip(text);
      RecursiveQuadraticCorrect(text[1..|text| - 1]);
    }
  }

  /** The empty text and every one-character text are palindromes. */
  lemma ShortArePalindromes(text: string)
    requires |text| <= 1
    ensures IsPalindrome(text)
  {
    PalindromeMirror(text);
  }

  /** One position that differs from its mirror rules a palindrome out. */
  lemma NotPalindrome(text: string, i: nat)
    requires i < |text| && text[i] != text[|text| - 1 - i]
    ensures !IsPalindrome(text)
  {
    assert Reverse(text)[i] == text[|text| - 1 - i];
  }

  /** The comparison is exact: "racecar" is a palindrome, "Racecar" and "race car" are not. */
  lemma CaseAndSpacesCount()
    ensures IsPalindrome("racecar")
    ensures !IsPalindrome("Racecar") && !IsPalindrome("race car") && !IsPalindrome("hello")
  {
    var t := "racecar";
    assert t[0] == t[6] && t[1] == t[5] && t[2] == t[4];
    PalindromeMirror(t);
    NotPalindrome("Racecar", 0);
    NotPalindrome("race car", 3);
    NotPalindrome("hello", 0);
  }
}
