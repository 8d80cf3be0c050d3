/**
 * The email rules of the customer cleaner: ASCII lower-casing (`str.lower`) and
 * the address pattern `^[\w\.-]+@[\w\.-]+\.\w+$` with `\w` read as ASCII
 * `[A-Za-z0-9_]`.
 */
module Emails {
  import opened Wrappers

  predicate IsWordChar(c: char)
  {
    'a' <= c <= 'z' || 'A' <= c <= 'Z' || '0' <= c <= '9' || c == '_'
  }

  /** The class `[\w\.-]`. */
  predicate IsAddressChar(c: char)
  {
    IsWordChar(c) || c == '.' || c == '-'
  }

  /** Every character of `s[lo..hi]` is in `[\w\.-]`. */
  predicate AddressCharsIn(s: string, lo: int, hi: int)
    requires 0 <= lo <= hi <= |s|
  {
    forall k :: lo <= k < hi ==> IsAddressChar(s[k])
  }

  /** Every character of `s[lo..hi]` is in `\w`. */
  predicate WordCharsIn(s: string, lo: int, hi: int)
    requires 0 <= lo <= hi <= |s|
  {
    forall k :: lo <= k < hi ==> IsWordChar(s[k])
  }

  /**
   * The language of the pattern, read off its grammar: a non-empty run of
   * address characters, `@`, a non-empty run of address characters, a dot, a
   * non-empty run of word characters, and nothing else.
   */
  ghost predicate MatchesPattern(s: string)
  {
    exists i, j ::
      0 < i && i + 1 < j < |s| - 1 && s[i] == '@' && s[j] == '.'
      && AddressCharsIn(s, 0, i) && AddressCharsIn(s, i + 1, j) && WordCharsIn(s, j + 1, |s|)
  }

  function FirstIndexOf(s: string, c: char): (r: Option<nat>)
    ensures r.Some? ==> r.value < |s| && s[r.value] == c && forall k :: 0 <= k < r.value ==> s[k] != c
    ensures r.None? ==> forall k :: 0 <= k < |s| ==> s[k] != c
  {
    if |s| == 0 then None
    else if s[0] == c then Some(0)
    else match FirstIndexOf(s[1..], c)
      case None => None
      case Some(i) => Some(i + 1)
  }

  function LastIndexOf(s: string, c: char): (r: Option<nat>)
    ensures r.Some? ==> r.value < |s| && s[r.value] == c && forall k :: r.value < k < |s| ==> s[k] != c
    ensures r.None? ==> forall k :: 0 <= k < |s| ==> s[k] != c
  {
    if |s| == 0 then None
    else if s[|s| - 1] == c then Some(|s| - 1)
    else LastIndexOf(s[..|s| - 1], c)
  }

  /**
   * The pattern decided without backtracking: the first `@` is preceded by a
   * non-empty run of address characters, everything after it is an address
   * character (so there is exactly one `@`), and the last dot lies after the
   * character following the `@`, before the last character, and is followed
   * by word characters only.
   */
  predicate IsValidEmail(s: string)
  {
    match (FirstIndexOf(s, '@'), LastIndexOf(s, '.'))
    case (Some(i), Some(j)) =>
      0 < i && i + 1 < j < |s| - 1
      && AddressCharsIn(s, 0, i) && AddressCharsIn(s, i + 1, |s|) && WordCharsIn(s, j + 1, |s|)
    case _ => false
  }

  /** The first occurrence of `c` is at `i` when `s[i]` is `c` and nothing before it is. */
  lemma FirstIndexAt(s: string, c: char, i: int)
    requires 0 <= i < |s| && s[i] == c
    requires forall k :: 0 <= k < i ==> s[k] != c
    ensures FirstIndexOf(s, c) == Some(i)
  {
  }

  /** The last occurrence of `c` is at `j` when `s[j]` is `c` and nothing after it is. */
  lemma LastIndexAt(s: string, c: char, j: int)
    requires 0 <= j < |s| && s[j] == c
    requires forall k :: j < k < |s| ==> s[k] != c
    ensures LastIndexOf(s, c) == Some(j)
  {
  }

  lemma ValidEmailIsInPattern(s: string)
    requires IsValidEmail(s)
    ensures MatchesPattern(s)
  {
    var i, j := FirstIndexOf(s, '@').value, LastIndexOf(s, '.').value;
    assert AddressCharsIn(s, i + 1, j);
    assert 0 < i && i + 1 < j < |s| - 1 && s[i] == '@' && s[j] == '.'
      && AddressCharsIn(s, 0, i) && AddressCharsIn(s, i + 1, j) && WordCharsIn(s, j + 1, |s|);
  }

  lemma PatternIsValidEmail(s: string)
    requires MatchesPattern(s)
    ensures IsValidEmail(s)
  {
    var i, j :|
      0 < i && i + 1 < j < |s| - 1 && s[i] == '@' && s[j] == '.'
      && AddressCharsIn(s, 0, i) && AddressCharsIn(s, i + 1, j) && WordCharsIn(s, j + 1, |s|);
    assert forall k :: 0 <= k < i ==> s[k] != '@' by {
      forall k | 0 <= k < i ensures s[k] != '@' {
        assert IsAddressChar(s[k]);
      }
    }
    FirstIndexAt(s, '@', i);
    assert forall k :: j < k < |s| ==> s[k] != '.' by {
      forall k | j < k < |s| ensures s[k] != '.' {
        assert IsWordChar(s[k]);
      }
    }
    LastIndexAt(s, '.', j);
    AddressCharsThroughDot(s, i + 1, j);
  }

  /** Address characters up to a dot followed by word characters make address characters to the end. */
  lemma AddressCharsThroughDot(s: string, lo: int, j: int)
    requires 0 <= lo <= j < |s| && s[j] == '.'
    requires AddressCharsIn(s, lo, j) && WordCharsIn(s, j + 1, |s|)
    ensures AddressCharsIn(s, lo, |s|)
  {
    forall k | lo <= k < |s| ensures IsAddressChar(s[k]) {
      if k > j {
        assert IsWordChar(s[k]);
      }
    }
  }

  /** The decision procedure accepts exactly the language of the pattern. */
  lemma ValidEmailMatchesPattern(s: string)
    ensures IsValidEmail(s) <==> MatchesPattern(s)
  {
    if IsValidEmail(s) {
      ValidEmailIsInPattern(s);
    }
    if MatchesPattern(s) {
      PatternIsValidEmail(s);
    }
  }

  // ---- Lower-casing ----

  function ToLower(c: char): char
  {
    if 'A' <= c <= 'Z' then (c as int - 'A' as int + 'a' as int) as char else c
  }

  predicate IsLowerCase(s: string)
  {
    forall k :: 0 <= k < |s| ==> !('A' <= s[k] <= 'Z')
  }

  /** `str.lower` on ASCII letters. */
  function Lower(s: string): (r: string)
    ensures |r| == |s|
    ensures IsLowerCase(r)
    ensures forall k :: 0 <= k < |s| ==> r[k] == ToLower(s[k])
  {
    seq(|s|, k requires 0 <= k < |s| => ToLower(s[k]))
  }

  /** Lower-casing changes only upper-case letters: an already lower-case string is left as it is. */
  lemma LowerOfLowerCase(s: string)
    requires IsLowerCase(s)
    ensures Lower(s) == s
  {
  }

  /** `s` and `t` agree, position by position, on every character class the pattern tests. */
  predicate SameShape(s: string, t: string)
  {
    |s| == |t|
    && forall k :: 0 <= k < |s| ==>
         (IsAddressChar(s[k]) <==> IsAddressChar(t[k])) && (IsWordChar(s[k]) <==> IsWordChar(t[k]))
         && (s[k] == '@' <==> t[k] == '@') && (s[k] == '.' <==> t[k] == '.')
  }

  lemma SameShapeMatches(s: string, t: string)
    requires SameShape(s, t)
    ensures MatchesPattern(s) ==> MatchesPattern(t)
  {
    if MatchesPattern(s) {
      var i, j :|
        0 < i && i + 1 < j < |s| - 1 && s[i] == '@' && s[j] == '.'
        && AddressCharsIn(s, 0, i) && AddressCharsIn(s, i + 1, j) && WordCharsIn(s, j + 1, |s|);
      assert t[i] == '@' && t[j] == '.';
      assert AddressCharsIn(t, 0, i) && AddressCharsIn(t, i + 1, j) && WordCharsIn(t, j + 1, |t|);
    }
  }

  /** Lower-casing does not move a character in or out of `\w`, `.`, `-` or `@`. */
  lemma LowerKeepsValidity(s: string)
    ensures IsValidEmail(Lower(s)) <==> IsValidEmail(s)
  {
    var t := Lower(s);
    ValidEmailMatchesPattern(s);
    ValidEmailMatchesPattern(t);
    assert SameShape(s, t);
    assert SameShape(t, s);
    SameShapeMatches(s, t);
    SameShapeMatches(t, s);
  }

  // ---- The pattern as the source applies it ----

  /**
   * `str.contains` searches with `re.search`, where `$` (without MULTILINE)
   * matches at the end of the string and also just before a final newline.
   */
  predicate MatchesAsWritten(s: string)
  {
    IsValidEmail(s) || (EndsWithNewline(s) && IsValidEmail(s[..|s| - 1]))
  }

  predicate EndsWithNewline(s: string)
  {
    |s| > 0 && s[|s| - 1] == '\n'
  }

  /** An address followed by a newline passes the filter as written, yet is not in the pattern's language. */
  lemma TrailingNewlineAccepted()
    ensures MatchesAsWritten("a@b.co\n")
    ensures !MatchesPattern("a@b.co\n")
  {
    var s := "a@b.co\n";
    var t := "a@b.co";
    assert s[..|s| - 1] == t;
    ValidEmailMatchesPattern(t);
    assert MatchesPattern(t) by {
      assert t[1] == '@' && t[3] == '.';
      assert AddressCharsIn(t, 0, 1) && AddressCharsIn(t, 2, 3) && WordCharsIn(t, 4, |t|);
    }
    assert !IsWordChar(s[|s| - 1]);
  }
}
