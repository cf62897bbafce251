/**
 * The string primitives the keyword extractor and the submit handler rely on:
 * lower-casing, stripping whitespace and a regular-expression search for a
 * word between two `\b` word boundaries. Lower-casing and the word-character
 * class are modelled on ASCII.
 */
module Text {
  import opened Wrappers

  /** ASCII lower-casing of one character. */
  function LowerChar(c: char): char
  {
    if 'A' <= c <= 'Z' then (c as int - 'A' as int + 'a' as int) as char else c
  }

  /** Lower-casing of a whole string, character by character. */
  function Lower(s: string): (r: string)
    ensures |r| == |s|
    ensures forall i :: 0 <= i < |r| ==> !('A' <= r[i] <= 'Z')
    ensures forall i :: 0 <= i < |s| ==>
      if 'A' <= s[i] <= 'Z' then r[i] as int - 'a' as int == s[i] as int - 'A' as int else r[i] == s[i]
  {
    seq(|s|, i requires 0 <= i < |s| => LowerChar(s[i]))
  }

  /** The characters the pattern class `\w` matches: letters, digits and the underscore. */
  predicate IsWordChar(c: char)
  {
    ('a' <= c <= 'z') || ('A' <= c <= 'Z') || ('0' <= c <= '9') || c == '_'
  }

  /** The code points that count as whitespace for string stripping. */
  predicate IsSpace(c: char)
  {
    var n := c as int;
    (9 <= n <= 13) || (28 <= n <= 32) || n == 0x85 || n == 0xA0 || n == 0x1680
    || (0x2000 <= n <= 0x200A) || n == 0x2028 || n == 0x2029 || n == 0x202F
    || n == 0x205F || n == 0x3000
  }

  function StripLeading(s: string): string
  {
    if s != [] && IsSpace(s[0]) then StripLeading(s[1..]) else s
  }

  function StripTrailing(s: string): string
  {
    if s != [] && IsSpace(s[|s| - 1]) then StripTrailing(s[..|s| - 1]) else s
  }

  /** Removes leading and trailing whitespace. */
  function Strip(s: string): string
  {
    StripTrailing(StripLeading(s))
  }

  /** Every character of `s` is whitespace. */
  predicate AllSpace(s: string)
  {
    forall i :: 0 <= i < |s| ==> IsSpace(s[i])
  }

  lemma {:induction false} StripLeadingEmpty(s: string)
    ensures StripLeading(s) == [] <==> AllSpace(s)
  {
    if s != [] && IsSpace(s[0]) {
      StripLeadingEmpty(s[1..]);
      assert AllSpace(s) <==> AllSpace(s[1..]) by {
        if AllSpace(s[1..]) {
          forall i | 0 <= i < |s| ensures IsSpace(s[i]) {
            if i > 0 { assert s[i] == s[1..][i - 1]; }
          }
        }
      }
    }
  }

  lemma {:induction false} StripTrailingEmpty(s: string)
    ensures StripTrailing(s) == [] <==> AllSpace(s)
  {
    if s != [] && IsSpace(s[|s| - 1]) {
      var p := s[..|s| - 1];
      StripTrailingEmpty(p);
      assert AllSpace(s) <==> AllSpace(p) by {
        if AllSpace(p) {
          forall i | 0 <= i < |s| ensures IsSpace(s[i]) {
            if i < |s| - 1 { assert s[i] == p[i]; }
          }
        }
      }
    }
  }

  lemma {:induction false} StripLeadingKeepsSuffix(s: string)
    ensures AllSpace(StripLeading(s)) ==> AllSpace(s)
  {
    if s != [] && IsSpace(s[0]) {
      StripLeadingKeepsSuffix(s[1..]);
      if AllSpace(StripLeading(s)) {
        forall i | 0 <= i < |s| ensures IsSpace(s[i]) {
          if i > 0 { assert s[i] == s[1..][i - 1]; }
        }
      }
    }
  }

  lemma {:induction false} StripLeadingOfSpace(s: string)
    requires AllSpace(s)
    ensures StripLeading(s) == []
  {
    StripLeadingEmpty(s);
  }

  /** A stripped string is empty exactly when the original consists of whitespace only. */
  lemma {:induction false} StripEmptyIffBlank(s: string)
    ensures Strip(s) == [] <==> AllSpace(s)
  {
    StripTrailingEmpty(StripLeading(s));
    StripLeadingKeepsSuffix(s);
    if AllSpace(s) {
      StripLeadingOfSpace(s);
    }
  }

  /** True when position `i` of `t` holds a word character (false outside the string). */
  predicate WordCharAt(t: string, i: int)
  {
    0 <= i < |t| && IsWordChar(t[i])
  }

  /** The assertion `\b`: exactly one side of position `i` is a word character. */
  predicate IsBoundary(t: string, i: int)
  {
    WordCharAt(t, i - 1) != WordCharAt(t, i)
  }

  /** The pattern `\b` w `\b` matches `t` starting at position `i`. */
  predicate PatternMatchAt(t: string, w: string, i: int)
  {
    0 <= i && i + |w| <= |t| && IsBoundary(t, i) && t[i..i + |w|] == w && IsBoundary(t, i + |w|)
  }

  /**
   * Leftmost match of `\b` w `\b` at or after `start`, trying every start
   * position up to and including the end of the string, as a regular
   * expression search does.
   */
  function SearchFrom(t: string, w: string, start: nat): (r: Option<nat>)
    requires start <= |t|
    decreases |t| - start
    ensures r.Some? ==> start <= r.value <= |t| && PatternMatchAt(t, w, r.value)
    ensures r.Some? ==> forall j :: start <= j < r.value ==> !PatternMatchAt(t, w, j)
    ensures r.None? ==> forall j :: start <= j <= |t| ==> !PatternMatchAt(t, w, j)
  {
    if PatternMatchAt(t, w, start) then Some(start)
    else if start == |t| then None
    else SearchFrom(t, w, start + 1)
  }

  /** Search for the pattern `\b` w `\b` anywhere in `t`. */
  function Search(t: string, w: string): (r: Option<nat>)
    ensures r.Some? <==> exists i :: PatternMatchAt(t, w, i)
  {
    SearchFrom(t, w, 0)
  }

  /** `w` is non-empty and starts and ends with a word character, as every vocabulary word does. */
  predicate IsWord(w: string)
  {
    w != [] && IsWordChar(w[0]) && IsWordChar(w[|w| - 1])
  }

  /** `w` occurs at `i` with no word character immediately before or after it. */
  predicate WholeWordAt(t: string, w: string, i: int)
  {
    0 <= i && i + |w| <= |t| && t[i..i + |w|] == w
    && (i == 0 || !IsWordChar(t[i - 1]))
    && (i + |w| == |t| || !IsWordChar(t[i + |w|]))
  }

  predicate WholeWordIn(t: string, w: string)
  {
    exists i :: 0 <= i <= |t| && WholeWordAt(t, w, i)
  }

  /** For a word, the `\b` pattern matches exactly the whole-word occurrences. */
  lemma PatternMatchIsWholeWord(t: string, w: string, i: int)
    requires IsWord(w)
    ensures PatternMatchAt(t, w, i) <==> WholeWordAt(t, w, i)
  {
  }

  /** Searching for a word succeeds exactly when it occurs as a whole word. */
  lemma SearchFindsWholeWord(t: string, w: string)
    requires IsWord(w)
    ensures Search(t, w).Some? <==> WholeWordIn(t, w)
  {
    if Search(t, w).Some? {
      var i :| PatternMatchAt(t, w, i);
      PatternMatchIsWholeWord(t, w, i);
    }
    if WholeWordIn(t, w) {
      var i :| WholeWordAt(t, w, i);
      PatternMatchIsWholeWord(t, w, i);
    }
  }
}
