/**
 * The keyword extractor: which words of a fixed emotion vocabulary occur in
 * a journal entry as whole words, ignoring case, listed in vocabulary order.
 */
module Keywords {
  import opened Text

  /** The fixed vocabulary, in the order the extractor reports its hits. */
  const Vocabulary: seq<string> := [
    "happy", "sad", "angry", "anxious", "relaxed", "calm", "grateful", "bored", "tired", "excited", "lonely",
    "energetic", "peaceful", "hopeful", "confused", "curious", "impatient", "motivated", "frustrated"
  ]

  /** The words of `words` that the pattern `\b` w `\b` finds in `t`, in the order of `words`. */
  function KeepFound(words: seq<string>, t: string): seq<string>
  {
    if words == [] then []
    else (if Search(t, words[0]).Some? then [words[0]] else []) + KeepFound(words[1..], t)
  }

  /** The emotion keywords of a journal entry. */
  function ExtractEmotionKeywords(text: string): seq<string>
  {
    KeepFound(Vocabulary, Lower(text))
  }

  /** `a` and `b` differ at most in the case of their ASCII letters. */
  predicate SameIgnoringCase(a: string, b: string)
  {
    |a| == |b| && forall i :: 0 <= i < |a| ==> LowerChar(a[i]) == LowerChar(b[i])
  }

  /** Entries that differ only in letter case yield the same keywords. */
  lemma ExtractionIgnoresCase(a: string, b: string)
    requires SameIgnoringCase(a, b)
    ensures ExtractEmotionKeywords(a) == ExtractEmotionKeywords(b)
  {
    assert Lower(a) == Lower(b);
  }

  /** `r` is obtained from `s` by deleting elements, keeping the order of the rest. */
  predicate IsSubsequence<T(==)>(r: seq<T>, s: seq<T>)
    decreases |s|
  {
    if r == [] then true
    else if s == [] then false
    else if r[0] == s[0] then IsSubsequence(r[1..], s[1..])
    else IsSubsequence(r, s[1..])
  }

  /** No element occurs twice. */
  predicate NoDuplicates<T(==)>(s: seq<T>)
  {
    forall i, j :: 0 <= i < j < |s| ==> s[i] != s[j]
  }

  lemma {:induction false} KeepFoundIsSubsequence(words: seq<string>, t: string)
    ensures IsSubsequence(KeepFound(words, t), words)
  {
    if words != [] {
      KeepFoundIsSubsequence(words[1..], t);
      var rest := KeepFound(words[1..], t);
      if Search(t, words[0]).Some? {
        assert KeepFound(words, t) == [words[0]] + rest;
        assert ([words[0]] + rest)[1..] == rest;
      } else {
        assert KeepFound(words, t) == rest;
        SubsequenceOfTail(rest, words);
      }
    }
  }

  lemma {:induction false} SubsequenceOfTail<T>(r: seq<T>, s: seq<T>)
    requires s != [] && IsSubsequence(r, s[1..])
    ensures IsSubsequence(r, s)
    decreases |s|, |r|
  {
    if r != [] && r[0] == s[0] {
      if |s| > 1 && r[1..] != [] {
        SubsequenceDropsHead(r, s[1..]);
      }
    }
  }

  lemma {:induction false} SubsequenceDropsHead<T>(r: seq<T>, s: seq<T>)
    requires r != [] && IsSubsequence(r, s)
    ensures IsSubsequence(r[1..], s)
    decreases |s|, |r|
  {
    if s != [] {
      if r[0] == s[0] {
        SubsequenceOfTail(r[1..], s);
      } else {
        SubsequenceDropsHead(r, s[1..]);
        SubsequenceOfTail(r[1..], s);
      }
    }
  }

  lemma {:induction false} SubsequenceMembers<T>(r: seq<T>, s: seq<T>, x: T)
    requires IsSubsequence(r, s) && x in r
    ensures x in s
    decreases |s|
  {
    if r[0] == s[0] {
      if x != r[0] {
        assert x in r[1..];
        SubsequenceMembers(r[1..], s[1..], x);
      }
    } else {
      SubsequenceMembers(r, s[1..], x);
    }
  }

  /** A subsequence of a sequence without repeats has no repeats either. */
  lemma {:induction false} SubsequenceOfDistinct<T>(r: seq<T>, s: seq<T>)
    requires IsSubsequence(r, s) && NoDuplicates(s)
    ensures NoDuplicates(r)
    decreases |s|
  {
    if r != [] {
      assert NoDuplicates(s[1..]) by {
        forall i, j | 0 <= i < j < |s[1..]| ensures s[1..][i] != s[1..][j] {
          assert s[1..][i] == s[i + 1] && s[1..][j] == s[j + 1];
        }
      }
      if r[0] == s[0] {
        SubsequenceOfDistinct(r[1..], s[1..]);
        forall j | 0 < j < |r| ensures r[0] != r[j] {
          assert r[j] in r[1..];
          SubsequenceMembers(r[1..], s[1..], r[j]);
          var k :| 0 <= k < |s[1..]| && s[1..][k] == r[j];
          assert s[k + 1] == r[j];
        }
        forall i, j | 0 <= i < j < |r| ensures r[i] != r[j] {
          if i > 0 {
            assert r[i] == r[1..][i - 1] && r[j] == r[1..][j - 1];
          }
        }
      } else {
        SubsequenceOfDistinct(r, s[1..]);
      }
    }
  }

  lemma {:induction false} KeepFoundMembers(words: seq<string>, t: string, w: string)
    ensures w in KeepFound(words, t) <==> w in words && Search(t, w).Some?
  {
    if words != [] {
      KeepFoundMembers(words[1..], t, w);
      assert w in words <==> w == words[0] || w in words[1..];
    }
  }

  /** First letter and length, which already tell the vocabulary words apart. */
  function Signature(w: string): (char, int)
    requires w != []
  {
    (w[0], |w|)
  }

  /** The first word kept is the first word of `words` that the search finds. */
  lemma {:induction false} KeepFoundFirst(words: seq<string>, t: string)
    requires KeepFound(words, t) != []
    ensures exists k :: (0 <= k < |words| && KeepFound(words, t)[0] == words[k] && Search(t, words[k]).Some?
                          && forall j :: 0 <= j < k ==> Search(t, words[j]).None?)
  {
    if Search(t, words[0]).None? {
      KeepFoundFirst(words[1..], t);
      var k :| 0 <= k < |words[1..]| && KeepFound(words[1..], t)[0] == words[1..][k] && Search(t, words[1..][k]).Some?
        && forall j :: 0 <= j < k ==> Search(t, words[1..][j]).None?;
      assert words[k + 1] == words[1..][k];
      forall j | 0 <= j < k + 1 ensures Search(t, words[j]).None? {
        if j > 0 { assert words[j] == words[1..][j - 1]; }
      }
    } else {
      assert KeepFound(words, t)[0] == words[0];
    }
  }

  lemma VocabularyIsDistinct()
    ensures NoDuplicates(Vocabulary)
  {
    var v := Vocabulary;
    assert forall i :: 0 <= i < |v| ==> v[i] != [];
    forall i, j | 0 <= i < j < |v| ensures v[i] != v[j] {
      assert Signature(v[i]) != Signature(v[j]);
    }
  }

  lemma VocabularyAreWords()
    ensures forall w :: w in Vocabulary ==> IsWord(w)
  {
  }

  /**
   * The extractor returns vocabulary words only, in vocabulary order (not the
   * order they appear in the entry), each at most once.
   */
  lemma ExtractedKeywordsFollowVocabulary(text: string)
    ensures IsSubsequence(ExtractEmotionKeywords(text), Vocabulary)
    ensures NoDuplicates(ExtractEmotionKeywords(text))
  {
    KeepFoundIsSubsequence(Vocabulary, Lower(text));
    VocabularyIsDistinct();
    SubsequenceOfDistinct(ExtractEmotionKeywords(text), Vocabulary);
  }

  /**
   * A word is extracted exactly when it is a vocabulary word occurring in the
   * lower-cased entry with no word character right before or after it.
   */
  lemma ExtractedIffWholeWord(text: string, w: string)
    ensures w in ExtractEmotionKeywords(text) <==> w in Vocabulary && WholeWordIn(Lower(text), w)
  {
    KeepFoundMembers(Vocabulary, Lower(text), w);
    if w in Vocabulary {
      VocabularyAreWords();
      SearchFindsWholeWord(Lower(text), w);
    }
  }

  lemma FirstTwoDiffer(r: seq<string>)
    requires NoDuplicates(r) && |r| > 1
    ensures r[0] != r[1]
  {
  }

  /** A sequence without repeats whose every element is `w`, and which holds `w`, is `[w]`. */
  lemma {:induction false} OnlyElement(r: seq<string>, w: string)
    requires NoDuplicates(r) && w in r
    requires forall i :: 0 <= i < |r| ==> r[i] == w
    ensures r == [w]
  {
    if |r| > 1 {
      FirstTwoDiffer(r);
      assert false;
    }
  }

  /** An entry in which exactly one vocabulary word occurs yields exactly that word. */
  lemma SingleKeyword(text: string, w: string)
    requires w in Vocabulary && WholeWordIn(Lower(text), w)
    requires forall v :: v in Vocabulary && WholeWordIn(Lower(text), v) ==> v == w
    ensures ExtractEmotionKeywords(text) == [w]
  {
    var r := ExtractEmotionKeywords(text);
    ExtractedKeywordsFollowVocabulary(text);
    ExtractedIffWholeWord(text, w);
    forall i | 0 <= i < |r| ensures r[i] == w {
      ExtractedIffWholeWord(text, r[i]);
    }
    OnlyElement(r, w);
  }

  lemma SliceIs(text: string, i: nat, w: string)
    requires i + |w| <= |text|
    requires forall k :: 0 <= k < |w| ==> text[i + k] == w[k]
    ensures text[i..i + |w|] == w
  {
  }

  /** Lower-casing the text keeps a whole-word occurrence of a lower-case word. */
  lemma WholeWordSurvivesLower(text: string, w: string, i: int)
    requires WholeWordAt(text, w, i)
    requires forall k :: 0 <= k < |w| ==> !('A' <= w[k] <= 'Z')
    ensures WholeWordAt(Lower(text), w, i)
  {
  }

  /** Upper case and trailing punctuation do not hide a keyword. */
  lemma ShoutedKeywordFound(text: string)
    requires text == "HAPPY!"
    ensures "happy" in ExtractEmotionKeywords(text)
  {
  }

  /** A keyword embedded in a longer word is not found. */
  lemma EmbeddedKeywordIgnored(text: string)
    requires text == "unhappy"
    ensures "happy" !in ExtractEmotionKeywords(text)
  {
    var t := Lower(text);
    assert t[0] == 'u' && t[1] == 'n' && |t| == 7;
    forall i | 0 <= i <= |t| ensures !WholeWordAt(t, "happy", i) {
      if i == 0 { assert t[0..5][0] != "happy"[0]; }
      else if i == 1 { assert t[1..6][0] != "happy"[0]; }
      else if i == 2 { assert IsWordChar(t[1]); }
    }
    ExtractedIffWholeWord(text, "happy");
  }

  const ScenarioEntry := "I feel so happy and excited today"

  lemma ScenarioHasHappy(text: string)
    requires text == ScenarioEntry
    ensures WholeWordIn(Lower(text), "happy")
  {
    assert text[9] == ' ' && text[15] == ' ';
    assert text[10] == 'h' && text[11] == 'a' && text[12] == 'p' && text[13] == 'p' && text[14] == 'y';
    SliceIs(text, 10, "happy");
    WholeWordSurvivesLower(text, "happy", 10);
  }

  lemma ScenarioHasExcited(text: string)
    requires text == ScenarioEntry
    ensures WholeWordIn(Lower(text), "excited")
  {
    assert text[19] == ' ' && text[27] == ' ';
    assert text[20] == 'e' && text[21] == 'x' && text[22] == 'c' && text[23] == 'i' && text[24] == 't';
    assert text[25] == 'e' && text[26] == 'd';
    SliceIs(text, 20, "excited");
    WholeWordSurvivesLower(text, "excited", 20);
  }

  /** Two distinct members make a sequence at least two long. */
  lemma TwoMembers(r: seq<string>, a: string, b: string)
    requires a in r && b in r && a != b
    ensures |r| >= 2
  {
    var i :| 0 <= i < |r| && r[i] == a;
    var j :| 0 <= j < |r| && r[j] == b;
    assert i != j;
  }

  /** Two keywords in one entry: both are reported as candidates for the selection box. */
  lemma TwoKeywordsNeedAChoice(text: string)
    requires text == ScenarioEntry
    ensures "happy" in ExtractEmotionKeywords(text)
    ensures "excited" in ExtractEmotionKeywords(text)
    ensures |ExtractEmotionKeywords(text)| >= 2
  {
    ScenarioHasHappy(text);
    ScenarioHasExcited(text);
    ExtractedIffWholeWord(text, "happy");
    ExtractedIffWholeWord(text, "excited");
    TwoMembers(ExtractEmotionKeywords(text), "happy", "excited");
  }
}
