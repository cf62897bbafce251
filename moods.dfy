/**
 * Choosing the mood of an entry and labelling it: the fallback chain from the
 * selected keyword to the classifier's label to a default, the emoji table
 * and the table of readable names for classifier labels.
 */
module Moods {
  import opened Text
  import opened Keywords

  /** The mood used when neither a keyword nor a classifier label is available. */
  const DefaultMood := "chill"

  /** The emoji shown for a mood that has none of its own. */
  const DefaultEmoji := "🎶"

  const EmojiTable: map<string, string> := map[
    "happy" := "😄", "joy" := "😊", "sad" := "😢", "anger" := "😠", "angry" := "😠", "calm" := "😌",
    "anxious" := "😰", "bored" := "😐", "excited" := "🤩", "tired" := "😴", "curious" := "🧐",
    "relaxed" := "🌿", "frustrated" := "😤", "grateful" := "🙏", "peaceful" := "🕊️",
    "hopeful" := "🌈", "lonely" := "🥺", "energetic" := "⚡", "confused" := "😕", "impatient" := "⌛",
    "motivated" := "🔥", "chill" := "🎧"
  ]

  /** User-facing names for the classifier's own labels. */
  const ReadableNames: map<string, string> := map[
    "joy" := "joyful", "anger" := "angry", "sadness" := "sad", "fear" := "anxious", "surprise" := "surprised"
  ]

  /**
   * The mood of a submission: the `choice`-th keyword candidate (the value of
   * the selection box) when there are candidates, otherwise the classifier's label
   * when it is not empty, otherwise the default.
   */
  function ResolveMood(keywords: seq<string>, modelLabel: string, choice: nat): (mood: string)
    requires keywords != [] ==> choice < |keywords|
    ensures keywords != [] ==> mood in keywords
    ensures keywords == [] && modelLabel != "" ==> mood == modelLabel
    ensures keywords == [] && modelLabel == "" ==> mood == DefaultMood
  {
    if keywords != [] then keywords[choice]
    else if modelLabel != "" then modelLabel
    else DefaultMood
  }

  /** The emoji of a mood, falling back to the default emoji. */
  function EmojiFor(mood: string): string
  {
    if mood in EmojiTable then EmojiTable[mood] else DefaultEmoji
  }

  /** The readable name of a mood; moods without one are shown as they are. */
  function Readable(mood: string): string
  {
    if mood in ReadableNames then ReadableNames[mood] else mood
  }

  /** The mood of a journal entry, given the classifier's label and the selection box's value. */
  function EntryMood(entry: string, modelLabel: string, choice: nat): string
    requires ExtractEmotionKeywords(entry) != [] ==> choice < |ExtractEmotionKeywords(entry)|
  {
    ResolveMood(ExtractEmotionKeywords(entry), modelLabel, choice)
  }

  /** The resolved mood is never empty, so the search query never is. */
  lemma EntryMoodNotEmpty(entry: string, modelLabel: string, choice: nat)
    requires ExtractEmotionKeywords(entry) != [] ==> choice < |ExtractEmotionKeywords(entry)|
    ensures EntryMood(entry, modelLabel, choice) != ""
  {
    var keywords := ExtractEmotionKeywords(entry);
    if keywords != [] {
      ExtractedIffWholeWord(entry, keywords[choice]);
      VocabularyAreWords();
    }
  }

  /**
   * With no vocabulary word in the entry and no classifier label, the mood is
   * the default.
   */
  lemma NoKeywordNoLabelIsDefault(entry: string, choice: nat)
    requires forall v :: v in Vocabulary ==> !WholeWordIn(Lower(entry), v)
    ensures ExtractEmotionKeywords(entry) == []
    ensures EntryMood(entry, "", choice) == DefaultMood
  {
    var keywords := ExtractEmotionKeywords(entry);
    if keywords != [] {
      ExtractedIffWholeWord(entry, keywords[0]);
      assert false;
    }
  }

  /**
   * When a vocabulary word occurs, the classifier's label is ignored and the
   * mood is the selected vocabulary word.
   */
  lemma KeywordOverridesLabel(entry: string, modelLabel: string, choice: nat, w: string)
    requires w in Vocabulary && WholeWordIn(Lower(entry), w)
    requires choice < |ExtractEmotionKeywords(entry)|
    ensures EntryMood(entry, modelLabel, choice) in Vocabulary
    ensures EntryMood(entry, modelLabel, choice) == EntryMood(entry, "", choice)
  {
    ExtractedIffWholeWord(entry, w);
    var keywords := ExtractEmotionKeywords(entry);
    ExtractedIffWholeWord(entry, keywords[choice]);
  }

  /**
   * The run that logs and searches takes the selection box's default, the
   * first candidate: the mood is then the first vocabulary word, in vocabulary
   * order, that occurs as a whole word in the entry.
   */
  lemma DefaultPickIsFirstVocabularyHit(entry: string, modelLabel: string)
    requires ExtractEmotionKeywords(entry) != []
    ensures exists k :: (0 <= k < |Vocabulary| && EntryMood(entry, modelLabel, 0) == Vocabulary[k]
                          && WholeWordIn(Lower(entry), Vocabulary[k])
                          && forall j :: 0 <= j < k ==> !WholeWordIn(Lower(entry), Vocabulary[j]))
  {
    var t := Lower(entry);
    KeepFoundFirst(Vocabulary, t);
    var k :| 0 <= k < |Vocabulary| && KeepFound(Vocabulary, t)[0] == Vocabulary[k] && Search(t, Vocabulary[k]).Some?
      && forall j :: 0 <= j < k ==> Search(t, Vocabulary[j]).None?;
    VocabularyAreWords();
    SearchFindsWholeWord(t, Vocabulary[k]);
    forall j | 0 <= j < k ensures !WholeWordIn(t, Vocabulary[j]) {
      SearchFindsWholeWord(t, Vocabulary[j]);
    }
  }

  /** Every vocabulary word and the default mood have an emoji of their own. */
  lemma KeywordMoodsHaveEmoji(mood: string)
    requires mood in Vocabulary || mood == DefaultMood
    ensures EmojiFor(mood) != DefaultEmoji
  {
  }

  /**
   * The readable name changes exactly the five classifier labels; every other
   * mood, in particular every vocabulary word, is shown unchanged.
   */
  lemma ReadableChangesOnlyClassifierLabels(mood: string)
    ensures Readable(mood) != mood <==> mood in {"joy", "anger", "sadness", "fear", "surprise"}
    ensures mood in Vocabulary ==> Readable(mood) == mood
  {
  }

  /** A mood taken from the keywords is logged under its own name. */
  lemma KeywordMoodLoggedAsIs(entry: string, modelLabel: string, choice: nat)
    requires ExtractEmotionKeywords(entry) != [] && choice < |ExtractEmotionKeywords(entry)|
    ensures Readable(EntryMood(entry, modelLabel, choice)) == EntryMood(entry, modelLabel, choice)
    ensures EmojiFor(EntryMood(entry, modelLabel, choice)) != DefaultEmoji
  {
    var keywords := ExtractEmotionKeywords(entry);
    ExtractedIffWholeWord(entry, keywords[choice]);
    ReadableChangesOnlyClassifierLabels(keywords[choice]);
    KeywordMoodsHaveEmoji(keywords[choice]);
  }

  /** The classifier label "joy" is searched as "joy" but shown and logged as "joyful". */
  lemma JoyIsShownAsJoyful(entry: string, choice: nat)
    requires ExtractEmotionKeywords(entry) == []
    ensures EntryMood(entry, "joy", choice) == "joy"
    ensures Readable(EntryMood(entry, "joy", choice)) == "joyful"
    ensures EmojiFor(EntryMood(entry, "joy", choice)) == "😊"
  {
  }
}
