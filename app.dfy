/**
 * One press of the "Detect Mood & Suggest Music" button: check the entry,
 * settle the mood, log it, fetch a token and search the catalog. The
 * classifier's label, the token and the search response are the answers the
 * outside services give; the events record which of them were asked, in order.
 */
module App {
  import opened Wrappers
  import opened Text
  import opened Keywords
  import opened Moods
  import opened Spotify
  import opened SessionLog

  /** The success banner: the mood's emoji and its readable name. */
  datatype Banner = Banner(emoji: string, readable: string)

  /** The calls to the outside world and the log update, as they happen. */
  datatype Event =
    | MoodDetected(text: string)
    | Logged(entry: LogEntry)
    | TokenRequested
    | Searched(query: string, token: string, kind: SearchKind)

  datatype Outcome =
    | EmptyEntryWarning
    | TokenError(banner: Banner)
    | NoResults(banner: Banner)
    | Recommended(banner: Banner, songs: seq<Song>)
    /** A track without artists made the result extraction fail. */
    | SearchFailed(banner: Banner)

  /** The entry is empty once surrounding whitespace is removed. */
  predicate IsBlank(entry: string)
  {
    Strip(entry) == ""
  }

  /** A token counts as missing when there is none or it is the empty string. */
  predicate TokenMissing(token: Option<string>)
  {
    token.None? || token.value == ""
  }

  predicate ValidChoice(entry: string, choice: nat)
  {
    ExtractEmotionKeywords(entry) != [] ==> choice < |ExtractEmotionKeywords(entry)|
  }

  function BannerFor(mood: string): Banner
  {
    Banner(EmojiFor(mood), Readable(mood))
  }

  /**
   * Handles one submission. `choice` is the selection box's value among the keyword
   * candidates, `today` the current date, `kind` the requested result kind.
   */
  method Submit(log: MoodLog, entry: string, modelLabel: string, choice: nat, today: string,
                token: Option<string>, kind: SearchKind, response: SearchResponse)
      returns (outcome: Outcome, events: seq<Event>)
    requires ValidChoice(entry, choice)
    modifies log
    // A blank entry only warns: no log entry, no call out.
    ensures IsBlank(entry) <==> outcome == EmptyEntryWarning
    ensures IsBlank(entry) ==> events == [] && log.entries == old(log.entries)
    // Otherwise the readable mood is logged, at the end, before the token is requested.
    ensures !IsBlank(entry) ==>
      var mood := EntryMood(entry, modelLabel, choice);
      var logged := LogEntry(today, Readable(mood));
      log.entries == old(log.entries) + [logged] &&
      |events| >= 3 && events[..3] == [MoodDetected(entry), Logged(logged), TokenRequested]
    // A missing token is an error, and no search is made.
    ensures !IsBlank(entry) && TokenMissing(token) ==>
      outcome == TokenError(BannerFor(EntryMood(entry, modelLabel, choice))) && |events| == 3
    // With a token, exactly one search is made, for the raw mood.
    ensures !IsBlank(entry) && !TokenMissing(token) ==>
      |events| == 4 && events[3] == Searched(EntryMood(entry, modelLabel, choice), token.value, kind)
    ensures !IsBlank(entry) && !TokenMissing(token) ==>
      var banner := BannerFor(EntryMood(entry, modelLabel, choice));
      var items := ItemsOf(response, kind);
      var usable := forall i :: 0 <= i < |items| ==> Attributable(items[i], kind);
      (response.statusCode != 200 ==> outcome == NoResults(banner)) &&
      (response.statusCode == 200 && !usable ==> outcome == SearchFailed(banner)) &&
      (response.statusCode == 200 && usable && items == [] ==> outcome == NoResults(banner)) &&
      (response.statusCode == 200 && usable && items != [] ==>
        outcome.Recommended? && outcome.banner == banner && RecordsOf(outcome.songs, items, kind))
  {
    if IsBlank(entry) {
      return EmptyEntryWarning, [];
    }
    events := [MoodDetected(entry)];
    var keywords := ExtractEmotionKeywords(entry);
    var mood := ResolveMood(keywords, modelLabel, choice);
    var banner := BannerFor(mood);
    var logged := LogEntry(today, Readable(mood));
    log.Append(logged);
    events := events + [Logged(logged), TokenRequested];
    if TokenMissing(token) {
      return TokenError(banner), events;
    }
    events := events + [Searched(mood, token.value, kind)];
    var songs := GetSongsByMood(response, kind);
    if songs.None? {
      outcome := SearchFailed(banner);
    } else if songs.value == [] {
      outcome := NoResults(banner);
    } else {
      outcome := Recommended(banner, songs.value);
    }
  }
}
