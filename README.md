# Mood Journal with Soundtrack — a Dafny model of its mood pipeline

The application reads a journal entry, settles on a mood for it, logs the mood
for the session, and searches a music catalog for songs or playlists that fit.
The logic of that pipeline lives in `app.py`. This project models it and proves
what it does:

- **Keyword extraction** (`Keywords`): the entry is lower-cased and searched for
  each of 19 fixed emotion words between two `\b` word boundaries. The hits are
  listed in vocabulary order.
- **Mood resolution and labelling** (`Moods`): the mood is the keyword the
  selection box returns, else the classifier's label, else `"chill"`. In the
  run that logs and searches, the box returns its default, the first
  candidate, so the first keyword hit in vocabulary order is used. It gets an emoji from a
  fixed table (default `🎶`) and a readable name from a second table. Only the
  readable name is logged; the search uses the raw mood.
- **Result extraction** (`Spotify`): a search response (status plus items)
  becomes an ordered list of `{name, artist, url}` records.
- **Session mood log** (`SessionLog`): a class whose list of `{date, mood}`
  entries only ever grows at the end.
- **Heatmap data** (`Heatmap`): the log grouped by `(date, mood)` and counted,
  one row per distinct pair, ordered by date and then mood as the group-by does.
- **One submission** (`App.Submit`): a blank entry only warns. Any other entry
  is logged before the token is requested. A missing token stops before any
  search. Otherwise one search is made for the raw mood, and its result is
  reported as songs, "no results" or a failed extraction.

String handling is in `Text`: ASCII lower-casing, whitespace stripping with
Python's whitespace code points, and the regular-expression search.

The outside services are inputs. These are the classifier's label, the token
(`None` when the token request fails), the search response, today's date, the
selection box's value (an index into the keyword candidates) and the requested result kind. `App.Submit`
returns the events of one submission in order: classifier called, entry logged,
token requested, catalog searched. This is how the model says which services
were asked.

Notes on the code as written:
- The classifier runs on every non-blank entry (app.py:73), even when a keyword
  is found and its label is then ignored.
- A classifier that raises an error is not handled by the code. Only an empty
  label leads to the `"chill"` fallback.
- `if not token` (app.py:99) treats an empty token string like a missing token.
  `TokenMissing` covers both.
- A track with an empty artist list makes `item["artists"][0]` raise an error
  (app.py:50). Nothing catches that error, so it ends the whole script run.
  The records built so far are lost, and the heatmap section (app.py:114-130)
  is not drawn on that run. The model returns `None` there, and `Submit`
  reports `SearchFailed`; the log has already received its entry.
- The classifier's labels `sadness`, `fear` and `surprise` have readable names
  but no emoji of their own, so they are shown with the default emoji.

## Model

| member | source | states |
|---|---|---|
| `Text.Lower` | app.py:16 | lower-casing keeps the length, turns each ASCII capital into its lower-case letter and leaves every other character unchanged |
| `Keywords.ExtractionIgnoresCase` | app.py:16-17 | two entries that differ only in ASCII letter case yield the same keywords |
| `Text.SearchFrom` | app.py:17 | the result is the leftmost position at or after `start` where `\b` w `\b` matches; `None` means no position matches |
| `Text.Search` | app.py:17 | the search succeeds exactly when the pattern matches somewhere in the text |
| `Text.PatternMatchIsWholeWord` | app.py:17 | for a word that starts and ends with a word character, `\b` w `\b` matches at `i` exactly when w occurs at `i` with no word character right before or after it |
| `Text.SearchFindsWholeWord` | app.py:17 | the search for a word succeeds exactly when the word occurs as a whole word |
| `Text.StripEmptyIffBlank` | app.py:69 | a stripped entry is empty exactly when every character of the entry is whitespace |
| `Keywords.VocabularyIsDistinct` | app.py:12-15 | no word occurs twice in the vocabulary |
| `Keywords.ExtractedKeywordsFollowVocabulary` | app.py:11-17 | the extracted keywords are a subsequence of the vocabulary (vocabulary words only, in vocabulary order) with no repeats |
| `Keywords.ExtractedIffWholeWord` | app.py:16-17 | a word is extracted exactly when it is a vocabulary word that occurs as a whole word in the lower-cased entry |
| `Keywords.SingleKeyword` | app.py:11-17 | an entry in which exactly one vocabulary word occurs yields exactly that word |
| `Keywords.ShoutedKeywordFound` | app.py:16-17 | "HAPPY!" yields "happy": case and trailing punctuation do not hide a keyword |
| `Keywords.EmbeddedKeywordIgnored` | app.py:17 | "unhappy" does not yield "happy" |
| `Keywords.TwoKeywordsNeedAChoice` | app.py:74-77 | "I feel so happy and excited today" yields both "happy" and "excited", so there are two candidates for the selection box |
| `Moods.ResolveMood` | app.py:76-81 | with keyword candidates the mood is one of them; otherwise a non-empty classifier label; otherwise "chill" |
| `Moods.EntryMoodNotEmpty` | app.py:73-81 | the mood of any entry, and so the search query, is never empty |
| `Moods.NoKeywordNoLabelIsDefault` | app.py:74-81 | with no whole-word vocabulary hit and an empty classifier label, no keyword is extracted and the mood is "chill" |
| `Moods.KeywordOverridesLabel` | app.py:76-79 | when a vocabulary word occurs, the mood is a vocabulary word and does not depend on the classifier's label |
| `Moods.KeywordMoodsHaveEmoji` | app.py:20-26 | every vocabulary word and "chill" have an emoji of their own, never the default |
| `Moods.ReadableChangesOnlyClassifierLabels` | app.py:84-86 | the readable name differs from the mood exactly for joy, anger, sadness, fear and surprise; every vocabulary word is unchanged |
| `Moods.DefaultPickIsFirstVocabularyHit` | app.py:74-77 | with the selection box's default (the first candidate), the mood is the first vocabulary word, in vocabulary order, that occurs as a whole word in the entry |
| `Moods.KeywordMoodLoggedAsIs` | app.py:76-86 | a mood taken from the keywords is shown and logged under its own name, with its own emoji |
| `Moods.JoyIsShownAsJoyful` | app.py:83-86 | with no keyword, the classifier label "joy" stays the mood (the search query) but is shown and logged as "joyful", with emoji 😊 |
| `Spotify.GetSongsByMood` | app.py:39-57 | a non-200 status gives an empty list; otherwise one record per item in item order, with name and link copied and the first artist (track) or the owner (playlist) as artist; a track without artists makes it fail |
| `SessionLog.MoodLog.constructor` | app.py:91-92 | a session's log starts empty |
| `SessionLog.MoodLog.Append` | app.py:93-96 | the log grows by exactly the new entry at its end; earlier entries are unchanged |
| `Heatmap.GroupCountCorrect` | app.py:118-119 | the rows are in strict (date, mood) order, every count is at least one, and each pair's count is the number of log entries with that pair |
| `Heatmap.GroupCountTotal` | app.py:119 | the counts add up to the number of log entries |
| `Heatmap.GroupCountRows` | app.py:119 | a row is present exactly when its pair occurs in the log with that many entries |
| `Heatmap.GroupCountOrderIndependent` | app.py:119 | logs holding the same entries in any order give the same rows |
| `Heatmap.GroupCountAfterAppend` | app.py:93-96 | logging an entry adds one to its pair's count and changes no other count |
| `Heatmap.TwoDaysExample` | app.py:119 | two sad entries on 2024-01-01 and a happy one on 2024-01-02 give the rows (2024-01-01, sad, 2) and (2024-01-02, happy, 1) |
| `Heatmap.RenderShowsChartOnlyForEntries` | app.py:117-130 | an empty log shows only the hint; a non-empty log shows a chart with at least one row |
| `App.Submit` | app.py:68-106 | a blank entry warns and changes and calls nothing; otherwise the readable mood is appended to the log before the token request; a missing token is an error with no search; otherwise exactly one search for the raw mood, and its result becomes songs, "no results" or a failed extraction |

## Left out

- Page rendering (`st.*` text, markdown, spinner, subheaders) and the Altair chart specification (app.py:60-66, 108-112, 121-128). The model reports an outcome value and the rows handed to the chart.
- The HTTP request of the catalog search (app.py:30-38), including `limit=3`. The response it would get is an input.
- The token request in spotify_auth.py: an HTTP POST with Base64-encoded client credentials. Its result is an input, with `None` for a non-200 status.
- The emotion classifier in hf_emotion.py, a pretrained model. Its label is an input; an error it raises is not modelled.
- `datetime.now().strftime("%Y-%m-%d")` (app.py:94). The date string is an input.
- The keyword selection box (app.py:77). Its value is an index into the candidates, and any valid index is allowed. But the box is created inside the button branch. It returns its default, the first candidate, on the run that logs and searches. Changing the pick reruns the script with the button unpressed. So the code as written always uses choice 0, the first keyword hit in vocabulary order (`Moods.DefaultPickIsFirstVocabularyHit`). It never waits for the user to choose. The rerun behaviour itself is not modelled.
- The radio button choosing songs or playlists (app.py:66, 102). The result kind is an input.
- Full Unicode semantics: `Text.Lower` lower-cases ASCII letters only, and `\w` is modelled as ASCII letters, digits and underscore.
- Malformed search JSON (missing keys, a non-JSON body). The response type always has its fields.
- The lazy creation of the session log (app.py:91-92). It is modelled as a log that starts empty; line 117 treats an absent log and an empty one alike.
- pandas internals. The group-by is specified by counts over the log's multiset, with rows in code-point order of (date, mood).
