/** The session's mood log: an append-only list of dated moods. */
module SessionLog {
  /** One logged submission: the day (as `YYYY-MM-DD`) and the readable mood. */
  datatype LogEntry = LogEntry(date: string, mood: string)

  class MoodLog {
    var entries: seq<LogEntry>

    /** A session starts with an empty log. */
    constructor ()
      ensures entries == []
    {
      entries := [];
    }

    /** Adds one entry at the end; earlier entries stay as they were. */
    method Append(entry: LogEntry)
      modifies this
      ensures entries == old(entries) + [entry]
    {
      entries := entries + [entry];
    }
  }
}
