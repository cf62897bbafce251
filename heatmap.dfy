/**
 * The heatmap's data: the log grouped by (date, mood) with the size of each
 * group, one row per distinct pair, rows ordered by date and then mood.
 */
module Heatmap {
  import opened SessionLog

  datatype Row = Row(date: string, mood: string, count: nat)

  /** What the heatmap section shows: a hint while the log is empty, else a chart of the rows. */
  datatype View = StartJournalingInfo | Chart(rows: seq<Row>)

  /** Code-point order on strings, a proper prefix coming first. */
  predicate StrLess(a: string, b: string)
    decreases |a|
  {
    if a == [] then b != []
    else if b == [] then false
    else if a[0] != b[0] then a[0] < b[0]
    else StrLess(a[1..], b[1..])
  }

  /** Order of the group keys: by date, then by mood. */
  predicate KeyLess(x: LogEntry, y: LogEntry)
  {
    StrLess(x.date, y.date) || (x.date == y.date && StrLess(x.mood, y.mood))
  }

  function Key(r: Row): LogEntry
  {
    LogEntry(r.date, r.mood)
  }

  /** Rows strictly ordered by key, hence with distinct keys. */
  predicate Sorted(rows: seq<Row>)
  {
    forall i, j :: 0 <= i < j < |rows| ==> KeyLess(Key(rows[i]), Key(rows[j]))
  }

  /** The count a row list gives the key `k` (0 when no row has it). */
  function CountOf(rows: seq<Row>, k: LogEntry): nat
  {
    if rows == [] then 0
    else (if Key(rows[0]) == k then rows[0].count else 0) + CountOf(rows[1..], k)
  }

  function Total(rows: seq<Row>): nat
  {
    if rows == [] then 0 else rows[0].count + Total(rows[1..])
  }

  /** Counts one more entry: bumps its row, or inserts a new row at its place in key order. */
  function Tally(rows: seq<Row>, e: LogEntry): seq<Row>
  {
    if rows == [] then [Row(e.date, e.mood, 1)]
    else if Key(rows[0]) == e then [rows[0].(count := rows[0].count + 1)] + rows[1..]
    else if KeyLess(e, Key(rows[0])) then [Row(e.date, e.mood, 1)] + rows
    else [rows[0]] + Tally(rows[1..], e)
  }

  /** The group-by (date, mood) count of a log. */
  function GroupCount(log: seq<LogEntry>): seq<Row>
  {
    if log == [] then [] else Tally(GroupCount(log[1..]), log[0])
  }

  /** The heatmap section for a log. */
  function Render(log: seq<LogEntry>): View
  {
    if log == [] then StartJournalingInfo else Chart(GroupCount(log))
  }

  // ---- the order on keys ----

  lemma {:induction false} StrLessIrreflexive(a: string)
    ensures !StrLess(a, a)
  {
    if a != [] {
      StrLessIrreflexive(a[1..]);
    }
  }

  lemma {:induction false} StrLessTransitive(a: string, b: string, c: string)
    requires StrLess(a, b) && StrLess(b, c)
    ensures StrLess(a, c)
    decreases |a|
  {
    if a != [] && b != [] && c != [] && a[0] == b[0] && b[0] == c[0] {
      StrLessTransitive(a[1..], b[1..], c[1..]);
    }
  }

  lemma {:induction false} StrLessTotal(a: string, b: string)
    ensures a == b || StrLess(a, b) || StrLess(b, a)
    decreases |a|
  {
    if a != [] && b != [] && a[0] == b[0] {
      StrLessTotal(a[1..], b[1..]);
      if a[1..] == b[1..] {
        assert a == [a[0]] + a[1..] && b == [b[0]] + b[1..];
      }
    }
  }

  /** Strings that agree up to position `n` and differ there are ordered by that character. */
  lemma {:induction false} StrLessAtFirstDifference(a: string, b: string, n: nat)
    requires n < |a| && n < |b| && a[..n] == b[..n] && a[n] < b[n]
    ensures StrLess(a, b)
    decreases n
  {
    if n > 0 {
      assert a[0] == a[..n][0] && b[0] == b[..n][0];
      assert a[1..][..n - 1] == a[..n][1..] && b[1..][..n - 1] == b[..n][1..];
      StrLessAtFirstDifference(a[1..], b[1..], n - 1);
    }
  }

  lemma KeyLessIrreflexive(x: LogEntry)
    ensures !KeyLess(x, x)
  {
    StrLessIrreflexive(x.date);
    StrLessIrreflexive(x.mood);
  }

  lemma KeyLessTransitive(x: LogEntry, y: LogEntry, z: LogEntry)
    requires KeyLess(x, y) && KeyLess(y, z)
    ensures KeyLess(x, z)
  {
    if StrLess(x.date, y.date) && StrLess(y.date, z.date) {
      StrLessTransitive(x.date, y.date, z.date);
    } else if StrLess(x.mood, y.mood) && StrLess(y.mood, z.mood) && x.date == z.date {
      StrLessTransitive(x.mood, y.mood, z.mood);
    }
  }

  lemma KeyLessTotal(x: LogEntry, y: LogEntry)
    ensures x == y || KeyLess(x, y) || KeyLess(y, x)
  {
    StrLessTotal(x.date, y.date);
    StrLessTotal(x.mood, y.mood);
  }

  lemma KeyLessAsymmetric(x: LogEntry, y: LogEntry)
    requires KeyLess(x, y)
    ensures !KeyLess(y, x)
  {
    if KeyLess(y, x) {
      KeyLessTransitive(x, y, x);
      KeyLessIrreflexive(x);
    }
  }

  // ---- one tally step ----

  lemma {:induction false} TallyCounts(rows: seq<Row>, e: LogEntry, k: LogEntry)
    ensures CountOf(Tally(rows, e), k) == CountOf(rows, k) + (if k == e then 1 else 0)
  {
    if rows != [] && Key(rows[0]) != e && !KeyLess(e, Key(rows[0])) {
      TallyCounts(rows[1..], e, k);
      assert ([rows[0]] + Tally(rows[1..], e))[1..] == Tally(rows[1..], e);
    } else if rows != [] && Key(rows[0]) == e {
      assert ([rows[0].(count := rows[0].count + 1)] + rows[1..])[1..] == rows[1..];
    } else if rows != [] {
      assert ([Row(e.date, e.mood, 1)] + rows)[1..] == rows;
    }
  }

  lemma {:induction false} TallyTotal(rows: seq<Row>, e: LogEntry)
    ensures Total(Tally(rows, e)) == Total(rows) + 1
  {
    if rows != [] && Key(rows[0]) != e && !KeyLess(e, Key(rows[0])) {
      TallyTotal(rows[1..], e);
      assert ([rows[0]] + Tally(rows[1..], e))[1..] == Tally(rows[1..], e);
    } else if rows != [] && Key(rows[0]) == e {
      assert ([rows[0].(count := rows[0].count + 1)] + rows[1..])[1..] == rows[1..];
    } else if rows != [] {
      assert ([Row(e.date, e.mood, 1)] + rows)[1..] == rows;
    }
  }

  /** Every row of a tally has a positive count when every row before did. */
  lemma {:induction false} TallyPositive(rows: seq<Row>, e: LogEntry)
    requires forall i :: 0 <= i < |rows| ==> rows[i].count > 0
    ensures forall i :: 0 <= i < |Tally(rows, e)| ==> Tally(rows, e)[i].count > 0
  {
    if rows != [] && Key(rows[0]) != e && !KeyLess(e, Key(rows[0])) {
      TallyPositive(rows[1..], e);
      assert Tally(rows, e) == [rows[0]] + Tally(rows[1..], e);
    }
  }

  /** A key below `e` and below every key of `rows` stays below every key of the tally. */
  lemma {:induction false} TallyLowerBound(rows: seq<Row>, e: LogEntry, lo: LogEntry)
    requires KeyLess(lo, e)
    requires forall i :: 0 <= i < |rows| ==> KeyLess(lo, Key(rows[i]))
    ensures forall i :: 0 <= i < |Tally(rows, e)| ==> KeyLess(lo, Key(Tally(rows, e)[i]))
  {
    if rows != [] && Key(rows[0]) != e && !KeyLess(e, Key(rows[0])) {
      TallyLowerBound(rows[1..], e, lo);
      var t := Tally(rows, e);
      assert t == [rows[0]] + Tally(rows[1..], e);
      forall i | 0 <= i < |t| ensures KeyLess(lo, Key(t[i])) {
        if i > 0 {
          assert t[i] == Tally(rows[1..], e)[i - 1];
        }
      }
    } else if rows != [] && Key(rows[0]) == e {
      var t := Tally(rows, e);
      forall i | 0 <= i < |t| ensures KeyLess(lo, Key(t[i])) {
        assert Key(t[i]) == Key(rows[i]);
      }
    } else if rows != [] {
      var t := Tally(rows, e);
      forall i | 0 <= i < |t| ensures KeyLess(lo, Key(t[i])) {
        if i > 0 {
          assert t[i] == rows[i - 1];
        }
      }
    }
  }

  lemma SortedTail(rows: seq<Row>)
    requires Sorted(rows) && rows != []
    ensures Sorted(rows[1..])
    ensures forall j :: 0 <= j < |rows[1..]| ==> KeyLess(Key(rows[0]), Key(rows[1..][j]))
  {
  }

  lemma SortedCons(r: Row, rows: seq<Row>)
    requires Sorted(rows)
    requires forall j :: 0 <= j < |rows| ==> KeyLess(Key(r), Key(rows[j]))
    ensures Sorted([r] + rows)
  {
  }

  /** Tallying keeps the rows in key order. */
  lemma {:induction false} TallySorted(rows: seq<Row>, e: LogEntry)
    requires Sorted(rows)
    ensures Sorted(Tally(rows, e))
  {
    if rows == [] {
    } else if Key(rows[0]) == e {
      var t := Tally(rows, e);
      forall i, j | 0 <= i < j < |t| ensures KeyLess(Key(t[i]), Key(t[j])) {
        assert Key(t[i]) == Key(rows[i]) && Key(t[j]) == Key(rows[j]);
      }
    } else if KeyLess(e, Key(rows[0])) {
      forall j | 0 <= j < |rows| ensures KeyLess(e, Key(rows[j])) {
        if j > 0 {
          KeyLessTransitive(e, Key(rows[0]), Key(rows[j]));
        }
      }
      SortedCons(Row(e.date, e.mood, 1), rows);
    } else {
      KeyLessTotal(e, Key(rows[0]));
      SortedTail(rows);
      TallySorted(rows[1..], e);
      TallyLowerBound(rows[1..], e, Key(rows[0]));
      SortedCons(rows[0], Tally(rows[1..], e));
    }
  }

  // ---- the group-by count ----

  /**
   * The rows of the group-by count are in key order, every count is at least
   * one, and each key is counted as often as the log holds it.
   */
  lemma {:induction false} GroupCountCorrect(log: seq<LogEntry>)
    ensures Sorted(GroupCount(log))
    ensures forall i :: 0 <= i < |GroupCount(log)| ==> GroupCount(log)[i].count > 0
    ensures forall k :: CountOf(GroupCount(log), k) == multiset(log)[k]
  {
    if log != [] {
      GroupCountCorrect(log[1..]);
      TallySorted(GroupCount(log[1..]), log[0]);
      TallyPositive(GroupCount(log[1..]), log[0]);
      assert log == [log[0]] + log[1..];
      forall k ensures CountOf(GroupCount(log), k) == multiset(log)[k] {
        TallyCounts(GroupCount(log[1..]), log[0], k);
      }
    }
  }

  /** The counts of the group-by add up to the length of the log. */
  lemma {:induction false} GroupCountTotal(log: seq<LogEntry>)
    ensures Total(GroupCount(log)) == |log|
  {
    if log != [] {
      GroupCountTotal(log[1..]);
      TallyTotal(GroupCount(log[1..]), log[0]);
    }
  }

  /** In sorted rows, the count of a row's key is that row's count. */
  lemma {:induction false} CountOfSortedRow(rows: seq<Row>, i: nat)
    requires Sorted(rows) && i < |rows|
    ensures CountOf(rows, Key(rows[i])) == rows[i].count
  {
    if i == 0 {
      CountOfAbsent(rows[1..], Key(rows[0]));
    } else {
      SortedTail(rows);
      KeyLessIrreflexive(Key(rows[0]));
      assert KeyLess(Key(rows[0]), Key(rows[i]));
      CountOfSortedRow(rows[1..], i - 1);
    }
  }

  /** Rows after the first of a sorted list do not carry the first key. */
  lemma {:induction false} CountOfAbsent(rows: seq<Row>, k: LogEntry)
    requires forall j :: 0 <= j < |rows| ==> KeyLess(k, Key(rows[j]))
    ensures CountOf(rows, k) == 0
  {
    if rows != [] {
      KeyLessIrreflexive(k);
      assert Key(rows[0]) != k;
      CountOfAbsent(rows[1..], k);
    }
  }

  lemma {:induction false} CountOfMissing(rows: seq<Row>, k: LogEntry)
    requires forall j :: 0 <= j < |rows| ==> Key(rows[j]) != k
    ensures CountOf(rows, k) == 0
  {
    if rows != [] {
      CountOfMissing(rows[1..], k);
    }
  }

  /**
   * A row is in the group-by count exactly when its pair occurs in the log and
   * its count is the number of log entries with that pair.
   */
  lemma GroupCountRows(log: seq<LogEntry>, r: Row)
    ensures r in GroupCount(log) <==> multiset(log)[Key(r)] > 0 && r.count == multiset(log)[Key(r)]
  {
    var rows := GroupCount(log);
    GroupCountCorrect(log);
    if r in rows {
      var i :| 0 <= i < |rows| && rows[i] == r;
      CountOfSortedRow(rows, i);
    }
    if multiset(log)[Key(r)] > 0 && r.count == multiset(log)[Key(r)] {
      if forall j :: 0 <= j < |rows| ==> Key(rows[j]) != Key(r) {
        CountOfMissing(rows, Key(r));
      }
      var i :| 0 <= i < |rows| && Key(rows[i]) == Key(r);
      CountOfSortedRow(rows, i);
      assert rows[i] == r;
    }
  }

  lemma NothingInEmpty(s: seq<Row>)
    ensures s == [] <==> forall r :: r !in s
  {
    if s != [] {
      assert s[0] in s;
    }
  }

  /** Two sorted row lists with the same rows are the same list. */
  lemma {:induction false} SortedUnique(a: seq<Row>, b: seq<Row>)
    requires Sorted(a) && Sorted(b)
    requires forall r :: r in a <==> r in b
    ensures a == b
  {
    if a == [] {
      NothingInEmpty(b);
    } else if b == [] {
      NothingInEmpty(a);
    } else {
      if a[0] != b[0] {
        assert a[0] in b;
        var j :| 0 <= j < |b| && b[j] == a[0];
        assert b[0] in a;
        var i :| 0 <= i < |a| && a[i] == b[0];
        KeyLessAsymmetric(Key(b[0]), Key(a[0]));
        assert false;
      }
      SortedTail(a);
      SortedTail(b);
      KeyLessIrreflexive(Key(a[0]));
      forall r ensures r in a[1..] <==> r in b[1..] {
        if r in a[1..] {
          var x :| 0 <= x < |a[1..]| && a[1..][x] == r;
          assert r != b[0];
          assert r in a;
        }
        if r in b[1..] {
          var y :| 0 <= y < |b[1..]| && b[1..][y] == r;
          assert r != a[0];
          assert r in b;
        }
      }
      SortedUnique(a[1..], b[1..]);
      assert a == [a[0]] + a[1..] && b == [b[0]] + b[1..];
    }
  }

  /** The group-by count depends only on which entries the log holds, not on their order. */
  lemma GroupCountOrderIndependent(log1: seq<LogEntry>, log2: seq<LogEntry>)
    requires multiset(log1) == multiset(log2)
    ensures GroupCount(log1) == GroupCount(log2)
  {
    GroupCountCorrect(log1);
    GroupCountCorrect(log2);
    forall r ensures r in GroupCount(log1) <==> r in GroupCount(log2) {
      GroupCountRows(log1, r);
      GroupCountRows(log2, r);
    }
    SortedUnique(GroupCount(log1), GroupCount(log2));
  }

  /** An empty log shows only the hint; any other log shows a chart with at least one row. */
  lemma RenderShowsChartOnlyForEntries(log: seq<LogEntry>)
    ensures Render(log).StartJournalingInfo? <==> log == []
    ensures Render(log).Chart? ==> Render(log).rows != []
  {
  }

  /** Logging one more entry adds one to the count of its pair and changes no other count. */
  lemma GroupCountAfterAppend(log: seq<LogEntry>, e: LogEntry, k: LogEntry)
    ensures CountOf(GroupCount(log + [e]), k) == CountOf(GroupCount(log), k) + (if k == e then 1 else 0)
  {
    GroupCountCorrect(log);
    GroupCountCorrect(log + [e]);
    assert multiset(log + [e]) == multiset(log) + multiset{e};
  }

  /** Two sad entries on one day and a happy one the next give two rows, in date order. */
  lemma TwoDaysExample(log: seq<LogEntry>)
    requires log == [LogEntry("2024-01-01", "sad"), LogEntry("2024-01-01", "sad"), LogEntry("2024-01-02", "happy")]
    ensures GroupCount(log) == [Row("2024-01-01", "sad", 2), Row("2024-01-02", "happy", 1)]
  {
    var sad, happy := log[0], log[2];
    assert StrLess(sad.date, happy.date) by {
      assert sad.date[..9] == happy.date[..9] && sad.date[9] < happy.date[9];
      StrLessAtFirstDifference(sad.date, happy.date, 9);
    }
    var one := [Row(happy.date, happy.mood, 1)];
    assert GroupCount(log[2..]) == one by {
      assert log[2..][1..] == [];
    }
    assert GroupCount(log[1..]) == [Row(sad.date, sad.mood, 1)] + one by {
      assert log[1..][1..] == log[2..];
    }
    assert GroupCount(log) == [Row(sad.date, sad.mood, 2)] + one;
  }
}
