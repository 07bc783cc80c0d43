/** The day's attendance log of attendance.py as a sequence of CSV rows: the first
    row is skipped as a header when reading, empty rows are ignored, and a name is
    appended only when it is not already in the first column of a data row.
    The file mechanics (paths, opening, quoting) are not modelled. */
module Ledger {

  type Row = seq<string>

  /** The header written to an empty attendance log. */
  const AttendanceHeader: Row := ["Name", "Timestamp"]

  /** The csv append used by both logs: the header goes first only when the file
      is empty (os.path.getsize == 0), then the row; earlier rows are untouched. */
  function AppendRow(log: seq<Row>, header: Row, row: Row): (r: seq<Row>)
    ensures |r| == |log| + (if log == [] then 2 else 1)
    ensures r[..|log|] == log
    ensures r[|r| - 1] == row
    ensures log == [] ==> r[0] == header
  {
    if log == [] then [header, row] else log + [row]
  }

  /** The first cells of the non-empty rows among rows. */
  function NamesIn(rows: seq<Row>): (s: set<string>)
    ensures forall n :: n in s <==> exists i :: 0 <= i < |rows| && rows[i] != [] && rows[i][0] == n
  {
    if rows == [] then {}
    else
      var init := rows[..|rows| - 1];
      var last := rows[|rows| - 1];
      assert forall i :: 0 <= i < |init| ==> init[i] == rows[i];
      NamesIn(init) + (if last != [] then {last[0]} else {})
  }

  /** already_present: the names the reader collects, skipping the first row. */
  function Present(log: seq<Row>): set<string>
  {
    if log == [] then {} else NamesIn(log[1..])
  }

  /** The name sits in the first column of some non-empty data row. */
  predicate Listed(log: seq<Row>, name: string)
  {
    exists i :: 1 <= i < |log| && log[i] != [] && log[i][0] == name
  }

  lemma PresentIffListed(log: seq<Row>, name: string)
    ensures name in Present(log) <==> Listed(log, name)
  {
    if log != [] {
      var data := log[1..];
      if name in NamesIn(data) {
        var i :| 0 <= i < |data| && data[i] != [] && data[i][0] == name;
        assert log[i + 1] == data[i];
      }
      if Listed(log, name) {
        var i :| 1 <= i < |log| && log[i] != [] && log[i][0] == name;
        assert data[i - 1] == log[i];
      }
    }
  }

  /** At most one data row per name: the ledger's invariant. */
  predicate UniqueNames(log: seq<Row>)
  {
    forall i, j :: 1 <= i < j < |log| && log[i] != [] && log[j] != [] ==> log[i][0] != log[j][0]
  }

  /** Number of non-empty data rows whose first cell is name. */
  function RowsFor(log: seq<Row>, name: string): nat
  {
    if |log| <= 1 then 0
    else
      var last := log[|log| - 1];
      RowsFor(log[..|log| - 1], name) + (if last != [] && last[0] == name then 1 else 0)
  }

  datatype MarkOutcome = MarkOutcome(added: bool, log: seq<Row>)

  /** mark_attendance on one day's log: refuses a listed name and leaves the log as
      it was; otherwise appends [name, stamp], after the header when the log is empty. */
  function Mark(log: seq<Row>, name: string, stamp: string): (r: MarkOutcome)
    ensures r.added <==> !Listed(log, name)
    ensures !r.added ==> r.log == log
    ensures r.added ==> r.log == (if log == [] then [AttendanceHeader] else log) + [[name, stamp]]
  {
    PresentIffListed(log, name);
    if name in Present(log) then MarkOutcome(false, log)
    else MarkOutcome(true, AppendRow(log, AttendanceHeader, [name, stamp]))
  }

  /** A successful mark adds exactly its name to the names present. */
  lemma MarkAddsName(log: seq<Row>, name: string, stamp: string)
    requires name !in Present(log)
    ensures Present(Mark(log, name, stamp).log) == Present(log) + {name}
  {
    var r := Mark(log, name, stamp).log;
    PresentIffListed(log, name);
    if log != [] {
      assert r[1..] == log[1..] + [[name, stamp]];
      assert r[1..][..|r| - 2] == log[1..];
    } else {
      assert r[1..] == [[name, stamp]];
      assert r[1..][..0] == [];
    }
  }

  /** mark keeps at most one row per name. */
  lemma MarkKeepsUnique(log: seq<Row>, name: string, stamp: string)
    requires UniqueNames(log)
    ensures UniqueNames(Mark(log, name, stamp).log)
  {
    var r := Mark(log, name, stamp);
    if r.added {
      forall i, j | 1 <= i < j < |r.log| && r.log[i] != [] && r.log[j] != []
        ensures r.log[i][0] != r.log[j][0]
      {
        if j == |r.log| - 1 && log != [] {
          assert r.log[i] == log[i];
        }
      }
    }
  }

  /** No row for a name exactly when the name is not present. */
  lemma {:induction false} NoRowsIffAbsent(log: seq<Row>, name: string)
    ensures RowsFor(log, name) == 0 <==> name !in Present(log)
  {
    PresentIffListed(log, name);
    if |log| > 1 {
      var init := log[..|log| - 1];
      NoRowsIffAbsent(init, name);
      PresentIffListed(init, name);
      if Listed(log, name) {
        var i :| 1 <= i < |log| && log[i] != [] && log[i][0] == name;
        if i < |log| - 1 {
          assert init[i] == log[i];
        }
      }
      if Listed(init, name) {
        var i :| 1 <= i < |init| && init[i] != [] && init[i][0] == name;
        assert log[i] == init[i];
      }
    }
  }

  /** Idempotence within a day: marking an absent name succeeds, marking it again
      fails and changes nothing, and exactly one row for the name remains. */
  lemma MarkIdempotent(log: seq<Row>, name: string, stamp1: string, stamp2: string)
    requires name !in Present(log)
    ensures Mark(log, name, stamp1).added
    ensures !Mark(Mark(log, name, stamp1).log, name, stamp2).added
    ensures Mark(Mark(log, name, stamp1).log, name, stamp2).log == Mark(log, name, stamp1).log
    ensures RowsFor(Mark(log, name, stamp1).log, name) == 1
  {
    var first := Mark(log, name, stamp1).log;
    PresentIffListed(log, name);
    MarkAddsName(log, name, stamp1);
    PresentIffListed(first, name);
    NoRowsIffAbsent(log, name);
    if log == [] {
      assert first[..1] == [AttendanceHeader];
    } else {
      assert first[..|first| - 1] == log;
    }
  }

  /** The invariant read as a count: at most one row for any name. */
  lemma {:induction false} UniqueAtMostOneRow(log: seq<Row>, name: string)
    requires UniqueNames(log)
    ensures RowsFor(log, name) <= 1
  {
    if |log| > 1 {
      var init := log[..|log| - 1];
      var last := log[|log| - 1];
      assert UniqueNames(init);
      UniqueAtMostOneRow(init, name);
      if last != [] && last[0] == name {
        forall i | 1 <= i < |init| && init[i] != [] ensures init[i][0] != name {
          assert log[i] == init[i];
        }
        PresentIffListed(init, name);
        NoRowsIffAbsent(init, name);
      }
    }
  }
}
