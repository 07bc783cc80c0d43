/** The files attendance.py writes: one attendance log per day
    (attendance_logs/attendance_<day>.csv), one failure log per day
    (failures/<day>/failures_log_<day>.csv) and the face crops saved beside it.
    mark_attendance and save_failed_face are the two operations that change them. */
module Store {
  import opened Ledger

  /** What datetime.now() gives a call: the day (%Y-%m-%d), the time of day
      (%H%M%S) and the full timestamp (%Y-%m-%d %H:%M:%S). */
  datatype Clock = Clock(day: string, time: string, stamp: string)

  /** A face location as face_recognition gives it: (top, right, bottom, left). */
  datatype Box = Box(top: int, right: int, bottom: int, left: int)

  /** The crop image[top:bottom, left:right] written to failures/<day>/<file>;
      the pixels themselves are not modelled. */
  datatype Crop = Crop(day: string, file: string, location: Box)

  const FailureHeader: Row := ["Filename", "Timestamp", "Reason"]

  /** The only reason save_failed_face ever records. */
  const FailureReason: string := "Unknown Face"

  /** The state of all the files, as a value. */
  datatype Files = Files(attendance: map<string, seq<Row>>, failures: map<string, seq<Row>>, crops: seq<Crop>)

  /** A day's log; a file that does not exist reads as empty. */
  function LogOf(logs: map<string, seq<Row>>, day: string): seq<Row>
  {
    if day in logs then logs[day] else []
  }

  function DigitChar(d: nat): char
    requires d < 10
  {
    ('0' as int + d) as char
  }

  /** str() of a natural number: decimal digits only, at most three below 1000. */
  function Decimal(n: nat): (s: string)
    ensures 0 < |s|
    ensures forall i :: 0 <= i < |s| ==> '0' <= s[i] <= '9'
    ensures n < 10 <==> |s| == 1
    ensures n < 1000 ==> |s| <= 3
  {
    if n < 10 then [DigitChar(n)] else Decimal(n / 10) + [DigitChar(n % 10)]
  }

  /** The crop's file name: the prefix, "_", the time of day, "_", a random number
      below 1000 in decimal, then ".jpg"; the random draw is given. */
  function CropName(prefix: string, time: string, draw: nat): (r: string)
    ensures |prefix| + |time| + 7 <= |r| <= |prefix| + |time| + 9
    ensures r[..|prefix| + |time| + 2] == prefix + "_" + time + "_"
    ensures forall i :: |prefix| + |time| + 2 <= i < |r| - 4 ==> '0' <= r[i] <= '9'
    ensures r[|r| - 4..] == ".jpg"
  {
    prefix + "_" + time + "_" + Decimal(draw % 1000) + ".jpg"
  }

  /** mark_attendance on the files: only the day's attendance log can change. */
  function MarkFiles(f: Files, name: string, clock: Clock): (r: (bool, Files))
    ensures r.0 <==> !Listed(LogOf(f.attendance, clock.day), name)
    ensures r.1.failures == f.failures && r.1.crops == f.crops
    ensures forall d :: d != clock.day ==> LogOf(r.1.attendance, d) == LogOf(f.attendance, d)
    ensures LogOf(r.1.attendance, clock.day) == Mark(LogOf(f.attendance, clock.day), name, clock.stamp).log
  {
    var m := Mark(LogOf(f.attendance, clock.day), name, clock.stamp);
    if m.added then (true, f.(attendance := f.attendance[clock.day := m.log])) else (false, f)
  }

  /** The number of failure records in a day's failure log: its rows after the
      header. */
  function FailureCount(f: Files, day: string): nat
  {
    var log := LogOf(f.failures, day);
    if log == [] then 0 else |log| - 1
  }

  /** save_failed_face on the files: one crop more, and one row more in the day's
      failure log (after its header when the log is empty). The random suffix of
      the crop's name is rand applied to the number of crops written before. */
  function SaveFailure(f: Files, location: Box, prefix: string, clock: Clock, rand: nat -> nat): (r: Files)
    ensures r.attendance == f.attendance
    ensures FailureCount(r, clock.day) == FailureCount(f, clock.day) + 1
    ensures |r.crops| == |f.crops| + 1 && r.crops[..|f.crops|] == f.crops
    ensures r.crops[|f.crops|].day == clock.day && r.crops[|f.crops|].location == location
    ensures forall d :: d != clock.day ==> LogOf(r.failures, d) == LogOf(f.failures, d)
    ensures LogOf(r.failures, clock.day) ==
      AppendRow(LogOf(f.failures, clock.day), FailureHeader, [r.crops[|f.crops|].file, clock.stamp, FailureReason])
  {
    var file := CropName(prefix, clock.time, rand(|f.crops|));
    var row := [file, clock.stamp, FailureReason];
    Files(f.attendance,
          f.failures[clock.day := AppendRow(LogOf(f.failures, clock.day), FailureHeader, row)],
          f.crops + [Crop(clock.day, file, location)])
  }

  /** The crop save_failed_face writes is named after the prefix ("photo" or
      "video") and the time of day, and is a .jpg file. */
  lemma FailureCropNamed(f: Files, location: Box, prefix: string, clock: Clock, rand: nat -> nat)
    ensures var file := SaveFailure(f, location, prefix, clock, rand).crops[|f.crops|].file;
      |prefix| + |clock.time| + 7 <= |file| &&
      file[..|prefix| + |clock.time| + 2] == prefix + "_" + clock.time + "_" &&
      file[|file| - 4..] == ".jpg"
  {
    var file := CropName(prefix, clock.time, rand(|f.crops|));
    assert SaveFailure(f, location, prefix, clock, rand).crops[|f.crops|].file == file;
  }

  /** Every day's attendance log holds at most one row per name. */
  predicate LedgerUnique(f: Files)
  {
    forall d :: d in f.attendance ==> UniqueNames(f.attendance[d])
  }

  lemma MarkFilesKeepsUnique(f: Files, name: string, clock: Clock)
    requires LedgerUnique(f)
    ensures LedgerUnique(MarkFiles(f, name, clock).1)
  {
    var log := LogOf(f.attendance, clock.day);
    assert UniqueNames(log);
    MarkKeepsUnique(log, name, clock.stamp);
  }

  /** The disk as the program sees it: three fields updated in place. */
  class FileSystem {
    var attendance: map<string, seq<Row>>
    var failures: map<string, seq<Row>>
    var crops: seq<Crop>

    constructor (files: Files)
      ensures Snapshot() == files
    {
      attendance, failures, crops := files.attendance, files.failures, files.crops;
    }

    function Snapshot(): Files
      reads this
    {
      Files(attendance, failures, crops)
    }
  }

  /** The reading half of mark_attendance: skip the header row, then collect the
      first cell of every non-empty row. */
  method ReadPresent(rows: seq<Row>) returns (alreadyPresent: set<string>)
    ensures alreadyPresent == Present(rows)
    ensures forall n :: n in alreadyPresent <==> Listed(rows, n)
  {
    alreadyPresent := {};
    if rows != [] {
      // next(reader, None) skips the header row
      var i := 1;
      while i < |rows|
        invariant 1 <= i <= |rows|
        invariant alreadyPresent == NamesIn(rows[1..i])
      {
        NamesInStep(rows, i);
        if rows[i] != [] {
          alreadyPresent := alreadyPresent + {rows[i][0]};
        }
        i := i + 1;
      }
      assert rows[1..i] == rows[1..];
    }
    forall n ensures n in alreadyPresent <==> Listed(rows, n) {
      PresentIffListed(rows, n);
    }
  }

  /** mark_attendance(name): refuse a name already in the day's log, otherwise
      append it with the timestamp. */
  method MarkAttendance(fs: FileSystem, name: string, clock: Clock) returns (added: bool)
    modifies fs
    ensures (added, fs.Snapshot()) == MarkFiles(old(fs.Snapshot()), name, clock)
  {
    // a log file that does not exist yet reads as no rows
    var rows := LogOf(fs.attendance, clock.day);
    var alreadyPresent := ReadPresent(rows);
    if name in alreadyPresent {
      return false;
    }
    fs.attendance := fs.attendance[clock.day := AppendRow(rows, AttendanceHeader, [name, clock.stamp])];
    added := true;
  }

  /** One more row read by the csv reader. */
  lemma NamesInStep(rows: seq<Row>, i: int)
    requires 1 <= i < |rows|
    ensures NamesIn(rows[1..i + 1]) == NamesIn(rows[1..i]) + (if rows[i] != [] then {rows[i][0]} else {})
  {
    var read := rows[1..i + 1];
    assert read[..|read| - 1] == rows[1..i];
    assert read[|read| - 1] == rows[i];
  }

  /** save_failed_face(image, location, prefix): write the crop and log it. */
  method SaveFailedFace(fs: FileSystem, location: Box, prefix: string, clock: Clock, rand: nat -> nat)
    modifies fs
    ensures fs.Snapshot() == SaveFailure(old(fs.Snapshot()), location, prefix, clock, rand)
  {
    var filename := CropName(prefix, clock.time, rand(|fs.crops|));
    fs.crops := fs.crops + [Crop(clock.day, filename, location)];
    var log := LogOf(fs.failures, clock.day);
    fs.failures := fs.failures[clock.day := AppendRow(log, FailureHeader, [filename, clock.stamp, FailureReason])];
  }
}
