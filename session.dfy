/** mark_attendance_from_image and mark_attendance_from_video of attendance.py.
    Each detected face is matched against the enrolment; a match is marked in the
    day's log unless this session already marked that name, and anything else is
    archived as a failure. Face detection and encoding are not modelled: each face
    arrives with its location and its distance to every enrolled entry. */
module Session {
  import opened Matching
  import opened Ledger
  import opened Store

  /** One (location, encoding) pair of the zip, with face_distance already applied. */
  datatype Face = Face(location: Box, dists: seq<real>)

  /** cv2.VideoCapture: either it did not open, or the frames read before the first
      failed read, each as the faces detected in it. */
  datatype Video = Unopened | Opened(frames: seq<seq<Face>>)

  /** The files and the session's marked_names. */
  datatype State = State(files: Files, marked: set<string>)

  /** Every face has one distance per enrolled name. */
  predicate Fits(faces: seq<Face>, names: seq<string>)
  {
    forall i :: 0 <= i < |faces| ==> |faces[i].dists| == |names|
  }

  predicate FramesFit(frames: seq<seq<Face>>, names: seq<string>)
  {
    forall frame :: frame in frames ==> Fits(frame, names)
  }

  /** The handling of one face (attendance.py lines 113-124): an unmatched face
      only adds a failure record; a matched one touches only the attendance logs and
      can add only its own name to marked_names. */
  function HandleFace(s: State, face: Face, names: seq<string>, prefix: string, clock: Clock, rand: nat -> nat): (r: State)
    requires |face.dists| == |names|
    ensures s.marked <= r.marked
    ensures Decide(face.dists, names, Tolerance).Unmatched? ==>
      r.marked == s.marked && r.files.attendance == s.files.attendance && |r.files.crops| == |s.files.crops| + 1
    ensures Decide(face.dists, names, Tolerance).Matched? ==>
      r.files.failures == s.files.failures && r.files.crops == s.files.crops &&
      r.marked - s.marked <= {Decide(face.dists, names, Tolerance).name}
  {
    match Decide(face.dists, names, Tolerance)
    case Matched(n) =>
      if n in s.marked then s
      else
        var r := MarkFiles(s.files, n, clock);
        State(r.1, if r.0 then s.marked + {n} else s.marked)
    case Unmatched =>
      State(SaveFailure(s.files, face.location, prefix, clock, rand), s.marked)
  }

  /** The faces of one image or frame, handled in zip order: marked_names only
      grows and the crops already written stay as they were. */
  function RunFaces(s: State, faces: seq<Face>, names: seq<string>, prefix: string, clock: Clock, rand: nat -> nat): (r: State)
    requires Fits(faces, names)
    ensures s.marked <= r.marked
    ensures s.files.crops <= r.files.crops
  {
    if faces == [] then s
    else HandleFace(RunFaces(s, faces[..|faces| - 1], names, prefix, clock, rand), faces[|faces| - 1], names, prefix, clock, rand)
  }

  /** The frames whose index is a multiple of the interval, in order. With no
      frame read, the interval is never used. */
  function Sample<T>(frames: seq<T>, interval: int): (r: seq<T>)
    requires interval != 0 || frames == []
    ensures forall x :: x in r ==> x in frames
  {
    if frames == [] then []
    else
      var init := frames[..|frames| - 1];
      var rest := Sample(init, interval);
      assert forall x :: x in rest ==> x in frames by {
        forall x | x in rest ensures x in frames {
          var k :| 0 <= k < |init| && init[k] == x;
          assert frames[k] == x;
        }
      }
      rest + (if (|frames| - 1) % interval == 0 then [frames[|frames| - 1]] else [])
  }

  /** The sampled frames of a video, one after the other. */
  function RunFrames(s: State, frames: seq<seq<Face>>, names: seq<string>, clock: Clock, rand: nat -> nat): (r: State)
    requires FramesFit(frames, names)
    ensures s.marked <= r.marked
    ensures s.files.crops <= r.files.crops
  {
    if frames == [] then s
    else
      var last := frames[|frames| - 1];
      assert last in frames;
      RunFaces(RunFrames(s, frames[..|frames| - 1], names, clock, rand), last, names, "video", clock, rand)
  }

  /** A whole video session; a video that does not open changes nothing. */
  function RunVideo(s: State, video: Video, names: seq<string>, interval: int, clock: Clock, rand: nat -> nat): (r: State)
    requires interval != 0 || video.Unopened? || video.frames == []
    requires video.Opened? ==> FramesFit(video.frames, names)
    ensures s.marked <= r.marked
    ensures s.files.crops <= r.files.crops
  {
    match video
    case Unopened => s
    case Opened(frames) => RunFrames(s, Sample(frames, interval), names, clock, rand)
  }

  /** The body of the loop over the zip, for one face: argmin, the tolerance test,
      then mark (unless this session already marked the name) or archive. */
  method HandleOneFace(fs: FileSystem, face: Face, names: seq<string>, prefix: string, clock: Clock,
                       rand: nat -> nat, marked0: set<string>) returns (marked: set<string>)
    requires |face.dists| == |names|
    modifies fs
    ensures State(fs.Snapshot(), marked) == HandleFace(State(old(fs.Snapshot()), marked0), face, names, prefix, clock, rand)
  {
    marked := marked0;
    var dist := face.dists;
    if |dist| > 0 {
      var best := ArgMin(dist);
      var matches := CompareFaces(dist, Tolerance);
      if matches[best] {
        var name := names[best];
        if name !in marked {
          var ok := MarkAttendance(fs, name, clock);
          if ok {
            marked := marked + {name};
          }
        }
      } else {
        SaveFailedFace(fs, face.location, prefix, clock, rand);
      }
    } else {
      SaveFailedFace(fs, face.location, prefix, clock, rand);
    }
  }

  /** The loop over the zip of locations and encodings, shared by both sessions. */
  method ProcessFaces(fs: FileSystem, faces: seq<Face>, names: seq<string>, prefix: string, clock: Clock,
                      rand: nat -> nat, marked0: set<string>) returns (marked: set<string>)
    requires Fits(faces, names)
    modifies fs
    ensures State(fs.Snapshot(), marked) == RunFaces(State(old(fs.Snapshot()), marked0), faces, names, prefix, clock, rand)
  {
    marked := marked0;
    var i := 0;
    while i < |faces|
      invariant 0 <= i <= |faces|
      invariant State(fs.Snapshot(), marked) == RunFaces(State(old(fs.Snapshot()), marked0), faces[..i], names, prefix, clock, rand)
    {
      assert faces[..i + 1][..i] == faces[..i];
      marked := HandleOneFace(fs, faces[i], names, prefix, clock, rand, marked);
      i := i + 1;
    }
    assert faces[..i] == faces;
  }

  /** mark_attendance_from_image: the faces of one image, crops named "photo_...". */
  method MarkAttendanceFromImage(fs: FileSystem, faces: seq<Face>, names: seq<string>, clock: Clock, rand: nat -> nat)
    returns (marked: set<string>)
    requires Fits(faces, names)
    modifies fs
    ensures State(fs.Snapshot(), marked) == RunFaces(State(old(fs.Snapshot()), {}), faces, names, "photo", clock, rand)
  {
    marked := ProcessFaces(fs, faces, names, "photo", clock, rand, {});
  }

  /** mark_attendance_from_video: every frame is read and counted, only those whose
      counter is a multiple of frame_interval are processed; a video that does not
      open gives no names and touches no file. */
  method MarkAttendanceFromVideo(fs: FileSystem, video: Video, names: seq<string>, clock: Clock, rand: nat -> nat,
                                 frameInterval: int) returns (marked: set<string>)
    requires frameInterval != 0 || video.Unopened? || video.frames == []
    requires video.Opened? ==> FramesFit(video.frames, names)
    modifies fs
    ensures State(fs.Snapshot(), marked) == RunVideo(State(old(fs.Snapshot()), {}), video, names, frameInterval, clock, rand)
  {
    marked := {};
    if video.Unopened? {
      return;
    }
    var frames := video.frames;
    var frameId := 0;
    assert frames[..0] == [];
    while frameId < |frames|
      invariant 0 <= frameId <= |frames|
      invariant State(fs.Snapshot(), marked) ==
        RunFrames(State(old(fs.Snapshot()), {}), Sample(frames[..frameId], frameInterval), names, clock, rand)
    {
      var frame := frames[frameId];
      VideoStep(State(old(fs.Snapshot()), {}), frames, frameId, frameInterval, names, clock, rand);
      if frameId % frameInterval == 0 {
        marked := ProcessFaces(fs, frame, names, "video", clock, rand, marked);
      }
      frameId := frameId + 1;
    }
    assert frames[..frameId] == frames;
  }

  /** One more frame read: the run over the sampled prefix grows by that frame's
      faces exactly when its index is a multiple of the interval. */
  lemma VideoStep(s: State, frames: seq<seq<Face>>, i: int, interval: int, names: seq<string>, clock: Clock, rand: nat -> nat)
    requires interval != 0 && 0 <= i < |frames|
    requires FramesFit(frames, names)
    ensures FramesFit(Sample(frames[..i], interval), names)
    ensures FramesFit(Sample(frames[..i + 1], interval), names)
    ensures Fits(frames[i], names)
    ensures RunFrames(s, Sample(frames[..i + 1], interval), names, clock, rand) ==
      if i % interval == 0 then
        RunFaces(RunFrames(s, Sample(frames[..i], interval), names, clock, rand), frames[i], names, "video", clock, rand)
      else
        RunFrames(s, Sample(frames[..i], interval), names, clock, rand)
  {
    assert frames[i] in frames;
    var before := Sample(frames[..i], interval);
    forall x | x in before ensures x in frames {
      assert x in frames[..i];
    }
    SampleStep(frames, i, interval);
    if i % interval == 0 {
      RunFramesSnoc(s, before, frames[i], names, clock, rand);
    } else {
      assert before + [] == before;
    }
  }

  lemma SampleStep<T>(frames: seq<T>, i: int, interval: int)
    requires interval != 0 && 0 <= i < |frames|
    ensures Sample(frames[..i + 1], interval) ==
      Sample(frames[..i], interval) + (if i % interval == 0 then [frames[i]] else [])
  {
    assert frames[..i + 1][..i] == frames[..i];
  }

  lemma RunFramesSnoc(s: State, frames: seq<seq<Face>>, frame: seq<Face>, names: seq<string>, clock: Clock, rand: nat -> nat)
    requires FramesFit(frames, names) && Fits(frame, names)
    ensures FramesFit(frames + [frame], names)
    ensures RunFrames(s, frames + [frame], names, clock, rand) ==
      RunFaces(RunFrames(s, frames, names, clock, rand), frame, names, "video", clock, rand)
  {
    assert (frames + [frame])[..|frames|] == frames;
  }

  /** How a session may change the attendance logs: names only join marked_names,
      each newly marked name is enrolled, was absent from the day's log and is now
      present in it, no other name becomes present, other days' logs are untouched,
      and at most one row per name per day is kept. */
  ghost predicate Grows(s: State, t: State, names: seq<string>, day: string)
  {
    var before := Present(LogOf(s.files.attendance, day));
    s.marked <= t.marked &&
    (forall n :: n in t.marked - s.marked ==> n in names) &&
    before !! (t.marked - s.marked) &&
    Present(LogOf(t.files.attendance, day)) == before + (t.marked - s.marked) &&
    (forall d :: d != day ==> LogOf(t.files.attendance, d) == LogOf(s.files.attendance, d)) &&
    (LedgerUnique(s.files) ==> LedgerUnique(t.files))
  }

  lemma GrowsTransitive(s: State, t: State, u: State, names: seq<string>, day: string)
    requires Grows(s, t, names, day) && Grows(t, u, names, day)
    ensures Grows(s, u, names, day)
  {
  }

  /** One face: a match not yet in marked_names is marked, and joins marked_names
      exactly when mark_attendance returned true. */
  lemma HandleFaceGrows(s: State, face: Face, names: seq<string>, prefix: string, clock: Clock, rand: nat -> nat)
    requires |face.dists| == |names|
    ensures Grows(s, HandleFace(s, face, names, prefix, clock, rand), names, clock.day)
  {
    match Decide(face.dists, names, Tolerance)
    case Matched(n) =>
      if n !in s.marked {
        var log := LogOf(s.files.attendance, clock.day);
        var i :| IsFirstMinimum(face.dists, i) && face.dists[i] <= Tolerance && names[i] == n;
        assert n in names;
        PresentIffListed(log, n);
        if !Listed(log, n) {
          MarkAddsName(log, n, clock.stamp);
        }
        if LedgerUnique(s.files) {
          MarkFilesKeepsUnique(s.files, n, clock);
        }
      }
    case Unmatched =>
  }

  /** The whole zip of one image or frame keeps the ledger relation. */
  lemma {:induction false} RunFacesGrows(s: State, faces: seq<Face>, names: seq<string>, prefix: string, clock: Clock, rand: nat -> nat)
    requires Fits(faces, names)
    ensures Grows(s, RunFaces(s, faces, names, prefix, clock, rand), names, clock.day)
  {
    if faces != [] {
      var init := faces[..|faces| - 1];
      RunFacesGrows(s, init, names, prefix, clock, rand);
      var mid := RunFaces(s, init, names, prefix, clock, rand);
      HandleFaceGrows(mid, faces[|faces| - 1], names, prefix, clock, rand);
      GrowsTransitive(s, mid, RunFaces(s, faces, names, prefix, clock, rand), names, clock.day);
    }
  }

  lemma {:induction false} RunFramesGrows(s: State, frames: seq<seq<Face>>, names: seq<string>, clock: Clock, rand: nat -> nat)
    requires FramesFit(frames, names)
    ensures Grows(s, RunFrames(s, frames, names, clock, rand), names, clock.day)
  {
    if frames != [] {
      var init := frames[..|frames| - 1];
      var last := frames[|frames| - 1];
      assert last in frames;
      RunFramesGrows(s, init, names, clock, rand);
      var mid := RunFrames(s, init, names, clock, rand);
      RunFacesGrows(mid, last, names, "video", clock, rand);
      GrowsTransitive(s, mid, RunFrames(s, frames, names, clock, rand), names, clock.day);
    }
  }

  /** A video session counts a name at most once however many sampled frames show
      it; every name it returns was newly written to the day's log, and a log with
      one row per name keeps one row per name. */
  lemma VideoSessionGrows(s: State, video: Video, names: seq<string>, interval: int, clock: Clock, rand: nat -> nat)
    requires interval != 0 || video.Unopened? || video.frames == []
    requires video.Opened? ==> FramesFit(video.frames, names)
    ensures Grows(s, RunVideo(s, video, names, interval, clock, rand), names, clock.day)
  {
    if video.Opened? {
      RunFramesGrows(s, Sample(video.frames, interval), names, clock, rand);
    }
  }

  /** Under a one-row-per-name ledger, after a session each name has at most one
      row in the day's log. */
  lemma SessionKeepsOneRowPerName(f: Files, faces: seq<Face>, names: seq<string>, prefix: string, clock: Clock,
                                  rand: nat -> nat, name: string)
    requires Fits(faces, names)
    requires LedgerUnique(f)
    ensures RowsFor(LogOf(RunFaces(State(f, {}), faces, names, prefix, clock, rand).files.attendance, clock.day), name) <= 1
  {
    var t := RunFaces(State(f, {}), faces, names, prefix, clock, rand);
    RunFacesGrows(State(f, {}), faces, names, prefix, clock, rand);
    var log := LogOf(t.files.attendance, clock.day);
    assert UniqueNames(log);
    UniqueAtMostOneRow(log, name);
  }

  /** How many faces of the zip fail to match. */
  function UnmatchedCount(faces: seq<Face>, names: seq<string>): nat
    requires Fits(faces, names)
  {
    if faces == [] then 0
    else
      var last := faces[|faces| - 1];
      UnmatchedCount(faces[..|faces| - 1], names) + (if Decide(last.dists, names, Tolerance).Unmatched? then 1 else 0)
  }

  /** One face: a crop more exactly when it is unmatched, dated the session's day,
      with one row more in that day's failure log naming it; the earlier crops
      untouched. */
  lemma HandleFaceArchives(s: State, face: Face, names: seq<string>, prefix: string, clock: Clock, rand: nat -> nat)
    requires |face.dists| == |names|
    ensures var t := HandleFace(s, face, names, prefix, clock, rand);
      |t.files.crops| == |s.files.crops| + (if MatchOf(face, names).Unmatched? then 1 else 0) &&
      t.files.crops[..|s.files.crops|] == s.files.crops &&
      (forall k :: |s.files.crops| <= k < |t.files.crops| ==> t.files.crops[k].day == clock.day)
    ensures var t := HandleFace(s, face, names, prefix, clock, rand);
      FailureCount(t.files, clock.day) == FailureCount(s.files, clock.day) + (if MatchOf(face, names).Unmatched? then 1 else 0)
    ensures var t := HandleFace(s, face, names, prefix, clock, rand);
      var log := LogOf(t.files.failures, clock.day);
      MatchOf(face, names).Unmatched? ==>
        log != [] && log[|log| - 1] == [t.files.crops[|s.files.crops|].file, clock.stamp, FailureReason]
  {
    match MatchOf(face, names)
    case Matched(n) =>
      assert s.files.crops[..|s.files.crops|] == s.files.crops;
    case Unmatched =>
  }

  /** Exactly one failure record per unmatched face: one crop, dated the session's
      day, and one row in that day's failure log; the crops already on disk are
      untouched. */
  lemma {:induction false} RunFacesArchives(s: State, faces: seq<Face>, names: seq<string>, prefix: string, clock: Clock, rand: nat -> nat)
    requires Fits(faces, names)
    ensures |RunFaces(s, faces, names, prefix, clock, rand).files.crops| == |s.files.crops| + UnmatchedCount(faces, names)
    ensures RunFaces(s, faces, names, prefix, clock, rand).files.crops[..|s.files.crops|] == s.files.crops
    ensures forall k :: |s.files.crops| <= k < |RunFaces(s, faces, names, prefix, clock, rand).files.crops| ==>
      RunFaces(s, faces, names, prefix, clock, rand).files.crops[k].day == clock.day
    ensures FailureCount(RunFaces(s, faces, names, prefix, clock, rand).files, clock.day) ==
      FailureCount(s.files, clock.day) + UnmatchedCount(faces, names)
  {
    if faces != [] {
      var init := faces[..|faces| - 1];
      RunFacesArchives(s, init, names, prefix, clock, rand);
      var mid := RunFaces(s, init, names, prefix, clock, rand);
      var t := RunFaces(s, faces, names, prefix, clock, rand);
      assert t == HandleFace(mid, faces[|faces| - 1], names, prefix, clock, rand);
      HandleFaceArchives(mid, faces[|faces| - 1], names, prefix, clock, rand);
      assert t.files.crops[..|s.files.crops|] == t.files.crops[..|mid.files.crops|][..|s.files.crops|];
    }
  }

  /** With nothing enrolled, every face is archived and nobody is marked. */
  lemma {:induction false} EmptyEnrolmentArchivesAll(s: State, faces: seq<Face>, prefix: string, clock: Clock, rand: nat -> nat)
    requires Fits(faces, [])
    ensures RunFaces(s, faces, [], prefix, clock, rand).marked == s.marked
    ensures RunFaces(s, faces, [], prefix, clock, rand).files.attendance == s.files.attendance
    ensures |RunFaces(s, faces, [], prefix, clock, rand).files.crops| == |s.files.crops| + |faces|
  {
    if faces != [] {
      var init := faces[..|faces| - 1];
      EmptyEnrolmentArchivesAll(s, init, prefix, clock, rand);
      assert faces[|faces| - 1].dists == [];
    }
  }

  /** The face's enrolled match, if any. */
  function MatchOf(face: Face, names: seq<string>): MatchResult
    requires |face.dists| == |names|
  {
    Decide(face.dists, names, Tolerance)
  }

  /** mark_attendance is never called for a name already in marked_names: such a
      face changes neither the files nor marked_names. */
  lemma MarkedNameSkipped(s: State, face: Face, names: seq<string>, prefix: string, clock: Clock, rand: nat -> nat)
    requires |face.dists| == |names|
    requires MatchOf(face, names).Matched? && MatchOf(face, names).name in s.marked
    ensures HandleFace(s, face, names, prefix, clock, rand) == s
  {
  }

  /** A video that does not open gives no names and touches no file. */
  lemma UnopenedVideoUntouched(s: State, names: seq<string>, interval: int, clock: Clock, rand: nat -> nat)
    ensures RunVideo(s, Unopened, names, interval, clock, rand) == s
  {
  }

  /** Every face that matches an enrolled name matches one in p. */
  predicate MatchesWithin(faces: seq<Face>, names: seq<string>, p: set<string>)
    requires Fits(faces, names)
  {
    forall i :: 0 <= i < |faces| && MatchOf(faces[i], names).Matched? ==> MatchOf(faces[i], names).name in p
  }

  lemma MatchesWithinSnoc(faces: seq<Face>, names: seq<string>, p: set<string>, q: set<string>)
    requires Fits(faces, names) && faces != []
    requires MatchesWithin(faces[..|faces| - 1], names, p) && p <= q
    requires MatchOf(faces[|faces| - 1], names).Matched? ==> MatchOf(faces[|faces| - 1], names).name in q
    ensures MatchesWithin(faces, names, q)
  {
    var init := faces[..|faces| - 1];
    forall i | 0 <= i < |faces| && MatchOf(faces[i], names).Matched?
      ensures MatchOf(faces[i], names).name in q
    {
      if i < |init| {
        assert faces[i] == init[i];
      }
    }
  }

  /** After a session whose marked_names were all in the day's log, every matched
      face's name is in the day's log (marked now or before). */
  lemma {:induction false} MatchesEndPresent(s: State, faces: seq<Face>, names: seq<string>, prefix: string, clock: Clock, rand: nat -> nat)
    requires Fits(faces, names)
    requires s.marked <= Present(LogOf(s.files.attendance, clock.day))
    ensures RunFaces(s, faces, names, prefix, clock, rand).marked <=
      Present(LogOf(RunFaces(s, faces, names, prefix, clock, rand).files.attendance, clock.day))
    ensures MatchesWithin(faces, names, Present(LogOf(RunFaces(s, faces, names, prefix, clock, rand).files.attendance, clock.day)))
  {
    if faces != [] {
      var init := faces[..|faces| - 1];
      var last := faces[|faces| - 1];
      MatchesEndPresent(s, init, names, prefix, clock, rand);
      var mid := RunFaces(s, init, names, prefix, clock, rand);
      var t := RunFaces(s, faces, names, prefix, clock, rand);
      assert t == HandleFace(mid, last, names, prefix, clock, rand);
      HandleFacePresent(mid, last, names, prefix, clock, rand);
      MatchesWithinSnoc(faces, names, Present(LogOf(mid.files.attendance, clock.day)), Present(LogOf(t.files.attendance, clock.day)));
    }
  }

  /** Handling one face never removes a name from the day's log, keeps
      marked_names within it, and leaves a matched face's name in it. */
  lemma HandleFacePresent(s: State, face: Face, names: seq<string>, prefix: string, clock: Clock, rand: nat -> nat)
    requires |face.dists| == |names|
    requires s.marked <= Present(LogOf(s.files.attendance, clock.day))
    ensures var t := HandleFace(s, face, names, prefix, clock, rand);
      Present(LogOf(s.files.attendance, clock.day)) <= Present(LogOf(t.files.attendance, clock.day)) &&
      t.marked <= Present(LogOf(t.files.attendance, clock.day)) &&
      (MatchOf(face, names).Matched? ==> MatchOf(face, names).name in Present(LogOf(t.files.attendance, clock.day)))
  {
    match MatchOf(face, names)
    case Matched(n) =>
      var log := LogOf(s.files.attendance, clock.day);
      PresentIffListed(log, n);
      if n !in s.marked && !Listed(log, n) {
        MarkAddsName(log, n, clock.stamp);
      }
    case Unmatched =>
  }

  /** If every matched name is already in the day's log, a session marks nobody
      and leaves the attendance logs as they were. */
  lemma {:induction false} AlreadyPresentAddsNothing(s: State, faces: seq<Face>, names: seq<string>, prefix: string, clock: Clock, rand: nat -> nat)
    requires Fits(faces, names)
    requires MatchesWithin(faces, names, Present(LogOf(s.files.attendance, clock.day)))
    ensures RunFaces(s, faces, names, prefix, clock, rand).marked == s.marked
    ensures RunFaces(s, faces, names, prefix, clock, rand).files.attendance == s.files.attendance
  {
    if faces != [] {
      var init := faces[..|faces| - 1];
      var last := faces[|faces| - 1];
      forall i | 0 <= i < |init| && MatchOf(init[i], names).Matched?
        ensures MatchOf(init[i], names).name in Present(LogOf(s.files.attendance, clock.day))
      {
        assert init[i] == faces[i];
      }
      AlreadyPresentAddsNothing(s, init, names, prefix, clock, rand);
      var mid := RunFaces(s, init, names, prefix, clock, rand);
      match MatchOf(last, names)
      case Matched(n) =>
        PresentIffListed(LogOf(mid.files.attendance, clock.day), n);
      case Unmatched =>
    }
  }

  /** Running the same image again on the same day marks nobody and adds no
      attendance row. */
  lemma RerunSameDayMarksNothing(f: Files, faces: seq<Face>, names: seq<string>, clock: Clock, later: Clock, rand: nat -> nat)
    requires Fits(faces, names)
    requires later.day == clock.day
    ensures var first := RunFaces(State(f, {}), faces, names, "photo", clock, rand);
      var second := RunFaces(State(first.files, {}), faces, names, "photo", later, rand);
      second.marked == {} && second.files.attendance == first.files.attendance
  {
    MatchesEndPresent(State(f, {}), faces, names, "photo", clock, rand);
    var first := RunFaces(State(f, {}), faces, names, "photo", clock, rand);
    AlreadyPresentAddsNothing(State(first.files, {}), faces, names, "photo", later, rand);
  }

  lemma DivideStep(n: nat, k: int)
    requires k > 0
    ensures (n + k) / k == (n + k - 1) / k + (if n % k == 0 then 1 else 0)
    ensures n % k == 0 ==> (n + k - 1) / k * k == n
  {
    var q, r := n / k, n % k;
    assert n == q * k + r;
    if r == 0 {
      assert n + k - 1 == q * k + (k - 1);
      assert n + k == (q + 1) * k + 0;
      DivideExact(q, k, k - 1);
      DivideExact(q + 1, k, 0);
    } else {
      assert n + k - 1 == (q + 1) * k + (r - 1);
      assert n + k == (q + 1) * k + r;
      DivideExact(q + 1, k, r - 1);
      DivideExact(q + 1, k, r);
    }
  }

  lemma {:induction false} MulBounds(a: int, k: int)
    requires k > 0
    ensures a >= 1 ==> a * k >= k
    ensures a <= -1 ==> a * k <= -k
    decreases if a < 0 then -a else a
  {
    if a > 1 {
      MulBounds(a - 1, k);
      assert a * k == (a - 1) * k + k;
    } else if a < -1 {
      MulBounds(a + 1, k);
      assert a * k == (a + 1) * k - k;
    }
  }

  lemma DivideExact(q: int, k: int, r: int)
    requires k > 0 && 0 <= r < k
    ensures (q * k + r) / k == q
  {
    var m := q * k + r;
    var d, e := m / k, m % k;
    assert m == d * k + e && 0 <= e < k;
    assert (d - q) * k == r - e;
    MulBounds(d - q, k);
  }

  function Abs(k: int): nat
  {
    if k < 0 then -k else k
  }

  /** frame_id % frame_interval == 0 holds for the same frames whatever the sign of
      the interval, so a negative interval samples as its magnitude does. */
  lemma {:induction false} SampleNegated<T>(frames: seq<T>, interval: int)
    requires interval != 0
    ensures Sample(frames, -interval) == Sample(frames, interval)
  {
    if frames != [] {
      SampleNegated(frames[..|frames| - 1], interval);
    }
  }

  /** Video sampling: of N frames read, exactly ceil(N / |interval|) are processed,
      and they are the frames at 0, |interval|, 2 * |interval|, ... */
  lemma SampleIndices<T>(frames: seq<T>, interval: int)
    requires interval != 0
    ensures |Sample(frames, interval)| == (|frames| + Abs(interval) - 1) / Abs(interval)
    ensures forall j :: 0 <= j < |Sample(frames, interval)| ==>
      j * Abs(interval) < |frames| && Sample(frames, interval)[j] == frames[j * Abs(interval)]
  {
    if interval < 0 {
      SampleNegated(frames, -interval);
    }
    SampleIndicesPositive(frames, Abs(interval));
  }

  lemma {:induction false} SampleIndicesPositive<T>(frames: seq<T>, interval: int)
    requires interval > 0
    ensures |Sample(frames, interval)| == (|frames| + interval - 1) / interval
    ensures forall j :: 0 <= j < |Sample(frames, interval)| ==>
      j * interval < |frames| && Sample(frames, interval)[j] == frames[j * interval]
  {
    if frames == [] {
      assert (interval - 1) / interval == 0 by { DivideExact(0, interval, interval - 1); }
    } else {
      var n := |frames| - 1;
      var init := frames[..n];
      assert frames[..n + 1][..n] == init;
      SampleIndicesPositive(init, interval);
      DivideStep(n, interval);
      var r := Sample(frames, interval);
      var rest := Sample(init, interval);
      assert r == rest + (if n % interval == 0 then [frames[n]] else []);
      forall j | 0 <= j < |r| ensures j * interval < |frames| && r[j] == frames[j * interval] {
        if j < |rest| {
          assert r[j] == rest[j] == init[j * interval];
        } else {
          assert j == |rest| && n % interval == 0;
          assert j * interval == n;
        }
      }
    }
  }
}
