# Face-recognition attendance: a Dafny model of attendance.py

The program in `attendance.py` does four things:

- It builds a reference enrolment from a folder of per-person images.
- It matches every face detected in a photo or a video against that enrolment.
- It writes one attendance row per recognised person per day to a CSV log.
- It archives every unrecognised face as a crop, with a row in a per-day failure log.

This project models the decision logic of those steps. It proves what the program promises about them.

Modules:

- `Matching` (`matching.dfy`): the per-face decision.
  - numpy's `argmin` is the first index of the least distance.
  - `face_recognition.compare_faces` is an assumed library contract: an entry matches iff its distance is at most the tolerance, `TOLERANCE = 0.55`.
  - An empty enrolment or a rejected nearest entry gives `Unmatched`.
- `Ledger` (`ledger.dfy`): a day's attendance log as a sequence of CSV rows.
  - The reader skips the first row and ignores empty rows.
  - `Mark` is `mark_attendance` as a value: it refuses a name already in the first column of a data row. Otherwise it appends `[name, timestamp]`, after the `Name,Timestamp` header when the log is empty.
  - The invariant: at most one row per name per day.
- `Store` (`store.dfy`): the files the program writes.
  - These are the attendance logs per day, the failure logs per day and the crop images.
  - They are held as a value `Files` and as a class `FileSystem` whose fields the methods update in place.
  - `MarkAttendance` is `mark_attendance` as a method. Its loop reads the day's log.
  - `SaveFailedFace` is `save_failed_face`. It writes the crop and appends the `Filename,Timestamp,Reason` row with the reason `Unknown Face`.
- `Session` (`session.dfy`): `mark_attendance_from_image` and `mark_attendance_from_video`.
  - Every face goes through the loop over the `zip`. A match is marked unless `marked_names` already holds the name. Anything else is archived.
  - The video function processes only the frames whose counter is a multiple of `frame_interval`.
  - Each method is proved against a fold over the faces (`RunFaces`) and over the sampled frames (`RunFrames`, `Sample`). The session properties are lemmas about those folds.
- `Enrollment` (`enrollment.dfy`): `load_known_faces`.
  - The nested scan keeps a file only when its lower-cased name ends in `.png`, `.jpg` or `.jpeg`.
  - The image libraries' handling of a file is collapsed into one outcome: unreadable, bad shape, no face, or faces with their encodings.
  - The scan keeps only the first encoding, appended to two parallel lists. Every failing file is passed over.

The two session functions repeat the same loop body. The model writes it once, as `Session.HandleOneFace` inside `Session.ProcessFaces`, with the crop prefix (`"photo"` or `"video"`) as a parameter.

## Model

| member | source | states |
|---|---|---|
| Matching.CompareFaces | attendance.py:113 | one flag per enrolled entry; entry i matches iff its distance is at most the tolerance (assumed library contract) |
| Matching.ArgMin | attendance.py:117 | the result holds the least distance and no earlier index holds it (ties go to the lowest index) |
| Matching.FirstMinimumUnique | attendance.py:117 | the first minimum is unique, so the choice of best is deterministic |
| Matching.Decide | attendance.py:113-124 | a face is matched iff some entry is within tolerance; when matched, the name is the one at the first least distance, and that distance is within tolerance; an empty enrolment is never matched |
| Matching.EmptyEnrolmentUnmatched | attendance.py:115-124 | with no enrolled entries every face is unmatched, whatever the tolerance |
| Matching.TieGoesToLowerIndex | attendance.py:117-120 | two entries tied at the least distance within tolerance: the lower index's name is taken |
| Matching.SoleEntryThreshold | attendance.py:113-124 | the threshold is inclusive: a distance equal to the tolerance is accepted, a larger one is not |
| Matching.NearestWins | attendance.py:113-120 | the strictly nearest entry wins even when other entries are also within tolerance |
| Ledger.AppendRow | attendance.py:101-104 | the csv append keeps every earlier row, puts the new row last, and writes the header first exactly when the log was empty |
| Ledger.NamesIn | attendance.py:92-94 | a name is collected iff it is the first cell of some non-empty row |
| Ledger.Present | attendance.py:86-94 | defines `already_present`: nothing for an empty log, otherwise the first cells of the non-empty rows after the header (characterised by PresentIffListed) |
| Ledger.PresentIffListed | attendance.py:89-94 | the collected set, with the first row skipped, holds exactly the names in column 0 of a non-empty data row |
| Ledger.Mark | attendance.py:84-105 | returns false and leaves the log unchanged iff the name is already listed; otherwise appends exactly `[name, timestamp]`, after the `Name,Timestamp` header when the log was empty |
| Ledger.MarkAddsName | attendance.py:96-105 | a successful mark adds exactly its name to the names present |
| Ledger.MarkKeepsUnique | attendance.py:84-105 | mark preserves the invariant of at most one data row per name |
| Ledger.NoRowsIffAbsent | attendance.py:88-97 | a log has no row for a name iff the reader does not collect it |
| Ledger.MarkIdempotent | attendance.py:84-105 | on an absent name, the first mark returns true, the second returns false and changes nothing, and exactly one row for the name remains |
| Ledger.UniqueAtMostOneRow | attendance.py:84-105 | under the invariant, every name has at most one row in the day's log |
| Store.Decimal | attendance.py:24 | `str()` of the random draw: one or more decimal digits, a single digit exactly below 10, at most three below 1000 |
| Store.CropName | attendance.py:24 | the crop file name is the prefix, "_", the time of day, "_", one to three decimal digits, then ".jpg" |
| Store.MarkFiles | attendance.py:78-105 | mark_attendance on the files changes only today's attendance log, as Mark does, and returns true iff the name was not listed |
| Store.FailureCount | attendance.py:29-34 | defines the number of failure records in a day's failure log: its rows after the header |
| Store.SaveFailure | attendance.py:14-34 | exactly one failure record more in today's log; one crop more, dated today, with the given location, earlier crops kept; today's failure log gains the row `[crop file, timestamp, "Unknown Face"]` after its header when it was empty; attendance logs and other days untouched |
| Store.FailureCropNamed | attendance.py:14-24 | the crop save_failed_face writes starts with `prefix + "_" + time + "_"` and ends in ".jpg", so image crops are named "photo_..." and video crops "video_..." |
| Store.MarkFilesKeepsUnique | attendance.py:84-105 | marking keeps one row per name in every day's log |
| Store.ReadPresent | attendance.py:86-94 | the loop over the reader yields exactly the names listed in column 0 of a non-empty data row |
| Store.MarkAttendance | attendance.py:84-105 | the method's result and new files are those of MarkFiles on the old files |
| Store.SaveFailedFace | attendance.py:14-34 | the method's new files are those of SaveFailure on the old files |
| Session.HandleFace | attendance.py:113-124 | defines the handling of one face; an unmatched face leaves marked_names and the attendance logs alone and adds one crop; a matched face leaves failures and crops alone and can add only its own name to marked_names |
| Session.RunFaces | attendance.py:112-124 | defines the loop over the zip as a fold of HandleFace in zip order; marked_names only grows and earlier crops are kept |
| Session.Sample | attendance.py:135-141 | defines the frames whose counter is a multiple of frame_interval, in reading order; only frames of the video are ever processed, and with no frame read the interval is never used |
| Session.RunFrames | attendance.py:135-160 | defines the processed frames of a video handled one after the other with the prefix "video"; marked_names only grows and earlier crops are kept |
| Session.RunVideo | attendance.py:127-163 | defines a whole video session: nothing for a video that does not open, otherwise the run over the sampled frames; marked_names only grows and earlier crops are kept |
| Session.HandleOneFace | attendance.py:112-124 | one face changes files and marked_names as HandleFace prescribes: skip a name already marked, mark a new match and add it iff mark returned true, archive anything else |
| Session.ProcessFaces | attendance.py:112-124 | the loop over the zip leaves files and marked_names as the fold of HandleFace over the faces in zip order |
| Session.MarkAttendanceFromImage | attendance.py:107-125 | the image session starts from an empty marked_names and ends as the fold over its faces, with crops named "photo" |
| Session.MarkAttendanceFromVideo | attendance.py:127-163 | the video session ends as the fold over the frames whose counter is a multiple of frame_interval; a video that does not open changes nothing |
| Session.GrowsTransitive | attendance.py:107-163 | the session relation between states composes |
| Session.HandleFaceGrows | attendance.py:118-121 | one face: a newly marked name is enrolled, was absent from today's log and is now present; no other name appears; other days untouched; one row per name kept |
| Session.RunFacesGrows | attendance.py:112-124 | the same relation holds across the whole zip of an image |
| Session.RunFramesGrows | attendance.py:135-160 | the same relation holds across the processed frames of a video, so a name is counted at most once however many frames show it |
| Session.VideoSessionGrows | attendance.py:127-163 | a whole video session keeps the relation: every returned name is enrolled and was newly written to today's log |
| Session.SessionKeepsOneRowPerName | attendance.py:107-125 | after a session on a one-row-per-name ledger, every name has at most one row in today's log |
| Session.HandleFaceArchives | attendance.py:122-124 | one face adds a failure record exactly when it is unmatched: one crop dated today, and one row in today's failure log naming that crop with the timestamp and "Unknown Face"; earlier crops are untouched |
| Session.RunFacesArchives | attendance.py:112-124 | a session writes exactly one crop and one failure-log row per unmatched face, all dated today, and keeps the earlier crops |
| Session.EmptyEnrolmentArchivesAll | attendance.py:115-124 | with nothing enrolled, every face is archived, no name is marked and no attendance log changes |
| Session.MarkedNameSkipped | attendance.py:119 | a match whose name is already in marked_names changes neither the files nor marked_names |
| Session.UnopenedVideoUntouched | attendance.py:131-133 | a video that does not open gives no names and touches no file |
| Session.HandleFacePresent | attendance.py:118-121 | handling a face never removes a name from today's log, and a matched face's name is in it afterwards |
| Session.MatchesEndPresent | attendance.py:107-125 | after a session every matched face's name is in today's log |
| Session.AlreadyPresentAddsNothing | attendance.py:96-119 | when every matched name is already in today's log, a session marks nobody and leaves the attendance logs as they were |
| Session.RerunSameDayMarksNothing | attendance.py:84-125 | running the same image again on the same day marks nobody and adds no attendance row |
| Session.SampleNegated | attendance.py:141 | a negative frame_interval processes the same frames as its magnitude |
| Session.SampleIndices | attendance.py:135-141 | of N frames read, ceil(N / k) are processed, where k is the magnitude of frame_interval, and the j-th processed frame is the one read at j * k, for either sign of the interval |
| Enrollment.LowerChar | attendance.py:47 | ASCII upper-case letters are lowered and every other character is kept |
| Enrollment.Lower | attendance.py:47 | lowering keeps the length and lowers every character |
| Enrollment.ImageNameIgnoresCase | attendance.py:47 | two file names equal up to letter case are accepted or refused together |
| Enrollment.IsImageName | attendance.py:47 | defines the suffix test: the lower-cased file name ends in ".png", ".jpg" or ".jpeg" |
| Enrollment.Kept | attendance.py:47-71 | a file contributes at most one entry, exactly when its suffix is an image suffix and faces were found and encoded, and that entry is the person with the first encoding |
| Enrollment.FromFiles | attendance.py:46-74 | defines what one person directory contributes, file by file in listing order; at most one entry per file, each under the person's name |
| Enrollment.FromListings | attendance.py:43-74 | defines the scan of the folder, entry by entry in listing order; every enrolled name is the name of a person directory, and other entries contribute nothing |
| Enrollment.Enrol | attendance.py:36-76 | defines the whole enrolment: nothing when the folder is missing, otherwise the folder scan, whose names are all person directories |
| Enrollment.LoadPersonFaces | attendance.py:46-74 | the inner loop appends to both lists exactly what the person's files contribute, in listing order |
| Enrollment.LoadKnownFaces | attendance.py:36-76 | the two lists have the same length, and entry k of them is the k-th entry of the enrolment in folder order |
| Enrollment.FromFilesBound | attendance.py:46-71 | a directory contributes at most one entry per file with an image suffix |
| Enrollment.FromFilesSound | attendance.py:45-71 | every entry names the person of its directory and is the first encoding of one of its files with an image suffix |
| Enrollment.FromFilesAppend | attendance.py:46-74 | the files' contributions are independent of one another: scanning two runs of files is scanning each |
| Enrollment.FailureIsSkipped | attendance.py:48-74 | a failing file does not abort the scan: the result is the same as without that file |
| Enrollment.MissingFolderEmpty | attendance.py:40-41 | a missing enrolment folder yields two empty lists |

## Left out

- Face detection, encoding and `face_distance` are not modelled. Each face arrives as its location and one distance per enrolled entry. `compare_faces` is assumed to be the `<=` comparison of those distances with the tolerance.
- Floating point: distances are `real`. The rounding of numpy's float64 arithmetic is not modelled.
- PIL decoding and `verify`, RGB conversion, the numpy shape and dtype checks, and the `ImageOps.contain` resize are collapsed into one outcome per file. The per-file outcome is the one observed after the resize (larger side > 1000, fitted into 800 x 800); the resize itself is not modelled.
- Image pixels are not modelled. A crop is recorded by its day, file name and location, not by `image[top:bottom, left:right]`. The cv2 colour conversion, `imwrite` and `VideoCapture` reads are not modelled either. A video is the sequence of frames read before the first failed read.
- Filesystem mechanics are not modelled: `os.makedirs`, paths and opening files. A log file that does not exist reads as no rows. "Empty log" stands for `os.path.getsize == 0`.
- Store.MarkAttendance, Store.SaveFailedFace: `datetime.now()` is read once per session, as a `Clock` parameter (day, time, timestamp). The program reads the clock separately for the file name, the timestamp and the crop name, so a session that crosses midnight is not modelled.
- Store.SaveFailure: `np.random.randint(1000)` is a parameter `rand`. It is applied to the number of crops written so far and taken modulo 1000. Two crops with the same name in the same second, which overwrite each other on disk, stay two entries in the model.
- Session.MarkAttendanceFromVideo requires `frame_interval != 0` when the video opens and has at least one frame. With 0, the program raises ZeroDivisionError on the first frame read; that exception is not modelled. A video that does not open, or has no frame, is modelled for every interval.
- Enrollment.Lower folds only the ASCII letters A-Z. Python's `str.lower` also folds other Unicode letters.
- Matching.Decide and Session.Fits assume that the enrolled encodings and names are parallel lists of one length. The session functions take them as two arguments. With more names than encodings the program still works; with fewer, line 118 raises `IndexError`. `load_known_faces`, the only producer of the two lists, keeps them parallel, so no caller in the program breaks this.
- Both session functions return `list(marked_names)`, whose order depends on set iteration. The model returns the set.
- Console diagnostics (`print`) are not modelled. This includes the error handler's message at line 74, which can itself raise `UnicodeEncodeError` on a console that is not UTF-8 and then abort the scan; the model assumes printing never fails.
- The read-then-append race between concurrent callers of `mark_attendance` is not modelled. The model is sequential.
- The order of `os.listdir` is not modelled; the model takes the listing order as given. Whether an entry is a directory is given by the listing.
- Enrollment.LoadKnownFaces: the two `os.listdir` calls (lines 43 and 46) run outside the `try`. A listing error, or an enrolment folder that is a plain file, aborts the whole load with an exception. The model's `Corpus` has no way to express a failing listing, so that abort is not modelled.
