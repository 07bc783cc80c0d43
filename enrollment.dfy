/** load_known_faces of attendance.py: a scan of the enrolment folder, one
    sub-directory per person, that keeps the first face encoding of every reference
    image it can use and skips, without stopping, every file it cannot. What the
    image libraries do with a file (open, verify, RGB conversion, resizing, the
    shape check, face detection and encoding) is collapsed into one outcome per file. */
module Enrollment {

  type Encoding = seq<real>

  /** What processing one reference file comes to. Unreadable: Image.open or verify
      raises. BadShape: the converted array is not height x width x 3. NoFace:
      face_locations finds nothing. Faces: faces were located, and these are the
      encodings face_encodings returned for them (possibly none). */
  datatype Outcome = Unreadable | BadShape | NoFace | Faces(encodings: seq<Encoding>)

  datatype ImageFile = ImageFile(filename: string, outcome: Outcome)

  /** An entry of the enrolment folder: a person's directory or anything else. */
  datatype Listing = PersonDir(person: string, files: seq<ImageFile>) | OtherEntry(entryName: string)

  /** The enrolment folder, when it exists, as os.listdir orders it. */
  datatype Corpus = NoFolder | Folder(entries: seq<Listing>)

  /** One entry of the result: known_face_names[k] and known_face_encodings[k]. */
  datatype Enrolled = Enrolled(name: string, encoding: Encoding)

  /** str.lower on ASCII letters. */
  function LowerChar(c: char): (l: char)
    ensures 'A' <= c <= 'Z' ==> l as int == c as int + 32
    ensures !('A' <= c <= 'Z') ==> l == c
  {
    if 'A' <= c <= 'Z' then (c as int + 32) as char else c
  }

  function Lower(s: string): (l: string)
    ensures |l| == |s|
    ensures forall i :: 0 <= i < |s| ==> l[i] == LowerChar(s[i])
  {
    if s == [] then [] else Lower(s[..|s| - 1]) + [LowerChar(s[|s| - 1])]
  }

  predicate EndsWith(s: string, suffix: string)
  {
    |suffix| <= |s| && s[|s| - |suffix|..] == suffix
  }

  /** filename.lower().endswith(('.png', '.jpg', '.jpeg')) */
  predicate IsImageName(filename: string)
  {
    var l := Lower(filename);
    EndsWith(l, ".png") || EndsWith(l, ".jpg") || EndsWith(l, ".jpeg")
  }

  /** The suffix test ignores letter case: two names that agree after lowering
      are accepted or refused together. */
  lemma ImageNameIgnoresCase(a: string, b: string)
    requires |a| == |b|
    requires forall i :: 0 <= i < |a| ==> LowerChar(a[i]) == LowerChar(b[i])
    ensures IsImageName(a) <==> IsImageName(b)
  {
    assert Lower(a) == Lower(b);
  }

  /** The file has an image suffix, faces were found in it and encoded. */
  predicate Accepted(f: ImageFile)
  {
    IsImageName(f.filename) && f.outcome.Faces? && f.outcome.encodings != []
  }

  /** What one file contributes: its first encoding when it is accepted, nothing
      otherwise. */
  function Kept(person: string, f: ImageFile): (r: seq<Enrolled>)
    ensures |r| <= 1
    ensures |r| == 1 <==> Accepted(f)
    ensures |r| == 1 ==> r[0] == Enrolled(person, f.outcome.encodings[0])
  {
    if Accepted(f) then [Enrolled(person, f.outcome.encodings[0])] else []
  }

  /** The entries one person's directory contributes, in listing order: at most
      one per file, each under that person's name. */
  function FromFiles(person: string, files: seq<ImageFile>): (r: seq<Enrolled>)
    ensures |r| <= |files|
    ensures forall k :: 0 <= k < |r| ==> r[k].name == person
  {
    if files == [] then []
    else FromFiles(person, files[..|files| - 1]) + Kept(person, files[|files| - 1])
  }

  /** Person directory names the scan could enter. */
  predicate IsPersonDir(entries: seq<Listing>, name: string)
  {
    exists i :: 0 <= i < |entries| && entries[i].PersonDir? && entries[i].person == name
  }

  /** The scan of the enrolment folder, entry by entry: every enrolled name is the
      name of a person directory in it; other entries contribute nothing. */
  function FromListings(entries: seq<Listing>): (r: seq<Enrolled>)
    ensures forall k :: 0 <= k < |r| ==> IsPersonDir(entries, r[k].name)
  {
    if entries == [] then []
    else
      var last := entries[|entries| - 1];
      FromListings(entries[..|entries| - 1]) +
        (match last case PersonDir(person, files) => FromFiles(person, files) case OtherEntry(_) => [])
  }

  /** The whole enrolment: nothing when the folder is missing, and otherwise only
      names of person directories. */
  function Enrol(corpus: Corpus): (r: seq<Enrolled>)
    ensures corpus.NoFolder? ==> r == []
    ensures corpus.Folder? ==> forall k :: 0 <= k < |r| ==> IsPersonDir(corpus.entries, r[k].name)
  {
    match corpus
    case NoFolder => []
    case Folder(entries) => FromListings(entries)
  }

  function Names(es: seq<Enrolled>): (r: seq<string>)
    ensures |r| == |es| && forall k :: 0 <= k < |es| ==> r[k] == es[k].name
  {
    seq(|es|, k requires 0 <= k < |es| => es[k].name)
  }

  function Encodings(es: seq<Enrolled>): (r: seq<Encoding>)
    ensures |r| == |es| && forall k :: 0 <= k < |es| ==> r[k] == es[k].encoding
  {
    seq(|es|, k requires 0 <= k < |es| => es[k].encoding)
  }

  /** The inner loop of the scan, over one person's directory: a file that fails
      is passed over and the scan goes on; the lists grow by what the directory
      contributes. */
  method LoadPersonFaces(person: string, files: seq<ImageFile>, encodings0: seq<Encoding>, names0: seq<string>)
    returns (encodings: seq<Encoding>, names: seq<string>)
    ensures encodings == encodings0 + Encodings(FromFiles(person, files))
    ensures names == names0 + Names(FromFiles(person, files))
  {
    encodings, names := encodings0, names0;
    var j := 0;
    while j < |files|
      invariant 0 <= j <= |files|
      invariant encodings == encodings0 + Encodings(FromFiles(person, files[..j]))
      invariant names == names0 + Names(FromFiles(person, files[..j]))
    {
      var f := files[j];
      PersonStep(person, files, j, encodings0, names0);
      if IsImageName(f.filename) {
        match f.outcome {
          case Faces(found) =>
            if found != [] {
              encodings := encodings + [found[0]];
              names := names + [person];
            }
            // else: faces were located but none was encoded, nothing is appended
          case _ =>
            // a decode failure, a bad shape or no face raised, and the handler moved on
        }
      }
      j := j + 1;
    }
    assert files[..j] == files;
  }

  /** One more file of the directory: both lists grow by the file's first encoding
      and the person exactly when the file is accepted. */
  lemma PersonStep(person: string, files: seq<ImageFile>, j: int, encodings0: seq<Encoding>, names0: seq<string>)
    requires 0 <= j < |files|
    ensures encodings0 + Encodings(FromFiles(person, files[..j + 1])) ==
      encodings0 + Encodings(FromFiles(person, files[..j])) +
        (if Accepted(files[j]) then [files[j].outcome.encodings[0]] else [])
    ensures names0 + Names(FromFiles(person, files[..j + 1])) ==
      names0 + Names(FromFiles(person, files[..j])) + (if Accepted(files[j]) then [person] else [])
  {
    var before := FromFiles(person, files[..j]);
    FromFilesStep(person, files, j);
    KeptStep(before, person, files[j]);
    AppendAssoc(encodings0, Encodings(before), if Accepted(files[j]) then [files[j].outcome.encodings[0]] else []);
    AppendAssoc(names0, Names(before), if Accepted(files[j]) then [person] else []);
  }

  lemma AppendAssoc<T>(a: seq<T>, b: seq<T>, c: seq<T>)
    ensures a + b + c == a + (b + c)
  {
  }

  /** The nested scan with its two parallel lists. */
  method LoadKnownFaces(corpus: Corpus) returns (encodings: seq<Encoding>, names: seq<string>)
    ensures |encodings| == |names| == |Enrol(corpus)|
    ensures forall k :: 0 <= k < |names| ==> Enrol(corpus)[k] == Enrolled(names[k], encodings[k])
  {
    encodings, names := [], [];
    if corpus.NoFolder? {
      return;
    }
    var entries := corpus.entries;
    var i := 0;
    while i < |entries|
      invariant 0 <= i <= |entries|
      invariant names == Names(FromListings(entries[..i]))
      invariant encodings == Encodings(FromListings(entries[..i]))
    {
      FromListingsStep(entries, i);
      if entries[i].PersonDir? {
        ProjectionsAppend(FromListings(entries[..i]), FromFiles(entries[i].person, entries[i].files));
        encodings, names := LoadPersonFaces(entries[i].person, entries[i].files, encodings, names);
      }
      i := i + 1;
    }
    assert entries[..i] == entries;
  }

  lemma FromFilesStep(person: string, files: seq<ImageFile>, j: int)
    requires 0 <= j < |files|
    ensures FromFiles(person, files[..j + 1]) == FromFiles(person, files[..j]) + Kept(person, files[j])
  {
    assert files[..j + 1][..j] == files[..j];
  }

  lemma FromListingsStep(entries: seq<Listing>, i: int)
    requires 0 <= i < |entries|
    ensures FromListings(entries[..i + 1]) == FromListings(entries[..i]) +
      (match entries[i] case PersonDir(person, files) => FromFiles(person, files) case OtherEntry(_) => [])
  {
    assert entries[..i + 1][..i] == entries[..i];
  }

  /** The two lists after one more file, in terms of the accumulated entries. */
  lemma KeptStep(acc: seq<Enrolled>, person: string, f: ImageFile)
    ensures Names(acc + Kept(person, f)) == Names(acc) + (if Accepted(f) then [person] else [])
    ensures Encodings(acc + Kept(person, f)) ==
      Encodings(acc) + (if Accepted(f) then [f.outcome.encodings[0]] else [])
  {
    ProjectionsAppend(acc, Kept(person, f));
  }

  lemma ProjectionsAppend(es: seq<Enrolled>, more: seq<Enrolled>)
    ensures Names(es + more) == Names(es) + Names(more)
    ensures Encodings(es + more) == Encodings(es) + Encodings(more)
  {
    assert forall k :: 0 <= k < |more| ==> (es + more)[|es| + k] == more[k];
  }

  /** The two lists stay parallel and no accepted file yields more than one entry:
      the enrolment never exceeds the number of files with an image suffix. */
  function ImageFileCount(files: seq<ImageFile>): nat
  {
    if files == [] then 0
    else ImageFileCount(files[..|files| - 1]) + (if IsImageName(files[|files| - 1].filename) then 1 else 0)
  }

  lemma {:induction false} FromFilesBound(person: string, files: seq<ImageFile>)
    ensures |FromFiles(person, files)| <= ImageFileCount(files)
  {
    if files != [] {
      FromFilesBound(person, files[..|files| - 1]);
    }
  }

  /** File f, with an image suffix, yielded encoding e as its first encoding. */
  predicate Supplies(f: ImageFile, e: Encoding)
  {
    Accepted(f) && f.outcome.encodings[0] == e
  }

  /** Every enrolled entry comes from a file with an image suffix in a directory
      of that person, whose first encoding it is. */
  lemma {:induction false} FromFilesSound(person: string, files: seq<ImageFile>, k: int)
    requires 0 <= k < |FromFiles(person, files)|
    ensures FromFiles(person, files)[k].name == person
    ensures exists i :: 0 <= i < |files| && Supplies(files[i], FromFiles(person, files)[k].encoding)
  {
    var init := files[..|files| - 1];
    if k < |FromFiles(person, init)| {
      FromFilesSound(person, init, k);
      var i :| 0 <= i < |init| && Supplies(init[i], FromFiles(person, init)[k].encoding);
      assert files[i] == init[i];
    } else {
      assert Supplies(files[|files| - 1], FromFiles(person, files)[k].encoding);
    }
  }

  /** Scanning files a then b is scanning a, then scanning b: per-file results
      do not depend on one another. */
  lemma {:induction false} FromFilesAppend(person: string, a: seq<ImageFile>, b: seq<ImageFile>)
    ensures FromFiles(person, a + b) == FromFiles(person, a) + FromFiles(person, b)
  {
    if b != [] {
      var b' := b[..|b| - 1];
      assert (a + b)[..|a + b| - 1] == a + b';
      FromFilesAppend(person, a, b');
    } else {
      assert a + b == a;
    }
  }

  /** A failing file never aborts the scan: the result is the same as if the file
      were not in the directory at all. */
  lemma FailureIsSkipped(person: string, before: seq<ImageFile>, bad: ImageFile, after: seq<ImageFile>)
    requires !Accepted(bad)
    ensures FromFiles(person, before + [bad] + after) == FromFiles(person, before + after)
  {
    var withBad := before + [bad];
    assert withBad[..|before|] == before;
    assert FromFiles(person, withBad) == FromFiles(person, before);
    FromFilesAppend(person, withBad, after);
    FromFilesAppend(person, before, after);
  }

  /** A missing enrolment folder yields two empty lists. */
  lemma MissingFolderEmpty()
    ensures Enrol(NoFolder) == []
  {
  }
}
