/** The per-face identity decision of attendance.py: among the distances from one
    detected face to every enrolled encoding, take the first position of the least
    distance (numpy.argmin) and accept the enrolled name there iff that distance is
    within the tolerance (face_recognition.compare_faces). How the distances are
    computed is not modelled: they are an input, one per enrolled entry. */
module Matching {

  /** TOLERANCE: the largest distance still accepted as the same person. */
  const Tolerance: real := 0.55

  datatype MatchResult = Matched(name: string) | Unmatched

  /** compare_faces, taken as an assumed library contract: entry i matches iff
      its distance is at most the tolerance. */
  function CompareFaces(dists: seq<real>, tolerance: real): (matches: seq<bool>)
    ensures |matches| == |dists|
    ensures forall i :: 0 <= i < |dists| ==> (matches[i] <==> dists[i] <= tolerance)
  {
    if dists == [] then []
    else CompareFaces(dists[..|dists| - 1], tolerance) + [dists[|dists| - 1] <= tolerance]
  }

  /** Position i holds the least distance and no earlier position holds it. */
  predicate IsFirstMinimum(dists: seq<real>, i: int)
  {
    0 <= i < |dists| &&
    (forall j :: 0 <= j < |dists| ==> dists[i] <= dists[j]) &&
    (forall j :: 0 <= j < i ==> dists[i] < dists[j])
  }

  /** numpy.argmin: a left-to-right scan that moves to a later position only on a
      strictly smaller distance, so ties go to the lowest index. */
  function ArgMin(dists: seq<real>): (best: nat)
    requires |dists| > 0
    ensures IsFirstMinimum(dists, best)
  {
    if |dists| == 1 then 0
    else
      var init := dists[..|dists| - 1];
      var k := ArgMin(init);
      assert forall j :: 0 <= j < |init| ==> init[j] == dists[j];
      if dists[|dists| - 1] < dists[k] then |dists| - 1 else k
  }

  /** At most one position is the first minimum, so the tie-break is deterministic. */
  lemma FirstMinimumUnique(dists: seq<real>, i: int, j: int)
    requires IsFirstMinimum(dists, i) && IsFirstMinimum(dists, j)
    ensures i == j
  {
    assert dists[i] <= dists[j] && dists[j] <= dists[i];
  }

  /** The decision taken for one detected face (attendance.py lines 113-124):
      an empty enrolment list, or a best distance above the tolerance, is Unmatched;
      otherwise the name enrolled at the first least distance. */
  function Decide(dists: seq<real>, names: seq<string>, tolerance: real): (r: MatchResult)
    requires |dists| == |names|
    ensures r.Matched? <==> exists i :: 0 <= i < |dists| && dists[i] <= tolerance
    ensures r.Matched? <==>
      exists i :: IsFirstMinimum(dists, i) && dists[i] <= tolerance && names[i] == r.name
  {
    if |dists| > 0 then
      var best := ArgMin(dists);
      var matches := CompareFaces(dists, tolerance);
      if matches[best] then Matched(names[best]) else Unmatched
    else
      Unmatched
  }

  /** With nothing enrolled every face is unmatched, whatever the tolerance. */
  lemma EmptyEnrolmentUnmatched(tolerance: real)
    ensures Decide([], [], tolerance) == Unmatched
  {
  }

  /** Two entries at the same least distance within tolerance: the lower index wins,
      whatever the names are. */
  lemma {:induction false} TieGoesToLowerIndex(dists: seq<real>, names: seq<string>, tolerance: real, i: int, j: int)
    requires |dists| == |names|
    requires 0 <= i < j < |dists| && dists[i] == dists[j] && dists[i] <= tolerance
    requires forall k :: 0 <= k < |dists| ==> dists[i] <= dists[k]
    requires forall k :: 0 <= k < i ==> dists[i] < dists[k]
    ensures Decide(dists, names, tolerance) == Matched(names[i])
  {
    FirstMinimumUnique(dists, i, ArgMin(dists));
  }

  /** The threshold is inclusive: a sole entry at exactly the tolerance is accepted,
      and any larger distance is not. */
  lemma SoleEntryThreshold(name: string, d: real, tolerance: real)
    ensures Decide([d], [name], tolerance) == if d <= tolerance then Matched(name) else Unmatched
  {
  }

  /** The nearest entry wins even when a farther one is also within tolerance. */
  lemma {:induction false} NearestWins(dists: seq<real>, names: seq<string>, tolerance: real, i: int)
    requires |dists| == |names|
    requires 0 <= i < |dists| && dists[i] <= tolerance
    requires forall k :: 0 <= k < |dists| && k != i ==> dists[i] < dists[k]
    ensures Decide(dists, names, tolerance) == Matched(names[i])
  {
    FirstMinimumUnique(dists, i, ArgMin(dists));
  }
}
