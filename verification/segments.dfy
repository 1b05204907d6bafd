/** Detection of curved segments and partial tessellation (`CurvedSegIDs`,
    `NoCurvedSegs`, `TessellatePartOfCurve`). */
module Segments {
  import opened Primitives
  import opened GeometryKernel

  /** `_isParallel`: `IsParallelTo` reports parallel (1) or antiparallel (-1). */
  predicate IsParallel(k: Kernel, a: Vector, b: Vector) {
    var c := k.parallelTo(a, b);
    c == -1 || c == 1
  }

  /** The chord of a segment, from its start to its end point. */
  function GuideVector(s: Segment): Vector {
    Sub(s.end, s.start)
  }

  /** A segment is curved when one of its sampled tangents is not parallel to its chord. */
  ghost predicate IsCurved(k: Kernel, s: Segment) {
    exists j :: 0 <= j < |k.tangentSamples(s)| && !IsParallel(k, GuideVector(s), k.tangentSamples(s)[j])
  }

  ghost predicate StrictlyIncreasing(s: seq<int>) {
    forall a, b :: 0 <= a < b < |s| ==> s[a] < s[b]
  }

  /** The indices of the curved segments of `c`. */
  ghost function CurvedIndexSet(k: Kernel, c: Curve): set<int> {
    set i | 0 <= i < |c.segments| && IsCurved(k, c.segments[i])
  }

  /** `CurvedSegIDs`: for each segment in order, scan its sampled tangents and record the
      segment's index at the first tangent not parallel to the chord. */
  method CurvedSegIDs(k: Kernel, c: Curve) returns (ids: seq<int>)
    ensures StrictlyIncreasing(ids)
    ensures forall a :: 0 <= a < |ids| ==> 0 <= ids[a] < |c.segments|
    ensures forall n :: n in ids <==> 0 <= n < |c.segments| && IsCurved(k, c.segments[n])
  {
    var segments := c.segments;
    ids := [];
    var i := 0;
    while i < |segments|
      invariant 0 <= i <= |segments|
      invariant StrictlyIncreasing(ids)
      invariant forall a :: 0 <= a < |ids| ==> 0 <= ids[a] < i
      invariant forall n :: n in ids <==> 0 <= n < i && IsCurved(k, segments[n])
    {
      var seg := segments[i];
      var guide := GuideVector(seg);
      var tangents := k.tangentSamples(seg);
      ghost var before := ids;
      var j := 0;
      while j < |tangents|
        invariant 0 <= j <= |tangents|
        invariant ids == before
        invariant forall t :: 0 <= t < j ==> IsParallel(k, guide, tangents[t])
      {
        if !IsParallel(k, guide, tangents[j]) {
          ids := ids + [i];
          break;
        }
        j := j + 1;
      }
      i := i + 1;
    }
  }

  /** `NoCurvedSegs`: the number of curved segments. */
  method NoCurvedSegs(k: Kernel, c: Curve) returns (n: int)
    ensures n == |CurvedIndexSet(k, c)|
  {
    var ids := CurvedSegIDs(k, c);
    n := |ids|;
    IncreasingHasDistinctElements(ids);
    assert (set x | x in ids) == CurvedIndexSet(k, c);
  }

  /** A strictly increasing sequence lists each of its elements exactly once. */
  lemma {:induction false} IncreasingHasDistinctElements(s: seq<int>)
    requires StrictlyIncreasing(s)
    ensures |set x | x in s| == |s|
  {
    if |s| > 0 {
      var init := s[..|s| - 1];
      var last := s[|s| - 1];
      IncreasingHasDistinctElements(init);
      assert forall x :: x in init ==> x < last;
      assert (set x | x in s) == (set x | x in init) + {last};
    }
  }

  /** The segments `Replaced` produces from index `from` on: listed indices are
      tessellated, every other segment is kept as it is. */
  function Replaced(k: Kernel, segments: seq<Curve>, ids: seq<int>, divCount: int, from: nat): (r: seq<Curve>)
    requires from <= |segments|
    decreases |segments| - from
    ensures |r| == |segments| - from
    ensures forall i :: from <= i < |segments| && i !in ids ==> r[i - from] == segments[i]
    ensures forall i :: from <= i < |segments| && i in ids ==> r[i - from] == k.tessellate(segments[i], divCount)
  {
    if from == |segments| then []
    else
      var s := if from in ids then k.tessellate(segments[from], divCount) else segments[from];
      [s] + Replaced(k, segments, ids, divCount, from + 1)
  }

  /** The `final_segs` array of `TessellatePartOfCurve`, before joining: one entry per
      segment, tessellated exactly at the listed indices. */
  function TessellatedSegments(k: Kernel, segments: seq<Curve>, ids: seq<int>, divCount: int): (r: seq<Curve>)
    ensures |r| == |segments|
    ensures forall i :: 0 <= i < |segments| && i !in ids ==> r[i] == segments[i]
    ensures forall i :: 0 <= i < |segments| && i in ids ==> r[i] == k.tessellate(segments[i], divCount)
  {
    Replaced(k, segments, ids, divCount, 0)
  }

  /** `TessellatePartOfCurve`: join the partly tessellated segments. */
  function TessellatePartOfCurve(k: Kernel, tol: real, segments: seq<Curve>, ids: seq<int>, divCount: int): seq<Curve> {
    k.join(TessellatedSegments(k, segments, ids, divCount), tol)
  }

  /** Only which in-range indices are listed matters: order, repetitions and
      out-of-range entries of `ids` change nothing. */
  lemma ListedIndicesOnlyMatter(k: Kernel, segments: seq<Curve>, ids1: seq<int>, ids2: seq<int>, divCount: int)
    requires forall i :: 0 <= i < |segments| ==> (i in ids1 <==> i in ids2)
    ensures TessellatedSegments(k, segments, ids1, divCount) == TessellatedSegments(k, segments, ids2, divCount)
  {
    var r1 := TessellatedSegments(k, segments, ids1, divCount);
    var r2 := TessellatedSegments(k, segments, ids2, divCount);
    assert forall i :: 0 <= i < |segments| ==> r1[i] == r2[i];
  }

  /** With no listed index, every segment passes through unchanged. */
  lemma NothingListedNothingChanged(k: Kernel, segments: seq<Curve>, divCount: int)
    ensures TessellatedSegments(k, segments, [], divCount) == segments
  {
    var r := TessellatedSegments(k, segments, [], divCount);
    assert forall i :: 0 <= i < |segments| ==> r[i] == segments[i];
  }
}
