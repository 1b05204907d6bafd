/** The region classifier `MasterRegionVoids`: picks the master region and its voids
    out of a set of coplanar closed regions. */
module Regions {
  import opened Wrappers
  import opened Primitives
  import opened GeometryKernel
  import opened Geometry

  /** One key-value pair of the area-keyed `SortedList<double, Curve>`. */
  datatype AreaEntry = AreaEntry(area: real, region: Curve)

  /** The classifier's answer: master region, its voids, and the master's plane. */
  datatype Classification = Classification(master: Curve, voids: seq<Curve>, plane: Plane)

  ghost predicate StrictlyAscending(es: seq<AreaEntry>) {
    forall i, j :: 0 <= i < j < |es| ==> es[i].area < es[j].area
  }

  /** `SortedList.ContainsKey`. */
  predicate HasKey(es: seq<AreaEntry>, a: real) {
    exists i :: 0 <= i < |es| && es[i].area == a
  }

  /** `SortedList.Add` of a new key: the entry goes where it keeps the keys ascending. */
  function Insert(es: seq<AreaEntry>, e: AreaEntry): (r: seq<AreaEntry>)
    requires StrictlyAscending(es)
    requires !HasKey(es, e.area)
    ensures StrictlyAscending(r)
    ensures |r| == |es| + 1
    ensures forall x :: x in r <==> x in es || x == e
  {
    if |es| == 0 then [e]
    else if e.area < es[0].area then [e] + es
    else
      var rest := Insert(es[1..], e);
      assert forall x :: x in es <==> x == es[0] || x in es[1..];
      assert es[0].area < e.area by {
        assert es[0].area != e.area;
      }
      assert forall x :: x in rest ==> es[0].area < x.area by {
        forall x | x in rest
          ensures es[0].area < x.area
        {
          if x != e {
            var t :| 0 <= t < |es[1..]| && es[1..][t] == x;
            assert es[t + 1] == x;
          }
        }
      }
      var r := [es[0]] + rest;
      assert forall j :: 0 < j < |r| ==> r[j] in rest by {
        forall j | 0 < j < |r|
          ensures r[j] in rest
        {
          assert r[j] == rest[j - 1];
        }
      }
      r
  }

  /** `regions[j]` is the first region with its area: the sorted list keeps it and
      drops every later region of the same area. */
  ghost predicate FirstOfItsArea(k: Kernel, regions: seq<Curve>, j: int)
    requires 0 <= j < |regions|
  {
    forall i :: 0 <= i < j ==> k.area(regions[i]) != k.area(regions[j])
  }

  /** `regions[j]` is the region the classifier makes the master: the first of the
      largest area. */
  ghost predicate IsMasterIndex(k: Kernel, regions: seq<Curve>, j: int) {
    && 0 <= j < |regions|
    && FirstOfItsArea(k, regions, j)
    && forall i :: 0 <= i < |regions| ==> k.area(regions[i]) <= k.area(regions[j])
  }

  /** A region kept in the sorted list whose area is below the master's and that the
      kernel reports inside the master. */
  ghost predicate IsVoidOf(k: Kernel, tol: real, regions: seq<Curve>, master: Curve, plane: Plane, v: Curve) {
    exists j :: 0 <= j < |regions| && regions[j] == v && FirstOfItsArea(k, regions, j)
      && k.area(v) < k.area(master)
      && k.relationship(master, v, plane, tol) == BInsideA
  }

  /** Everything the classifier promises about a successful answer for two or more regions. */
  ghost predicate ClassifiesMany(k: Kernel, tol: real, regions: seq<Curve>, c: Classification) {
    && (exists j :: IsMasterIndex(k, regions, j) && regions[j] == c.master)
    && k.isValid(c.master)
    && c.plane == PlaneFromRegion(k, c.master)
    && (forall v :: v in c.voids <==> IsVoidOf(k, tol, regions, c.master, c.plane, v))
    && (forall a, b :: 0 <= a < b < |c.voids| ==> k.area(c.voids[a]) < k.area(c.voids[b]))
  }

  /** Entries built from the first `n` regions, each from the first region of its area. */
  ghost predicate EntriesFromPrefix(k: Kernel, regions: seq<Curve>, n: int, es: seq<AreaEntry>)
    requires 0 <= n <= |regions|
  {
    && StrictlyAscending(es)
    && (forall e :: e in es ==> exists j :: 0 <= j < n && e == AreaEntry(k.area(regions[j]), regions[j]) && FirstOfItsArea(k, regions, j))
    && (forall j :: 0 <= j < n && FirstOfItsArea(k, regions, j) ==> AreaEntry(k.area(regions[j]), regions[j]) in es)
    && (forall j :: 0 <= j < n ==> HasKey(es, k.area(regions[j])))
  }

  /** One pass of the first loop: add region `i` under its area unless that area is
      already a key. */
  function AddIfNewArea(k: Kernel, regions: seq<Curve>, i: int, es: seq<AreaEntry>): seq<AreaEntry>
    requires 0 <= i < |regions|
    requires EntriesFromPrefix(k, regions, i, es)
  {
    var area := k.area(regions[i]);
    if HasKey(es, area) then es else Insert(es, AreaEntry(area, regions[i]))
  }

  lemma AddIfNewAreaExtends(k: Kernel, regions: seq<Curve>, i: int, es: seq<AreaEntry>)
    requires 0 <= i < |regions|
    requires EntriesFromPrefix(k, regions, i, es)
    ensures EntriesFromPrefix(k, regions, i + 1, AddIfNewArea(k, regions, i, es))
  {
    var area := k.area(regions[i]);
    var es' := AddIfNewArea(k, regions, i, es);
    if !HasKey(es, area) {
      assert FirstOfItsArea(k, regions, i) by {
        forall j | 0 <= j < i
          ensures k.area(regions[j]) != area
        {
          assert HasKey(es, k.area(regions[j]));
        }
      }
      var e := AreaEntry(area, regions[i]);
      assert e in es';
      forall j | 0 <= j < i + 1
        ensures HasKey(es', k.area(regions[j]))
      {
        if j < i {
          assert HasKey(es, k.area(regions[j]));
          var m :| 0 <= m < |es| && es[m].area == k.area(regions[j]);
          assert es[m] in es';
          var m' :| 0 <= m' < |es'| && es'[m'] == es[m];
        } else {
          var m' :| 0 <= m' < |es'| && es'[m'] == e;
        }
      }
    } else {
      assert !FirstOfItsArea(k, regions, i) by {
        var m :| 0 <= m < |es| && es[m].area == area;
        assert es[m] in es;
        var j :| 0 <= j < i && es[m] == AreaEntry(k.area(regions[j]), regions[j]) && FirstOfItsArea(k, regions, j);
      }
    }
  }

  /** The first loop: key every region by its area, keeping the first region seen for each area. */
  method SortByArea(k: Kernel, regions: seq<Curve>) returns (es: seq<AreaEntry>)
    ensures EntriesFromPrefix(k, regions, |regions|, es)
  {
    es := [];
    var i := 0;
    while i < |regions|
      invariant 0 <= i <= |regions|
      invariant EntriesFromPrefix(k, regions, i, es)
    {
      AddIfNewAreaExtends(k, regions, i, es);
      es := AddIfNewArea(k, regions, i, es);
      i := i + 1;
    }
  }

  /** Why the classifier throws: `AreaMassProperties.Compute` fails on a region (it
      returns null, and reading `.Area` from it throws). */
  datatype ClassifierError = AreaUndefined

  /** Null (`None`), a classification, or the area failure. */
  type ClassifierResult = Result<Option<Classification>, ClassifierError>

  /** `MasterRegionVoids`. Not coplanar: null. One region: it is the master, without
      voids. Otherwise every region's area is computed, which throws when one cannot be;
      the last (largest-area) entry of the sorted list is the master; an invalid master
      gives null; the voids are the other entries, in ascending area order, that the
      kernel reports inside the master. The source indexes `regions[0]`, so at least one
      region is passed. */
  method MasterRegionVoids(k: Kernel, tol: real, regions: seq<Curve>) returns (r: ClassifierResult)
    requires |regions| > 0
    ensures !Coplanar(k, tol, regions) ==> r == Success(None)
    ensures Coplanar(k, tol, regions) && |regions| == 1 ==>
      r == Success(Some(Classification(regions[0], [], PlaneFromRegion(k, regions[0]))))
    ensures Coplanar(k, tol, regions) && |regions| > 1 ==>
      (r == Failure(AreaUndefined) <==> exists i :: 0 <= i < |regions| && !k.areaDefined(regions[i]))
    ensures Coplanar(k, tol, regions) && |regions| > 1 && (forall i :: 0 <= i < |regions| ==> k.areaDefined(regions[i])) ==>
      exists j :: IsMasterIndex(k, regions, j) && (r == Success(None) <==> !k.isValid(regions[j]))
    ensures r.Success? && r.value.Some? && |regions| > 1 ==> ClassifiesMany(k, tol, regions, r.value.value)
  {
    var coplanar := AreCoplanar(k, tol, regions);
    if !coplanar {
      return Success(None);
    }
    if |regions| == 1 {
      return Success(Some(Classification(regions[0], [], PlaneFromRegion(k, regions[0]))));
    }
    if exists i :: 0 <= i < |regions| && !k.areaDefined(regions[i]) {
      return Failure(AreaUndefined);
    }
    var es := SortByArea(k, regions);
    ghost var jm := LastEntryIsMaster(k, regions, es);
    var master := es[|es| - 1].region;
    var plane := PlaneFromRegion(k, master);
    if !k.isValid(master) {
      return Success(None);
    }
    var voids, picks := CollectVoids(k, tol, es, master, plane);
    VoidsAreKeptInsideRegions(k, tol, regions, es, master, plane, voids, jm);
    PickedVoidsAscend(k, regions, es, voids, picks);
    return Success(Some(Classification(master, voids, plane)));
  }

  /** The last entry of the sorted list holds the first region of the largest area. */
  lemma LastEntryIsMaster(k: Kernel, regions: seq<Curve>, es: seq<AreaEntry>) returns (jm: int)
    requires |regions| > 0
    requires EntriesFromPrefix(k, regions, |regions|, es)
    ensures |es| > 0
    ensures IsMasterIndex(k, regions, jm)
    ensures es[|es| - 1] == AreaEntry(k.area(regions[jm]), regions[jm])
  {
    assert HasKey(es, k.area(regions[0]));
    var last := |es| - 1;
    assert es[last] in es;
    jm :| 0 <= jm < |regions| && es[last] == AreaEntry(k.area(regions[jm]), regions[jm]) && FirstOfItsArea(k, regions, jm);
    forall i | 0 <= i < |regions|
      ensures k.area(regions[i]) <= k.area(regions[jm])
    {
      assert HasKey(es, k.area(regions[i]));
    }
  }

  /** The second loop: every entry before the last whose region the kernel reports
      inside the master becomes a void, in list order. */
  method CollectVoids(k: Kernel, tol: real, es: seq<AreaEntry>, master: Curve, plane: Plane)
    returns (voids: seq<Curve>, ghost picks: seq<int>)
    requires |es| > 0
    ensures |picks| == |voids|
    ensures forall t :: 0 <= t < |picks| ==> 0 <= picks[t] < |es| - 1 && voids[t] == es[picks[t]].region
    ensures forall a, b :: 0 <= a < b < |picks| ==> picks[a] < picks[b]
    ensures forall v :: v in voids <==>
      exists m :: 0 <= m < |es| - 1 && es[m].region == v && k.relationship(master, v, plane, tol) == BInsideA
  {
    voids := [];
    picks := [];
    var i := 0;
    while i < |es| - 1
      invariant 0 <= i <= |es| - 1
      invariant |picks| == |voids|
      invariant forall t :: 0 <= t < |picks| ==> 0 <= picks[t] < i && voids[t] == es[picks[t]].region
      invariant forall a, b :: 0 <= a < b < |picks| ==> picks[a] < picks[b]
      invariant forall v :: v in voids <==>
        exists m :: 0 <= m < i && es[m].region == v && k.relationship(master, v, plane, tol) == BInsideA
    {
      if k.relationship(master, es[i].region, plane, tol) == BInsideA {
        voids := voids + [es[i].region];
        picks := picks + [i];
      }
      i := i + 1;
    }
  }

  /** Voids picked in list order have strictly ascending areas. */
  lemma PickedVoidsAscend(k: Kernel, regions: seq<Curve>, es: seq<AreaEntry>, voids: seq<Curve>, picks: seq<int>)
    requires EntriesFromPrefix(k, regions, |regions|, es)
    requires |picks| == |voids|
    requires forall t :: 0 <= t < |picks| ==> 0 <= picks[t] < |es| && voids[t] == es[picks[t]].region
    requires forall a, b :: 0 <= a < b < |picks| ==> picks[a] < picks[b]
    ensures forall a, b :: 0 <= a < b < |voids| ==> k.area(voids[a]) < k.area(voids[b])
  {
    forall a, b | 0 <= a < b < |voids|
      ensures k.area(voids[a]) < k.area(voids[b])
    {
      EntryAreaIsRegionArea(k, regions, es, picks[a]);
      EntryAreaIsRegionArea(k, regions, es, picks[b]);
    }
  }

  lemma EntryAreaIsRegionArea(k: Kernel, regions: seq<Curve>, es: seq<AreaEntry>, m: int)
    requires EntriesFromPrefix(k, regions, |regions|, es)
    requires 0 <= m < |es|
    ensures es[m].area == k.area(es[m].region)
  {
    assert es[m] in es;
  }

  /** The entries before the last are exactly the kept regions of smaller area than the
      master, so filtering them by the kernel's relationship yields the voids. */
  lemma VoidsAreKeptInsideRegions(k: Kernel, tol: real, regions: seq<Curve>, es: seq<AreaEntry>,
                                  master: Curve, plane: Plane, voids: seq<Curve>, jm: int)
    requires |es| > 0
    requires EntriesFromPrefix(k, regions, |regions|, es)
    requires master == es[|es| - 1].region
    requires 0 <= jm < |regions| && es[|es| - 1] == AreaEntry(k.area(regions[jm]), regions[jm])
    requires forall v :: v in voids <==> exists m :: 0 <= m < |es| - 1 && es[m].region == v && k.relationship(master, v, plane, tol) == BInsideA
    ensures forall v :: v in voids <==> IsVoidOf(k, tol, regions, master, plane, v)
  {
    var last := |es| - 1;
    forall v | v in voids
      ensures IsVoidOf(k, tol, regions, master, plane, v)
    {
      var m :| 0 <= m < last && es[m].region == v && k.relationship(master, v, plane, tol) == BInsideA;
      assert es[m] in es;
      var j :| 0 <= j < |regions| && es[m] == AreaEntry(k.area(regions[j]), regions[j]) && FirstOfItsArea(k, regions, j);
      assert es[m].area < es[last].area;
    }
    forall v | IsVoidOf(k, tol, regions, master, plane, v)
      ensures v in voids
    {
      var j :| 0 <= j < |regions| && regions[j] == v && FirstOfItsArea(k, regions, j)
        && k.area(v) < k.area(master) && k.relationship(master, v, plane, tol) == BInsideA;
      var e := AreaEntry(k.area(regions[j]), regions[j]);
      assert e in es;
      var m :| 0 <= m < |es| && es[m] == e;
      if m == last {
        assert false;
      }
    }
  }
}
