/** `DifferenceRegionRegion`: subtract a list of regions from each of a list of regions,
    recursing on the extra fragments a subtraction produces.

    The C# recursion restarts every extra fragment against the whole subtractor list,
    so nothing in the code bounds its depth. The model counts that depth with `fuel`:
    `None` means the recursion went deeper than the fuel allows. */
module Difference {
  import opened Wrappers
  import opened Primitives
  import opened GeometryKernel
  import opened Geometry

  /** A subtractor changes the curve only if the two are coplanar and the kernel
      reports them as mutually intersecting. */
  predicate Cuts(k: Kernel, tol: real, plane: Plane, curve: Curve, sub: Curve) {
    AreCoplanarPair(k, tol, curve, sub) && k.relationship(curve, sub, plane, tol) == MutualIntersection
  }

  /** The curve that results from subtracting `subs[j..]` in turn, each cutting
      subtractor replacing the curve by the first fragment of the difference (an empty
      difference leaves it as it is). This is the curve each recursive call emits last. */
  function Survivor(k: Kernel, tol: real, plane: Plane, curve: Curve, subs: seq<Curve>, j: nat): Curve
    requires j <= |subs|
    decreases |subs| - j
  {
    if j == |subs| then curve
    else if Cuts(k, tol, plane, curve, subs[j]) && |k.difference(curve, subs[j], tol)| > 0 then
      Survivor(k, tol, plane, k.difference(curve, subs[j], tol)[0], subs, j + 1)
    else
      Survivor(k, tol, plane, curve, subs, j + 1)
  }

  /** The loop of `BooleanDifferenceRecursive` from subtractor `j` on, for the current
      curve: the outputs of the recursive calls on extra fragments, in order, then
      whatever the rest of the loop emits. */
  function Pass(k: Kernel, tol: real, plane: Plane, curve: Curve, subs: seq<Curve>, j: nat, fuel: nat): (r: Option<seq<Curve>>)
    requires j <= |subs|
    decreases fuel, 1, |subs| - j
    ensures r.Some? ==> |r.value| >= 1 && r.value[|r.value| - 1] == Survivor(k, tol, plane, curve, subs, j)
  {
    if j == |subs| then Some([curve])
    else if Cuts(k, tol, plane, curve, subs[j]) && |k.difference(curve, subs[j], tol)| > 0 then
      var diff := k.difference(curve, subs[j], tol);
      match Fragments(k, tol, plane, diff[1..], subs, fuel)
      case None => None
      case Some(extra) =>
        match Pass(k, tol, plane, diff[0], subs, j + 1, fuel)
        case None => None
        case Some(rest) => Some(extra + rest)
    else
      Pass(k, tol, plane, curve, subs, j + 1, fuel)
  }

  /** The recursive calls on the extra fragments, one level deeper each. */
  function Fragments(k: Kernel, tol: real, plane: Plane, frags: seq<Curve>, subs: seq<Curve>, fuel: nat): (r: Option<seq<Curve>>)
    decreases fuel, 0, |frags|
    ensures r.Some? ==> |r.value| >= |frags|
    ensures r.Some? ==> forall i :: 0 <= i < |frags| ==> Survivor(k, tol, plane, frags[i], subs, 0) in r.value
  {
    if |frags| == 0 then Some([])
    else if fuel == 0 then None
    else
      match Pass(k, tol, plane, frags[0], subs, 0, fuel - 1)
      case None => None
      case Some(first) =>
        match Fragments(k, tol, plane, frags[1..], subs, fuel)
        case None => None
        case Some(rest) =>
          assert first[|first| - 1] in first + rest;
          assert forall i :: 1 <= i < |frags| ==> frags[i] == frags[1..][i - 1];
          Some(first + rest)
  }

  /** `BooleanDifferenceRecursive` on one region of `regionsA`. */
  function SubtractAll(k: Kernel, tol: real, plane: Plane, curve: Curve, subs: seq<Curve>, fuel: nat): Option<seq<Curve>> {
    Pass(k, tol, plane, curve, subs, 0, fuel)
  }

  /** `DifferenceRegionRegion`: every region of `regionsA` in turn, outputs concatenated.
      Each region contributes at least one curve: what is left of it after the whole
      subtractor list. */
  function DifferenceRegionRegion(k: Kernel, tol: real, regionsA: seq<Curve>, regionsB: seq<Curve>, plane: Plane, fuel: nat): (r: Option<seq<Curve>>)
    ensures r.Some? ==> |r.value| >= |regionsA|
    ensures r.Some? ==> forall i :: 0 <= i < |regionsA| ==> Survivor(k, tol, plane, regionsA[i], regionsB, 0) in r.value
  {
    if |regionsA| == 0 then Some([])
    else
      match SubtractAll(k, tol, plane, regionsA[0], regionsB, fuel)
      case None => None
      case Some(first) =>
        match DifferenceRegionRegion(k, tol, regionsA[1..], regionsB, plane, fuel)
        case None => None
        case Some(rest) =>
          assert first[|first| - 1] in first + rest;
          assert forall i :: 1 <= i < |regionsA| ==> regionsA[i] == regionsA[1..][i - 1];
          Some(first + rest)
  }

  /** A curve that no subtractor cuts is emitted unchanged, on its own. */
  lemma {:induction false} UncutCurveUnchanged(k: Kernel, tol: real, plane: Plane, curve: Curve, subs: seq<Curve>, j: nat, fuel: nat)
    requires j <= |subs|
    requires forall i :: j <= i < |subs| ==> !Cuts(k, tol, plane, curve, subs[i])
    ensures Pass(k, tol, plane, curve, subs, j, fuel) == Some([curve])
    decreases |subs| - j
  {
    if j < |subs| {
      UncutCurveUnchanged(k, tol, plane, curve, subs, j + 1, fuel);
    }
  }

  /** When no subtractor cuts any region, the difference returns the regions unchanged. */
  lemma {:induction false} NothingCutNothingChanged(k: Kernel, tol: real, regionsA: seq<Curve>, regionsB: seq<Curve>, plane: Plane, fuel: nat)
    requires forall a, b :: 0 <= a < |regionsA| && 0 <= b < |regionsB| ==> !Cuts(k, tol, plane, regionsA[a], regionsB[b])
    ensures DifferenceRegionRegion(k, tol, regionsA, regionsB, plane, fuel) == Some(regionsA)
  {
    if |regionsA| > 0 {
      UncutCurveUnchanged(k, tol, plane, regionsA[0], regionsB, 0, fuel);
      NothingCutNothingChanged(k, tol, regionsA[1..], regionsB, plane, fuel);
      assert [regionsA[0]] + regionsA[1..] == regionsA;
    }
  }

  /** More fuel never changes an answer found with less: fuel only bounds depth. */
  lemma {:induction false} PassFuelMonotone(k: Kernel, tol: real, plane: Plane, curve: Curve, subs: seq<Curve>, j: nat, fuel: nat)
    requires j <= |subs|
    requires Pass(k, tol, plane, curve, subs, j, fuel).Some?
    ensures Pass(k, tol, plane, curve, subs, j, fuel + 1) == Pass(k, tol, plane, curve, subs, j, fuel)
    decreases fuel, 1, |subs| - j
  {
    if j < |subs| {
      if Cuts(k, tol, plane, curve, subs[j]) && |k.difference(curve, subs[j], tol)| > 0 {
        var diff := k.difference(curve, subs[j], tol);
        FragmentsFuelMonotone(k, tol, plane, diff[1..], subs, fuel);
        PassFuelMonotone(k, tol, plane, diff[0], subs, j + 1, fuel);
      } else {
        PassFuelMonotone(k, tol, plane, curve, subs, j + 1, fuel);
      }
    }
  }

  lemma {:induction false} FragmentsFuelMonotone(k: Kernel, tol: real, plane: Plane, frags: seq<Curve>, subs: seq<Curve>, fuel: nat)
    requires Fragments(k, tol, plane, frags, subs, fuel).Some?
    ensures Fragments(k, tol, plane, frags, subs, fuel + 1) == Fragments(k, tol, plane, frags, subs, fuel)
    decreases fuel, 0, |frags|
  {
    if |frags| > 0 {
      PassFuelMonotone(k, tol, plane, frags[0], subs, 0, fuel - 1);
      FragmentsFuelMonotone(k, tol, plane, frags[1..], subs, fuel);
    }
  }

  lemma {:induction false} DifferenceFuelMonotone(k: Kernel, tol: real, regionsA: seq<Curve>, regionsB: seq<Curve>, plane: Plane, fuel: nat)
    requires DifferenceRegionRegion(k, tol, regionsA, regionsB, plane, fuel).Some?
    ensures DifferenceRegionRegion(k, tol, regionsA, regionsB, plane, fuel + 1) == DifferenceRegionRegion(k, tol, regionsA, regionsB, plane, fuel)
  {
    if |regionsA| > 0 {
      PassFuelMonotone(k, tol, plane, regionsA[0], regionsB, 0, fuel);
      DifferenceFuelMonotone(k, tol, regionsA[1..], regionsB, plane, fuel);
    }
  }

  /** A kernel whose differences never split a curve in more than one piece needs no
      fuel at all: only extra fragments make the C# code recurse. */
  lemma {:induction false} SingleFragmentsNeedNoFuel(k: Kernel, tol: real, plane: Plane, curve: Curve, subs: seq<Curve>, j: nat)
    requires j <= |subs|
    requires forall a: Curve, b: Curve :: |k.difference(a, b, tol)| <= 1
    ensures Pass(k, tol, plane, curve, subs, j, 0) == Some([Survivor(k, tol, plane, curve, subs, j)])
    decreases |subs| - j
  {
    if j < |subs| {
      if Cuts(k, tol, plane, curve, subs[j]) && |k.difference(curve, subs[j], tol)| > 0 {
        var diff := k.difference(curve, subs[j], tol);
        assert diff[1..] == [];
        assert Fragments(k, tol, plane, diff[1..], subs, 0) == Some([]);
        SingleFragmentsNeedNoFuel(k, tol, plane, diff[0], subs, j + 1);
        assert [] + [Survivor(k, tol, plane, diff[0], subs, j + 1)] == [Survivor(k, tol, plane, diff[0], subs, j + 1)];
      } else {
        SingleFragmentsNeedNoFuel(k, tol, plane, curve, subs, j + 1);
      }
    }
  }
}
