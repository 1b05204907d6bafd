/** The tolerance-escalation loop at the end of `_isoVist2D_`: while the intersection of
    the two visible areas is empty, retry on simplified copies with the tolerance
    multiplied by 100, 200, ..., 5000. */
module Retry {
  import opened Primitives
  import opened GeometryKernel

  const FirstMultiplier: nat := 100
  const MultiplierStep: nat := 100
  const LastMultiplier: nat := 5000
  /** The number of multipliers 100, 200, ..., 5000. */
  const MaxAttempts: nat := 50

  /** One retry: both curves simplified at `multiplier * tol`, intersected at the same tolerance. */
  function Attempt(k: Kernel, tol: real, a: Curve, b: Curve, multiplier: nat): seq<Curve> {
    var t := multiplier as real * tol;
    k.intersection(k.simplify(a, t, t), k.simplify(b, t, t), t)
  }

  /** `final` is what the loop ends with after `attempts` retries, starting from `first`:
      no retry when `first` is non-empty; otherwise retry `n` uses multiplier `100 n`,
      every retry before the last came back empty, and an empty `final` means all fifty
      multipliers were tried. */
  predicate RetriedAs(k: Kernel, tol: real, a: Curve, b: Curve, first: seq<Curve>, attempts: nat, final: seq<Curve>) {
    && attempts <= MaxAttempts
    && (first != [] ==> attempts == 0 && final == first)
    && (first == [] ==> 1 <= attempts && final == Attempt(k, tol, a, b, MultiplierStep * attempts))
    && (forall n :: 1 <= n < attempts ==> Attempt(k, tol, a, b, MultiplierStep * n) == [])
    && (final == [] ==> attempts == MaxAttempts)
  }

  /** The `while (final.Length == 0 && iter <= 5000)` loop. */
  method RetryIntersection(k: Kernel, tol: real, a: Curve, b: Curve, first: seq<Curve>) returns (final: seq<Curve>, attempts: nat)
    ensures RetriedAs(k, tol, a, b, first, attempts, final)
  {
    final := first;
    attempts := 0;
    var iter: nat := FirstMultiplier;
    while |final| == 0 && iter <= LastMultiplier
      invariant iter == MultiplierStep * (attempts + 1)
      invariant attempts <= MaxAttempts
      invariant first != [] ==> attempts == 0 && final == first
      invariant attempts == 0 ==> final == first
      invariant attempts > 0 ==> final == Attempt(k, tol, a, b, MultiplierStep * attempts)
      invariant forall n :: 1 <= n < attempts ==> Attempt(k, tol, a, b, MultiplierStep * n) == []
      decreases LastMultiplier + MultiplierStep - iter
    {
      final := Attempt(k, tol, a, b, iter);
      attempts := attempts + 1;
      iter := iter + MultiplierStep;
    }
  }

  /** A non-empty first intersection is never retried: the loop only replaces an
      empty result. */
  lemma NonEmptyIsKept(k: Kernel, tol: real, a: Curve, b: Curve, first: seq<Curve>, attempts: nat, final: seq<Curve>)
    requires RetriedAs(k, tol, a, b, first, attempts, final)
    requires first != []
    ensures final == first
  {
  }

  /** The loop's outcome is determined by its inputs: two runs agree. */
  lemma RetriedAsIsUnique(k: Kernel, tol: real, a: Curve, b: Curve, first: seq<Curve>,
                          n1: nat, f1: seq<Curve>, n2: nat, f2: seq<Curve>)
    requires RetriedAs(k, tol, a, b, first, n1, f1)
    requires RetriedAs(k, tol, a, b, first, n2, f2)
    ensures n1 == n2 && f1 == f2
  {
  }
}
