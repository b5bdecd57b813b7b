/** When the scan of a directory ends: exactly when the allocation table leads to no cluster twice
    before one at which the scan stops. */
module ExfatWalk {
  import opened Words
  import opened ExfatFormat
  import opened Orbits

  /** The table as a link from cluster to cluster. */
  function Table(v: Volume): nat -> nat { (c: nat) => v.Next(c) }

  function Stopping(v: Volume): nat -> bool { (c: nat) => Stops(v, c) }

  ghost predicate FitsAt(v: Volume, cluster: nat) {
    v.Cluster(cluster).Some? ==> FitFrom(v.Cluster(cluster).value, 0)
  }

  /** No cluster the scan reads has a set that straddles its end. */
  ghost predicate SetsFit(v: Volume, c: nat) {
    forall n: nat | GoesOn(Table(v), Stopping(v), c, n) :: FitsAt(v, Visit(Table(v), c, n))
  }

  lemma SetsFitShift(v: Volume, c: nat)
    requires SetsFit(v, c)
    ensures FitsAt(v, c)
    ensures !Stops(v, c) ==> SetsFit(v, v.Next(c))
  {
    var next, stop := Table(v), Stopping(v);
    assert GoesOn(next, stop, c, 0) && Visit(next, c, 0) == c;
    if !Stops(v, c) {
      forall n: nat | GoesOn(next, stop, next(c), n)
        ensures FitsAt(v, Visit(next, next(c), n))
      {
        GoesOnShift(next, stop, c, n);
        VisitShift(next, c, n);
      }
    }
  }

  /** A walk is a scan that stops at its last cluster. */
  lemma {:induction false} WalkStops(v: Volume, chain: seq<nat>)
    requires Walk(v, chain)
    ensures StopsAfter(Table(v), Stopping(v), chain[0], |chain| - 1)
  {
    var next, stop := Table(v), Stopping(v);
    assert stop(chain[0]) == Stops(v, chain[0]) && next(chain[0]) == v.Next(chain[0]);
    if |chain| > 1 {
      WalkStops(v, chain[1..]);
      StopsAfterShift(next, stop, chain[0], |chain| - 2);
    }
  }

  /** The scan of the directory at `c` ends. */
  ghost predicate HasWalk(v: Volume, c: nat) {
    exists chain :: Walk(v, chain) && chain[0] == c
  }

  lemma OneCluster(v: Volume, c: nat)
    requires FitsAt(v, c) && Stops(v, c)
    ensures HasWalk(v, c)
  {
    assert Walk(v, [c]);
  }

  lemma OneMoreCluster(v: Volume, c: nat)
    requires FitsAt(v, c) && !Stops(v, c) && HasWalk(v, v.Next(c))
    ensures HasWalk(v, c)
  {
    var rest :| Walk(v, rest) && rest[0] == v.Next(c);
    assert ([c] + rest)[1..] == rest;
    assert Walk(v, [c] + rest);
  }

  /** From a scan that stops comes a walk. */
  lemma WalkFrom(v: Volume, c: nat, n: nat)
    requires StopsAfter(Table(v), Stopping(v), c, n) && SetsFit(v, c)
    ensures HasWalk(v, c)
  {
    var good, has := (x: nat) => SetsFit(v, x), (x: nat) => HasWalk(v, x);
    forall x: nat | good(x)
      ensures if Stopping(v)(x) then has(x) else good(Table(v)(x)) && (has(Table(v)(x)) ==> has(x))
    {
      WalkStep(v, x);
    }
    FromTheEnd(Table(v), Stopping(v), good, has, c, n);
  }

  lemma WalkStep(v: Volume, c: nat)
    requires SetsFit(v, c)
    ensures if Stops(v, c) then HasWalk(v, c) else SetsFit(v, v.Next(c)) && (HasWalk(v, v.Next(c)) ==> HasWalk(v, c))
  {
    SetsFitShift(v, c);
    if Stops(v, c) {
      OneCluster(v, c);
    } else if HasWalk(v, v.Next(c)) {
      OneMoreCluster(v, c);
    }
  }

  /** The scan of the directory at `c` ends exactly when it meets no cluster twice on its way. */
  lemma WalkExistsIff(v: Volume, c: nat)
    requires SetsFit(v, c)
    ensures HasWalk(v, c) <==> NoRepeat(Table(v), Stopping(v), c)
  {
    assert forall x: nat :: Table(v)(x) < TWO32;
    StopsIffNoRepeat(Table(v), Stopping(v), c, TWO32);
    if n: nat :| StopsAfter(Table(v), Stopping(v), c, n) { WalkFrom(v, c, n); }
    if HasWalk(v, c) {
      var chain :| Walk(v, chain) && chain[0] == c;
      WalkStops(v, chain);
    }
  }
}
