/** Following a link from node to node until one stops: it ends exactly when no node comes twice. */
module Orbits {

  /** The node `n` links behind `c`. */
  function Visit(next: nat -> nat, c: nat, n: nat): nat {
    if n == 0 then c else next(Visit(next, c, n - 1))
  }

  /** None of the first `n` nodes stops. */
  ghost predicate GoesOn(next: nat -> nat, stop: nat -> bool, c: nat, n: nat) {
    forall k: nat | k < n :: !stop(Visit(next, c, k))
  }

  ghost predicate StopsAfter(next: nat -> nat, stop: nat -> bool, c: nat, n: nat) {
    GoesOn(next, stop, c, n) && stop(Visit(next, c, n))
  }

  ghost predicate NoRepeat(next: nat -> nat, stop: nat -> bool, c: nat) {
    forall i: nat, j: nat | i < j && GoesOn(next, stop, c, j) :: Visit(next, c, i) != Visit(next, c, j)
  }

  lemma {:induction false} VisitShift(next: nat -> nat, c: nat, n: nat)
    ensures Visit(next, next(c), n) == Visit(next, c, n + 1)
  {
    if n > 0 { VisitShift(next, c, n - 1); }
  }

  /** Leaving out the first node. */
  lemma GoesOnShift(next: nat -> nat, stop: nat -> bool, c: nat, n: nat)
    ensures GoesOn(next, stop, c, n + 1) <==> !stop(c) && GoesOn(next, stop, next(c), n)
  {
    forall k: nat | k < n
      ensures Visit(next, next(c), k) == Visit(next, c, k + 1)
    {
      VisitShift(next, c, k);
    }
    assert Visit(next, c, 0) == c;
    if !stop(c) && GoesOn(next, stop, next(c), n) {
      forall k: nat | k < n + 1
        ensures !stop(Visit(next, c, k))
      {
        if k > 0 { assert !stop(Visit(next, next(c), k - 1)); }
      }
    }
  }

  lemma StopsAfterShift(next: nat -> nat, stop: nat -> bool, c: nat, n: nat)
    ensures StopsAfter(next, stop, c, n + 1) <==> !stop(c) && StopsAfter(next, stop, next(c), n)
  {
    GoesOnShift(next, stop, c, n);
    VisitShift(next, c, n);
  }

  /** Induction back from the node that stops: `good` holds along the way, `has` from the end on. */
  lemma {:induction false} FromTheEnd(next: nat -> nat, stop: nat -> bool, good: nat -> bool, has: nat -> bool, c: nat,
                                      n: nat)
    requires StopsAfter(next, stop, c, n) && good(c)
    requires forall x: nat | good(x) && stop(x) :: has(x)
    requires forall x: nat | good(x) && !stop(x) :: good(next(x)) && (has(next(x)) ==> has(x))
    ensures has(c)
    decreases n
  {
    assert Visit(next, c, 0) == c;
    if n > 0 {
      StopsAfterShift(next, stop, c, n - 1);
      FromTheEnd(next, stop, good, has, next(c), n - 1);
    }
  }

  // ---- a repeated node means going round for ever ----

  lemma {:induction false} Periodic(next: nat -> nat, c: nat, i: nat, j: nat, t: nat)
    requires Visit(next, c, i) == Visit(next, c, j)
    ensures Visit(next, c, i + t) == Visit(next, c, j + t)
  {
    if t > 0 { Periodic(next, c, i, j, t - 1); }
  }

  lemma {:induction false} RoundForEver(next: nat -> nat, stop: nat -> bool, c: nat, i: nat, j: nat, n: nat)
    requires i < j && GoesOn(next, stop, c, j) && Visit(next, c, i) == Visit(next, c, j)
    ensures !stop(Visit(next, c, n))
    decreases n
  {
    if n >= j {
      Periodic(next, c, i, j, n - j);
      RoundForEver(next, stop, c, i, j, i + (n - j));
    }
  }

  // ---- finitely many nodes ----

  ghost function Elements(s: seq<nat>): set<nat> { set x | x in s }

  lemma {:induction false} DistinctSize(s: seq<nat>)
    requires forall i, j | 0 <= i < j < |s| :: s[i] != s[j]
    ensures |Elements(s)| == |s|
  {
    if s != [] {
      var front, last := s[..|s| - 1], s[|s| - 1];
      DistinctSize(front);
      assert Elements(s) == Elements(front) + {last};
    }
  }

  lemma {:induction false} BoundedSize(a: set<nat>, n: nat)
    requires forall x | x in a :: x < n
    ensures |a| <= n
    decreases n
  {
    if n == 0 {
      assert a == {};
    } else {
      BoundedSize(a - {n - 1}, n - 1);
    }
  }

  /** Nodes below `bound` without a repetition are at most `bound` many. */
  lemma GoesOnShort(next: nat -> nat, stop: nat -> bool, c: nat, bound: nat, n: nat)
    requires NoRepeat(next, stop, c) && GoesOn(next, stop, c, n) && forall x: nat :: next(x) < bound
    ensures n <= bound
  {
    var s := seq(n, (k: nat) => Visit(next, c, k + 1));
    forall i, j | 0 <= i < j < n
      ensures s[i] != s[j]
    {
      assert GoesOn(next, stop, c, j + 1);
    }
    DistinctSize(s);
    BoundedSize(Elements(s), bound);
  }

  /** Without a repetition some node stops. */
  lemma AcyclicStops(next: nat -> nat, stop: nat -> bool, c: nat, bound: nat) returns (n: nat)
    requires NoRepeat(next, stop, c) && forall x: nat :: next(x) < bound
    ensures StopsAfter(next, stop, c, n)
  {
    n := 0;
    while !stop(Visit(next, c, n))
      invariant n <= bound && GoesOn(next, stop, c, n)
      decreases bound - n
    {
      GoesOnShort(next, stop, c, bound, n + 1);
      n := n + 1;
    }
  }

  /** Links among nodes below a bound lead to one that stops if and only if none comes twice. */
  lemma StopsIffNoRepeat(next: nat -> nat, stop: nat -> bool, c: nat, bound: nat)
    requires forall x: nat :: next(x) < bound
    ensures (exists n: nat :: StopsAfter(next, stop, c, n)) <==> NoRepeat(next, stop, c)
  {
    if NoRepeat(next, stop, c) {
      var n := AcyclicStops(next, stop, c, bound);
    }
    if n: nat :| StopsAfter(next, stop, c, n) {
      forall i: nat, j: nat | i < j && GoesOn(next, stop, c, j)
        ensures Visit(next, c, i) != Visit(next, c, j)
      {
        if Visit(next, c, i) == Visit(next, c, j) { RoundForEver(next, stop, c, i, j, n); }
      }
    }
  }
}
