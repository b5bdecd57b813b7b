/** The allocation table of a heap as a value: what the entries mean, the two ways the
    allocator rewrites them, and the map of live runs they stand for. */
module BlockTable {
  import opened Words

  datatype Option<+T> = None | Some(value: T)

  /** One table entry: whether its block is taken, and the run `[start, end)` it belongs to. */
  datatype Block = Block(taken: bool, start: nat, end: nat)

  const FREE := Block(false, 0, 0)

  type Table = seq<Block>

  /** Every entry of `[s, e)` carries exactly that run. */
  ghost predicate RunAt(t: Table, s: nat, e: nat) {
    s < e <= |t| && forall m | s <= m < e :: t[m] == Block(true, s, e)
  }

  ghost predicate EntryOk(t: Table, k: nat)
    requires k < |t|
  {
    if t[k].taken
    then t[k].start <= k < t[k].end && RunAt(t, t[k].start, t[k].end)
    else t[k] == FREE
  }

  /** Taken entries carry the exact bounds of their run, free entries are all zero. */
  ghost predicate WellFormed(t: Table) {
    forall k | 0 <= k < |t| :: EntryOk(t, k)
  }

  /** The blocks `[i, i + n)` exist and are free. */
  ghost predicate RunFree(t: Table, i: nat, n: nat) {
    i + n <= |t| && forall m | i <= m < i + n :: !t[m].taken
  }

  /** The abstract heap: start block of each live run, with its length. */
  ghost function Runs(t: Table): map<nat, nat> {
    map s: nat | s < |t| && t[s].taken && t[s].start == s && s < t[s].end :: t[s].end - s
  }

  function Painted(t: Table, from: nat, to: nat, b: Block): (r: Table)
    ensures |r| == |t|
    ensures forall k | 0 <= k < |t| :: r[k] == if from <= k < to then b else t[k]
  {
    seq(|t|, k requires 0 <= k < |t| => if from <= k < to then b else t[k])
  }

  /** The table after the marking loops; the two bounds are 32-bit fields. */
  function Marked(t: Table, i: nat, n: nat): Table {
    Painted(t, i, i + n, Block(true, U32(i), U32(i + n)))
  }

  /** The table after the clearing loop of `free`. */
  function Cleared(t: Table, i: nat, e: nat): Table {
    Painted(t, i, e, FREE)
  }

  // ---- each operation refines an update of the map of runs ----

  lemma RunMember(t: Table, k: nat)
    requires WellFormed(t) && k < |t| && t[k].taken
    ensures var s := t[k].start; s <= k < t[k].end && RunAt(t, s, t[k].end)
    ensures var s := t[k].start; s in Runs(t) && Runs(t)[s] == t[k].end - s
  {
    assert EntryOk(t, k);
  }

  lemma RunStart(t: Table, s: nat)
    requires WellFormed(t) && s in Runs(t)
    ensures s < |t| && t[s].end == s + Runs(t)[s] && RunAt(t, s, t[s].end)
  {
    assert EntryOk(t, s);
  }

  /** A block is taken exactly when some live run contains it. */
  lemma TakenIffInRun(t: Table, k: nat)
    requires WellFormed(t) && k < |t|
    ensures t[k].taken <==> exists s: nat :: s in Runs(t) && s <= k < s + Runs(t)[s]
  {
    if t[k].taken { RunMember(t, k); }
    forall s: nat | s in Runs(t) && s <= k < s + Runs(t)[s]
      ensures t[k].taken
    {
      RunStart(t, s);
    }
  }

  lemma RunsDisjoint(t: Table, a: nat, b: nat)
    requires WellFormed(t) && a in Runs(t) && b in Runs(t) && a < b
    ensures 0 < Runs(t)[a] && a + Runs(t)[a] <= b && b + Runs(t)[b] <= |t|
  {
    RunStart(t, a);
    RunStart(t, b);
  }

  /** The table is no more than its runs: same runs, same entries. */
  lemma TableDetermined(t: Table, u: Table)
    requires WellFormed(t) && WellFormed(u) && |t| == |u| && Runs(t) == Runs(u)
    ensures t == u
  {
    forall k | 0 <= k < |t|
      ensures t[k] == u[k]
    {
      EntryDetermined(t, u, k);
      EntryDetermined(u, t, k);
      assert EntryOk(t, k) && EntryOk(u, k);
    }
  }

  lemma EntryDetermined(t: Table, u: Table, k: nat)
    requires WellFormed(t) && WellFormed(u) && |t| == |u| && Runs(t) == Runs(u) && k < |t|
    ensures t[k].taken ==> t[k] == u[k]
  {
    if t[k].taken {
      RunMember(t, k);
      RunStart(u, t[k].start);
    }
  }

  /** A run none of whose entries changed is still there. */
  lemma RunUntouched(t: Table, u: Table, k: nat)
    requires WellFormed(t) && |t| == |u| && k < |t| && t[k].taken
    requires forall m | t[k].start <= m < t[k].end :: m < |t| && (t[m] == t[k] ==> u[m] == t[m])
    ensures RunAt(u, t[k].start, t[k].end)
  {
    RunMember(t, k);
  }

  lemma MarkedRefines(t: Table, i: nat, n: nat)
    requires WellFormed(t) && |t| < TWO32 && n > 0 && RunFree(t, i, n)
    ensures WellFormed(Marked(t, i, n))
    ensures i !in Runs(t) && Runs(Marked(t, i, n)) == Runs(t)[i := n]
  {
    MarkedWellFormed(t, i, n);
    var after, expected := Runs(Marked(t, i, n)), Runs(t)[i := n];
    forall s: nat
      ensures s in after <==> s in expected
      ensures s in after ==> after[s] == expected[s]
    {
      MarkedEntry(t, i, n, s);
    }
    assert after.Keys == expected.Keys;
  }

  /** What the marked table holds at `s`: the new run, or what was there. */
  lemma MarkedEntry(t: Table, i: nat, n: nat, s: nat)
    requires |t| < TWO32 && n > 0 && RunFree(t, i, n)
    ensures |Marked(t, i, n)| == |t|
    ensures s < |t| ==> Marked(t, i, n)[s] == if i <= s < i + n then Block(true, i, i + n) else t[s]
  {
    RemainderSmall(i, TWO32);
    RemainderSmall(i + n, TWO32);
  }

  lemma MarkedWellFormed(t: Table, i: nat, n: nat)
    requires WellFormed(t) && |t| < TWO32 && n > 0 && RunFree(t, i, n)
    ensures WellFormed(Marked(t, i, n))
  {
    var u := Marked(t, i, n);
    forall k | 0 <= k < |u|
      ensures u[k] == if i <= k < i + n then Block(true, i, i + n) else t[k]
    {
      MarkedEntry(t, i, n, k);
    }
    assert RunAt(u, i, i + n);
    forall k | 0 <= k < |u|
      ensures EntryOk(u, k)
    {
      assert EntryOk(t, k);
      if !(i <= k < i + n) && t[k].taken { RunOutside(t, u, i, n, k); }
    }
  }

  /** A run does not meet the free stretch that was marked, so it is as before. */
  lemma RunOutside(t: Table, u: Table, i: nat, n: nat, k: nat)
    requires WellFormed(t) && RunFree(t, i, n) && k < |t| == |u| && t[k].taken
    requires forall m | 0 <= m < |t| && !(i <= m < i + n) :: u[m] == t[m]
    ensures RunAt(u, t[k].start, t[k].end)
  {
    RunMember(t, k);
    forall m | t[k].start <= m < t[k].end
      ensures u[m] == t[m]
    {
      assert t[m].taken;
    }
  }

  lemma ClearedRefines(t: Table, s: nat)
    requires WellFormed(t) && s in Runs(t)
    ensures WellFormed(Cleared(t, s, t[s].end))
    ensures Runs(Cleared(t, s, t[s].end)) == Runs(t) - {s}
  {
    RunStart(t, s);
    var e := t[s].end;
    var u := Cleared(t, s, e);
    forall k | 0 <= k < |u|
      ensures EntryOk(u, k)
    {
      assert EntryOk(t, k);
      if !(s <= k < e) && t[k].taken { RunUntouched(t, u, k); }
    }
  }

  /** Freeing a block in the table keeps it well formed exactly when the block is free or
      starts its run: a pointer into the middle of a run leaves stale bounds behind. */
  lemma ClearKeepsWellFormedIff(t: Table, b: nat)
    requires WellFormed(t) && b < |t|
    ensures WellFormed(Cleared(t, b, t[b].end)) <==> !t[b].taken || t[b].start == b
  {
    assert EntryOk(t, b);
    var u := Cleared(t, b, t[b].end);
    if !t[b].taken {
      assert u == t;
    } else if t[b].start == b {
      ClearedRefines(t, b);
    } else {
      assert u[t[b].start] == t[b] && !u[b].taken;
      assert !EntryOk(u, t[b].start);
    }
  }

  /** Freeing the second block of a run of two leaves the first with an end beyond its run. */
  lemma MiddlePointerBreaksTable()
    ensures var t := [Block(true, 0, 2), Block(true, 0, 2)];
            WellFormed(t) && Cleared(t, 1, t[1].end) == [Block(true, 0, 2), FREE]
              && !WellFormed(Cleared(t, 1, t[1].end))
  {
    var t := [Block(true, 0, 2), Block(true, 0, 2)];
    assert forall k | 0 <= k < |t| :: EntryOk(t, k);
    ClearKeepsWellFormedIff(t, 1);
  }

  lemma ClearingFreeBlock(t: Table, b: nat)
    requires WellFormed(t) && b < |t| && !t[b].taken
    ensures Cleared(t, b, t[b].end) == t
  {
    assert EntryOk(t, b);
  }

  /** Allocate then free gives back the same table, entry for entry. */
  lemma MarkThenClear(t: Table, i: nat, n: nat)
    requires WellFormed(t) && |t| < TWO32 && n > 0 && RunFree(t, i, n)
    ensures var u := Marked(t, i, n); Cleared(u, i, u[i].end) == t
  {
    forall k | i <= k < i + n
      ensures t[k] == FREE
    {
      assert EntryOk(t, k);
    }
  }

  /** Frees of two distinct live runs commute. */
  lemma ClearsCommute(t: Table, a: nat, b: nat)
    requires WellFormed(t) && a in Runs(t) && b in Runs(t) && a != b
    ensures var u, v := Cleared(t, a, t[a].end), Cleared(t, b, t[b].end);
            Cleared(u, b, u[b].end) == Cleared(v, a, v[a].end)
  {
    RunStart(t, a);
    RunStart(t, b);
  }

  // ---- conservation: taken blocks are the sum of the live runs ----

  function TakenCount(t: Table): nat {
    if t == [] then 0
    else TakenCount(t[..|t| - 1]) + if t[|t| - 1].taken then 1 else 0
  }

  ghost function Total(m: map<nat, nat>): nat
    decreases |m|
  {
    if m == map[] then 0 else
      var k :| k in m;
      m[k] + Total(m - {k})
  }

  lemma {:induction false} TotalRemove(m: map<nat, nat>, k: nat)
    requires k in m
    ensures Total(m) == m[k] + Total(m - {k})
    decreases |m|
  {
    var c :| c in m && Total(m) == m[c] + Total(m - {c});
    if c != k {
      TotalRemove(m - {c}, k);
      TotalRemove(m - {k}, c);
      assert m - {c} - {k} == m - {k} - {c};
    }
  }

  lemma {:induction false} CountCleared(t: Table, s: nat, e: nat)
    requires s <= e <= |t| && forall k | s <= k < e :: t[k].taken
    ensures TakenCount(t) == TakenCount(Cleared(t, s, e)) + (e - s)
  {
    var u := Cleared(t, s, e);
    if t != [] {
      var t', u' := t[..|t| - 1], u[..|t| - 1];
      if e == |t| && s < e {
        assert u' == Cleared(t', s, e - 1);
        CountCleared(t', s, e - 1);
      } else if s == e {
        assert u == t;
      } else {
        assert u' == Cleared(t', s, e);
        CountCleared(t', s, e);
      }
    }
  }

  lemma {:induction false} CountAllFree(t: Table)
    requires forall k | 0 <= k < |t| :: !t[k].taken
    ensures TakenCount(t) == 0
  {
    if t != [] { CountAllFree(t[..|t| - 1]); }
  }

  lemma {:induction false} TakenIsTotal(t: Table)
    requires WellFormed(t)
    ensures TakenCount(t) == Total(Runs(t))
    decreases |Runs(t)|
  {
    if Runs(t) == map[] {
      forall k | 0 <= k < |t|
        ensures !t[k].taken
      {
        if t[k].taken { RunMember(t, k); }
      }
      CountAllFree(t);
    } else {
      var s :| s in Runs(t);
      RunStart(t, s);
      ClearedRefines(t, s);
      CountCleared(t, s, t[s].end);
      TakenIsTotal(Cleared(t, s, t[s].end));
      TotalRemove(Runs(t), s);
    }
  }

  // ---- first fit, by plain search ----

  /** The least `k` in `[i, limit)` with `p(k)`. */
  ghost function Least(p: nat -> bool, i: nat, limit: nat): (r: Option<nat>)
    ensures r.Some? ==> i <= r.value < limit && p(r.value) && forall k | i <= k < r.value :: !p(k)
    ensures r.None? ==> forall k | i <= k < limit :: !p(k)
    decreases limit - i
  {
    if i >= limit then None
    else if p(i) then Some(i)
    else Least(p, i + 1, limit)
  }

  /** Block `i` starts a fit for `alloc`: a block of the table that is free, with `n` free
      entries from there on, inside the table or not. */
  ghost predicate Fits(mem: Table, total: nat, n: nat, i: nat)
    requires total <= |mem|
  {
    i < total && !mem[i].taken && RunFree(mem, i, n)
  }

  /** The lowest fit for `alloc`. */
  ghost function FirstFit(mem: Table, total: nat, n: nat): (r: Option<nat>)
    requires total <= |mem|
    ensures r.Some? ==> Fits(mem, total, n, r.value) && forall k: nat | k < r.value :: !Fits(mem, total, n, k)
    ensures r.None? ==> forall k: nat :: !Fits(mem, total, n, k)
  {
    var p := (i: nat) => Fits(mem, total, n, i);
    assert forall k: nat :: p(k) == Fits(mem, total, n, k);
    Least(p, 0, total)
  }

  /** Block `i` starts a fit for `alloc_aligned` with alignment `a`. */
  ghost predicate FitsAligned(t: Table, base: nat, size: nat, n: nat, a: nat, i: nat)
    requires a > 0
  {
    RunFree(t, i, n) && (base + i * size) % a == 0
  }

  /** The lowest fit for `alloc_aligned`. */
  ghost function FirstAligned(t: Table, base: nat, size: nat, n: nat, a: nat): (r: Option<nat>)
    requires a > 0
    ensures r.Some? ==> FitsAligned(t, base, size, n, a, r.value)
                        && forall k: nat | k < r.value :: !FitsAligned(t, base, size, n, a, k)
    ensures r.None? ==> forall k: nat :: !FitsAligned(t, base, size, n, a, k)
  {
    var p := (i: nat) => FitsAligned(t, base, size, n, a, i);
    assert forall k: nat :: p(k) == FitsAligned(t, base, size, n, a, k);
    Least(p, 0, |t| + 1)
  }

  /** Some run of `n` blocks inside the table is free. */
  ghost predicate HasRoom(t: Table, n: nat) {
    exists i: nat :: RunFree(t, i, n)
  }

  /** With room in the table the plain search stays inside it, whatever lies beyond. */
  lemma FirstFitInside(mem: Table, total: nat, n: nat)
    requires total <= |mem| && n > 0 && HasRoom(mem[..total], n)
    ensures var f := FirstFit(mem, total, n);
            f.Some? && RunFree(mem[..total], f.value, n) && f == FirstFit(mem[..total], total, n)
  {
    var i: nat :| RunFree(mem[..total], i, n);
    assert Fits(mem, total, n, i) by { assert mem[..total][i] == mem[i]; }
    var t := mem[..total];
    forall k | 0 <= k <= i
      ensures Fits(mem, total, n, k) <==> Fits(t, total, n, k)
    {
    }
  }

  lemma MultiplesAddUp(base: nat, k: nat, size: nat, a: nat)
    requires a > 0 && base % a == 0 && size % a == 0
    ensures (base + k * size) % a == 0
  {
    var p, q := base / a, size / a;
    assert base == p * a && size == q * a;
    assert base + k * size == (p + k * q) * a;
    DivModUnique(base + k * size, a, p + k * q, 0);
  }

  /** Alignments that divide the first address and the block size do not change the answer. */
  lemma FirstFitIsFirstAligned(t: Table, base: nat, size: nat, n: nat, a: nat)
    requires a > 0 && base % a == 0 && size % a == 0 && n > 0
    ensures FirstFit(t, |t|, n) == FirstAligned(t, base, size, n, a)
  {
    forall k: nat
      ensures FitsAligned(t, base, size, n, a, k) <==> Fits(t, |t|, n, k)
    {
      MultiplesAddUp(base, k, size, a);
    }
    SameFits(t, base, size, n, a);
  }

  lemma SameFits(t: Table, base: nat, size: nat, n: nat, a: nat)
    requires a > 0 && forall k: nat :: FitsAligned(t, base, size, n, a, k) <==> Fits(t, |t|, n, k)
    ensures FirstFit(t, |t|, n) == FirstAligned(t, base, size, n, a)
  {
  }

  /** First fit eats a free stretch from the left: what is left of it stays free. */
  lemma RoomAfterFirstFit(t: Table, r: nat, room: nat, n: nat)
    requires 0 < n <= room && RunFree(t, r, room)
    ensures var f := FirstFit(t, |t|, n); f.Some? && RunFree(Marked(t, f.value, n), r + n, room - n)
  {
    assert t[r].taken == false;
    assert Fits(t, |t|, n, r);
  }
}
