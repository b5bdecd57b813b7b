/** Finding the largest hole below 4 GiB: record the ranges in use, sort them in place, sweep. */
module MmioHole {
  import opened Words
  import E820

  const MAX_RANGES: nat := E820.MAX_ENTRIES + 8
  const FLASH_START: nat := 0xFFC00000

  datatype Range = Range(base: nat, end: nat) {
    predicate Covers(x: nat) { base <= x < end }

    /** The half-open interval `[a, b)` misses the range. */
    predicate Misses(a: nat, b: nat) { b <= base || end <= a }
  }

  /** A PCIe configuration window, as listed by the MCFG table. */
  datatype McfgEntry = McfgEntry(baseAddress: nat, startBus: nat, endBus: nat) {
    function Window(): Range {
      Range(U64(baseAddress + startBus * 0x10_0000), U64(baseAddress + (endBus + 1) * 0x10_0000))
    }
  }

  // ---- recording ----

  predicate Useful(r: Range) { r.base < FOUR_GIB && r.base < r.end }

  function Clip(r: Range): Range { Range(r.base, Min(r.end, FOUR_GIB)) }

  function Recorded(rs: seq<Range>, r: Range): seq<Range> {
    if !Useful(r) || |rs| >= MAX_RANGES then rs else rs + [Clip(r)]
  }

  function RecordAll(rs: seq<Range>, inputs: seq<Range>): seq<Range>
    decreases |inputs|
  {
    if inputs == [] then rs else RecordAll(Recorded(rs, inputs[0]), inputs[1..])
  }

  ghost predicate Covered(rs: seq<Range>, x: nat) {
    exists i | 0 <= i < |rs| :: rs[i].Covers(x)
  }

  ghost predicate Bounded(rs: seq<Range>) {
    forall i | 0 <= i < |rs| :: rs[i].base < rs[i].end <= FOUR_GIB
  }

  /** `[a, b)` lies below 4 GiB and misses every range. */
  ghost predicate Free(rs: seq<Range>, a: nat, b: nat) {
    a < b <= FOUR_GIB && forall i | 0 <= i < |rs| :: rs[i].Misses(a, b)
  }

  /** A longest free interval, and the lowest of those. */
  ghost predicate LargestFree(rs: seq<Range>, base: nat, end: nat) {
    && Free(rs, base, end)
    && forall a: nat, b: nat | Free(rs, a, b) :: b - a < end - base || (b - a == end - base && base <= a)
  }

  lemma FreeIffUncovered(rs: seq<Range>, x: nat)
    requires x < FOUR_GIB
    ensures Free(rs, x, x + 1) <==> !Covered(rs, x)
  {
  }

  /** The ranges that are in use, in the order in which they are recorded. */
  function InUse(m: E820.MemoryMap, mcfg: seq<McfgEntry>): seq<Range> {
    E820Ranges(m) + FixedRanges() + McfgRanges(mcfg)
  }

  function E820Ranges(m: E820.MemoryMap): seq<Range> {
    seq(|m|, i requires 0 <= i < |m| => Range(m[i].base, U64(m[i].base + m[i].length)))
  }

  function FixedRanges(): seq<Range> {
    [ Range(0xFEC00000, 0xFEC01000), Range(0xFED00000, 0xFED00400),
      Range(0xFEE00000, 0xFEE01000), Range(FLASH_START, FOUR_GIB) ]
  }

  /** Interrupt controllers, timer and firmware flash. */
  predicate FixedDevice(x: nat) {
    || 0xFEC0_0000 <= x < 0xFEC0_1000
    || 0xFED0_0000 <= x < 0xFED0_0400
    || 0xFEE0_0000 <= x < 0xFEE0_1000
    || 0xFFC0_0000 <= x < 0x1_0000_0000
  }

  lemma FixedRangesCover(x: nat)
    ensures Covered(FixedRanges(), x) <==> FixedDevice(x)
  {
    var rs := FixedRanges();
    assert Covered(rs, x) <==> rs[0].Covers(x) || rs[1].Covers(x) || rs[2].Covers(x) || rs[3].Covers(x);
  }

  function McfgRanges(mcfg: seq<McfgEntry>): seq<Range> {
    seq(|mcfg|, i requires 0 <= i < |mcfg| => mcfg[i].Window())
  }

  lemma {:induction false} RecordAllAppend(rs: seq<Range>, xs: seq<Range>, x: Range)
    ensures RecordAll(rs, xs + [x]) == Recorded(RecordAll(rs, xs), x)
    decreases |xs|
  {
    if xs == [] {
      assert (xs + [x])[1..] == [];
    } else {
      assert (xs + [x])[1..] == xs[1..] + [x];
      RecordAllAppend(Recorded(rs, xs[0]), xs[1..], x);
    }
  }

  /** While the array has a slot for every input, recording loses no address below 4 GiB and
      invents none. */
  lemma {:induction false} RecordAllCovers(rs: seq<Range>, inputs: seq<Range>, x: nat)
    requires |rs| + |inputs| <= MAX_RANGES && x < FOUR_GIB
    ensures Covered(RecordAll(rs, inputs), x) <==> Covered(rs, x) || Covered(inputs, x)
    decreases |inputs|
  {
    if inputs != [] {
      var r := inputs[0];
      RecordAllCovers(Recorded(rs, r), inputs[1..], x);
      CoveredAppend(rs, Clip(r), x);
      CoveredPrepend(r, inputs[1..], x);
      assert inputs == [r] + inputs[1..];
    }
  }

  lemma CoveredAppend(rs: seq<Range>, r: Range, x: nat)
    ensures Covered(rs + [r], x) <==> Covered(rs, x) || r.Covers(x)
  {
    var s := rs + [r];
    assert s[|rs|] == r;
    assert forall i | 0 <= i < |rs| :: s[i] == rs[i];
  }

  lemma CoveredPrepend(r: Range, rs: seq<Range>, x: nat)
    ensures Covered([r] + rs, x) <==> r.Covers(x) || Covered(rs, x)
  {
    var s := [r] + rs;
    assert s[0] == r;
    assert forall i | 0 <= i < |rs| :: s[i + 1] == rs[i];
  }

  /** Whatever else is dropped, what is recorded is bounded and is never dropped again. */
  lemma {:induction false} RecordAllBounded(rs: seq<Range>, inputs: seq<Range>)
    requires Bounded(rs) && |rs| <= MAX_RANGES
    ensures Bounded(RecordAll(rs, inputs)) && rs <= RecordAll(rs, inputs) && |RecordAll(rs, inputs)| <= MAX_RANGES
    decreases |inputs|
  {
    if inputs != [] { RecordAllBounded(Recorded(rs, inputs[0]), inputs[1..]); }
  }

  lemma {:induction false} RecordAllSplit(rs: seq<Range>, xs: seq<Range>, ys: seq<Range>)
    ensures RecordAll(rs, xs + ys) == RecordAll(RecordAll(rs, xs), ys)
    decreases |xs|
  {
    if xs == [] {
      assert xs + ys == ys;
    } else {
      assert (xs + ys)[1..] == xs[1..] + ys;
      RecordAllSplit(Recorded(rs, xs[0]), xs[1..], ys);
    }
  }

  /** The ranges worth recording, clipped. */
  function Worthwhile(inputs: seq<Range>): seq<Range> {
    if inputs == [] then []
    else (if Useful(inputs[0]) then [Clip(inputs[0])] else []) + Worthwhile(inputs[1..])
  }

  /** At most the first `n` ranges. */
  function Capped(rs: seq<Range>, n: nat): seq<Range> {
    if |rs| <= n then rs else rs[..n]
  }

  lemma CappedStep(rs: seq<Range>, r: Range, ts: seq<Range>, n: nat)
    requires n > 0
    ensures rs + Capped([r] + ts, n) == (rs + [r]) + Capped(ts, n - 1)
  {
    assert |ts| >= n ==> ([r] + ts)[..n] == [r] + ts[..n - 1];
  }

  /** What is recorded is the worthwhile ranges in order, cut off where the array is full. */
  lemma {:induction false} RecordAllIsPrefix(rs: seq<Range>, inputs: seq<Range>)
    requires |rs| <= MAX_RANGES
    ensures RecordAll(rs, inputs) == rs + Capped(Worthwhile(inputs), MAX_RANGES - |rs|)
    decreases |inputs|
  {
    if inputs != [] {
      RecordAllIsPrefix(Recorded(rs, inputs[0]), inputs[1..]);
      if !Useful(inputs[0]) {
        assert Worthwhile(inputs) == Worthwhile(inputs[1..]);
      } else if |rs| < MAX_RANGES {
        CappedStep(rs, Clip(inputs[0]), Worthwhile(inputs[1..]), MAX_RANGES - |rs|);
      }
    }
  }

  /** Nothing is dropped exactly when the worthwhile ranges fit the array. */
  lemma RecordsAllIff(inputs: seq<Range>)
    ensures RecordAll([], inputs) == Worthwhile(inputs) <==> |Worthwhile(inputs)| <= MAX_RANGES
  {
    RecordAllIsPrefix([], inputs);
  }

  /** Leaving out what is not worth recording loses no address below 4 GiB. */
  lemma {:induction false} WorthwhileCovers(inputs: seq<Range>, x: nat)
    requires x < FOUR_GIB
    ensures Covered(Worthwhile(inputs), x) <==> Covered(inputs, x)
    decreases |inputs|
  {
    if inputs != [] {
      var r, rest := inputs[0], inputs[1..];
      WorthwhileCovers(rest, x);
      CoveredPrepend(r, rest, x);
      assert inputs == [r] + rest;
      if Useful(r) {
        CoveredPrepend(Clip(r), Worthwhile(rest), x);
      } else {
        assert Worthwhile(inputs) == Worthwhile(rest);
      }
    }
  }

  lemma {:induction false} AllWorthwhile(inputs: seq<Range>)
    requires forall i | 0 <= i < |inputs| :: Useful(inputs[i]) && inputs[i].end <= FOUR_GIB
    ensures Worthwhile(inputs) == inputs
    decreases |inputs|
  {
    if inputs != [] { AllWorthwhile(inputs[1..]); }
  }

  // ---- sorting ----

  ghost predicate Sorted(rs: seq<Range>) {
    forall i, j | 0 <= i < j < |rs| :: rs[i].base <= rs[j].base
  }

  lemma SameElements(rs: seq<Range>, ts: seq<Range>)
    requires multiset(rs) == multiset(ts)
    ensures forall i | 0 <= i < |rs| :: rs[i] in ts
  {
    forall i | 0 <= i < |rs|
      ensures rs[i] in ts
    {
      assert rs[i] in multiset(rs);
    }
  }

  /** Reordering the ranges changes no free interval. */
  lemma FreePermuted(rs: seq<Range>, ts: seq<Range>, a: nat, b: nat)
    requires multiset(rs) == multiset(ts)
    ensures Free(rs, a, b) <==> Free(ts, a, b)
  {
    SameElements(rs, ts);
    SameElements(ts, rs);
  }

  /** `s` with entry `i` moved down to place `p`. */
  function Moved(s: seq<Range>, p: nat, i: nat): seq<Range>
    requires p <= i < |s|
  {
    s[..p] + [s[i]] + s[p..i] + s[i + 1..]
  }

  /** Moving loses no element and repeats none. */
  lemma MovedKeepsElements(s: seq<Range>, p: nat, i: nat)
    requires p <= i < |s|
    ensures multiset(Moved(s, p, i)) == multiset(s)
  {
    assert s == s[..p] + s[p..i] + [s[i]] + s[i + 1..];
  }

  /** Moved down past exactly the larger keys, the entry extends the sorted part. */
  lemma MovedSorted(s: seq<Range>, u: seq<Range>, p: nat, i: nat)
    requires p <= i < |s| && u == Moved(s, p, i) && Sorted(s[..i])
    requires p > 0 ==> s[p - 1].base <= s[i].base
    requires forall k | p <= k < i :: s[i].base < s[k].base
    ensures Sorted(u[..i + 1])
  {
    var t := s[..i];
    forall a, b | 0 <= a < b < i + 1
      ensures u[a].base <= u[b].base
    {
      MovedAt(s, p, i, a);
      MovedAt(s, p, i, b);
      if a == p {
        assert s[i].base < s[b - 1].base;
      } else if b == p {
        assert t[a].base <= t[p - 1].base;
      } else {
        assert t[if a < p then a else a - 1].base <= t[if b < p then b else b - 1].base;
      }
    }
  }

  lemma MovedAt(s: seq<Range>, p: nat, i: nat, k: nat)
    requires p <= i < |s| && k <= i
    ensures Moved(s, p, i)[k] == if k < p then s[k] else if k == p then s[i] else s[k - 1]
  {
  }

  /** What one insertion leaves: the entries of `s`, with `i` moved down to `p`. */
  lemma Inserted(s: seq<Range>, u: seq<Range>, p: nat, i: nat)
    requires p <= i < |s| == |u| && u[p] == s[i] && Sorted(s[..i])
    requires forall k | 0 <= k < p || i < k < |s| :: u[k] == s[k]
    requires forall k | p < k <= i :: u[k] == s[k - 1]
    requires p > 0 ==> s[p - 1].base <= s[i].base
    requires forall k | p <= k < i :: s[i].base < s[k].base
    ensures Sorted(u[..i + 1]) && multiset(u) == multiset(s)
  {
    assert u == Moved(s, p, i);
    MovedKeepsElements(s, p, i);
    MovedSorted(s, u, p, i);
  }

  class RangeTable {
    const ranges: array<Range>
    var count: nat

    ghost predicate Valid()
      reads this
    {
      ranges.Length == MAX_RANGES && count <= MAX_RANGES
    }

    function View(): seq<Range>
      requires count <= ranges.Length
      reads this, ranges
    {
      ranges[..count]
    }

    constructor ()
      ensures Valid() && View() == [] && fresh(ranges)
    {
      ranges := new Range[MAX_RANGES](_ => Range(0, 0));
      count := 0;
    }

    method Add(base: nat, end: nat)
      requires Valid()
      modifies this, ranges
      ensures Valid() && View() == Recorded(old(View()), Range(base, end))
    {
      if base >= FOUR_GIB || end <= base || count >= MAX_RANGES {
        return;
      }
      ranges[count] := Range(base, if end > FOUR_GIB then FOUR_GIB else end);
      count := count + 1;
    }

    method AddAll(rs: seq<Range>)
      requires Valid()
      modifies this, ranges
      ensures Valid() && View() == RecordAll(old(View()), rs)
    {
      for i := 0 to |rs|
        invariant Valid() && View() == RecordAll(old(View()), rs[..i])
      {
        assert rs[..i + 1] == rs[..i] + [rs[i]];
        RecordAllAppend(old(View()), rs[..i], rs[i]);
        Add(rs[i].base, rs[i].end);
      }
      assert rs[..|rs|] == rs;
    }

    /** Inserts entry `i` into the sorted entries before it. */
    method Insert(i: nat)
      requires Valid() && 0 < i < count && Sorted(View()[..i])
      modifies ranges
      ensures Sorted(View()[..i + 1]) && multiset(View()) == multiset(old(View()))
    {
      var key := ranges[i];
      var j: int := i - 1;
      ghost var s := View();
      while j >= 0 && ranges[j].base > key.base
        invariant -1 <= j < i && (j >= 0 ==> ranges[j] == s[j])
        invariant forall k | 0 <= k <= j + 1 || i < k < count :: ranges[k] == s[k]
        invariant forall k | j + 1 < k <= i :: ranges[k] == s[k - 1]
        invariant forall k | j < k < i :: key.base < s[k].base
      {
        ranges[j + 1] := ranges[j];
        j := j - 1;
      }
      ranges[j + 1] := key;
      Inserted(s, View(), j + 1, i);
    }

    /** The insertion sort. */
    method Sort()
      requires Valid()
      modifies ranges
      ensures Sorted(View()) && multiset(View()) == multiset(old(View()))
    {
      var i := 1;
      while i < count
        invariant 1 <= i && (i <= count || count <= 1)
        invariant i <= count ==> Sorted(View()[..i])
        invariant multiset(View()) == multiset(old(View()))
      {
        Insert(i);
        i := i + 1;
      }
      assert count > 0 ==> View()[..count] == View();
    }

    /** Walks the sorted ranges and keeps the largest gap seen. */
    method Sweep() returns (base: nat, size: nat)
      requires Valid() && Sorted(View()) && Bounded(View())
      ensures size > 0 ==> LargestFree(View(), base, base + size)
      ensures size == 0 ==> forall a: nat, b: nat :: !Free(View(), a, b)
    {
      var cursor := 0;
      base, size := 0, 0;
      ghost var rs := View();
      var i := 0;
      while i < count
        invariant i <= count && cursor <= FOUR_GIB
        invariant forall k | 0 <= k < i :: rs[k].end <= cursor
        invariant base + size <= cursor && (size > 0 ==> Free(rs, base, base + size))
        invariant forall a: nat, b: nat | Free(rs, a, b) && a < cursor :: b - a < size || (b - a == size && base <= a)
      {
        if ranges[i].base > cursor && ranges[i].base - cursor > size {
          base := cursor;
          size := ranges[i].base - cursor;
        }
        if ranges[i].end > cursor {
          cursor := ranges[i].end;
        }
        i := i + 1;
      }
      if FOUR_GIB > cursor && FOUR_GIB - cursor > size {
        base := cursor;
        size := FOUR_GIB - cursor;
      }
    }
  }

  /** Steps 1 and 2 of the search: every range in use goes into the array. */
  method RecordInUse(m: E820.MemoryMap, mcfg: seq<McfgEntry>) returns (ranges: RangeTable)
    ensures fresh(ranges) && fresh(ranges.ranges) && ranges.Valid()
    ensures ranges.View() == RecordAll([], InUse(m, mcfg))
  {
    ranges := new RangeTable();
    ranges.AddAll(E820Ranges(m));
    ranges.AddAll(FixedRanges());
    ranges.AddAll(McfgRanges(mcfg));
    RecordAllSplit([], E820Ranges(m), FixedRanges());
    RecordAllSplit([], E820Ranges(m) + FixedRanges(), McfgRanges(mcfg));
  }

  /** The largest hole below 4 GiB that misses every recorded range, the lowest one on a tie;
      there is none exactly when the recorded ranges cover [0, 4 GiB). */
  method FindHole(m: E820.MemoryMap, mcfg: seq<McfgEntry>) returns (found: bool, base: nat, end: nat)
    ensures found ==> LargestFree(RecordAll([], InUse(m, mcfg)), base, end)
    ensures found <==> exists x: nat | x < FOUR_GIB :: !Covered(RecordAll([], InUse(m, mcfg)), x)
  {
    var ranges := RecordInUse(m, mcfg);
    ghost var rs := ranges.View();
    RecordAllBounded([], InUse(m, mcfg));
    ranges.Sort();
    SameElements(ranges.View(), rs);
    var size;
    base, size := ranges.Sweep();
    SortingIsHarmless(rs, ranges.View(), base, size);
    found, end := size != 0, base + size;
  }

  /** The answer for the sorted ranges is the answer for the ranges as recorded. */
  lemma SortingIsHarmless(rs: seq<Range>, ts: seq<Range>, base: nat, size: nat)
    requires multiset(rs) == multiset(ts)
    requires size > 0 ==> LargestFree(ts, base, base + size)
    requires size == 0 ==> forall a: nat, b: nat :: !Free(ts, a, b)
    ensures size > 0 ==> LargestFree(rs, base, base + size)
    ensures size > 0 <==> exists x: nat | x < FOUR_GIB :: !Covered(rs, x)
  {
    forall a: nat, b: nat | Free(rs, a, b)
      ensures Free(ts, a, b)
    {
      FreePermuted(rs, ts, a, b);
    }
    if size > 0 {
      FreePermuted(rs, ts, base, base + size);
      assert !Covered(rs, base);
    } else {
      forall x: nat | x < FOUR_GIB
        ensures Covered(rs, x)
      {
        FreeIffUncovered(rs, x);
      }
    }
  }

  /** Memory and fixed devices come first, and there is room for all of them. */
  lemma FirstRecorded(m: E820.MemoryMap, mcfg: seq<McfgEntry>, x: nat)
    requires E820.WellFormed(m) && x < FOUR_GIB
    ensures E820.Covered(m, x) || FixedDevice(x) ==> Covered(RecordAll([], InUse(m, mcfg)), x)
  {
    var first, rest := E820Ranges(m) + FixedRanges(), McfgRanges(mcfg);
    RecordAllSplit([], first, rest);
    RecordAllBounded([], first);
    RecordAllBounded(RecordAll([], first), rest);
    RecordAllCovers([], first, x);
    CoveredConcat(E820Ranges(m), FixedRanges(), x);
    E820RangesCover(m, x);
    FixedRangesCover(x);
  }

  lemma CoveredConcat(rs: seq<Range>, ts: seq<Range>, x: nat)
    ensures Covered(rs + ts, x) <==> Covered(rs, x) || Covered(ts, x)
  {
    var s := rs + ts;
    assert forall i | 0 <= i < |rs| :: s[i] == rs[i];
    assert forall i | 0 <= i < |ts| :: s[|rs| + i] == ts[i];
  }

  lemma E820RangesCover(m: E820.MemoryMap, x: nat)
    requires E820.WellFormed(m)
    ensures E820.Covered(m, x) <==> Covered(E820Ranges(m), x)
  {
    forall i | 0 <= i < |m|
      ensures E820Ranges(m)[i].Covers(x) <==> m[i].Covers(x)
    {
      RemainderSmall(m[i].base + m[i].length, TWO64);
    }
  }

  /** At most 68 ranges come first, so the flash range always finds a slot. */
  lemma FlashIsRecorded(m: E820.MemoryMap, mcfg: seq<McfgEntry>)
    requires |m| <= E820.MAX_ENTRIES
    ensures Range(FLASH_START, FOUR_GIB) in RecordAll([], InUse(m, mcfg))
  {
    var flash := Range(FLASH_START, FOUR_GIB);
    var before := E820Ranges(m) + FixedRanges()[..3];
    var first, rest := E820Ranges(m) + FixedRanges(), McfgRanges(mcfg);
    assert first == before + [flash];
    RecordAllAppend([], before, flash);
    RecordAllLength([], before);
    RecordAllSplit([], first, rest);
    RecordAllBounded([], first);
    var rs := RecordAll([], first);
    RecordAllBounded(rs, rest);
    assert rs[|rs| - 1] == flash;
    assert RecordAll([], InUse(m, mcfg))[|rs| - 1] == flash;
  }

  lemma {:induction false} RecordAllLength(rs: seq<Range>, inputs: seq<Range>)
    ensures |RecordAll(rs, inputs)| <= |rs| + |inputs|
    decreases |inputs|
  {
    if inputs != [] { RecordAllLength(Recorded(rs, inputs[0]), inputs[1..]); }
  }
}
