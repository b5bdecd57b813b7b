/** The firmware memory map: searching it for a region, and splitting the entry the root
    heap is cut from. */
module E820 {
  import opened Words

  const MAX_ENTRIES: nat := 64
  const USABLE: nat := 1
  const RESERVED: nat := 2
  const PAGE: nat := 0x1000

  datatype Entry = Entry(base: nat, length: nat, kind: nat, attributes: nat) {

    function End(): nat { base + length }

    predicate Covers(x: nat) { base <= x < End() }

    /** Rounding any address of the entry up to a page stays within 64 bits. */
    predicate InAddressSpace() { End() + PAGE <= TWO64 }
  }

  type MemoryMap = seq<Entry>

  predicate Apart(e: Entry, f: Entry) {
    e.length == 0 || f.length == 0 || e.End() <= f.base || f.End() <= e.base
  }

  ghost predicate WellFormed(m: MemoryMap) {
    && |m| <= MAX_ENTRIES
    && (forall i | 0 <= i < |m| :: m[i].InAddressSpace())
    && (forall i, j | 0 <= i < j < |m| :: Apart(m[i], m[j]))
  }

  ghost predicate Covered(m: MemoryMap, x: nat) {
    exists i | 0 <= i < |m| :: m[i].Covers(x)
  }

  /** Address `x` lies in an entry of kind `k`. */
  ghost predicate KindAt(m: MemoryMap, x: nat, k: nat) {
    exists i | 0 <= i < |m| :: m[i].Covers(x) && m[i].kind == k
  }

  // ---- region search ----

  /** What a caller of the search asks for. */
  datatype Query = Query(kind: nat, minSize: nat, minAddr: nat, maxAddr: nat, align: nat) {

    predicate Valid() {
      minSize < TWO64 && minAddr < TWO64 && maxAddr < TWO64 && align < TWO64
    }

    function Alignment(): nat { Max(align, 1) }

    /** The end of an entry, cut off at the limit of the query. */
    function EndIn(e: Entry): nat {
      Min(Min(e.End(), UINT64_MAX), maxAddr)
    }

    /** Entry `e` has room for the query at `p`. */
    ghost predicate Offers(e: Entry, p: nat) {
      e.kind == kind && e.base <= p && minAddr <= p && p % Alignment() == 0 && p + Max(minSize, 1) <= EndIn(e)
    }

    ghost predicate Suits(e: Entry) { exists p :: Offers(e, p) }

    /** The lowest place entry `e` has to offer. */
    ghost predicate Lowest(e: Entry, p: nat) {
      Offers(e, p) && forall r | Offers(e, r) :: p <= r
    }

    /** The window the search reports: from the lowest place on offer to the end of the entry. */
    ghost predicate IsWindow(e: Entry, base: nat, size: nat) {
      Lowest(e, base) && base + size == EndIn(e)
    }
  }

  /** A search that starts at address 0 takes a suitable entry from its first aligned address on. */
  lemma LowestIsRoundedUp(q: Query, e: Entry, p: nat)
    requires q.minAddr == 0 && q.align == PAGE && e.InAddressSpace() && q.Lowest(e, p)
    ensures p == AlignUp(e.base, PAGE)
  {
    PageIsPower();
    AlignUpIsLeast(e.base, PAGE);
    assert q.Offers(e, AlignUp(e.base, PAGE));
  }

  lemma PageIsPower()
    ensures IsPow2(PAGE)
  {
    assert IsPow2(0x10) && IsPow2(0x100);
    Pow2Product(0x10, 0x100);
  }

  lemma LowestExists(q: Query, e: Entry)
    requires q.minAddr == 0 && q.align == PAGE && e.InAddressSpace() && q.Suits(e)
    ensures q.Lowest(e, AlignUp(e.base, PAGE))
  {
    PageIsPower();
    AlignUpIsLeast(e.base, PAGE);
    var p :| q.Offers(e, p);
    assert AlignUp(e.base, PAGE) <= p;
  }

  /** The window of one entry, if it suits. */
  method WindowOf(q: Query, e: Entry) returns (found: bool, base: nat, size: nat)
    requires q.Valid() && IsPow2(q.Alignment()) && e.base < TWO64 && e.length < TWO64
    ensures found <==> q.Suits(e)
    ensures found ==> q.IsWindow(e, base, size)
  {
    found, base, size := false, 0, 0;
    var align := q.Alignment();
    if e.kind != q.kind {
      return;
    }
    var start := if e.base > q.minAddr then e.base else q.minAddr;
    var end := if e.length > UINT64_MAX - e.base then UINT64_MAX else e.base + e.length;
    if end > q.maxAddr {
      end := q.maxAddr;
    }
    assert end == q.EndIn(e);
    if start > UINT64_MAX - (align - 1) {
      NoMultipleNearTheTop(start, align);
      return;
    }
    AlignUpIsLeast(start, align);
    start := AlignUp(start, align);
    if end <= start || end - start < q.minSize {
      return;
    }
    assert q.Offers(e, start);
    return true, start, end - start;
  }

  /** Above the last multiple of a power of two there is none below 2^64. */
  lemma NoMultipleNearTheTop(x: nat, a: nat)
    requires IsPow2(a) && a < TWO64 && x > UINT64_MAX - (a - 1)
    ensures forall p | x <= p < TWO64 :: p % a != 0
  {
    WordSizesArePowers();
    PowersDivide(a, TWO64);
    forall p | x <= p < TWO64
      ensures p % a != 0
    {
      if p % a == 0 { MultiplesApart(p, TWO64, a); }
    }
  }

  /** The first entry that suits decides the answer; the search fails exactly when none does. */
  method FindRegion(m: MemoryMap, q: Query) returns (found: bool, base: nat, size: nat)
    requires q.Valid() && forall i | 0 <= i < |m| :: m[i].base < TWO64 && m[i].length < TWO64
    ensures q.align > 0 && !IsPow2(q.align) ==> !found
    ensures IsPow2(q.Alignment()) ==>
      (found <==> exists i | 0 <= i < |m| :: q.Suits(m[i]))
    ensures found ==> exists i | 0 <= i < |m| ::
      q.IsWindow(m[i], base, size) && forall k | 0 <= k < i :: !q.Suits(m[k])
  {
    found, base, size := false, 0, 0;
    if !PassesMaskTest(q.Alignment()) {
      return;
    }
    for i := 0 to |m|
      invariant !found && forall k | 0 <= k < i :: !q.Suits(m[k])
    {
      found, base, size := WindowOf(q, m[i]);
      if found {
        return;
      }
    }
  }

  // ---- splitting the map ----

  /** Reserve entry `i` up to `heapEnd` and list what is left of it as a new usable entry, if
      the map has a slot for it. */
  function Split(m: MemoryMap, i: nat, heapEnd: nat): MemoryMap
    requires i < |m| && m[i].base <= heapEnd
  {
    var e := m[i];
    var kept := m[i := e.(kind := RESERVED, length := heapEnd - e.base)];
    if e.End() > heapEnd && |m| < MAX_ENTRIES
    then kept + [Entry(heapEnd, e.End() - heapEnd, USABLE, 1)]
    else kept
  }

  ghost predicate Splittable(m: MemoryMap, i: nat, heapEnd: nat) {
    WellFormed(m) && i < |m| && m[i].kind == USABLE && m[i].base < heapEnd <= m[i].End()
  }

  lemma SplitWellFormed(m: MemoryMap, i: nat, heapEnd: nat)
    requires Splittable(m, i, heapEnd)
    ensures WellFormed(Split(m, i, heapEnd))
  {
    var s := Split(m, i, heapEnd);
    forall j, k | 0 <= j < k < |s|
      ensures Apart(s[j], s[k])
    {
      if k < |m| {
        assert Apart(m[j], m[k]);
      } else if j < i {
        assert Apart(m[j], m[i]);
      } else if i < j {
        assert Apart(m[i], m[j]);
      }
    }
  }

  /** With a slot left (or nothing left over) the kinds change from usable to reserved on the
      part below `heapEnd` and nowhere else. */
  lemma SplitKinds(m: MemoryMap, i: nat, heapEnd: nat, x: nat, k: nat)
    requires Splittable(m, i, heapEnd) && (m[i].End() == heapEnd || |m| < MAX_ENTRIES)
    ensures KindAt(Split(m, i, heapEnd), x, k) <==>
            if m[i].base <= x < heapEnd then k == 2 else KindAt(m, x, k)
  {
    var s := Split(m, i, heapEnd);
    if m[i].Covers(x) {
      OnlyOneCovers(m, i, x);
      if x < heapEnd {
        SplitWellFormed(m, i, heapEnd);
        assert s[i].Covers(x);
        OnlyOneCovers(s, i, x);
      } else {
        SplitWellFormed(m, i, heapEnd);
        assert s[|m|].Covers(x);
        OnlyOneCovers(s, |m|, x);
        assert m[i].Covers(x) && m[i].kind == USABLE;
      }
    } else {
      assert forall j | 0 <= j < |m| && j != i :: s[j] == m[j];
      assert !s[i].Covers(x);
    }
  }

  lemma OnlyOneCovers(m: MemoryMap, i: nat, x: nat)
    requires WellFormed(m) && i < |m| && m[i].Covers(x)
    ensures forall j | 0 <= j < |m| :: m[j].Covers(x) ==> j == i
  {
    forall j | 0 <= j < |m| && m[j].Covers(x)
      ensures j == i
    {
      assert j < i ==> Apart(m[j], m[i]);
      assert i < j ==> Apart(m[i], m[j]);
    }
  }

  /** The split loses no memory exactly when there is nothing left over or a slot for it. */
  lemma SplitConservesIff(m: MemoryMap, i: nat, heapEnd: nat)
    requires Splittable(m, i, heapEnd)
    ensures (forall x: nat :: Covered(m, x) <==> Covered(Split(m, i, heapEnd), x)) <==>
            m[i].End() == heapEnd || |m| < MAX_ENTRIES
  {
    var s := Split(m, i, heapEnd);
    if m[i].End() == heapEnd || |m| < MAX_ENTRIES {
      forall x: nat
        ensures Covered(m, x) <==> Covered(s, x)
      {
        CoverageKept(m, i, heapEnd, x);
      }
    } else {
      OnlyOneCovers(m, i, heapEnd);
      assert m[i].Covers(heapEnd);
      assert Covered(m, heapEnd);
      assert !Covered(s, heapEnd);
    }
  }

  lemma CoverageKept(m: MemoryMap, i: nat, heapEnd: nat, x: nat)
    requires Splittable(m, i, heapEnd) && (m[i].End() == heapEnd || |m| < MAX_ENTRIES)
    ensures Covered(m, x) <==> Covered(Split(m, i, heapEnd), x)
  {
    var s := Split(m, i, heapEnd);
    if j: nat :| j < |m| && m[j].Covers(x) {
      if j != i || x < heapEnd { assert s[j].Covers(x); } else { assert s[|m|].Covers(x); }
    }
    if j: nat :| j < |s| && s[j].Covers(x) {
      if j < |m| { assert m[j].Covers(x); } else { assert m[i].Covers(x); }
    }
  }
}
