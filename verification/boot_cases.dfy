/** Firmware maps on which the set-up goes wrong although it succeeds, or fails although there is
    memory, with the sizes the kernel asks for. */
module BootCases {
  import opened Words
  import opened Arenas
  import opened BumpAllocator
  import opened MemoryManagement
  import opened Pcie
  import opened RelocationPlan
  import E820
  import MmioHole

  // ---- a root heap in one large entry ----

  /** Bounds for the end of the root heap in an entry that starts at or below 2 GiB. */
  lemma RootHeapBounds(e: E820.Entry, sectors: nat)
    requires sectors <= 0x1000 && e.base <= 0x8000_0000
    ensures KernelEnd(sectors) <= 0x32_0000
    ensures e.base <= RootStart(e, KernelEnd(sectors)) < Max(e.base, KernelEnd(sectors)) + 0x1000
    ensures RootEnd(e, KernelEnd(sectors), GIB) < RootStart(e, KernelEnd(sectors)) + 0x4200_0000
    ensures RootFootprint(GIB) < 0x4200_0000
    ensures e.base < RootEnd(e, KernelEnd(sectors), GIB)
  {
    RemainderSmall(sectors * SECTOR, TWO32);
    AlignUpIsLeast(Max(e.base, KernelEnd(sectors)), PAGE);
    DivModUnique(GIB, BLOCK_SIZE, 0x20_0000, 0);
    DataStartBounds(RootStart(e, KernelEnd(sectors)), 0x20_0000);
  }

  /** Where nothing before it does, a large usable entry takes the root heap. */
  lemma TakesRootHeap(m: E820.MemoryMap, i: nat, sectors: nat)
    requires E820.WellFormed(m) && i < |m| && sectors <= 0x1000
    requires m[i].kind == E820.USABLE && m[i].base <= 0x8000_0000
    requires Max(m[i].base, 0x32_0000) + 0x4201_0000 <= m[i].End() <= FOUR_GIB
    requires forall k | 0 <= k < i :: m[k].End() <= 0x12_0000
    ensures var end := RootEnd(m[i], KernelEnd(sectors), GIB);
            && E820.Splittable(m, i, end) && end < Max(m[i].base, 0x32_0000) + 0x4200_1000
            && SplitFor(m, KernelEnd(sectors), GIB, i, E820.Split(m, i, end))
  {
    RootHeapBounds(m[i], sectors);
    forall k | 0 <= k < i
      ensures !RootFits(m[k], KernelEnd(sectors), GIB)
    {
      StartAbove(m[k], KernelEnd(sectors));
    }
    RootLayout(m[i], KernelEnd(sectors), GIB);
  }

  /** A large usable entry has a region for the low heap. */
  lemma HasRoomForLowHeap(m: E820.MemoryMap, i: nat)
    requires i < |m| && m[i].kind == E820.USABLE && m[i].base <= FOUR_GIB
    requires m[i].base + 0x1000 + LOW_HEAP_BYTES <= m[i].End() < FOUR_GIB
    ensures HasLowRegion(m, LOW_HEAP_BYTES)
  {
    E820.PageIsPower();
    AlignUpIsLeast(m[i].base, PAGE);
    assert LowQuery(LOW_HEAP_BYTES).Offers(m[i], AlignUp(m[i].base, PAGE));
  }

  /** Ranges that all count and all have a slot are recorded as they are. */
  lemma RecordedAsIs(rs: seq<MmioHole.Range>)
    requires forall i | 0 <= i < |rs| :: MmioHole.Useful(rs[i]) && rs[i].end <= FOUR_GIB
    ensures MmioHole.RecordAll([], rs) == if |rs| <= MmioHole.MAX_RANGES then rs else rs[..MmioHole.MAX_RANGES]
  {
    MmioHole.AllWorthwhile(rs);
    MmioHole.RecordAllIsPrefix([], rs);
  }

  /** The set-up succeeds; the root heap is cut from entry `i`, and the hole is `[base, end)`. */
  ghost predicate SetsUp(m: E820.MemoryMap, sectors: nat, i: nat, after: E820.MemoryMap, mcfg: seq<MmioHole.McfgEntry>,
                         base: nat, end: nat) {
    && Boots(m, KernelEnd(sectors), GIB, LOW_HEAP_BYTES, mcfg)
    && SplitFor(m, KernelEnd(sectors), GIB, i, after)
    && MmioHole.LargestFree(MmioHole.RecordAll([], MmioHole.InUse(after, mcfg)), base, end)
  }

  /** The set-up succeeds when a low heap and a hole are found. */
  lemma BootsWithHole(m: E820.MemoryMap, sectors: nat, i: nat, after: E820.MemoryMap, mcfg: seq<MmioHole.McfgEntry>,
                      base: nat, end: nat)
    requires SplitFor(m, KernelEnd(sectors), GIB, i, after) && HasLowRegion(after, LOW_HEAP_BYTES)
    requires MmioHole.LargestFree(MmioHole.RecordAll([], MmioHole.InUse(after, mcfg)), base, end)
    ensures SetsUp(m, sectors, i, after, mcfg, base, end)
  {
    var rs := MmioHole.RecordAll([], MmioHole.InUse(after, mcfg));
    assert MmioHole.Free(rs, base, base + 1);
    MmioHole.FreeIffUncovered(rs, base);
    BootsWhenTheRestFits(m, KernelEnd(sectors), GIB, LOW_HEAP_BYTES, mcfg, i, after);
  }

  // ---- a crowded map ----

  /** `n` single pages, and memory from 1 MiB to 3 GiB. */
  function Crowded(n: nat): E820.MemoryMap {
    seq(n, (i: nat) => E820.Entry(i * 0x1000, 0x1000, E820.USABLE, 1))
    + [E820.Entry(0x10_0000, 0xBFF0_0000, E820.USABLE, 1)]
  }

  function CrowdedEnd(n: nat, sectors: nat): nat { RootEnd(Crowded(n)[n], KernelEnd(sectors), GIB) }

  function AfterCrowded(n: nat, sectors: nat): E820.MemoryMap
    requires CrowdedEnd(n, sectors) >= 0x10_0000
  {
    E820.Split(Crowded(n), n, CrowdedEnd(n, sectors))
  }

  lemma CrowdedSplit(n: nat, sectors: nat)
    requires n < E820.MAX_ENTRIES && sectors <= 0x1000
    ensures E820.WellFormed(Crowded(n)) && 0x10_0000 < CrowdedEnd(n, sectors) < 0x4300_0000
    ensures SplitFor(Crowded(n), KernelEnd(sectors), GIB, n, AfterCrowded(n, sectors))
    ensures E820.Splittable(Crowded(n), n, CrowdedEnd(n, sectors))
  {
    TakesRootHeap(Crowded(n), n, sectors);
  }

  /** On a map with 64 entries the memory behind the root heap is in no entry afterwards, and the
      set-up fails for want of a low heap. */
  lemma FullMapLosesMemory(sectors: nat, x: nat, mcfg: seq<MmioHole.McfgEntry>)
    requires sectors <= 0x1000
    ensures SplitFor(Crowded(63), KernelEnd(sectors), GIB, 63, AfterCrowded(63, sectors))
    ensures CrowdedEnd(63, sectors) <= x < 0xC000_0000 ==>
              E820.Covered(Crowded(63), x) && !E820.Covered(AfterCrowded(63, sectors), x)
    ensures !Boots(Crowded(63), KernelEnd(sectors), GIB, LOW_HEAP_BYTES, mcfg)
  {
    CrowdedSplit(63, sectors);
    BootsWhenTheRestFits(Crowded(63), KernelEnd(sectors), GIB, LOW_HEAP_BYTES, mcfg, 63, AfterCrowded(63, sectors));
    assert x < 0xC000_0000 && 0x10_0000 <= x ==> Crowded(63)[63].Covers(x);
  }

  /** With one entry less, five configuration windows are one range too many: the set-up succeeds,
      and the hole it finds contains the fifth window. */
  lemma HoleCanCoverEcam(sectors: nat)
    requires sectors <= 0x1000
    ensures 0x10_0000 < CrowdedEnd(62, sectors)
    ensures SetsUp(Crowded(62), sectors, 62, AfterCrowded(62, sectors), FIVE_WINDOWS, 0xC000_0000, 0xF000_0000)
    ensures FIVE_WINDOWS[4].Window() == MmioHole.Range(0xD000_0000, 0xD010_0000)
  {
    FifthWindow();
    CrowdedSplit(62, sectors);
    CrowdedLow(sectors);
    CrowdedHole(sectors);
    BootsWithHole(Crowded(62), sectors, 62, AfterCrowded(62, sectors), FIVE_WINDOWS, 0xC000_0000, 0xF000_0000);
  }

  lemma FifthWindow()
    ensures FIVE_WINDOWS[4].Window() == MmioHole.Range(0xD000_0000, 0xD010_0000)
  {
  }

  lemma CrowdedLow(sectors: nat)
    requires sectors <= 0x1000
    ensures 0x10_0000 < CrowdedEnd(62, sectors) && HasLowRegion(AfterCrowded(62, sectors), LOW_HEAP_BYTES)
  {
    CrowdedSplit(62, sectors);
    HasRoomForLowHeap(AfterCrowded(62, sectors), 63);
  }

  lemma CrowdedHole(sectors: nat)
    requires sectors <= 0x1000
    ensures 0x10_0000 < CrowdedEnd(62, sectors)
    ensures MmioHole.LargestFree(MmioHole.RecordAll([], MmioHole.InUse(AfterCrowded(62, sectors), FIVE_WINDOWS)),
                                 0xC000_0000, 0xF000_0000)
  {
    CrowdedRanges(sectors);
    CrowdRecorded(MmioHole.InUse(AfterCrowded(62, sectors), FIVE_WINDOWS), CrowdedEnd(62, sectors));
  }

  lemma CrowdRecorded(all: seq<MmioHole.Range>, end: nat)
    requires IsCrowd(all, end) && |all| == 73 && all[72] == MmioHole.Range(0xD000_0000, 0xD010_0000)
    ensures MmioHole.LargestFree(MmioHole.RecordAll([], all), 0xC000_0000, 0xF000_0000)
  {
    RecordedAsIs(all);
    LargestInCrowd(all[..MmioHole.MAX_RANGES], end);
  }

  const FIVE_WINDOWS: seq<MmioHole.McfgEntry> :=
    [ MmioHole.McfgEntry(0xF000_0000, 0, 0), MmioHole.McfgEntry(0xF010_0000, 0, 0),
      MmioHole.McfgEntry(0xF020_0000, 0, 0),
      MmioHole.McfgEntry(0xF030_0000, 0, 0), MmioHole.McfgEntry(0xD000_0000, 0, 0) ]

  /** The ranges of the crowded map and the first four windows. */
  ghost predicate IsCrowd(rs: seq<MmioHole.Range>, end: nat) {
    && |rs| >= 72 && 0x10_0000 < end < 0xC000_0000
    && (forall i | 0 <= i < 62 :: rs[i] == MmioHole.Range(i * 0x1000, (i + 1) * 0x1000))
    && rs[62] == MmioHole.Range(0x10_0000, end) && rs[63] == MmioHole.Range(end, 0xC000_0000)
    && (forall i | 64 <= i < 68 :: rs[i] == MmioHole.FixedRanges()[i - 64])
    && (forall i | 68 <= i < 72 ::
          rs[i] == MmioHole.Range(0xF000_0000 + (i - 68) * 0x10_0000, 0xF010_0000 + (i - 68) * 0x10_0000))
  }

  lemma CrowdedRanges(sectors: nat)
    requires sectors <= 0x1000
    ensures 0x10_0000 < CrowdedEnd(62, sectors)
    ensures var rs := MmioHole.InUse(AfterCrowded(62, sectors), FIVE_WINDOWS);
            IsCrowd(rs, CrowdedEnd(62, sectors)) && |rs| == 73 && rs[72] == MmioHole.Range(0xD000_0000, 0xD010_0000)
  {
    CrowdedSplit(62, sectors);
    SplitCrowd(AfterCrowded(62, sectors), CrowdedEnd(62, sectors));
  }

  lemma SplitCrowd(after: E820.MemoryMap, end: nat)
    requires 0x10_0000 < end < 0xC000_0000 && after == E820.Split(Crowded(62), 62, end)
    ensures var rs := MmioHole.InUse(after, FIVE_WINDOWS);
            IsCrowd(rs, end) && |rs| == 73 && rs[72] == MmioHole.Range(0xD000_0000, 0xD010_0000)
  {
    assert |after| == 64 && after[62].End() == end && after[63].End() == 0xC000_0000;
    RangesOfMap(after);
    forall i | 0 <= i < 62
      ensures after[i] == Crowded(62)[i]
    {
    }
    FiveRanges();
    InUseParts(after, FIVE_WINDOWS);
  }

  lemma RangesOfMap(m: E820.MemoryMap)
    requires forall i | 0 <= i < |m| :: m[i].End() < TWO64
    ensures var rs := MmioHole.E820Ranges(m);
            |rs| == |m| && forall i | 0 <= i < |m| :: rs[i] == MmioHole.Range(m[i].base, m[i].End())
  {
    forall i | 0 <= i < |m|
      ensures MmioHole.E820Ranges(m)[i] == MmioHole.Range(m[i].base, m[i].End())
    {
      RemainderSmall(m[i].base + m[i].length, TWO64);
    }
  }

  lemma FiveRanges()
    ensures var rs := MmioHole.McfgRanges(FIVE_WINDOWS);
            && |rs| == 5 && rs[4] == MmioHole.Range(0xD000_0000, 0xD010_0000)
            && forall i | 0 <= i < 4 ::
                 rs[i] == MmioHole.Range(0xF000_0000 + i * 0x10_0000, 0xF010_0000 + i * 0x10_0000)
  {
  }

  /** The ranges in use, part by part. */
  lemma InUseParts(m: E820.MemoryMap, mcfg: seq<MmioHole.McfgEntry>)
    ensures var rs, a := MmioHole.InUse(m, mcfg), MmioHole.E820Ranges(m);
            var b, c := MmioHole.FixedRanges(), MmioHole.McfgRanges(mcfg);
            && |a| == |m| && |b| == 4 && |c| == |mcfg| && |rs| == |m| + 4 + |mcfg|
            && (forall i | 0 <= i < |m| :: rs[i] == a[i])
            && (forall i | |m| <= i < |m| + 4 :: rs[i] == b[i - |m|])
            && (forall i | |m| + 4 <= i < |rs| :: rs[i] == c[i - |m| - 4])
  {
  }

  lemma LargestInCrowd(rs: seq<MmioHole.Range>, end: nat)
    requires IsCrowd(rs, end) && |rs| == 72
    ensures MmioHole.LargestFree(rs, 0xC000_0000, 0xF000_0000)
  {
    forall a: nat, b: nat | MmioHole.Free(rs, a, b)
      ensures b <= 0x10_0000 || (0xC000_0000 <= a && (b <= 0xF000_0000 || 0xF000_0000 <= a))
    {
      assert rs[62].Misses(a, b) && rs[63].Misses(a, b) && rs[68].Misses(a, b);
    }
  }

  // ---- one or two large entries ----

  /** The ranges after a root heap that ends at `end` was cut from the first entry, with no
      configuration windows: two halves of the entry, the other entries, and the fixed devices. */
  lemma FirstEntryCut(m: E820.MemoryMap, end: nat)
    requires E820.Splittable(m, 0, end) && end < m[0].End() && |m| < 16
    requires forall i | 0 <= i < |m| :: m[i].length > 0 && m[i].End() <= FOUR_GIB
    ensures var rs := MmioHole.RecordAll([], MmioHole.InUse(E820.Split(m, 0, end), []));
            && |rs| == |m| + 5 && rs[0] == MmioHole.Range(m[0].base, end) && rs[|m|] == MmioHole.Range(end, m[0].End())
            && (forall i | 0 < i < |m| :: rs[i] == MmioHole.Range(m[i].base, m[i].End()))
            && EndsWithFixed(rs, |m| + 1)
  {
    var after := E820.Split(m, 0, end);
    RangesOfMap(after);
    InUseParts(after, []);
    RecordedAsIs(MmioHole.InUse(after, []));
  }

  /** Memory from 2 GiB to 3.75 GiB, and none below. */
  const HIGH_MEMORY: E820.MemoryMap := [E820.Entry(0x8000_0000, 0x7000_0000, E820.USABLE, 1)]

  function HighEnd(sectors: nat): nat { RootEnd(HIGH_MEMORY[0], KernelEnd(sectors), GIB) }

  /** On that map the set-up succeeds, and the one largest hole starts at address 0. */
  lemma HoleCanStartAtZero(sectors: nat)
    requires sectors <= 0x1000
    ensures 0x8000_0000 < HighEnd(sectors)
    ensures SetsUp(HIGH_MEMORY, sectors, 0, E820.Split(HIGH_MEMORY, 0, HighEnd(sectors)), [], 0, 0x8000_0000)
  {
    TakesRootHeap(HIGH_MEMORY, 0, sectors);
    FirstEntryCut(HIGH_MEMORY, HighEnd(sectors));
    var after := E820.Split(HIGH_MEMORY, 0, HighEnd(sectors));
    HasRoomForLowHeap(after, 1);
    LargestBelow(MmioHole.RecordAll([], MmioHole.InUse(after, [])), HighEnd(sectors));
    BootsWithHole(HIGH_MEMORY, sectors, 0, after, [], 0, 0x8000_0000);
  }

  /** The last ranges of `rs` are the fixed devices. */
  predicate EndsWithFixed(rs: seq<MmioHole.Range>, n: nat) {
    |rs| == n + 4 && forall i | n <= i < n + 4 :: rs[i] == MmioHole.FixedRanges()[i - n]
  }

  lemma LargestBelow(rs: seq<MmioHole.Range>, end: nat)
    requires EndsWithFixed(rs, 2) && 0x8000_0000 < end < 0xF000_0000
    requires rs[0] == MmioHole.Range(0x8000_0000, end) && rs[1] == MmioHole.Range(end, 0xF000_0000)
    ensures MmioHole.LargestFree(rs, 0, 0x8000_0000)
  {
    forall a: nat, b: nat | MmioHole.Free(rs, a, b)
      ensures b <= 0x8000_0000 || 0xF000_0000 <= a
    {
      assert rs[0].Misses(a, b) && rs[1].Misses(a, b);
    }
  }

  /** The first BAR that asks such a hole gets a window, at address 0, and stays where it is. */
  lemma WindowAtZeroIsLost(b: Bar)
    requires Movable(b) && IsPow2(b.size) && b.size <= 0x8000_0000
    ensures var h := BumpView(0, 0x8000_0000, 0);
            PlanFor(h, [b]) == Plan([b], h.(next := b.size), [Span(0, b.size)])
  {
    DivModUnique(0, b.size, 0, 0);
    FirstAtNext(BumpView(0, 0x8000_0000, 0), b);
  }

  /** Memory up to 3.5 GiB, and firmware from 3.75 GiB on. */
  const SMALL_HOLE: E820.MemoryMap :=
    [E820.Entry(0x10_0000, 0xDFF0_0000, E820.USABLE, 1), E820.Entry(0xF000_0000, 0x0EC0_0000, E820.RESERVED, 1)]

  function SmallHoleEnd(sectors: nat): nat { RootEnd(SMALL_HOLE[0], KernelEnd(sectors), GIB) }

  /** On that map the set-up succeeds with a hole of 256 MiB. */
  lemma HoleCanBeSmall(sectors: nat)
    requires sectors <= 0x1000
    ensures 0x10_0000 < SmallHoleEnd(sectors)
    ensures SetsUp(SMALL_HOLE, sectors, 0, E820.Split(SMALL_HOLE, 0, SmallHoleEnd(sectors)), [], 0xE000_0000,
                   0xF000_0000)
  {
    TakesRootHeap(SMALL_HOLE, 0, sectors);
    FirstEntryCut(SMALL_HOLE, SmallHoleEnd(sectors));
    var after := E820.Split(SMALL_HOLE, 0, SmallHoleEnd(sectors));
    HasRoomForLowHeap(after, 2);
    LargestBetween(MmioHole.RecordAll([], MmioHole.InUse(after, [])), SmallHoleEnd(sectors));
    BootsWithHole(SMALL_HOLE, sectors, 0, after, [], 0xE000_0000, 0xF000_0000);
  }

  lemma LargestBetween(rs: seq<MmioHole.Range>, end: nat)
    requires EndsWithFixed(rs, 3) && 0x10_0000 < end < 0xE000_0000
    requires rs[0] == MmioHole.Range(0x10_0000, end) && rs[1] == MmioHole.Range(0xF000_0000, 0xFEC0_0000)
    requires rs[2] == MmioHole.Range(end, 0xE000_0000)
    ensures MmioHole.LargestFree(rs, 0xE000_0000, 0xF000_0000)
  {
    forall a: nat, b: nat | MmioHole.Free(rs, a, b)
      ensures b <= 0x10_0000 || (0xE000_0000 <= a && b <= 0xF000_0000) || 0xFEC0_0000 <= a
    {
      assert rs[0].Misses(a, b) && rs[1].Misses(a, b) && rs[2].Misses(a, b);
    }
  }

  /** A 64-bit BAR of 128 MiB above 4 GiB, and one of 256 MiB that firmware put into the hole. */
  const ABOVE: Bar := Bar(true, true, false, false, 0x10_0000_0000, 0x800_0000)
  const INSIDE: Bar := Bar(true, false, false, false, 0xE000_0000, 0x1000_0000)

  /** In that hole the first moves, the second finds no room and stays, and the two overlap. */
  lemma RelocationCanOverlap()
    ensures var h := BumpView(0xE000_0000, 0x1000_0000, 0xE000_0000);
            && PlanFor(h, [ABOVE, INSIDE]).bars == [ABOVE.(base := 0xE000_0000), INSIDE]
            && !DecodeApart(PlanFor(h, [ABOVE, INSIDE]).bars)
  {
    AboveMoves();
    NoRoomForInside();
    LastStays(BumpView(0xE000_0000, 0x1000_0000, 0xE000_0000), ABOVE, INSIDE);
    TwoOverlap(ABOVE.(base := 0xE000_0000), INSIDE);
  }

  lemma NoRoomForInside()
    ensures !BumpView(0xE000_0000, 0x1000_0000, 0xE800_0000).HasPlace(INSIDE.size, INSIDE.size)
  {
  }

  lemma LastStays(h: BumpView, b: Bar, c: Bar)
    requires c.size > 0 && !PlanFor(h, [b]).bump.HasPlace(c.size, c.size)
    ensures PlanFor(h, [b, c]).bars == PlanFor(h, [b]).bars + [c]
  {
    assert [b, c][..1] == [b] && [b, c][..2] == [b, c];
    PlanSuffix(h, [b, c], 1);
  }

  lemma TwoOverlap(b: Bar, c: Bar)
    requires Rivals(b, c) && !Apart(Decodes(b), Decodes(c))
    ensures !DecodeApart([b, c])
  {
    assert Rivals([b, c][0], [b, c][1]);
  }

  lemma AboveMoves()
    ensures var h := BumpView(0xE000_0000, 0x1000_0000, 0xE000_0000);
            PlanFor(h, [ABOVE]) == Plan([ABOVE.(base := 0xE000_0000)], h.(next := 0xE800_0000),
                                        [Span(0xE000_0000, 0xE800_0000)])
  {
    var h := BumpView(0xE000_0000, 0x1000_0000, 0xE000_0000);
    assert IsPow2(0x10) && IsPow2(0x80) && IsPow2(0x100);
    Pow2Product(0x10, 0x100);
    Pow2Product(0x100, 0x1000);
    Pow2Product(0x80, 0x10_0000);
    FirstAtNext(h, ABOVE);
  }

  /** A hole that starts on a multiple of the size serves its first window from there. */
  lemma FirstAtNext(h: BumpView, b: Bar)
    requires h.Valid() && Movable(b) && IsPow2(b.size) && b.size < TWO64
    requires h.next % b.size == 0 && h.next + b.size <= h.End()
    ensures PlanFor(h, [b]) == Plan([if h.next != NULL then b.(base := h.next) else b], h.(next := h.next + b.size),
                                    [Span(h.next, h.next + b.size)])
  {
    assert h.Fits(b.size, b.size, h.next);
    PlaceIsRoundedUp(h, b.size, b.size);
    assert [b][..0] == [];
    PlanSuffix(h, [b], 0);
    assert [b][..1] == [b];
  }
}
