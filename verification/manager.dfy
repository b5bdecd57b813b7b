/** Setting up the three arenas from the firmware memory map, and the calls the kernel makes on
    them afterwards. */
module MemoryManagement {
  import opened Words
  import opened BlockTable
  import opened Allocator
  import opened BumpAllocator
  import opened Arenas
  import E820
  import MmioHole
  import UsedAddresses

  const KERNEL_START: nat := 0x12_0000
  const BLOCK_SIZE: nat := 512
  const SECTOR: nat := 512
  const PAGE: nat := E820.PAGE
  const MAP_BYTES: nat := 2 + 24 * E820.MAX_ENTRIES   // sizeof(e820_map)
  const BUMP_BYTES: nat := 24                         // sizeof(bump_heap_t)

  // ---- layout arithmetic ----

  /** Where the blocks of a heap start: behind header and table, on the next page. */
  function DataStart(at: nat, nblocks: nat): nat {
    AlignUp(at + HEADER_BYTES + nblocks * ENTRY_BYTES, PAGE)
  }

  lemma DataStartBounds(at: nat, nblocks: nat)
    requires at + nblocks * ENTRY_BYTES < TWO64 / 2
    ensures var table := at + HEADER_BYTES + nblocks * ENTRY_BYTES;
            table <= DataStart(at, nblocks) <= table + 0xFFF && 0 < DataStart(at, nblocks)
    ensures DataStart(at, nblocks) % PAGE == 0
  {
    AlignUpIsLeast(at + HEADER_BYTES + nblocks * ENTRY_BYTES, PAGE);
  }

  /** Bytes a root heap of `size` bytes needs behind a page boundary. */
  function RootFootprint(size: nat): nat {
    HEADER_BYTES + ENTRY_BYTES * (size / BLOCK_SIZE) + 0xFFF + size
  }

  /** Blocks of a low heap that takes `size` bytes in all. */
  function LowBlocks(size: nat): nat {
    U64(size - HEADER_BYTES - 0xFFF) / (BLOCK_SIZE + ENTRY_BYTES)
  }

  /** The low heap fits the bytes it was given exactly when they hold at least the header and
      the page padding; below that the subtraction wraps. */
  lemma LowHeapFitsIff(at: nat, size: nat)
    requires at + size <= UINT32_MAX
    ensures var n := LowBlocks(size);
            at + HEADER_BYTES + ENTRY_BYTES * n + 0xFFF + BLOCK_SIZE * n <= at + size <==> size >= HEADER_BYTES + 0xFFF
  {
    var rest: int := size - HEADER_BYTES - 0xFFF;
    if rest >= 0 {
      RemainderSmall(rest, TWO64);
    } else {
      DivModUnique(rest + TWO64, TWO64, 0, rest + TWO64);
      assert rest % TWO64 == rest + TWO64;
    }
  }

  /** The low heap has as many blocks as fit with their table entries: one more would not. */
  lemma LowBlocksAreMost(size: nat)
    requires 32 + 0xFFF <= size < TWO64
    ensures 32 + 0xFFF + 524 * LowBlocks(size) <= size < 32 + 0xFFF + 524 * (LowBlocks(size) + 1)
  {
    var rest := size - HEADER_BYTES - 0xFFF;
    RemainderSmall(rest, TWO64);
    assert rest == 524 * (rest / 524) + rest % 524;
  }

  /** Header, table, padding and blocks of the low heap lie inside the bytes it was given. */
  lemma LowLayout(at: nat, size: nat)
    requires at + size <= UINT32_MAX && HEADER_BYTES + 0xFFF <= size
    ensures var n := LowBlocks(size);
            at + HEADER_BYTES + ENTRY_BYTES * n <= DataStart(at, n) && DataStart(at, n) + n * BLOCK_SIZE <= at + size
    ensures 0 < DataStart(at, LowBlocks(size)) && LowBlocks(size) < TWO32
  {
    LowHeapFitsIff(at, size);
    DataStartBounds(at, LowBlocks(size));
  }

  /** Where the root heap may go: in entry `e`, above the kernel, on a page boundary. */
  function RootStart(e: E820.Entry, kernelEnd: nat): nat {
    AlignUp(Max(e.base, kernelEnd), PAGE)
  }

  predicate RootFits(e: E820.Entry, kernelEnd: nat, size: nat) {
    e.kind == E820.USABLE && RootStart(e, kernelEnd) + RootFootprint(size) <= Min(e.End(), FOUR_GIB)
  }

  /** Page `at` of entry `e` is above the kernel and has room for header, table, page padding and
      data of a root heap, below 4 GiB. */
  predicate RootRoom(e: E820.Entry, kernelEnd: nat, size: nat, at: nat) {
    && at % 4096 == 0 && e.base <= at && kernelEnd <= at
    && at + 32 + 12 * (size / 512) + 4095 + size <= e.base + e.length
    && at + 32 + 12 * (size / 512) + 4095 + size <= 0x1_0000_0000
  }

  /** The test for an entry is whether it is usable and has such a page. */
  lemma RootFitsIff(e: E820.Entry, kernelEnd: nat, size: nat)
    requires e.InAddressSpace() && kernelEnd <= 2 * FOUR_GIB
    ensures RootFits(e, kernelEnd, size) <==> e.kind == 1 && exists at :: RootRoom(e, kernelEnd, size, at)
  {
    AlignUpIsLeast(Max(e.base, kernelEnd), PAGE);
    var first := RootStart(e, kernelEnd);
    if RootFits(e, kernelEnd, size) { assert RootRoom(e, kernelEnd, size, first); }
    if at: nat :| RootRoom(e, kernelEnd, size, at) { assert first <= at; }
  }

  /** The first usable entry with room below 4 GiB. */
  method PlaceRootHeap(m: E820.MemoryMap, kernelEnd: nat, size: nat) returns (chosen: Option<nat>)
    requires E820.WellFormed(m) && kernelEnd <= 2 * FOUR_GIB && size < TWO64 / 2
    ensures chosen.Some? ==> chosen.value < |m| && RootFits(m[chosen.value], kernelEnd, size)
                             && forall k | 0 <= k < chosen.value :: !RootFits(m[k], kernelEnd, size)
    ensures chosen.None? ==> forall k | 0 <= k < |m| :: !RootFits(m[k], kernelEnd, size)
  {
    var total := U64(RootFootprint(size));
    RemainderSmall(RootFootprint(size), TWO64);
    for i := 0 to |m|
      invariant forall k | 0 <= k < i :: !RootFits(m[k], kernelEnd, size)
    {
      var e := m[i];
      if e.kind == E820.USABLE {
        var start := RootStart(e, kernelEnd);
        var end := U64(e.base + e.length);
        RemainderSmall(e.base + e.length, TWO64);
        if end > FOUR_GIB {
          end := FOUR_GIB;
        }
        if !(end <= start || end - start < total) {
          return Some(i);
        }
      }
    }
    return None;
  }

  // ---- fresh heaps ----

  ghost function EmptyArena(at: nat, data: nat, nblocks: nat): Arena {
    Arena(at, HeapView(data, BLOCK_SIZE, seq(nblocks, _ => FREE)), map[])
  }

  lemma EmptyArenaValid(at: nat, data: nat, nblocks: nat)
    requires at + HEADER_BYTES + ENTRY_BYTES * nblocks <= data && data + nblocks * BLOCK_SIZE <= FOUR_GIB
    ensures EmptyArena(at, data, nblocks).Valid()
    ensures EmptyArena(at, data, nblocks).Whole() == Span(at, data + nblocks * BLOCK_SIZE)
  {
    var a := EmptyArena(at, data, nblocks);
    assert Runs(a.heap.table) == map[];
  }

  /** A heap whose header lies at `at`, with an empty table. */
  method NewHeap(at: nat, data: nat, nblocks: nat, size: nat) returns (h: Heap)
    requires size / BLOCK_SIZE == nblocks
    requires at + HEADER_BYTES + ENTRY_BYTES * nblocks <= data && data + nblocks * BLOCK_SIZE <= FOUR_GIB
    ensures fresh(h) && fresh(h.blocks) && h.Valid()
    ensures h.addr == at && h.blockSize == BLOCK_SIZE && h.Total() == nblocks
    ensures Arena(at, h.View(), map[]) == EmptyArena(at, data, nblocks)
  {
    var blocks := new Block[nblocks];
    h := new Heap(at, BLOCK_SIZE, data, size, blocks);
    h.Reset();
    assert h.View().table == seq(nblocks, _ => FREE);
    EmptyArenaValid(at, data, nblocks);
  }

  /** The low heap, in the first region that can hold `size` bytes below 4 GiB. */
  method LowHeapInit(m: E820.MemoryMap, size: nat) returns (low: Option<Heap>)
    requires E820.WellFormed(m) && HEADER_BYTES + 0xFFF <= size < TWO64
    ensures low.Some? <==> HasLowRegion(m, size)
    ensures low.Some? ==>
      var l := low.value;
      && fresh(l) && fresh(l.blocks) && l.Valid()
      && FirstRegion(m, LowQuery(size), l.addr)
      && l.blockSize == BLOCK_SIZE && l.Total() == LowBlocks(size) && l.startAddr == DataStart(l.addr, LowBlocks(size))
      && Arena(l.addr, l.View(), map[]).Valid()
      && Arena(l.addr, l.View(), map[]).Whole().Within(Span(l.addr, l.addr + size))
  {
    var found, at, region := E820.FindRegion(m, LowQuery(size));
    if !found {
      return None;
    }
    ghost var i :| 0 <= i < |m| && LowQuery(size).IsWindow(m[i], at, region)
                   && forall k | 0 <= k < i :: !LowQuery(size).Suits(m[k]);
    assert IsFirstRegion(m, LowQuery(size), at, i);
    var nblocks := LowBlocks(size);
    LowLayout(at, size);
    EmptyArenaValid(at, DataStart(at, nblocks), nblocks);
    var heap := NewHeap(at, DataStart(at, nblocks), nblocks, nblocks * BLOCK_SIZE);
    return Some(heap);
  }

  /** `at` is the lowest place in the first suitable entry. */
  ghost predicate FirstRegion(m: E820.MemoryMap, q: E820.Query, at: nat) {
    exists i | 0 <= i < |m| :: IsFirstRegion(m, q, at, i)
  }

  ghost predicate IsFirstRegion(m: E820.MemoryMap, q: E820.Query, at: nat, i: nat)
    requires i < |m|
  {
    q.Lowest(m[i], at) && forall k | 0 <= k < i :: !q.Suits(m[k])
  }

  ghost predicate HasLowRegion(m: E820.MemoryMap, size: nat) {
    exists i | 0 <= i < |m| :: LowQuery(size).Suits(m[i])
  }

  function LowQuery(size: nat): E820.Query {
    E820.Query(E820.USABLE, size, 0, UINT32_MAX, PAGE)
  }

  /** Page `at` of entry `e` has room for the low heap below 4 GiB. */
  predicate LowRoom(e: E820.Entry, size: nat, at: nat) {
    && at % 4096 == 0 && e.base <= at
    && at + Max(size, 1) <= e.base + e.length && at + Max(size, 1) <= 0xFFFF_FFFF
  }

  lemma LowSuitsIff(e: E820.Entry, size: nat)
    requires e.InAddressSpace()
    ensures LowQuery(size).Suits(e) <==> e.kind == 1 && exists at :: LowRoom(e, size, at)
  {
    var q := LowQuery(size);
    if q.Suits(e) {
      var at :| q.Offers(e, at);
      assert LowRoom(e, size, at);
    }
    if e.kind == 1 && exists at :: LowRoom(e, size, at) {
      var at :| LowRoom(e, size, at);
      assert q.Offers(e, at);
    }
  }

  // ---- the arenas do not meet ----

  /** A span inside an E820 entry misses the hole. */
  lemma EntryMissesHole(m: E820.MemoryMap, mcfg: seq<MmioHole.McfgEntry>, i: nat, s: Span, hole: Span)
    requires E820.WellFormed(m) && i < |m| && s.from < s.to && s.Within(Span(m[i].base, m[i].End()))
    requires MmioHole.Free(MmioHole.RecordAll([], MmioHole.InUse(m, mcfg)), hole.from, hole.to)
    ensures Apart(s, hole) && hole.to <= MmioHole.FLASH_START
  {
    var x := Max(s.from, hole.from);
    UsedAddresses.HoleIsClear(m, mcfg, hole.from, hole.to, hole.from);
    if !Apart(s, hole) {
      UsedAddresses.HoleIsClear(m, mcfg, hole.from, hole.to, x);
      assert m[i].Covers(x);
    }
  }

  /** What is cut out of the map for the root heap is reserved afterwards, so no usable entry
      meets it. */
  lemma RootMissesLow(m: E820.MemoryMap, i: nat, heapEnd: nat, j: nat, root: Span, low: Span)
    requires E820.Splittable(m, i, heapEnd) && j < |E820.Split(m, i, heapEnd)|
    requires root.from < root.to && root.Within(Span(m[i].base, heapEnd))
    requires var e := E820.Split(m, i, heapEnd)[j];
             e.kind == E820.USABLE && low.from < low.to && low.Within(Span(e.base, e.End()))
    ensures Apart(root, low)
  {
    E820.SplitWellFormed(m, i, heapEnd);
    var s := E820.Split(m, i, heapEnd);
    assert i < j ==> E820.Apart(s[i], s[j]);
    assert j < i ==> E820.Apart(s[j], s[i]);
  }

  /** Root heap, low heap and hole, placed as the initialisation places them, are disjoint. */
  lemma ArenasApart(m: E820.MemoryMap, i: nat, heapEnd: nat, lowSize: nat, mcfg: seq<MmioHole.McfgEntry>,
                    root: Arena, low: Arena, bump: BumpView)
    requires E820.Splittable(m, i, heapEnd)
    requires root.Valid() && root.Whole().Within(Span(m[i].base, heapEnd))
    requires low.Valid() && low.Whole().Within(Span(low.at, low.at + lowSize))
    requires FirstRegion(E820.Split(m, i, heapEnd), LowQuery(lowSize), low.at)
    requires bump.next == bump.start
    requires MmioHole.Free(MmioHole.RecordAll([], MmioHole.InUse(E820.Split(m, i, heapEnd), mcfg)), bump.start,
                           bump.End())
    ensures State(root, low, bump, []).Valid()
  {
    var s := E820.Split(m, i, heapEnd);
    E820.SplitWellFormed(m, i, heapEnd);
    var j :| 0 <= j < |s| && IsFirstRegion(s, LowQuery(lowSize), low.at, j);
    var hole := Span(bump.start, bump.End());
    NotEmpty(root);
    NotEmpty(low);
    RootMissesLow(m, i, heapEnd, j, root.Whole(), low.Whole());
    EntryMissesHole(s, mcfg, i, root.Whole(), hole);
    EntryMissesHole(s, mcfg, j, low.Whole(), hole);
  }

  lemma NotEmpty(a: Arena)
    requires a.Valid()
    ensures a.Whole().from < a.Whole().to
  {
    AddrOrder(a.heap, 0, |a.heap.table|);
  }

  class MemoryManager {
    const rootHeap: Heap
    const lowHeap: Heap
    const bumpHeap: BumpHeap
    const memoryMap: E820.MemoryMap
    ghost var rootSizes: map<nat, nat>   // bytes asked for, by start block
    ghost var lowSizes: map<nat, nat>
    ghost var windows: seq<Span>         // what the hole has handed out

    ghost predicate Wired() {
      rootHeap.Shaped() && lowHeap.Shaped() && rootHeap.blocks != lowHeap.blocks
    }

    ghost function View(): State
      requires Wired()
      reads this, rootHeap.blocks, lowHeap.blocks, bumpHeap
    {
      State(Arena(rootHeap.addr, rootHeap.View(), rootSizes),
            Arena(lowHeap.addr, lowHeap.View(), lowSizes),
            bumpHeap.View(), windows)
    }

    ghost predicate Valid()
      reads this, rootHeap.blocks, lowHeap.blocks, bumpHeap
    {
      Wired() && View().Valid()
    }

    constructor (rootHeap: Heap, lowHeap: Heap, bumpHeap: BumpHeap, memoryMap: E820.MemoryMap,
                 ghost rootSizes: map<nat, nat>)
      ensures this.rootHeap == rootHeap && this.lowHeap == lowHeap && this.bumpHeap == bumpHeap
      ensures this.memoryMap == memoryMap && this.rootSizes == rootSizes && lowSizes == map[] && windows == []
    {
      this.rootHeap, this.lowHeap, this.bumpHeap := rootHeap, lowHeap, bumpHeap;
      this.memoryMap := memoryMap;
      this.rootSizes, this.lowSizes, this.windows := rootSizes, map[], [];
    }

    method Kalloc(size: nat) returns (p: nat)
      requires Valid() && Admissible(View(), Call.Kalloc(size))
      modifies this, rootHeap.blocks
      ensures Valid() && Step(old(View()), Call.Kalloc(size), View(), p)
    {
      ghost var h := rootHeap.View();
      NeededIsCeilUnlessItWraps(size, h.blockSize);
      p := rootHeap.Alloc(size);
      if size > 0 {
        rootSizes := rootSizes[FirstFit(h.table, |h.table|, Needed(size, h.blockSize)).value := size];
      }
      assert rootHeap.View().table == rootHeap.blocks[..rootHeap.Total()];
      StepKeepsValid(old(View()), Call.Kalloc(size), View(), p);
    }

    method KallocAligned(size: nat, align: nat) returns (p: nat)
      requires Valid() && Admissible(View(), Call.KallocAligned(size, align))
      modifies this, rootHeap.blocks
      ensures Valid() && Step(old(View()), Call.KallocAligned(size, align), View(), p)
    {
      ghost var h := rootHeap.View();
      p := rootHeap.AllocAligned(size, align);
      rootSizes := RecordAligned(rootSizes, h, size, align);
      StepKeepsValid(old(View()), Call.KallocAligned(size, align), View(), p);
    }

    method Kfree(ptr: nat)
      requires Valid() && Admissible(View(), Call.Kfree(ptr))
      modifies this, rootHeap.blocks
      ensures Valid() && Step(old(View()), Call.Kfree(ptr), View(), NULL)
    {
      if ptr != NULL {
        rootHeap.View().LiveInTable(ptr);
        rootSizes := rootSizes - {rootHeap.View().BlockOf(ptr)};
      }
      rootHeap.Free(ptr);
      StepKeepsValid(old(View()), Call.Kfree(ptr), View(), NULL);
    }

    method LowKalloc(size: nat) returns (p: nat)
      requires Valid() && Admissible(View(), Call.LowKalloc(size))
      modifies this, lowHeap.blocks
      ensures Valid() && Step(old(View()), Call.LowKalloc(size), View(), p)
    {
      ghost var h := lowHeap.View();
      NeededIsCeilUnlessItWraps(size, h.blockSize);
      p := lowHeap.Alloc(size);
      if size > 0 {
        lowSizes := lowSizes[FirstFit(h.table, |h.table|, Needed(size, h.blockSize)).value := size];
      }
      StepKeepsValid(old(View()), Call.LowKalloc(size), View(), p);
    }

    method LowKallocAligned(size: nat, align: nat) returns (p: nat)
      requires Valid() && Admissible(View(), Call.LowKallocAligned(size, align))
      modifies this, lowHeap.blocks
      ensures Valid() && Step(old(View()), Call.LowKallocAligned(size, align), View(), p)
    {
      ghost var h := lowHeap.View();
      p := lowHeap.AllocAligned(size, align);
      lowSizes := RecordAligned(lowSizes, h, size, align);
      StepKeepsValid(old(View()), Call.LowKallocAligned(size, align), View(), p);
    }

    method LowKfree(ptr: nat)
      requires Valid() && Admissible(View(), Call.LowKfree(ptr))
      modifies this, lowHeap.blocks
      ensures Valid() && Step(old(View()), Call.LowKfree(ptr), View(), NULL)
    {
      if ptr != NULL {
        lowHeap.View().LiveInTable(ptr);
        lowSizes := lowSizes - {lowHeap.View().BlockOf(ptr)};
      }
      lowHeap.Free(ptr);
      StepKeepsValid(old(View()), Call.LowKfree(ptr), View(), NULL);
    }

    method KBumpAlloc(size: nat) returns (p: nat)
      requires Valid() && Admissible(View(), Call.BumpAlloc(size))
      modifies this, bumpHeap
      ensures Valid() && Step(old(View()), Call.BumpAlloc(size), View(), p)
    {
      p := bumpHeap.Alloc(size);
      if bumpHeap.View() != old(bumpHeap.View()) { windows := windows + [Span(p, p + size)]; }
      StepKeepsValid(old(View()), Call.BumpAlloc(size), View(), p);
    }

    /** The result of the bump allocator is taken to be returned. */
    method KBumpAllocAligned(size: nat, align: nat) returns (p: nat)
      requires Valid() && Admissible(View(), Call.BumpAllocAligned(size, align))
      modifies this, bumpHeap
      ensures Valid() && Step(old(View()), Call.BumpAllocAligned(size, align), View(), p)
    {
      p := bumpHeap.AllocAligned(size, align);
      if bumpHeap.View() != old(bumpHeap.View()) { windows := windows + [Span(p, p + size)]; }
      StepKeepsValid(old(View()), Call.BumpAllocAligned(size, align), View(), p);
    }
  }

  ghost function RecordAligned(sizes: map<nat, nat>, h: HeapView, size: nat, align: nat): map<nat, nat>
    requires h.Valid()
  {
    if size == 0 || !IsPow2(Max(align, 1)) then sizes else
      var f := FirstAligned(h.table, h.startAddr, h.blockSize, Needed(size, h.blockSize), Max(align, 1));
      if f.Some? then sizes[f.value := size] else sizes
  }

  // ---- initialisation ----

  function KernelEnd(sectors: nat): nat { KERNEL_START + U32(sectors * SECTOR) }

  /** The bytes of a kernel of `sectors` sectors. The boot stage loads it at 0x12_0000. */
  function KernelImage(sectors: nat): Span { Span(0x12_0000, 0x12_0000 + 512 * sectors) }

  lemma KernelEndIsImageEnd(sectors: nat)
    requires 512 * sectors < TWO32
    ensures KernelEnd(sectors) == KernelImage(sectors).to
  {
    RemainderSmall(sectors * SECTOR, TWO32);
  }

  /** End of the root heap placed in entry `e`. */
  function RootEnd(e: E820.Entry, kernelEnd: nat, size: nat): nat {
    DataStart(RootStart(e, kernelEnd), size / BLOCK_SIZE) + size
  }

  /** Header, table and data of the root heap lie in its entry, above the kernel, below 4 GiB. */
  lemma RootLayout(e: E820.Entry, kernelEnd: nat, size: nat)
    requires e.InAddressSpace() && kernelEnd <= 2 * FOUR_GIB && RootFits(e, kernelEnd, size)
    ensures var at := RootStart(e, kernelEnd);
            var n := size / BLOCK_SIZE;
            && e.base <= at && kernelEnd <= at
            && at + HEADER_BYTES + ENTRY_BYTES * n <= DataStart(at, n)
            && RootEnd(e, kernelEnd, size) <= e.End() && RootEnd(e, kernelEnd, size) <= FOUR_GIB
            && 0 < DataStart(at, n) && DataStart(at, n) + n * BLOCK_SIZE <= RootEnd(e, kernelEnd, size)
  {
    AlignUpIsLeast(Max(e.base, kernelEnd), PAGE);
    DataStartBounds(RootStart(e, kernelEnd), size / BLOCK_SIZE);
  }

  /** Entry `i` is the first that can take the root heap. */
  ghost predicate Chosen(m: E820.MemoryMap, kernelEnd: nat, size: nat, i: nat) {
    i < |m| && RootFits(m[i], kernelEnd, size) && forall k | 0 <= k < i :: !RootFits(m[k], kernelEnd, size)
  }

  /** The map `m` after the root heap took its part of entry `i`. */
  ghost predicate SplitFor(m: E820.MemoryMap, kernelEnd: nat, size: nat, i: nat, after: E820.MemoryMap) {
    && Chosen(m, kernelEnd, size, i)
    && m[i].base <= RootEnd(m[i], kernelEnd, size)
    && after == E820.Split(m, i, RootEnd(m[i], kernelEnd, size))
  }

  ghost predicate HasHole(m: E820.MemoryMap, mcfg: seq<MmioHole.McfgEntry>) {
    exists x: nat | x < FOUR_GIB :: !MmioHole.Covered(MmioHole.RecordAll([], MmioHole.InUse(m, mcfg)), x)
  }

  /** Some entry takes the root heap, and what is left has a region for the low heap and a hole. */
  ghost predicate Boots(m: E820.MemoryMap, kernelEnd: nat, size: nat, lowSize: nat, mcfg: seq<MmioHole.McfgEntry>) {
    exists i, after ::
      SplitFor(m, kernelEnd, size, i, after) && HasLowRegion(after, lowSize) && HasHole(after, mcfg)
  }

  /** The root heap, fresh, with its entry reserved in the map. */
  method RootHeapInit(m: E820.MemoryMap, kernelEnd: nat, size: nat)
    returns (root: Option<Heap>, after: E820.MemoryMap, ghost chosen: nat)
    requires E820.WellFormed(m) && kernelEnd <= 2 * FOUR_GIB && 5 * BLOCK_SIZE <= size < TWO64 / 2
    ensures root.None? ==> forall i | 0 <= i < |m| :: !RootFits(m[i], kernelEnd, size)
    ensures root.Some? ==>
      && SplitFor(m, kernelEnd, size, chosen, after)
      && E820.Splittable(m, chosen, RootEnd(m[chosen], kernelEnd, size))
      && var h := root.value;
         && fresh(h) && fresh(h.blocks) && h.Valid()
         && h.blockSize == BLOCK_SIZE && h.Total() == size / BLOCK_SIZE
         && RunFree(h.View().table, 0, h.Total())
         && h.addr == RootStart(m[chosen], kernelEnd) >= kernelEnd
         && Arena(h.addr, h.View(), map[]).Valid()
         && Arena(h.addr, h.View(), map[]).Whole().Within(Span(m[chosen].base, RootEnd(m[chosen], kernelEnd, size)))
  {
    root, after, chosen := None, m, 0;
    var found := PlaceRootHeap(m, kernelEnd, size);
    if found == None {
      return;
    }
    var i := found.value;
    RootLayout(m[i], kernelEnd, size);
    var h := MakeRootHeap(m[i], kernelEnd, size);
    after := E820.Split(m, i, h.startAddr + size);
    assert SplitFor(m, kernelEnd, size, i, after);
    return Some(h), after, i;
  }

  /** The root heap in entry `e`. */
  method MakeRootHeap(e: E820.Entry, kernelEnd: nat, size: nat) returns (h: Heap)
    requires e.InAddressSpace() && kernelEnd <= 2 * FOUR_GIB && RootFits(e, kernelEnd, size)
    ensures fresh(h) && fresh(h.blocks) && h.Valid()
    ensures h.blockSize == BLOCK_SIZE && h.Total() == size / BLOCK_SIZE && RunFree(h.View().table, 0, h.Total())
    ensures h.addr == RootStart(e, kernelEnd) && h.startAddr + size == RootEnd(e, kernelEnd, size)
    ensures Arena(h.addr, h.View(), map[]).Valid()
    ensures Arena(h.addr, h.View(), map[]).Whole().Within(Span(e.base, RootEnd(e, kernelEnd, size)))
  {
    RootLayout(e, kernelEnd, size);
    var at := RootStart(e, kernelEnd);
    var data := DataStart(at, size / BLOCK_SIZE);
    EmptyArenaValid(at, data, size / BLOCK_SIZE);
    h := NewHeap(at, data, size / BLOCK_SIZE, size);
  }

  /** The map copy and the bump header are the first two blocks of the root heap. */
  method FirstRootBlocks(root: Heap) returns (mapCopy: nat, bumpHeader: nat, ghost sizes: map<nat, nat>)
    requires root.Valid() && Arena(root.addr, root.View(), map[]).Valid() && root.blockSize == BLOCK_SIZE
    requires 5 <= root.Total() && RunFree(root.View().table, 0, 5)
    modifies root.blocks
    ensures root.Valid() && Arena(root.addr, root.View(), sizes).Valid()
    ensures sizes == map[0 := MAP_BYTES, 4 := BUMP_BYTES]
    ensures root.View().startAddr == old(root.View()).startAddr && |root.View().table| == |old(root.View()).table|
    ensures mapCopy == root.View().AddrOf(0) && bumpHeader == root.View().AddrOf(4)
  {
    assert Needed(MAP_BYTES, BLOCK_SIZE) == 4 && Needed(BUMP_BYTES, BLOCK_SIZE) == 1;
    assert RunFree(root.View().table, 0, 4);
    mapCopy := TakeRootBlock(root, MAP_BYTES, map[], 0);
    bumpHeader := TakeRootBlock(root, BUMP_BYTES, map[0 := MAP_BYTES], 4);
    sizes := map[0 := MAP_BYTES, 4 := BUMP_BYTES];
    assert sizes == map[0 := MAP_BYTES][4 := BUMP_BYTES];
  }

  /** A block behind the first `f`, which are taken. */
  method TakeRootBlock(root: Heap, bytes: nat, ghost sizes: map<nat, nat>, ghost f: nat) returns (p: nat)
    requires root.Valid() && Arena(root.addr, root.View(), sizes).Valid() && root.blockSize == BLOCK_SIZE
    requires 0 < bytes <= TWO64 - BLOCK_SIZE && Needed(bytes, BLOCK_SIZE) > 0
    requires RunFree(root.View().table, f, Needed(bytes, BLOCK_SIZE))
    requires forall k: nat | k < f :: root.View().table[k].taken
    modifies root.blocks
    ensures root.Valid() && Arena(root.addr, root.View(), sizes[f := bytes]).Valid()
    ensures root.View() == old(root.View()).(table := Marked(old(root.View()).table, f, Needed(bytes, BLOCK_SIZE)))
    ensures p == root.View().AddrOf(f)
  {
    ghost var a := Arena(root.addr, root.View(), sizes);
    assert Fits(a.heap.table, |a.heap.table|, Needed(bytes, BLOCK_SIZE), f);
    assert FirstFit(a.heap.table, |a.heap.table|, Needed(bytes, BLOCK_SIZE)) == Some(f);
    p := root.Alloc(bytes);
    AllocKeepsValid(a, bytes, Arena(root.addr, root.View(), sizes[f := bytes]), p);
  }

  /** The root heap with its first two blocks taken. */
  method RootArenaInit(m: E820.MemoryMap, kernelEnd: nat, size: nat)
    returns (root: Option<Heap>, after: E820.MemoryMap, ghost chosen: nat, ghost sizes: map<nat, nat>)
    requires E820.WellFormed(m) && kernelEnd <= 2 * FOUR_GIB && 5 * BLOCK_SIZE <= size < TWO64 / 2
    ensures root.None? ==> forall i | 0 <= i < |m| :: !RootFits(m[i], kernelEnd, size)
    ensures root.Some? ==>
      && SplitFor(m, kernelEnd, size, chosen, after)
      && E820.Splittable(m, chosen, RootEnd(m[chosen], kernelEnd, size))
      && sizes == map[0 := MAP_BYTES, 4 := BUMP_BYTES]
      && var h := root.value;
         && fresh(h) && fresh(h.blocks) && h.Valid() && h.blockSize == BLOCK_SIZE && kernelEnd <= h.addr
         && Arena(h.addr, h.View(), sizes).Valid()
         && Arena(h.addr, h.View(), sizes).Whole().Within(Span(m[chosen].base, RootEnd(m[chosen], kernelEnd, size)))
  {
    root, after, chosen := RootHeapInit(m, kernelEnd, size);
    sizes := map[];
    if root.Some? {
      var mapCopy, bumpHeader;
      mapCopy, bumpHeader, sizes := FirstRootBlocks(root.value);
    }
  }

  /** What the initialisation leaves above a kernel that ends at `kernelEnd`: three valid arenas, each
      in the place the searches determine, with two blocks of the root heap in use: a copy of the
      map (a count and 64 entries of 24 bytes) and the header of the bump heap. */
  ghost predicate Initialised(s: MemoryManager, firmware: E820.MemoryMap, kernelEnd: nat, size: nat, lowHeapSize: nat,
                              mcfg: seq<MmioHole.McfgEntry>)
    reads s, s.rootHeap.blocks, s.lowHeap.blocks, s.bumpHeap
  {
    && s.Valid() && s.windows == []
    && s.rootSizes == map[0 := 2 + 64 * 24, 4 := 24] && s.lowSizes == map[]
    && (exists i :: SplitFor(firmware, kernelEnd, size, i, s.memoryMap))
    && E820.WellFormed(s.memoryMap)
    && kernelEnd <= s.rootHeap.addr
    && FirstRegion(s.memoryMap, LowQuery(lowHeapSize), s.lowHeap.addr)
    && s.View().low.Whole().Within(Span(s.lowHeap.addr, s.lowHeap.addr + lowHeapSize))
    && s.rootHeap.blockSize == s.lowHeap.blockSize == 512 && s.lowHeap.Total() == LowBlocks(lowHeapSize)
    && MmioHole.LargestFree(MmioHole.RecordAll([], MmioHole.InUse(s.memoryMap, mcfg)),
                            s.bumpHeap.start, s.bumpHeap.start + s.bumpHeap.size)
    && HoleOfUnused(s.memoryMap, mcfg, s.bumpHeap.start, s.bumpHeap.start + s.bumpHeap.size)
  }

  /** Sets up the three arenas. They do not meet, whatever the firmware reports; the kernel halts
      (no result) exactly when some arena cannot be placed. The root heap, with its header, lies
      behind the image of a kernel whose size in bytes fits a word. */
  method MemManagerInit(size: nat, kernelSectors: nat, firmware: E820.MemoryMap, lowHeapSize: nat,
                        mcfg: seq<MmioHole.McfgEntry>)
    returns (mm: Option<MemoryManager>)
    requires E820.WellFormed(firmware)
    requires 5 * BLOCK_SIZE <= size < TWO64 / 2 && HEADER_BYTES + 0xFFF <= lowHeapSize < TWO64
    ensures mm.Some? <==> Boots(firmware, KernelEnd(kernelSectors), size, lowHeapSize, mcfg)
    ensures mm.Some? ==>
      fresh(mm.value) && Initialised(mm.value, firmware, KernelEnd(kernelSectors), size, lowHeapSize, mcfg)
    ensures 512 * kernelSectors < TWO32 ==>
      var image := KernelImage(kernelSectors);
      && (mm.Some? <==> Boots(firmware, image.to, size, lowHeapSize, mcfg))
      && (mm.Some? ==> Initialised(mm.value, firmware, image.to, size, lowHeapSize, mcfg)
                       && Apart(mm.value.View().root.Whole(), image))
  {
    var kernelEnd := KernelEnd(kernelSectors);
    if 512 * kernelSectors < TWO32 { KernelEndIsImageEnd(kernelSectors); }
    mm := InitAbove(size, kernelEnd, firmware, lowHeapSize, mcfg);
  }

  method InitAbove(size: nat, kernelEnd: nat, firmware: E820.MemoryMap, lowHeapSize: nat,
                   mcfg: seq<MmioHole.McfgEntry>)
    returns (mm: Option<MemoryManager>)
    requires E820.WellFormed(firmware) && kernelEnd <= 2 * FOUR_GIB
    requires 5 * BLOCK_SIZE <= size < TWO64 / 2 && HEADER_BYTES + 0xFFF <= lowHeapSize < TWO64
    ensures mm.Some? <==> Boots(firmware, kernelEnd, size, lowHeapSize, mcfg)
    ensures mm.Some? ==> fresh(mm.value) && Initialised(mm.value, firmware, kernelEnd, size, lowHeapSize, mcfg)
  {
    mm := None;
    var rootHeap, after;
    ghost var i, sizes;
    rootHeap, after, i, sizes := RootArenaInit(firmware, kernelEnd, size);
    if rootHeap == None {
      return;
    }
    BootsWhenTheRestFits(firmware, kernelEnd, size, lowHeapSize, mcfg, i, after);
    E820.SplitWellFormed(firmware, i, RootEnd(firmware[i], kernelEnd, size));
    mm := AddLowHeapAndHole(rootHeap.value, sizes, firmware, i, RootEnd(firmware[i], kernelEnd, size), after,
                            lowHeapSize, mcfg);
  }

  /** The other two arenas, next to a root heap cut from entry `i`. */
  method AddLowHeapAndHole(root: Heap, ghost sizes: map<nat, nat>, ghost m: E820.MemoryMap, ghost i: nat,
                           ghost rootEnd: nat, after: E820.MemoryMap, lowHeapSize: nat, mcfg: seq<MmioHole.McfgEntry>)
    returns (mm: Option<MemoryManager>)
    requires E820.Splittable(m, i, rootEnd) && after == E820.Split(m, i, rootEnd) && E820.WellFormed(after)
    requires root.Valid() && Arena(root.addr, root.View(), sizes).Valid()
    requires Arena(root.addr, root.View(), sizes).Whole().Within(Span(m[i].base, rootEnd))
    requires HEADER_BYTES + 0xFFF <= lowHeapSize < TWO64
    ensures mm.Some? <==> HasLowRegion(after, lowHeapSize) && HasHole(after, mcfg)
    ensures mm.Some? ==>
      var s := mm.value;
      && fresh(s) && s.Valid() && s.rootHeap == root && s.memoryMap == after
      && s.windows == [] && s.rootSizes == sizes && s.lowSizes == map[]
      && FirstRegion(after, LowQuery(lowHeapSize), s.lowHeap.addr)
      && s.View().low.Whole().Within(Span(s.lowHeap.addr, s.lowHeap.addr + lowHeapSize))
      && s.lowHeap.blockSize == BLOCK_SIZE && s.lowHeap.Total() == LowBlocks(lowHeapSize)
      && MmioHole.LargestFree(MmioHole.RecordAll([], MmioHole.InUse(after, mcfg)),
                              s.bumpHeap.start, s.bumpHeap.start + s.bumpHeap.size)
      && HoleOfUnused(after, mcfg, s.bumpHeap.start, s.bumpHeap.start + s.bumpHeap.size)
  {
    mm := None;
    var low := LowHeapInit(after, lowHeapSize);
    if low == None {
      return;
    }
    var bump := HoleInit(after, mcfg);
    if bump == None {
      return;
    }
    ArenasApart(m, i, rootEnd, lowHeapSize, mcfg,
                Arena(root.addr, root.View(), sizes), Arena(low.value.addr, low.value.View(), map[]),
                  bump.value.View());
    var s := new MemoryManager(root, low.value, bump.value, after, sizes);
    return Some(s);
  }

  method HoleInit(m: E820.MemoryMap, mcfg: seq<MmioHole.McfgEntry>) returns (bump: Option<BumpHeap>)
    requires E820.WellFormed(m)
    ensures bump.Some? <==> HasHole(m, mcfg)
    ensures bump.Some? ==>
      && fresh(bump.value) && bump.value.next == bump.value.start
      && MmioHole.LargestFree(MmioHole.RecordAll([], MmioHole.InUse(m, mcfg)),
                              bump.value.start, bump.value.start + bump.value.size)
      && HoleOfUnused(m, mcfg, bump.value.start, bump.value.start + bump.value.size)
  {
    var hole, base, end := MmioHole.FindHole(m, mcfg);
    if !hole {
      return None;
    }
    if UsedAddresses.EntriesOk(mcfg) && UsedAddresses.AllRecorded(m, mcfg) {
      UsedAddresses.HoleIsLargestUnused(m, mcfg, base, end);
    }
    var b := new BumpHeap(base, end - base);
    return Some(b);
  }

  /** The hole is the largest interval below 4 GiB without memory, fixed device or configuration
      register, as long as the range array had room. */
  ghost predicate HoleOfUnused(m: E820.MemoryMap, mcfg: seq<MmioHole.McfgEntry>, base: nat, end: nat) {
    UsedAddresses.EntriesOk(mcfg) && UsedAddresses.AllRecorded(m, mcfg) ==>
      UsedAddresses.LargestUnused(m, mcfg, base, end)
  }

  /** The first entry that fits decides, so the rest of the boot depends on its split alone. */
  lemma BootsWhenTheRestFits(m: E820.MemoryMap, kernelEnd: nat, size: nat, lowSize: nat,
                             mcfg: seq<MmioHole.McfgEntry>, i: nat, after: E820.MemoryMap)
    requires SplitFor(m, kernelEnd, size, i, after)
    ensures Boots(m, kernelEnd, size, lowSize, mcfg) <==> HasLowRegion(after, lowSize) && HasHole(after, mcfg)
  {
    forall k: nat, a | SplitFor(m, kernelEnd, size, k, a)
      ensures k == i && a == after
    {
      assert !(k < i) && !(i < k);
    }
  }

  // ---- what the low heap may land on ----

  /** Where a low heap of `lowSize` bytes goes in entry `e`. */
  function LowSpan(e: E820.Entry, lowSize: nat): Span {
    Span(AlignUp(e.base, PAGE), AlignUp(e.base, PAGE) + lowSize)
  }

  /** The low heap search starts at address 0 and knows nothing of what lies below the root heap
      already: the kernel image, the page tables, the map itself. It keeps clear of such a `guard`
      exactly when each entry whose start it would take over `guard` comes behind another that
      suits. The entry the root heap was cut from is out of the search. */
  lemma LowHeapMissesIff(m: E820.MemoryMap, kernelEnd: nat, size: nat, lowSize: nat, i: nat, after: E820.MemoryMap,
                         at: nat, guard: Span)
    requires E820.WellFormed(m) && kernelEnd <= 2 * FOUR_GIB && SplitFor(m, kernelEnd, size, i, after)
    requires FirstRegion(after, LowQuery(lowSize), at) && guard.to <= kernelEnd
    ensures Apart(Span(at, at + lowSize), guard) <==>
            forall k | 0 <= k < |m| && k != i && LowQuery(lowSize).Suits(m[k])
              && !Apart(LowSpan(m[k], lowSize), guard) ::
              exists j | 0 <= j < k :: j != i && LowQuery(lowSize).Suits(m[j])
  {
    var q := LowQuery(lowSize);
    var rootEnd := RootEnd(m[i], kernelEnd, size);
    RootLayout(m[i], kernelEnd, size);
    E820.SplitWellFormed(m, i, rootEnd);
    SplitEntries(m, i, rootEnd);
    var f :| 0 <= f < |after| && IsFirstRegion(after, q, at, f);
    E820.LowestIsRoundedUp(q, after[f], at);
    if f == |m| { StartsBehind(rootEnd, at); }
    FirstRegionDecides(m, lowSize, i, after, at, guard, f);
  }

  /** The search looks at the old entries, without the one the root heap was cut from, and last at
      what is left of that one. */
  lemma SplitEntries(m: E820.MemoryMap, i: nat, heapEnd: nat)
    requires i < |m| && m[i].base <= heapEnd
    ensures var after := E820.Split(m, i, heapEnd);
            && |m| <= |after| <= |m| + 1
            && (forall k | 0 <= k < |m| && k != i :: after[k] == m[k])
            && after[i].kind == E820.RESERVED && (|after| > |m| ==> after[|m|].base == heapEnd)
  {
  }

  lemma StartsBehind(base: nat, at: nat)
    requires base <= FOUR_GIB && at == AlignUp(base, PAGE)
    ensures base <= at
  {
    E820.PageIsPower();
    AlignUpIsLeast(base, PAGE);
  }

  lemma FirstRegionDecides(m: E820.MemoryMap, lowSize: nat, i: nat, after: E820.MemoryMap, at: nat, guard: Span, f: nat)
    requires i < |m| <= |after| <= |m| + 1 && f < |after| && after[i].kind == E820.RESERVED
    requires forall k | 0 <= k < |m| && k != i :: after[k] == m[k]
    requires IsFirstRegion(after, LowQuery(lowSize), at, f)
    requires if f < |m| then at == AlignUp(after[f].base, PAGE) else guard.to <= at
    ensures Apart(Span(at, at + lowSize), guard) <==>
            forall k | 0 <= k < |m| && k != i && LowQuery(lowSize).Suits(m[k])
              && !Apart(LowSpan(m[k], lowSize), guard) ::
              exists j | 0 <= j < k :: j != i && LowQuery(lowSize).Suits(m[j])
  {
    var q := LowQuery(lowSize);
    assert q.Suits(after[f]) && !q.Suits(after[i]);
    forall k | 0 <= k < |m| && k != i && q.Suits(m[k])
      ensures f <= k
    {
      assert after[k] == m[k];
    }
    if f < |m| { assert after[f] == m[f] && LowSpan(m[f], lowSize) == Span(at, at + lowSize); }
  }

  /** In particular, when one usable entry holds the kernel: the low heap misses the kernel exactly
      when the root heap took that entry, or an earlier one suits, or it is too small, or there is
      enough room below the kernel. */
  lemma LowHeapMissesKernelIff(m: E820.MemoryMap, sectors: nat, size: nat, lowSize: nat, i: nat, after: E820.MemoryMap,
                               at: nat, k: nat)
    requires E820.WellFormed(m) && 0 < 512 * sectors < TWO32
    requires SplitFor(m, KernelImage(sectors).to, size, i, after) && FirstRegion(after, LowQuery(lowSize), at)
    requires k < |m| && KernelImage(sectors).Within(Span(m[k].base, m[k].End()))
    ensures Apart(Span(at, at + lowSize), KernelImage(sectors)) <==>
            || i == k
            || (exists j | 0 <= j < k :: j != i && LowQuery(lowSize).Suits(m[j]))
            || !LowQuery(lowSize).Suits(m[k])
            || LowSpan(m[k], lowSize).to <= 0x12_0000
  {
    var guard := KernelImage(sectors);
    LowHeapMissesIff(m, guard.to, size, lowSize, i, after, at, guard);
    E820.PageIsPower();
    AlignUpIsLeast(m[k].base, PAGE);
    assert guard.from % PAGE == 0;
    forall j | 0 <= j < |m| && j != k && LowQuery(lowSize).Suits(m[j])
      ensures Apart(LowSpan(m[j], lowSize), guard)
    {
      SuitableEntryHolds(m[j], lowSize);
      assert E820.Apart(m[if j < k then j else k], m[if j < k then k else j]);
    }
  }

  /** A suitable entry holds the low heap it would get. */
  lemma SuitableEntryHolds(e: E820.Entry, lowSize: nat)
    requires e.InAddressSpace() && LowQuery(lowSize).Suits(e)
    ensures e.length > 0 && LowSpan(e, lowSize).Within(Span(e.base, e.End()))
  {
    E820.LowestExists(LowQuery(lowSize), e);
  }

  /** Whatever the other entries are, the low heap is clear of the kernel when the root heap
      was cut from an entry that starts at or below the kernel. */
  lemma LowHeapClearOfKernel(m: E820.MemoryMap, sectors: nat, size: nat, lowSize: nat, i: nat, after: E820.MemoryMap,
                             at: nat)
    requires E820.WellFormed(m) && 512 * sectors < TWO32
    requires SplitFor(m, KernelImage(sectors).to, size, i, after) && m[i].base <= 0x12_0000
    requires FirstRegion(after, LowQuery(lowSize), at) && lowSize > 0
    ensures Apart(Span(at, at + lowSize), KernelImage(sectors))
  {
    var kernelEnd := KernelImage(sectors).to;
    RootLayout(m[i], kernelEnd, size);
    var rootEnd := RootEnd(m[i], kernelEnd, size);
    E820.SplitWellFormed(m, i, rootEnd);
    var j :| 0 <= j < |after| && IsFirstRegion(after, LowQuery(lowSize), at, j);
    RootMissesLow(m, i, rootEnd, j, Span(m[i].base, rootEnd), Span(at, at + lowSize));
  }

  // the two sizes in the kernel's call
  const GIB: nat := 0x4000_0000
  const LOW_HEAP_BYTES: nat := 0x1000_0000

  /** Some memory below 1 GiB, and 2 GiB from there on. */
  function SmallThenLarge(small: E820.Entry): E820.MemoryMap {
    [small, E820.Entry(GIB, 2 * GIB, E820.USABLE, 1)]
  }

  /** The root heap does not fit below 1 GiB. */
  lemma SecondEntryChosen(small: E820.Entry, kernelEnd: nat)
    requires small.End() <= GIB && kernelEnd <= GIB
    ensures var m := SmallThenLarge(small);
            E820.WellFormed(m) && Chosen(m, kernelEnd, GIB, 1) && RootStart(m[1], kernelEnd) == GIB
  {
    if small.base <= GIB { StartAbove(small, kernelEnd); }
    StartAtBase(SmallThenLarge(small)[1], kernelEnd);
  }

  lemma StartAbove(e: E820.Entry, kernelEnd: nat)
    requires e.base <= FOUR_GIB && kernelEnd <= FOUR_GIB
    ensures e.base <= RootStart(e, kernelEnd) && kernelEnd <= RootStart(e, kernelEnd)
  {
    AlignUpIsLeast(Max(e.base, kernelEnd), PAGE);
  }

  /** An entry that starts on a page above the kernel is used from its start. */
  lemma StartAtBase(e: E820.Entry, kernelEnd: nat)
    requires kernelEnd <= e.base <= FOUR_GIB && e.base % PAGE == 0
    ensures RootStart(e, kernelEnd) == e.base
  {
    AlignUpIsLeast(e.base, PAGE);
  }

  lemma LowHeapOffered(after: E820.MemoryMap, small: E820.Entry)
    requires after != [] && after[0] == small && small.kind == E820.USABLE && small.base % PAGE == 0
    requires small.base + LOW_HEAP_BYTES <= small.End() <= GIB
    ensures forall at :: FirstRegion(after, LowQuery(LOW_HEAP_BYTES), at) <==> at == small.base
  {
    var q := LowQuery(LOW_HEAP_BYTES);
    assert q.Offers(after[0], small.base);
    assert IsFirstRegion(after, q, small.base, 0);
    forall at | FirstRegion(after, q, at)
      ensures at == small.base
    {
      var i :| 0 <= i < |after| && IsFirstRegion(after, q, at, i);
      assert i == 0;
    }
  }

  /** With the sizes the kernel asks for: when the second entry takes the root heap, the only place
      the low heap can get is the start of the first, whatever lies there. */
  lemma LowHeapTakesSmall(small: E820.Entry, sectors: nat)
    requires sectors <= 0x1000 && small.kind == E820.USABLE && small.base % PAGE == 0
    requires small.base + LOW_HEAP_BYTES <= small.End() <= GIB
    ensures exists after ::
              && SplitFor(SmallThenLarge(small), KernelEnd(sectors), GIB, 1, after)
              && forall at :: FirstRegion(after, LowQuery(LOW_HEAP_BYTES), at) <==> at == small.base
  {
    var m, kernelEnd := SmallThenLarge(small), KernelEnd(sectors);
    RemainderSmall(sectors * SECTOR, TWO32);
    SecondEntryChosen(small, kernelEnd);
    RootLayout(m[1], kernelEnd, GIB);
    var after := E820.Split(m, 1, RootEnd(m[1], kernelEnd, GIB));
    LowHeapOffered(after, small);
    assert SplitFor(m, kernelEnd, GIB, 1, after);
  }

  /** With 512 MiB where the kernel lies, that place is over the kernel. */
  lemma LowHeapCanCoverKernel(sectors: nat)
    requires 0 < sectors <= 0x1000
    ensures exists after ::
              && SplitFor(SmallThenLarge(E820.Entry(0x10_0000, 0x2000_0000, E820.USABLE, 1)), KernelEnd(sectors), GIB,
                          1, after)
              && (forall at :: FirstRegion(after, LowQuery(LOW_HEAP_BYTES), at) <==> at == 0x10_0000)
              && !Apart(Span(0x10_0000, 0x10_0000 + LOW_HEAP_BYTES), KernelImage(sectors))
  {
    RemainderSmall(sectors * SECTOR, TWO32);
    LowHeapTakesSmall(E820.Entry(0x10_0000, 0x2000_0000, E820.USABLE, 1), sectors);
  }
}
