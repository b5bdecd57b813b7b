/** What the boot stages leave behind for the arenas: identity-mapped memory, and page tables that
    no block may overwrite. */
module AddressSpace {
  import opened Words
  import opened BlockTable
  import opened Arenas
  import opened MemoryManagement
  import opened Paging
  import E820
  import MmioHole
  import UsedAddresses

  const TABLES: Span := Span(PML4, TABLES_END)

  /** On tables as the boot stage filled them, every address of every block handed out at any point
      of any run translates to itself, and none of them is an address of the tables. */
  lemma EveryBlockIsMapped(states: seq<State>, calls: seq<Call>, results: seq<nat>, i: nat, o: Owner, x: nat,
                           mem: seq<nat>)
    requires IsRun(states, calls, results) && i <= |calls| && ClearOf(states[0], TABLES)
    requires states[i].Live(o) && states[i].SpanOf(o).from <= x < states[i].SpanOf(o).to
    requires UpperLevels(mem) && PagesFilled(mem, LARGE_PAGES)
    ensures Translate(mem, x) == Some(x) && !(0x9_0000 <= x < 0x9_6000)
  {
    NoBlockOver(states, calls, results, i, o, TABLES, x);
    IdentityMapped(mem, x);
  }

  /** Firmware lists all memory of `guard`, as whatever kind. */
  ghost predicate Listed(m: E820.MemoryMap, guard: Span) {
    forall x: nat | guard.from <= x < guard.to :: E820.Covered(m, x)
  }

  /** Each entry whose start the low heap would take over `guard` comes behind another that suits. */
  ghost predicate LowHeapAvoids(m: E820.MemoryMap, i: nat, lowSize: nat, guard: Span) {
    forall k | 0 <= k < |m| && k != i && LowQuery(lowSize).Suits(m[k]) && !Apart(LowSpan(m[k], lowSize), guard) ::
      exists j | 0 <= j < k :: j != i && LowQuery(lowSize).Suits(m[j])
  }

  /** A state as the initialisation sets it up, above a kernel that ends at `kernelEnd`. */
  ghost predicate Booted(m: E820.MemoryMap, kernelEnd: nat, size: nat, lowSize: nat, mcfg: seq<MmioHole.McfgEntry>,
                         i: nat, after: E820.MemoryMap, s: State) {
    && E820.WellFormed(m) && kernelEnd <= 2 * FOUR_GIB && SplitFor(m, kernelEnd, size, i, after)
    && s.Valid() && kernelEnd <= s.root.at
    && FirstRegion(after, LowQuery(lowSize), s.low.at)
    && s.low.Whole().Within(Span(s.low.at, s.low.at + lowSize))
    && MmioHole.Free(MmioHole.RecordAll([], MmioHole.InUse(after, mcfg)), s.bump.start, s.bump.End())
  }

  /** That is how the initialisation leaves it. */
  lemma InitIsBooted(m: E820.MemoryMap, kernelEnd: nat, size: nat, lowSize: nat, mcfg: seq<MmioHole.McfgEntry>,
                     mm: MemoryManager)
    requires E820.WellFormed(m) && kernelEnd <= 2 * FOUR_GIB
    requires Initialised(mm, m, kernelEnd, size, lowSize, mcfg)
    ensures exists i :: Booted(m, kernelEnd, size, lowSize, mcfg, i, mm.memoryMap, mm.View())
  {
    var i :| SplitFor(m, kernelEnd, size, i, mm.memoryMap);
    assert Booted(m, kernelEnd, size, lowSize, mcfg, i, mm.memoryMap, mm.View());
  }

  /** What lies below the root heap: the memory of the low heap misses it exactly when the firmware
      map says so; the root heap always does, and the hole does when firmware lists its memory. */
  lemma BootLeavesAlone(m: E820.MemoryMap, kernelEnd: nat, size: nat, lowSize: nat, mcfg: seq<MmioHole.McfgEntry>,
                        i: nat, after: E820.MemoryMap, s: State, guard: Span)
    requires Booted(m, kernelEnd, size, lowSize, mcfg, i, after, s) && guard.from < guard.to <= kernelEnd
    ensures Apart(Span(s.low.at, s.low.at + lowSize), guard) <==> LowHeapAvoids(m, i, lowSize, guard)
    ensures LowHeapAvoids(m, i, lowSize, guard) && (Listed(m, guard) || Apart(s.Hole(), guard)) ==> ClearOf(s, guard)
  {
    LowHeapMissesIff(m, kernelEnd, size, lowSize, i, after, s.low.at, guard);
    if Listed(m, guard) { HoleMisses(m, kernelEnd, size, mcfg, i, after, s.Hole(), guard); }
  }

  /** The page tables, of which all addresses lie below the kernel. */
  lemma BootLeavesTablesAlone(m: E820.MemoryMap, kernelEnd: nat, size: nat, lowSize: nat,
                              mcfg: seq<MmioHole.McfgEntry>, i: nat, after: E820.MemoryMap, s: State)
    requires Booted(m, kernelEnd, size, lowSize, mcfg, i, after, s) && 0x12_0000 <= kernelEnd
    ensures Apart(Span(s.low.at, s.low.at + lowSize), TABLES) <==> LowHeapAvoids(m, i, lowSize, TABLES)
    ensures LowHeapAvoids(m, i, lowSize, TABLES) && (Listed(m, TABLES) || Apart(s.Hole(), TABLES)) ==>
              ClearOf(s, TABLES)
  {
    BootLeavesAlone(m, kernelEnd, size, lowSize, mcfg, i, after, s, TABLES);
  }

  /** The kernel image: when firmware lists its memory and the low heap avoids it, no block that is
      handed out at any point of any run after the initialisation covers a byte of it. */
  lemma NoBlockOverKernel(m: E820.MemoryMap, sectors: nat, size: nat, lowSize: nat, mcfg: seq<MmioHole.McfgEntry>,
                          k: nat, after: E820.MemoryMap,
                          states: seq<State>, calls: seq<Call>, results: seq<nat>, i: nat, o: Owner, x: nat)
    requires 512 * sectors < TWO32 && IsRun(states, calls, results) && i <= |calls|
    requires Booted(m, 0x12_0000 + 512 * sectors, size, lowSize, mcfg, k, after, states[0])
    requires Listed(m, KernelImage(sectors)) && LowHeapAvoids(m, k, lowSize, KernelImage(sectors))
    requires states[i].Live(o) && states[i].SpanOf(o).from <= x < states[i].SpanOf(o).to
    ensures !(0x12_0000 <= x < 0x12_0000 + 512 * sectors)
  {
    if sectors > 0 {
      KernelIsClear(m, sectors, size, lowSize, mcfg, k, after, states[0]);
      NoBlockOver(states, calls, results, i, o, KernelImage(sectors), x);
    }
  }

  /** A block of the root heap never does, whatever the map says. */
  lemma NoRootBlockOverKernel(m: E820.MemoryMap, sectors: nat, size: nat, lowSize: nat, mcfg: seq<MmioHole.McfgEntry>,
                              k: nat, after: E820.MemoryMap,
                              states: seq<State>, calls: seq<Call>, results: seq<nat>, i: nat, o: Owner, x: nat)
    requires IsRun(states, calls, results) && i <= |calls| && o.RootRun?
    requires Booted(m, 0x12_0000 + 512 * sectors, size, lowSize, mcfg, k, after, states[0])
    requires states[i].Live(o) && states[i].SpanOf(o).from <= x < states[i].SpanOf(o).to
    ensures !(0x12_0000 <= x < 0x12_0000 + 512 * sectors)
  {
    NoBlockOver(states, calls, results, i, o, KernelImage(sectors), x);
  }

  lemma KernelIsClear(m: E820.MemoryMap, sectors: nat, size: nat, lowSize: nat, mcfg: seq<MmioHole.McfgEntry>,
                      k: nat, after: E820.MemoryMap, s: State)
    requires sectors > 0 && Booted(m, 0x12_0000 + 512 * sectors, size, lowSize, mcfg, k, after, s)
    requires Listed(m, KernelImage(sectors)) && LowHeapAvoids(m, k, lowSize, KernelImage(sectors))
    ensures ClearOf(s, KernelImage(sectors))
  {
    BootLeavesAlone(m, 0x12_0000 + 512 * sectors, size, lowSize, mcfg, k, after, s, KernelImage(sectors));
  }

  /** A map that lists the memory from 0x1000 to 512 MiB as one entry puts the low heap there, over
      the tables. */
  lemma LowHeapCanCoverTables(sectors: nat)
    requires sectors <= 0x1000
    ensures exists after ::
              && SplitFor(SmallThenLarge(E820.Entry(0x1000, 0x1FFF_F000, E820.USABLE, 1)), KernelEnd(sectors), GIB, 1,
                          after)
              && (forall at :: FirstRegion(after, LowQuery(LOW_HEAP_BYTES), at) <==> at == 0x1000)
              && !Apart(Span(0x1000, 0x1000 + LOW_HEAP_BYTES), TABLES)
  {
    LowHeapTakesSmall(E820.Entry(0x1000, 0x1FFF_F000, E820.USABLE, 1), sectors);
  }

  lemma HoleMisses(m: E820.MemoryMap, kernelEnd: nat, size: nat, mcfg: seq<MmioHole.McfgEntry>,
                   i: nat, after: E820.MemoryMap, hole: Span, guard: Span)
    requires E820.WellFormed(m) && kernelEnd <= 2 * FOUR_GIB && SplitFor(m, kernelEnd, size, i, after)
    requires Listed(m, guard) && guard.from < guard.to <= kernelEnd
    requires MmioHole.Free(MmioHole.RecordAll([], MmioHole.InUse(after, mcfg)), hole.from, hole.to)
    ensures Apart(hole, guard)
  {
    RootLayout(m[i], kernelEnd, size);
    var rootEnd := RootEnd(m[i], kernelEnd, size);
    E820.SplitWellFormed(m, i, rootEnd);
    if !Apart(hole, guard) {
      var x := Max(hole.from, guard.from);
      assert E820.Covered(m, x);
      StillListed(m, i, rootEnd, x);
      UsedAddresses.HoleIsClear(after, mcfg, hole.from, hole.to, x);
    }
  }

  /** The split drops no memory below the end of the root heap. */
  lemma StillListed(m: E820.MemoryMap, i: nat, heapEnd: nat, x: nat)
    requires E820.Splittable(m, i, heapEnd) && x < heapEnd && E820.Covered(m, x)
    ensures E820.Covered(E820.Split(m, i, heapEnd), x)
  {
    var s := E820.Split(m, i, heapEnd);
    var j :| 0 <= j < |m| && m[j].Covers(x);
    assert s[j].Covers(x);
  }
}
