/** Moving every BAR into the MMIO hole. */
module PcieRelocation {
  import opened Words
  import opened BumpAllocator
  import opened Arenas
  import opened MemoryManagement
  import opened Pcie
  import opened PcieProbe
  import opened RelocationPlan
  import opened UsedAddresses
  import E820
  import MmioHole

  /** A new base for a slot: naturally aligned and below the firmware flash. */
  ghost predicate GoodBase(s: Slot, base: nat) {
    (s.Mem32? || s.Mem64? || s.Io?) && s.Ok() && base % s.size == 0 && base + s.size <= MmioHole.FLASH_START
  }

  /** Flag bits of a slot's low register sit below this unit. */
  function FlagUnit(s: Slot): nat { if s.Io? then 4 else 16 }

  lemma GoodBaseFacts(s: Slot, base: nat)
    requires GoodBase(s, base)
    ensures s.Unit() == s.size && s.Flags() < FlagUnit(s) <= s.size && base % FlagUnit(s) == 0
    ensures base + s.Flags() < TWO32 && s.Latched(base + s.Flags()) == base + s.Flags()
  {
    var g := FlagUnit(s);
    PowersDivide(g, s.size);
    MultipleOfMultiple(base, g, s.size);
    DivModUnique(base + s.Flags(), s.size, base / s.size, s.Flags());
  }

  /** The checks before the writes pass. */
  lemma GoodBaseAccepted(s: Slot, b: Bar, base: nat)
    requires GoodBase(s, base) && b.isIO == s.Io? && b.is64Bits == s.Mem64? && b.size == s.size
    ensures Acceptable(b, base)
  {
    GoodBaseFacts(s, base);
    RemainderSmall(base + s.size, TWO64);
    if s.Io? { MultipleMasked(base, 4); } else { MultipleMasked(base, s.size); }
  }

  lemma MultipleMasked(x: nat, a: nat)
    requires a > 0 && IsPow2(a) && x % a == 0
    ensures And(x, a - 1) == 0
  {
    AndLowMask(x, a);
  }

  /** The low register ends up holding the new base under the old flags. */
  lemma NewLowLatches(s: Slot, b: Bar, low: nat, base: nat)
    requires GoodBase(s, base) && b.isIO == s.Io? && low < TWO32 && low % FlagUnit(s) == s.Flags()
    ensures NewLow(b, low, base) == base + s.Flags()
  {
    GoodBaseFacts(s, base);
    NewLowValue(b, low, base);
    RemainderSmall(base, TWO32);
  }

  lemma HeldFlags(l: Layout, regs: Registers, i: nat)
    requires LayoutOk(l) && Holds(l, regs) && i < BARS && (l[i].Mem32? || l[i].Mem64? || l[i].Io?)
    ensures regs[i] % FlagUnit(l[i]) == l[i].Flags()
  {
    assert SlotOk(l, i);
    l[i].UnitOk();
    HeldBits(l[i], regs[i], FlagUnit(l[i]));
  }

  /** The base on record is the address that the registers spell. */
  lemma RecordShows(l: Layout, regs: Registers, i: nat, b: Bar)
    requires LayoutOk(l) && Holds(l, regs) && i < BARS && Recovered(l, regs, i, b) && b.isValid
    ensures Shows(b, regs, i, b.base) && b.size == l[i].size
  {
    HeldFlags(l, regs, i);
    UnderFlags(regs[i], if b.is64Bits then regs[i + 1] else 0, FlagUnit(l[i]));
  }

  lemma UnderFlags(low: nat, high: nat, unit: nat)
    requires unit == 4 || unit == 16
    ensures var x := low + high * TWO32 - low % unit; x % unit == 0 && x <= low + high * TWO32 < x + unit
  {
    WordsAbove(low, high, unit);
    RoundDown(low + high * TWO32, unit);
  }

  /** What writing the new base leaves in the registers of a masking device. */
  lemma WrittenValues(cfg: ConfigSpace, l: Layout, b: Bar, i: nat, base: nat)
    requires LayoutOk(l) && Masks(cfg, l) && i < BARS && GoodBase(l[i], base)
    requires b.isIO == l[i].Io? && b.is64Bits == l[i].Mem64?
    ensures Written(cfg.respond, cfg.writes, cfg.regs, b, i, base) == Moved(l, cfg.regs, i, base)
  {
    var s := l[i];
    assert SlotOk(l, i);
    HeldFlags(l, cfg.regs, i);
    NewLowLatches(s, b, cfg.regs[i], base);
    GoodBaseFacts(s, base);
    RemainderSmall(base + s.Flags(), TWO32);
    if s.Mem64? {
      DivModUnique(base, TWO32, 0, base);
      assert U32(base / TWO32) == 0;
      assert l[i + 1].Unit() == 1 && Latched(l, i + 1, 0) == 0;
    }
  }

  /** The registers with BAR `i` on a new base. */
  function Moved(l: Layout, regs: Registers, i: nat, base: nat): Registers
    requires i < BARS
  {
    var low: Registers := regs[i := U32(base + l[i].Flags())];
    if l[i].Mem64? then low[i + 1 := 0] else low
  }

  lemma MovedShowsBase(l: Layout, regs: Registers, b: Bar, i: nat, base: nat)
    requires i < BARS && GoodBase(l[i], base) && b.isIO == l[i].Io? && b.is64Bits == l[i].Mem64?
    ensures Decoded(b, Moved(l, regs, i, base), i) == base
  {
    GoodBaseFacts(l[i], base);
    RemainderSmall(base + l[i].Flags(), TWO32);
    FlagsDropOut(base, l[i].Flags(), FlagUnit(l[i]));
  }

  lemma FlagsDropOut(base: nat, f: nat, g: nat)
    requires g > 0 && f < g && base % g == 0
    ensures (base + f) - (base + f) % g == base
  {
    DivModUnique(base + f, g, base / g, f);
  }

  /** Moving one BAR keeps every register latched and every record in step with the hardware. */
  lemma MovedKeepsRecords(l: Layout, regs: Registers, bars: seq<Bar>, i: nat, base: nat)
    requires LayoutOk(l) && Holds(l, regs) && AllRecovered(l, regs, bars) && i < BARS && GoodBase(l[i], base)
    ensures Holds(l, Moved(l, regs, i, base))
    ensures AllRecovered(l, Moved(l, regs, i, base), bars[i := bars[i].(base := base)])
  {
    forall k | 0 <= k < BARS
      ensures Moved(l, regs, i, base)[k] == Latched(l, k, Moved(l, regs, i, base)[k])
      ensures Recovered(l, Moved(l, regs, i, base), k, bars[i := bars[i].(base := base)][k])
    {
      SlotAfterMove(l, regs, i, base, k);
      RecordAfterMove(l, regs, bars, i, base, k);
    }
  }

  lemma SlotAfterMove(l: Layout, regs: Registers, i: nat, base: nat, k: nat)
    requires LayoutOk(l) && Holds(l, regs) && i < BARS && GoodBase(l[i], base) && k < BARS
    ensures Moved(l, regs, i, base)[k] == Latched(l, k, Moved(l, regs, i, base)[k])
  {
    GoodBaseFacts(l[i], base);
    RemainderSmall(base + l[i].Flags(), TWO32);
    assert SlotOk(l, i);
    if k == i {
    } else if l[i].Mem64? && k == i + 1 {
      assert l[k].Unit() == 1;
    } else {
      assert Moved(l, regs, i, base)[k] == regs[k];
    }
  }

  lemma RecordAfterMove(l: Layout, regs: Registers, bars: seq<Bar>, i: nat, base: nat, k: nat)
    requires LayoutOk(l) && AllRecovered(l, regs, bars) && i < BARS && GoodBase(l[i], base) && k < BARS
    ensures Recovered(l, Moved(l, regs, i, base), k, bars[i := bars[i].(base := base)][k])
  {
    assert SlotOk(l, k) && SlotOk(l, i) && Recovered(l, regs, k, bars[k]);
    if k == i {
      GoodBaseFacts(l[i], base);
      RemainderSmall(base + l[i].Flags(), TWO32);
    } else if l[k].Mem64? {
      assert Moved(l, regs, i, base)[k] == regs[k] && Moved(l, regs, i, base)[k + 1] == regs[k + 1];
    }
  }

  // ---- the relocation loops ----

  /** The device masks BAR writes, and its records say what it implements and where. */
  ghost predicate InStep(d: Device, l: Layout)
    reads d, d.cfg
  {
    LayoutOk(l) && Masks(d.cfg, l) && AllRecovered(l, d.cfg.regs, d.bars)
  }

  /** The hole the search found lies at or below the firmware flash. */
  ghost predicate UsableHole(mm: MemoryManager) {
    mm.bumpHeap.start + mm.bumpHeap.size <= MmioHole.FLASH_START
  }

  /** The hole that the initialisation leaves is one. It starts above address 0 when firmware lists
      that address as memory of any kind. */
  lemma BootedHole(mm: MemoryManager, mcfg: seq<MmioHole.McfgEntry>)
    requires E820.WellFormed(mm.memoryMap)
    requires MmioHole.LargestFree(MmioHole.RecordAll([], MmioHole.InUse(mm.memoryMap, mcfg)),
                                  mm.bumpHeap.start, mm.bumpHeap.start + mm.bumpHeap.size)
    ensures UsableHole(mm)
    ensures E820.Covered(mm.memoryMap, 0) ==> mm.bumpHeap.start > 0
  {
    var start := mm.bumpHeap.start;
    UsedAddresses.HoleIsClear(mm.memoryMap, mcfg, start, start + mm.bumpHeap.size, start);
  }

  /** One BAR asks a hole `h`. */
  ghost function Asked(h: BumpView, b: Bar): Plan { PlanStep(Plan([], h, []), b) }

  /** A naturally aligned window of the hole, or NULL when there is no room for one, or when the
      window starts at address 0. */
  method TakeWindow(mm: MemoryManager, b: Bar) returns (p: nat)
    requires mm.Valid() && UsableHole(mm) && Movable(b) && IsPow2(b.size) && b.size < TWO64
    modifies mm, mm.bumpHeap
    ensures mm.Valid()
    ensures var h := old(mm.bumpHeap.View());
            && p == (if HasWindow(h, b) then WindowAt(h, b) else NULL)
            && mm.bumpHeap.View() == Asked(h, b).bump && mm.windows == old(mm.windows) + Asked(h, b).windows
    ensures p != NULL ==> p % b.size == 0 && p + b.size <= MmioHole.FLASH_START
  {
    ghost var s := mm.View();
    p := mm.KBumpAllocAligned(b.size, b.size);
    AskedStep(s, b, mm.View(), p);
  }

  /** One step of the arenas is one BAR that asks. */
  lemma AskedStep(s: State, b: Bar, s': State, p: nat)
    requires s.Valid() && Movable(b) && IsPow2(b.size) && b.size < TWO64
    requires Step(s, Call.BumpAllocAligned(b.size, b.size), s', p)
    ensures p == if HasWindow(s.bump, b) then WindowAt(s.bump, b) else NULL
    ensures s'.bump == Asked(s.bump, b).bump && s'.windows == s.windows + Asked(s.bump, b).windows
    ensures p != NULL ==> p % b.size == 0 && p + b.size <= s.bump.End()
  {
    BumpCall(s, b.size, s', p);
    OnlyPlace(s.bump, b, s'.bump, p, s.windows);
  }

  lemma BumpCall(s: State, size: nat, s': State, p: nat)
    requires s.Valid() && size < TWO64 && Step(s, Call.BumpAllocAligned(size, size), s', p)
    ensures s.bump.Valid() && Served(s.bump, size, size, s'.bump, p)
    ensures s'.windows == if s'.bump != s.bump then s.windows + [Span(p, p + size)] else s.windows
  {
  }

  /** What the allocator hands out is the window of the plan. */
  lemma OnlyPlace(h: BumpView, b: Bar, after: BumpView, p: nat, windows: seq<Span>)
    requires h.Valid() && Movable(b) && IsPow2(b.size) && b.size < TWO64
    requires Served(h, b.size, b.size, after, p)
    ensures p == if HasWindow(h, b) then WindowAt(h, b) else NULL
    ensures after == Asked(h, b).bump
    ensures (if after != h then windows + [Span(p, p + b.size)] else windows) == windows + Asked(h, b).windows
    ensures HasWindow(h, b) ==> h.IsPlace(b.size, b.size, p)
  {
    PlaceIsRoundedUp(h, b.size, b.size);
    if HasWindow(h, b) { assert after.next > h.next; }
  }

  /** A masking device takes back what the registers of a recorded BAR hold. */
  lemma ReadyToMove(cfg: ConfigSpace, l: Layout, bars: seq<Bar>, f: nat)
    requires LayoutOk(l) && Masks(cfg, l) && AllRecovered(l, cfg.regs, bars) && f < BARS
    ensures cfg.TakesBack(f) && (bars[f].is64Bits ==> f + 1 < BARS && cfg.TakesBack(f + 1))
  {
    MasksTakeBack(cfg, l);
    assert SlotOk(l, f) && Recovered(l, cfg.regs, f, bars[f]);
  }

  /** Remapping onto a good base succeeds and is recorded. */
  method MoveBar(d: Device, f: nat, p: nat, ghost l: Layout) returns (halted: bool)
    requires f < BARS && InStep(d, l) && d.bars[f].isValid && GoodBase(l[f], p)
    modifies d, d.cfg
    ensures !halted && InStep(d, l) && d.cfg.command == old(d.cfg.command)
    ensures d.bars == old(d.bars)[f := old(d.bars)[f].(base := p)]
  {
    ReadyToMove(d.cfg, l, d.bars, f);
    RemapWorks(d.cfg, l, d.bars, f, p);
    var remapped := d.Remap(f, p);
    halted := !remapped;
  }

  /** What the plan says about a recorded BAR. */
  lemma AskedOutcome(h: BumpView, l: Layout, regs: Registers, f: nat, b: Bar)
    requires h.Valid() && LayoutOk(l) && f < BARS && Recovered(l, regs, f, b)
    ensures |Asked(h, b).bars| == 1 && Outcome(h, b, Asked(h, b).bars[0], Asked(h, b).bump, Asked(h, b).windows)
  {
    assert SlotOk(l, f);
    StepOutcome(Plan([], h, []), b);
    assert Asked(h, b).windows[0..] == Asked(h, b).windows;
  }

  /** The body of the relocation loop. The branch that halts the kernel is never taken; record,
      hole and windows are as planned. */
  method RelocateBar(d: Device, f: nat, mm: MemoryManager, ghost l: Layout) returns (halted: bool)
    requires f < BARS && InStep(d, l) && mm.Valid() && UsableHole(mm)
    modifies d, d.cfg, mm, mm.bumpHeap
    ensures !halted && InStep(d, l) && mm.Valid() && d.cfg.command == old(d.cfg.command)
    ensures var q := Asked(old(mm.bumpHeap.View()), old(d.bars)[f]);
            && d.bars == old(d.bars)[f := q.bars[0]]
            && mm.bumpHeap.View() == q.bump && mm.windows == old(mm.windows) + q.windows
            && Outcome(old(mm.bumpHeap.View()), old(d.bars)[f], d.bars[f], mm.bumpHeap.View(), q.windows)
  {
    halted := false;
    var b := d.bars[f];
    AskedOutcome(mm.bumpHeap.View(), l, d.cfg.regs, f, b);
    assert SlotOk(l, f) && Recovered(l, d.cfg.regs, f, b);
    if !b.isValid || b.size == 0 {
      return;
    }
    var p := TakeWindow(mm, b);
    if p == NULL {
      return;
    }
    halted := MoveBar(d, f, p, l);
  }

  /** On a masking device a good base passes every check and the read-back. */
  lemma RemapWorks(cfg: ConfigSpace, l: Layout, bars: seq<Bar>, f: nat, p: nat)
    requires LayoutOk(l) && Masks(cfg, l) && AllRecovered(l, cfg.regs, bars) && f < BARS
    requires bars[f].isValid && GoodBase(l[f], p)
    ensures Moves(cfg.respond, cfg.writes, cfg.regs, bars, f, p)
    ensures Written(cfg.respond, cfg.writes, cfg.regs, bars[f], f, p) == Moved(l, cfg.regs, f, p)
    ensures Holds(l, Moved(l, cfg.regs, f, p))
    ensures AllRecovered(l, Moved(l, cfg.regs, f, p), bars[f := bars[f].(base := p)])
  {
    assert SlotOk(l, f) && Recovered(l, cfg.regs, f, bars[f]);
    GoodBaseAccepted(l[f], bars[f], p);
    WrittenValues(cfg, l, bars[f], f, p);
    MovedShowsBase(l, cfg.regs, bars[f], f, p);
    MovedKeepsRecords(l, cfg.regs, bars, f, p);
  }

  /** The loop over the BARs of a device: they end up as planned. */
  method RelocateDevice(d: Device, mm: MemoryManager, ghost l: Layout) returns (halted: bool)
    requires InStep(d, l) && mm.Valid() && UsableHole(mm)
    modifies d, d.cfg, mm, mm.bumpHeap
    ensures !halted && InStep(d, l) && mm.Valid() && d.cfg.command == old(d.cfg.command)
    ensures var q := PlanFor(old(mm.bumpHeap.View()), old(d.bars));
            d.bars == q.bars && mm.bumpHeap.View() == q.bump && mm.windows == old(mm.windows) + q.windows
    ensures AllOutcomes(old(mm.bumpHeap.View()), old(d.bars), d.bars)
  {
    halted := false;
    DeviceOutcomes(mm, l, d.cfg.regs, d.bars);
    ghost var h, bars, windows := mm.bumpHeap.View(), d.bars, mm.windows;
    for f := 0 to BARS
      invariant !halted && InStep(d, l) && mm.Valid() && d.cfg.command == old(d.cfg.command)
      invariant InProgress(h, bars, windows, f, d.bars, mm.bumpHeap.View(), mm.windows)
    {
      ghost var now, left, taken := d.bars, mm.bumpHeap.View(), mm.windows;
      halted := RelocateBar(d, f, mm, l);
      OneBarMore(h, bars, windows, f, now, left, taken, d.bars, mm.bumpHeap.View(), mm.windows);
    }
    assert bars[..BARS] == bars;
  }

  lemma DeviceOutcomes(mm: MemoryManager, l: Layout, regs: Registers, bars: seq<Bar>)
    requires mm.Valid() && LayoutOk(l) && AllRecovered(l, regs, bars)
    ensures AllOutcomes(mm.bumpHeap.View(), bars, PlanFor(mm.bumpHeap.View(), bars).bars)
  {
    assert mm.View().bump.Valid();
    RecordedSizes(l, regs, bars);
    EveryOutcome(mm.bumpHeap.View(), bars);
  }

  /** The first `f` BARs are done as planned, the others untouched. */
  ghost predicate InProgress(h: BumpView, bars: seq<Bar>, windows: seq<Span>, f: nat,
                             now: seq<Bar>, left: BumpView, taken: seq<Span>) {
    && f <= |bars| && var q := PlanFor(h, bars[..f]);
    now == q.bars + bars[f..] && left == q.bump && taken == windows + q.windows
  }

  lemma OneBarMore(h: BumpView, bars: seq<Bar>, windows: seq<Span>, f: nat,
                   now: seq<Bar>, left: BumpView, taken: seq<Span>, now': seq<Bar>, left': BumpView, taken': seq<Span>)
    requires f < |bars| == |now| && InProgress(h, bars, windows, f, now, left, taken)
    requires var q := Asked(left, now[f]);
             now' == now[f := q.bars[0]] && left' == q.bump && taken' == taken + q.windows
    ensures InProgress(h, bars, windows, f + 1, now', left', taken')
  {
    var q := PlanFor(h, bars[..f]);
    PlanSuffix(h, bars, f);
    StepIsAsked(q, bars[f]);
    UpdatedMiddle(q.bars, bars[f..], Asked(left, bars[f]).bars[0]);
    assert bars[f..][0] == bars[f] && bars[f..][1..] == bars[f + 1..];
  }

  lemma StepIsAsked(q: Plan, b: Bar)
    ensures |Asked(q.bump, b).bars| == 1
    ensures PlanStep(q, b) == Joined(q, Asked(q.bump, b))
  {
  }

  lemma UpdatedMiddle(a: seq<Bar>, b: seq<Bar>, x: Bar)
    requires b != []
    ensures (a + b)[|a|] == b[0] && (a + b)[|a| := x] == a + [x] + b[1..]
  {
  }

  // ---- all devices ----

  ghost predicate Separate(devices: seq<Device>) {
    forall i, j | 0 <= i < |devices| && 0 <= j < |devices| && i != j ::
      devices[i] != devices[j] && devices[i].cfg != devices[j].cfg
  }

  ghost predicate AllInStep(devices: seq<Device>, layouts: seq<Layout>)
    requires |devices| == |layouts|
    reads set d: Device | d in devices
    reads set d: Device | d in devices :: d.cfg
  {
    forall k | 0 <= k < |devices| :: InStep(devices[k], layouts[k])
  }

  /** The records of all devices. */
  function BarsOf(devices: seq<Device>): seq<seq<Bar>>
    reads set d: Device | d in devices
  {
    seq(|devices|, i requires 0 <= i < |devices| reads set d: Device | d in devices => devices[i].bars)
  }

  /** In the order of the loops. */
  function Flat(bs: seq<seq<Bar>>): seq<Bar> {
    if bs == [] then [] else Flat(bs[..|bs| - 1]) + bs[|bs| - 1]
  }

  /** Moves the BARs of every device into the hole. The kernel never halts here; every record stays
      in step with its hardware; all BARs, the hole and the windows are as planned. */
  method RelocateAll(devices: seq<Device>, mm: MemoryManager, ghost layouts: seq<Layout>) returns (halted: bool)
    requires Separate(devices) && |layouts| == |devices| && mm.Valid() && UsableHole(mm) && AllInStep(devices, layouts)
    modifies set d: Device | d in devices
    modifies set d: Device | d in devices :: d.cfg
    modifies mm, mm.bumpHeap
    ensures !halted && mm.Valid() && AllInStep(devices, layouts)
    ensures var q := PlanFor(old(mm.bumpHeap.View()), Flat(old(BarsOf(devices))));
            && Flat(BarsOf(devices)) == q.bars
            && mm.bumpHeap.View() == q.bump && mm.windows == old(mm.windows) + q.windows
    ensures AllOutcomes(old(mm.bumpHeap.View()), Flat(old(BarsOf(devices))), Flat(BarsOf(devices)))
  {
    halted := false;
    ghost var h, was, windows := mm.bumpHeap.View(), BarsOf(devices), mm.windows;
    assert mm.View().bump.Valid();
    SizesInStep(devices, layouts);
    EveryOutcome(h, Flat(was));
    for i := 0 to |devices|
      invariant !halted && mm.Valid() && AllInStep(devices, layouts)
      invariant DevicesInProgress(h, was, windows, i, BarsOf(devices), mm.bumpHeap.View(), mm.windows)
    {
      ghost var now, left, taken := BarsOf(devices), mm.bumpHeap.View(), mm.windows;
      halted := RelocateIth(devices, i, mm, layouts);
      OneDeviceMore(h, was, windows, i, now, left, taken, BarsOf(devices), mm.bumpHeap.View(), mm.windows);
    }
    assert was[..|devices|] == was && BarsOf(devices)[..|devices|] == BarsOf(devices);
  }

  /** BAR `f` of device `i` is number `6 * i + f` of all. */
  lemma {:induction false} FlatAt(bs: seq<seq<Bar>>, i: nat, f: nat)
    requires (forall k | 0 <= k < |bs| :: |bs[k]| == 6) && i < |bs| && f < 6
    ensures |Flat(bs)| == 6 * |bs| && Flat(bs)[6 * i + f] == bs[i][f]
  {
    var front := bs[..|bs| - 1];
    if i < |front| {
      FlatAt(front, i, f);
    } else {
      FlatLength(front);
    }
  }

  lemma {:induction false} FlatLength(bs: seq<seq<Bar>>)
    requires forall k | 0 <= k < |bs| :: |bs[k]| == 6
    ensures |Flat(bs)| == 6 * |bs|
  {
    if bs != [] { FlatLength(bs[..|bs| - 1]); }
  }

  /** Each BAR became what its turn made of it. */
  ghost predicate AllOutcomes(h: BumpView, bars: seq<Bar>, after: seq<Bar>) {
    |after| == |bars| && forall i | 0 <= i < |bars| :: TurnOutcome(h, bars, i, after[i])
  }

  lemma EveryOutcome(h: BumpView, bars: seq<Bar>)
    requires h.Valid() && SizesOk(bars)
    ensures AllOutcomes(h, bars, PlanFor(h, bars).bars)
  {
    forall i | 0 <= i < |bars|
      ensures TurnOutcome(h, bars, i, PlanFor(h, bars).bars[i])
    {
      BarOutcome(h, bars, i);
    }
  }

  lemma SizesInStep(devices: seq<Device>, layouts: seq<Layout>)
    requires |devices| == |layouts| && AllInStep(devices, layouts)
    ensures SizesOk(Flat(BarsOf(devices)))
  {
    forall k | 0 <= k < |devices|
      ensures SizesOk(BarsOf(devices)[k])
    {
      assert InStep(devices[k], layouts[k]);
      RecordedSizes(layouts[k], devices[k].cfg.regs, devices[k].bars);
    }
    FlatSizes(BarsOf(devices));
  }

  lemma RecordedSizes(l: Layout, regs: Registers, bars: seq<Bar>)
    requires LayoutOk(l) && AllRecovered(l, regs, bars)
    ensures SizesOk(bars)
  {
    forall f | 0 <= f < |bars| && bars[f].isValid && bars[f].size > 0
      ensures IsPow2(bars[f].size) && bars[f].size < TWO64
    {
      assert SlotOk(l, f) && Recovered(l, regs, f, bars[f]);
    }
  }

  lemma {:induction false} FlatSizes(bs: seq<seq<Bar>>)
    requires forall k | 0 <= k < |bs| :: SizesOk(bs[k])
    ensures SizesOk(Flat(bs))
  {
    if bs != [] {
      FlatSizes(bs[..|bs| - 1]);
      assert SizesOk(bs[|bs| - 1]);
    }
  }

  /** The body of the outer loop. */
  method RelocateIth(devices: seq<Device>, i: nat, mm: MemoryManager, ghost layouts: seq<Layout>) returns (halted: bool)
    requires Separate(devices) && i < |devices| == |layouts| && mm.Valid() && UsableHole(mm)
      && AllInStep(devices, layouts)
    modifies devices[i], devices[i].cfg, mm, mm.bumpHeap
    ensures !halted && mm.Valid() && AllInStep(devices, layouts)
    ensures var q := PlanFor(old(mm.bumpHeap.View()), old(devices[i].bars));
            && BarsOf(devices) == old(BarsOf(devices))[i := q.bars]
            && mm.bumpHeap.View() == q.bump && mm.windows == old(mm.windows) + q.windows
  {
    halted := RelocateDevice(devices[i], mm, layouts[i]);
  }

  /** The first `i` devices are done as planned, the others untouched. */
  ghost predicate DevicesInProgress(h: BumpView, was: seq<seq<Bar>>, windows: seq<Span>, i: nat,
                                    now: seq<seq<Bar>>, left: BumpView, taken: seq<Span>) {
    && i <= |was| == |now| && now[i..] == was[i..] && var q := PlanFor(h, Flat(was[..i]));
    Flat(now[..i]) == q.bars && left == q.bump && taken == windows + q.windows
  }

  lemma FlatNext(bs: seq<seq<Bar>>, i: nat)
    requires i < |bs|
    ensures Flat(bs[..i + 1]) == Flat(bs[..i]) + bs[i]
  {
    assert bs[..i + 1][..i] == bs[..i];
  }

  lemma OneDeviceMore(h: BumpView, was: seq<seq<Bar>>, windows: seq<Span>, i: nat, now: seq<seq<Bar>>, left: BumpView,
                      taken: seq<Span>, now': seq<seq<Bar>>, left': BumpView, taken': seq<Span>)
    requires i < |was| && DevicesInProgress(h, was, windows, i, now, left, taken)
    requires var q := PlanFor(left, now[i]);
             now' == now[i := q.bars] && left' == q.bump && taken' == taken + q.windows
    ensures DevicesInProgress(h, was, windows, i + 1, now', left', taken')
  {
    FlatNext(was, i);
    FlatNext(now', i);
    PlanConcat(h, Flat(was[..i]), was[i]);
    assert now[i] == now[i..][0] == was[i];
    assert now'[..i] == now[..i];
    assert now'[i + 1..] == now[i..][1..] && was[i + 1..] == was[i..][1..];
  }

  /** The hole of a memory manager is clear of the ranges recorded for `m` and `mcfg`. */
  ghost predicate HoleOf(s: State, m: E820.MemoryMap, mcfg: seq<MmioHole.McfgEntry>) {
    MmioHole.Free(MmioHole.RecordAll([], MmioHole.InUse(m, mcfg)), s.bump.start, s.bump.End())
  }

  /** No address of a window is memory of any kind or a fixed device, nor (as long as the range array
      had room) a configuration register on a listed bus; and no two windows share an address. */
  lemma WindowsAreClear(s: State, m: E820.MemoryMap, mcfg: seq<MmioHole.McfgEntry>, k: nat, x: nat)
    requires s.Valid() && E820.WellFormed(m) && HoleOf(s, m, mcfg)
    requires k < |s.windows| && s.windows[k].from <= x < s.windows[k].to
    ensures x < MmioHole.FLASH_START && !E820.Covered(m, x) && !MmioHole.FixedDevice(x)
    ensures EntriesOk(mcfg) && AllRecorded(m, mcfg) ==>
              forall i, bus: nat, d: nat, f: nat, o: nat |
                0 <= i < |mcfg| && mcfg[i].startBus <= bus <= mcfg[i].endBus && d < 32 && f < 8 && o < 0x1000 ::
                x != ConfigAddr(mcfg[i].baseAddress, bus, d, f, o)
    ensures forall j | 0 <= j < |s.windows| && j != k :: !(s.windows[j].from <= x < s.windows[j].to)
  {
    UsedAddresses.HoleIsClear(m, mcfg, s.bump.start, s.bump.End(), x);
    if EntriesOk(mcfg) && AllRecorded(m, mcfg) {
      forall i, bus: nat, d: nat, f: nat, o: nat |
        0 <= i < |mcfg| && mcfg[i].startBus <= bus <= mcfg[i].endBus && d < 32 && f < 8 && o < 0x1000
        ensures x != ConfigAddr(mcfg[i].baseAddress, bus, d, f, o)
      {
        NoRegisterInHole(m, mcfg, s.bump.start, s.bump.End(), i, bus, d, f, o);
      }
    }
    forall j | 0 <= j < |s.windows| && j != k
      ensures !(s.windows[j].from <= x < s.windows[j].to)
    {
      LiveBlocksApart(s, Window(j), Window(k));
    }
  }
}
