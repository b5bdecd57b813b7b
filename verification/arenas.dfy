/** The three arenas of the kernel as one state machine: the root heap, the low heap and the
    MMIO hole, and every block they have handed out. */
module Arenas {
  import opened Words
  import opened BlockTable
  import opened Allocator
  import opened BumpAllocator

  const HEADER_BYTES: nat := 32   // sizeof(heap_t)
  const ENTRY_BYTES: nat := 12    // sizeof(allocation_t)

  /** The addresses `[from, to)`. */
  datatype Span = Span(from: nat, to: nat) {
    predicate Within(s: Span) { s.from <= from && to <= s.to }
  }

  predicate Apart(s: Span, t: Span) { s.to <= t.from || t.to <= s.from }

  /** Sizes in bytes, rounded up to blocks. */
  function Rounded(sizes: map<nat, nat>, blockSize: nat): map<nat, nat>
    requires blockSize > 0
  {
    map s | s in sizes :: CeilDiv(sizes[s], blockSize)
  }

  /** A heap with the address of its header and the size asked for by each live allocation,
      by start block. */
  datatype Arena = Arena(at: nat, heap: HeapView, sizes: map<nat, nat>) {

    /** Header, table and padding. */
    function Bookkeeping(): Span { Span(at, heap.startAddr) }

    function Data(): Span { Span(heap.startAddr, heap.AddrOf(|heap.table|)) }

    function Whole(): Span { Span(at, heap.AddrOf(|heap.table|)) }

    ghost function BlockSpan(s: nat): Span
      requires s in Runs(heap.table)
    {
      Span(heap.AddrOf(s), heap.AddrOf(s + Runs(heap.table)[s]))
    }

    /** The live runs are exactly the allocations on record, each as long as its size rounds to. */
    ghost predicate Accounts()
      requires heap.blockSize > 0
    {
      Runs(heap.table) == Rounded(sizes, heap.blockSize)
    }

    ghost predicate Valid() {
      && heap.Valid()
      && at + HEADER_BYTES + ENTRY_BYTES * |heap.table| <= heap.startAddr
      && Whole().to <= FOUR_GIB
      && Accounts()
    }
  }

  /** A live block: where it comes from and which one it is. */
  datatype Owner = RootRun(start: nat) | LowRun(start: nat) | Window(index: nat)

  datatype State = State(root: Arena, low: Arena, bump: BumpView, windows: seq<Span>) {

    function Hole(): Span { Span(bump.start, bump.End()) }

    ghost predicate WindowsInOrder() {
      && (forall i | 0 <= i < |windows| :: bump.start <= windows[i].from < windows[i].to <= bump.next)
      && (forall i, j | 0 <= i < j < |windows| :: windows[i].to <= windows[j].from)
    }

    ghost predicate Valid() {
      && root.Valid() && low.Valid() && bump.Valid() && WindowsInOrder()
      && Apart(root.Whole(), low.Whole())
      && Apart(root.Whole(), Hole())
      && Apart(low.Whole(), Hole())
    }

    ghost predicate Live(o: Owner) {
      match o
      case RootRun(s) => s in Runs(root.heap.table)
      case LowRun(s) => s in Runs(low.heap.table)
      case Window(i) => i < |windows|
    }

    ghost function SpanOf(o: Owner): Span
      requires Live(o)
    {
      match o
      case RootRun(s) => root.BlockSpan(s)
      case LowRun(s) => low.BlockSpan(s)
      case Window(i) => windows[i]
    }

    /** All that belongs to the arena of `o`, header and table included. */
    function WholeOf(o: Owner): Span {
      match o
      case RootRun(_) => root.Whole()
      case LowRun(_) => low.Whole()
      case Window(_) => Hole()
    }

    function ArenaOf(o: Owner): Span {
      match o
      case RootRun(_) => root.Data()
      case LowRun(_) => low.Data()
      case Window(_) => Hole()
    }
  }

  /** A call, with its arguments. */
  datatype Call =
    | Kalloc(size: nat)
    | KallocAligned(size: nat, align: nat)
    | Kfree(ptr: nat)
    | LowKalloc(size: nat)
    | LowKallocAligned(size: nat, align: nat)
    | LowKfree(ptr: nat)
    | BumpAlloc(size: nat)
    | BumpAllocAligned(size: nat, align: nat)

  /** What a caller owes: sizes that do not wrap, a fit for the plain allocator (whose scan has no
      bound of its own), and frees of live blocks only. */
  ghost predicate Admissible(s: State, c: Call)
    requires s.Valid()
  {
    match c
    case Kalloc(size) => PlainRequest(s.root.heap, size)
    case KallocAligned(size, align) => size <= TWO64 - s.root.heap.blockSize && align < TWO64
    case Kfree(ptr) => ptr == NULL || s.root.heap.Live(ptr)
    case LowKalloc(size) => PlainRequest(s.low.heap, size)
    case LowKallocAligned(size, align) => size <= TWO64 - s.low.heap.blockSize && align < TWO64
    case LowKfree(ptr) => ptr == NULL || s.low.heap.Live(ptr)
    case BumpAlloc(size) => size < TWO64
    case BumpAllocAligned(size, align) => size < TWO64 && align < TWO64
  }

  ghost predicate PlainRequest(h: HeapView, size: nat)
    requires h.Valid()
  {
    size <= TWO64 - h.blockSize && (size > 0 ==> HasRoom(h.table, Needed(size, h.blockSize)))
  }

  ghost predicate Took(a: Arena, size: nat, f: Option<nat>, a': Arena, p: nat)
    requires a.heap.Valid()
  {
    && p == a.heap.Place(f)
    && a' == a.(heap := a.heap.After(f, Needed(size, a.heap.blockSize)),
                sizes := if f.Some? then a.sizes[f.value := size] else a.sizes)
  }

  ghost predicate AllocStep(a: Arena, size: nat, a': Arena, p: nat)
    requires a.heap.Valid()
  {
    if size == 0 then p == NULL && a' == a
    else Took(a, size, FirstFit(a.heap.table, |a.heap.table|, Needed(size, a.heap.blockSize)), a', p)
  }

  ghost predicate AlignedStep(a: Arena, size: nat, align: nat, a': Arena, p: nat)
    requires a.heap.Valid()
  {
    if size == 0 || !IsPow2(Max(align, 1)) then p == NULL && a' == a
    else
      var n := Needed(size, a.heap.blockSize);
      Took(a, size, FirstAligned(a.heap.table, a.heap.startAddr, a.heap.blockSize, n, Max(align, 1)), a', p)
  }

  ghost predicate FreeStep(a: Arena, ptr: nat, a': Arena)
    requires a.heap.Valid() && (ptr == NULL || a.heap.Live(ptr))
  {
    if ptr == NULL then a' == a
    else
      var b := a.heap.BlockOf(ptr);
      b < |a.heap.table| && a' == a.(heap := a.heap.Without(b), sizes := a.sizes - {b})
  }

  ghost predicate BumpStep(s: State, size: nat, align: nat, s': State, p: nat) {
    && Served(s.bump, size, align, s'.bump, p)
    && s' == s.(bump := s'.bump,
                windows := if s'.bump != s.bump then s.windows + [Span(p, p + size)] else s.windows)
  }

  /** Call `c` takes state `s` to `s'` and returns `p`. */
  ghost predicate Step(s: State, c: Call, s': State, p: nat)
    requires s.Valid() && Admissible(s, c)
  {
    match c
    case Kalloc(size) => AllocStep(s.root, size, s'.root, p) && s' == s.(root := s'.root)
    case KallocAligned(size, align) => AlignedStep(s.root, size, align, s'.root, p) && s' == s.(root := s'.root)
    case Kfree(ptr) => FreeStep(s.root, ptr, s'.root) && s' == s.(root := s'.root)
    case LowKalloc(size) => AllocStep(s.low, size, s'.low, p) && s' == s.(low := s'.low)
    case LowKallocAligned(size, align) => AlignedStep(s.low, size, align, s'.low, p) && s' == s.(low := s'.low)
    case LowKfree(ptr) => FreeStep(s.low, ptr, s'.low) && s' == s.(low := s'.low)
    case BumpAlloc(size) => BumpStep(s, size, 1, s', p)
    case BumpAllocAligned(size, align) => BumpStep(s, size, align, s', p)
  }

  // ---- every step keeps the invariant ----

  lemma TookKeepsValid(a: Arena, size: nat, f: Option<nat>, a': Arena, p: nat)
    requires a.Valid() && 0 < size <= TWO64 - a.heap.blockSize && Took(a, size, f, a', p)
    requires f.Some? ==> RunFree(a.heap.table, f.value, Needed(size, a.heap.blockSize))
    ensures a'.Valid() && a'.at == a.at && a'.Whole() == a.Whole()
  {
    var n := Needed(size, a.heap.blockSize);
    NeededIsCeilUnlessItWraps(size, a.heap.blockSize);
    a.heap.AfterRefines(f, n);
    if f.Some? { assert Rounded(a'.sizes, a.heap.blockSize) == Rounded(a.sizes, a.heap.blockSize)[f.value := n]; }
  }

  lemma FreeKeepsValid(a: Arena, ptr: nat, a': Arena)
    requires a.Valid() && (ptr == NULL || a.heap.Live(ptr)) && FreeStep(a, ptr, a')
    ensures a'.Valid() && a'.at == a.at && a'.Whole() == a.Whole()
  {
    if ptr != NULL {
      var b := a.heap.BlockOf(ptr);
      a.heap.WithoutRefines(b);
      assert Rounded(a'.sizes, a.heap.blockSize) == Rounded(a.sizes, a.heap.blockSize) - {b};
    }
  }

  lemma BumpKeepsWindows(s: State, size: nat, align: nat, s': State, p: nat)
    requires s.bump.Valid() && s.WindowsInOrder() && BumpStep(s, size, align, s', p)
    ensures s'.bump.Valid() && s'.WindowsInOrder() && s'.Hole() == s.Hole()
  {
    if s'.bump != s.bump {
      var n := |s.windows|;
      assert s'.windows[n] == Span(p, p + size);
      assert forall i | 0 <= i < n :: s'.windows[i] == s.windows[i];
    }
  }

  /** A heap that keeps its place and stays valid leaves the whole valid. */
  lemma ReplaceKeepsValid(s: State, a: Arena)
    requires s.Valid() && a.Valid()
    ensures a.at == s.root.at && a.Whole() == s.root.Whole() ==> s.(root := a).Valid()
    ensures a.at == s.low.at && a.Whole() == s.low.Whole() ==> s.(low := a).Valid()
  {
  }

  lemma StepKeepsValid(s: State, c: Call, s': State, p: nat)
    requires s.Valid() && Admissible(s, c) && Step(s, c, s', p)
    ensures s'.Valid()
  {
    match c
    case Kalloc(size) => AllocKeepsValid(s.root, size, s'.root, p); ReplaceKeepsValid(s, s'.root);
    case KallocAligned(size, align) =>
      AlignedKeepsValid(s.root, size, align, s'.root, p);
      ReplaceKeepsValid(s, s'.root);
    case Kfree(ptr) => FreeKeepsValid(s.root, ptr, s'.root); ReplaceKeepsValid(s, s'.root);
    case LowKalloc(size) => AllocKeepsValid(s.low, size, s'.low, p); ReplaceKeepsValid(s, s'.low);
    case LowKallocAligned(size, align) =>
      AlignedKeepsValid(s.low, size, align, s'.low, p);
      ReplaceKeepsValid(s, s'.low);
    case LowKfree(ptr) => FreeKeepsValid(s.low, ptr, s'.low); ReplaceKeepsValid(s, s'.low);
    case BumpAlloc(size) => BumpKeepsWindows(s, size, 1, s', p);
    case BumpAllocAligned(size, align) => BumpKeepsWindows(s, size, align, s', p);
  }

  lemma AllocKeepsValid(a: Arena, size: nat, a': Arena, p: nat)
    requires a.Valid() && PlainRequest(a.heap, size) && AllocStep(a, size, a', p)
    ensures a'.Valid() && a'.at == a.at && a'.Whole() == a.Whole()
  {
    if size > 0 {
      TookKeepsValid(a, size, FirstFit(a.heap.table, |a.heap.table|, Needed(size, a.heap.blockSize)), a', p);
    }
  }

  lemma AlignedKeepsValid(a: Arena, size: nat, align: nat, a': Arena, p: nat)
    requires a.Valid() && size <= TWO64 - a.heap.blockSize && AlignedStep(a, size, align, a', p)
    ensures a'.Valid() && a'.at == a.at && a'.Whole() == a.Whole()
  {
    if size > 0 && IsPow2(Max(align, 1)) {
      var n := Needed(size, a.heap.blockSize);
      TookKeepsValid(a, size, FirstAligned(a.heap.table, a.heap.startAddr, a.heap.blockSize, n, Max(align, 1)), a', p);
    }
  }

  // ---- what the invariant means for the blocks in use ----

  lemma AddrOrder(h: HeapView, i: nat, j: nat)
    requires i <= j
    ensures h.AddrOf(i) <= h.AddrOf(j)
    ensures i < j && h.blockSize > 0 ==> h.AddrOf(i) < h.AddrOf(j)
  {
    MulMonotone(i, j, h.blockSize);
    if i < j { MulMonotone(i + 1, j, h.blockSize); }
  }

  lemma BlockSpanInside(a: Arena, s: nat)
    requires a.Valid() && s in Runs(a.heap.table)
    ensures a.BlockSpan(s).Within(a.Data()) && a.BlockSpan(s).from < a.BlockSpan(s).to
  {
    RunStart(a.heap.table, s);
    var e := s + Runs(a.heap.table)[s];
    AddrOrder(a.heap, 0, s);
    AddrOrder(a.heap, s, e);
    AddrOrder(a.heap, e, |a.heap.table|);
  }

  lemma BlockSpansOrdered(a: Arena, s: nat, t: nat)
    requires a.Valid() && s in Runs(a.heap.table) && t in Runs(a.heap.table) && s != t
    ensures Apart(a.BlockSpan(s), a.BlockSpan(t))
  {
    var runs := Runs(a.heap.table);
    if s < t {
      RunsDisjoint(a.heap.table, s, t);
      AddrOrder(a.heap, s + runs[s], t);
    } else {
      RunsDisjoint(a.heap.table, t, s);
      AddrOrder(a.heap, t + runs[t], s);
    }
  }

  /** Where a live block lies: non-empty, inside its arena, below 4 GiB, clear of both headers
      and tables. */
  ghost predicate WellPlaced(s: State, o: Owner)
    requires s.Live(o)
  {
    var b := s.SpanOf(o);
    && b.from < b.to <= FOUR_GIB && b.Within(s.ArenaOf(o))
    && Apart(b, s.root.Bookkeeping()) && Apart(b, s.low.Bookkeeping())
  }

  lemma LiveBlockInArena(s: State, o: Owner)
    requires s.Valid() && s.Live(o)
    ensures s.SpanOf(o).from < s.SpanOf(o).to && s.SpanOf(o).Within(s.ArenaOf(o))
  {
    match o
    case RootRun(r) => BlockSpanInside(s.root, r);
    case LowRun(r) => BlockSpanInside(s.low, r);
    case Window(i) =>
  }

  lemma LiveBlockPlaced(s: State, o: Owner)
    requires s.Valid() && s.Live(o)
    ensures WellPlaced(s, o)
  {
    LiveBlockInArena(s, o);
    AddrOrder(s.root.heap, 0, |s.root.heap.table|);
    AddrOrder(s.low.heap, 0, |s.low.heap.table|);
    assert s.ArenaOf(o).to <= FOUR_GIB;
    assert Apart(s.ArenaOf(o), s.root.Bookkeeping()) && Apart(s.ArenaOf(o), s.low.Bookkeeping());
  }

  /** No two live blocks share an address. */
  lemma LiveBlocksApart(s: State, o: Owner, q: Owner)
    requires s.Valid() && s.Live(o) && s.Live(q) && o != q
    ensures Apart(s.SpanOf(o), s.SpanOf(q))
  {
    LiveBlockInArena(s, o);
    LiveBlockInArena(s, q);
    AddrOrder(s.root.heap, 0, |s.root.heap.table|);
    AddrOrder(s.low.heap, 0, |s.low.heap.table|);
    match (o, q)
    case (RootRun(a), RootRun(b)) => BlockSpansOrdered(s.root, a, b);
    case (LowRun(a), LowRun(b)) => BlockSpansOrdered(s.low, a, b);
    case _ =>
  }

  /** A run: states, the call that leads from each to the next, and what it returned. */
  ghost predicate IsRun(states: seq<State>, calls: seq<Call>, results: seq<nat>) {
    && |states| == |calls| + 1 && |results| == |calls|
    && states[0].Valid()
    && forall i | 0 <= i < |calls| :: StepAt(states, calls, results, i)
  }

  ghost predicate StepAt(states: seq<State>, calls: seq<Call>, results: seq<nat>, i: nat)
    requires |states| == |calls| + 1 && |results| == |calls| && i < |calls|
  {
    states[i].Valid() ==> Admissible(states[i], calls[i]) && Step(states[i], calls[i], states[i + 1], results[i])
  }

  lemma {:induction false} RunKeepsValid(states: seq<State>, calls: seq<Call>, results: seq<nat>, i: nat)
    requires IsRun(states, calls, results) && i <= |calls|
    ensures states[i].Valid()
  {
    if i > 0 {
      RunKeepsValid(states, calls, results, i - 1);
      assert StepAt(states, calls, results, i - 1);
      StepKeepsValid(states[i - 1], calls[i - 1], states[i], results[i - 1]);
    }
  }

  /** The three arenas lie where they lay. */
  predicate SamePlaces(s: State, s': State) {
    s'.root.Whole() == s.root.Whole() && s'.low.Whole() == s.low.Whole() && s'.Hole() == s.Hole()
  }

  lemma StepKeepsPlaces(s: State, c: Call, s': State, p: nat)
    requires s.Valid() && Admissible(s, c) && Step(s, c, s', p)
    ensures SamePlaces(s, s')
  {
    match c
    case Kalloc(size) => AllocKeepsValid(s.root, size, s'.root, p);
    case KallocAligned(size, align) => AlignedKeepsValid(s.root, size, align, s'.root, p);
    case Kfree(ptr) => FreeKeepsValid(s.root, ptr, s'.root);
    case LowKalloc(size) => AllocKeepsValid(s.low, size, s'.low, p);
    case LowKallocAligned(size, align) => AlignedKeepsValid(s.low, size, align, s'.low, p);
    case LowKfree(ptr) => FreeKeepsValid(s.low, ptr, s'.low);
    case BumpAlloc(size) => BumpKeepsWindows(s, size, 1, s', p);
    case BumpAllocAligned(size, align) => BumpKeepsWindows(s, size, align, s', p);
  }

  lemma {:induction false} RunKeepsPlaces(states: seq<State>, calls: seq<Call>, results: seq<nat>, i: nat)
    requires IsRun(states, calls, results) && i <= |calls|
    ensures SamePlaces(states[0], states[i])
  {
    if i > 0 {
      RunKeepsPlaces(states, calls, results, i - 1);
      RunKeepsValid(states, calls, results, i - 1);
      assert StepAt(states, calls, results, i - 1);
      StepKeepsPlaces(states[i - 1], calls[i - 1], states[i], results[i - 1]);
    }
  }

  /** `guard` lies outside all three arenas. */
  predicate ClearOf(s: State, guard: Span) {
    Apart(s.root.Whole(), guard) && Apart(s.low.Whole(), guard) && Apart(s.Hole(), guard)
  }

  /** What an arena does not cover at the start, none of its blocks covers at any point of any run. */
  lemma NoBlockOver(states: seq<State>, calls: seq<Call>, results: seq<nat>, i: nat, o: Owner, guard: Span, x: nat)
    requires IsRun(states, calls, results) && i <= |calls| && Apart(states[0].WholeOf(o), guard)
    requires states[i].Live(o) && states[i].SpanOf(o).from <= x < states[i].SpanOf(o).to
    ensures x < FOUR_GIB && !(guard.from <= x < guard.to)
  {
    RunKeepsPlaces(states, calls, results, i);
    RunKeepsValid(states, calls, results, i);
    LiveBlockPlaced(states[i], o);
    assert states[i].ArenaOf(o).Within(states[i].WholeOf(o));
  }

  /** The blocks marked in the table are the sizes on record, rounded up to blocks and summed. */
  ghost predicate BlocksOnRecord(a: Arena)
    requires a.heap.blockSize > 0
  {
    TakenCount(a.heap.table) == Total(Rounded(a.sizes, a.heap.blockSize))
  }

  ghost predicate AllWellPlaced(s: State) {
    forall o | s.Live(o) :: WellPlaced(s, o)
  }

  ghost predicate AllApart(s: State) {
    forall o, q | s.Live(o) && s.Live(q) && o != q :: Apart(s.SpanOf(o), s.SpanOf(q))
  }

  lemma LiveBlocksWellPlaced(s: State)
    requires s.Valid()
    ensures AllWellPlaced(s)
  {
    forall o | s.Live(o)
      ensures WellPlaced(s, o)
    {
      LiveBlockPlaced(s, o);
    }
  }

  lemma LiveBlocksAllApart(s: State)
    requires s.Valid()
    ensures AllApart(s)
  {
    forall o, q | s.Live(o) && s.Live(q) && o != q
      ensures Apart(s.SpanOf(o), s.SpanOf(q))
    {
      LiveBlocksApart(s, o, q);
    }
  }

  lemma RecordsAddUp(a: Arena)
    requires a.Valid()
    ensures BlocksOnRecord(a)
  {
    TakenIsTotal(a.heap.table);
  }

  /** Live blocks are well placed and pairwise disjoint, and no block is marked without need. */
  ghost predicate Safe(s: State)
    requires s.root.heap.blockSize > 0 && s.low.heap.blockSize > 0
  {
    AllWellPlaced(s) && AllApart(s) && BlocksOnRecord(s.root) && BlocksOnRecord(s.low)
  }

  lemma ValidIsSafe(s: State)
    requires s.Valid()
    ensures Safe(s)
  {
    LiveBlocksWellPlaced(s);
    LiveBlocksAllApart(s);
    RecordsAddUp(s.root);
    RecordsAddUp(s.low);
  }

  /** Every point of every run is safe. */
  lemma EveryRunIsSafe(states: seq<State>, calls: seq<Call>, results: seq<nat>, i: nat)
    requires IsRun(states, calls, results) && i <= |calls|
    ensures states[i].Valid() && Safe(states[i])
  {
    RunKeepsValid(states, calls, results, i);
    ValidIsSafe(states[i]);
  }
}
