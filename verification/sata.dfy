/** DMA structures of a SATA port: where they are placed on the low heap, and why the 32-bit
    address registers of the controller can hold them. */
module Sata {
  import opened Words
  import opened BlockTable
  import opened Allocator
  import opened Arenas
  import opened MemoryManagement

  const CMD_LIST_BYTES: nat := 1024
  const FIS_BYTES: nat := 256
  const POINTER_BYTES: nat := 8
  const CMD_TABLE_BYTES: nat := 144   // sizeof(HBA_CMD_TABLE_t)
  const CMD_LIST_ALIGN: nat := 1024
  const FIS_ALIGN: nat := 256
  const CMD_TABLE_ALIGN: nat := 128
  const DMA_BYTES: nat := 512
  const MAX_SLOTS: nat := 32

  // ---- pieces of the low heap ----

  /** A structure of `bytes` bytes at `at`. */
  datatype Piece = Piece(at: nat, bytes: nat, align: nat) {
    function Bytes(): Span { Span(at, at + bytes) }
  }

  /** The heap lies below 4 GiB, in blocks of 512 bytes. */
  ghost predicate LowHeap(h: HeapView) {
    h.Valid() && h.blockSize == 512 && h.AddrOf(|h.table|) <= FOUR_GIB
  }

  /** The low heap that the initialisation sets up is one, and stays one. */
  lemma BootedLowHeap(mm: MemoryManager)
    requires mm.Valid() && mm.lowHeap.blockSize == BLOCK_SIZE
    ensures mm.lowHeap.Valid() && LowHeap(mm.lowHeap.View())
  {
    assert mm.View().low.Valid();
  }

  ghost predicate Owned(h: HeapView, p: Piece)
    requires h.Valid()
  {
    && 0 < p.bytes <= FOUR_GIB && p.align > 0 && p.at % p.align == 0
    && h.Live(p.at) && Runs(h.table)[h.BlockOf(p.at)] == Needed(p.bytes, h.blockSize)
  }

  /** The pieces are live blocks of the heap, all different. */
  ghost predicate OwnsAll(h: HeapView, pieces: seq<Piece>)
    requires h.Valid()
  {
    && (forall i | 0 <= i < |pieces| :: Owned(h, pieces[i]))
    && (forall i, j | 0 <= i < j < |pieces| :: pieces[i].at != pieces[j].at)
  }

  /** A piece lies inside its run. */
  lemma PieceInRun(h: HeapView, p: Piece)
    requires LowHeap(h) && Owned(h, p)
    ensures var b := h.BlockOf(p.at);
            && b in Runs(h.table) && b + Runs(h.table)[b] <= |h.table|
            && p.at == h.AddrOf(b) && p.at + p.bytes <= h.AddrOf(b + Runs(h.table)[b])
  {
    NeededIsCeilUnlessItWraps(p.bytes, h.blockSize);
    CeilDivBounds(p.bytes, h.blockSize);
    RunStart(h.table, h.BlockOf(p.at));
  }

  /** Pieces of the low heap share no byte and lie below 4 GiB, so a 32-bit register holds their
      addresses unchanged. */
  lemma PiecesApart(h: HeapView, pieces: seq<Piece>, i: nat, j: nat)
    requires LowHeap(h) && OwnsAll(h, pieces) && i < |pieces| && j < |pieces|
    ensures pieces[i].at + pieces[i].bytes <= FOUR_GIB && U32(pieces[i].at) == pieces[i].at
    ensures i != j ==> Apart(pieces[i].Bytes(), pieces[j].Bytes())
  {
    PieceBelow4GiB(h, pieces[i]);
    if i != j {
      var first, last := if i < j then i else j, if i < j then j else i;
      assert pieces[first].at != pieces[last].at;
      TwoPiecesApart(h, pieces[i], pieces[j]);
    }
  }

  lemma PieceBelow4GiB(h: HeapView, p: Piece)
    requires LowHeap(h) && Owned(h, p)
    ensures p.at + p.bytes <= FOUR_GIB && U32(p.at) == p.at
  {
    PieceInRun(h, p);
    var b := h.BlockOf(p.at);
    AddrOrder(h, b + Runs(h.table)[b], |h.table|);
    RemainderSmall(p.at, TWO32);
  }

  lemma TwoPiecesApart(h: HeapView, p: Piece, q: Piece)
    requires LowHeap(h) && Owned(h, p) && Owned(h, q) && p.at != q.at
    ensures Apart(p.Bytes(), q.Bytes())
  {
    PieceInRun(h, p);
    PieceInRun(h, q);
    var a, b := h.BlockOf(p.at), h.BlockOf(q.at);
    if a < b {
      RunsDisjoint(h.table, a, b);
      AddrOrder(h, a + Runs(h.table)[a], b);
    } else {
      RunsDisjoint(h.table, b, a);
      AddrOrder(h, b + Runs(h.table)[b], a);
    }
  }

  /** A new run leaves the old pieces owned and makes one more. */
  lemma OwnsOneMore(h: HeapView, pieces: seq<Piece>, f: Option<nat>, bytes: nat, align: nat)
    requires LowHeap(h) && OwnsAll(h, pieces) && 0 < bytes <= FOUR_GIB && align > 0
    requires var n := Needed(bytes, h.blockSize);
             n > 0 && f.Some? && RunFree(h.table, f.value, n) && h.AddrOf(f.value) % align == 0
    ensures var k := h.After(f, Needed(bytes, h.blockSize));
            LowHeap(k) && OwnsAll(k, pieces + [Piece(h.AddrOf(f.value), bytes, align)])
  {
    var n := Needed(bytes, h.blockSize);
    var k := h.After(f, n);
    var p := Piece(h.AddrOf(f.value), bytes, align);
    h.AfterRefines(f, n);
    h.BlockOfAddr(f.value);
    assert Owned(k, p);
    forall i | 0 <= i < |pieces|
      ensures Owned(k, pieces[i]) && pieces[i].at != p.at
    {
      assert Owned(h, pieces[i]);
    }
  }

  /** The request is served by the lowest aligned fit, and fails only without one. */
  ghost predicate AlignedRequest(h: HeapView, bytes: nat, align: nat, k: HeapView, p: nat)
    requires h.Valid() && align > 0
  {
    var n := Needed(bytes, h.blockSize);
    var f := FirstAligned(h.table, h.startAddr, h.blockSize, n, align);
    k == h.After(f, n) && p == h.Place(f)
  }

  /** What a served request adds to the pieces. */
  lemma RequestOwns(h: HeapView, pieces: seq<Piece>, bytes: nat, align: nat, k: HeapView, p: nat)
    requires LowHeap(h) && OwnsAll(h, pieces) && 0 < bytes <= FOUR_GIB && align > 0
    requires AlignedRequest(h, bytes, align, k, p)
    ensures LowHeap(k)
    ensures if p == NULL then k == h else OwnsAll(k, pieces + [Piece(p, bytes, align)])
  {
    var n := Needed(bytes, h.blockSize);
    NeededIsCeilUnlessItWraps(bytes, h.blockSize);
    var f := FirstAligned(h.table, h.startAddr, h.blockSize, n, align);
    if f.Some? { OwnsOneMore(h, pieces, f, bytes, align); }
  }

  method TakeAligned(low: Heap, bytes: nat, align: nat, ghost pieces: seq<Piece>) returns (p: nat)
    requires low.Valid() && LowHeap(low.View()) && OwnsAll(low.View(), pieces)
    requires 0 < bytes <= FOUR_GIB && IsPow2(align) && align < TWO64
    modifies low.blocks
    ensures low.Shaped() && LowHeap(low.View())
    ensures if p == NULL then low.View() == old(low.View()) && OwnsAll(low.View(), pieces)
            else OwnsAll(low.View(), pieces + [Piece(p, bytes, align)])
    ensures AlignedRequest(old(low.View()), bytes, align, low.View(), p)
  {
    p := low.AllocAligned(bytes, align);
    RequestOwns(old(low.View()), pieces, bytes, align, low.View(), p);
  }

  /** A request for at most one block: the plain scan cannot run off the table, and finds what the
      aligned one would. */
  method TakeSmall(low: Heap, bytes: nat, ghost pieces: seq<Piece>) returns (p: nat)
    requires low.Valid() && LowHeap(low.View()) && OwnsAll(low.View(), pieces) && 0 < bytes <= 512
    modifies low.blocks
    ensures low.Shaped() && LowHeap(low.View())
    ensures if p == NULL then low.View() == old(low.View()) && OwnsAll(low.View(), pieces)
            else OwnsAll(low.View(), pieces + [Piece(p, bytes, 1)])
    ensures AlignedRequest(old(low.View()), bytes, 1, low.View(), p)
  {
    ghost var h := low.View();
    assert Needed(bytes, 512) == 1;
    OneBlockStaysInside(low.blocks[..], low.Total());
    FirstFitIsFirstAligned(h.table, h.startAddr, 512, 1, 1);
    p := low.Alloc(bytes);
    assert low.View().table == low.blocks[..low.Total()];
    RequestOwns(h, pieces, bytes, 1, low.View(), p);
  }

  lemma OneBlockStaysInside(mem: Table, total: nat)
    requires total <= |mem|
    ensures FirstFit(mem, total, 1) == FirstFit(mem[..total], total, 1)
    ensures FirstFit(mem, total, 1).Some? ==> HasRoom(mem[..total], 1)
  {
    var t := mem[..total];
    assert forall k: nat | k < total :: t[k] == mem[k];
    assert forall k: nat :: Fits(mem, total, 1, k) <==> Fits(t, total, 1, k);
    if FirstFit(t, total, 1).Some? { assert RunFree(t, FirstFit(t, total, 1).value, 1); }
  }

  // ---- a series of requests ----

  type pos = x: nat | 0 < x witness 1

  datatype Request = Request(bytes: nat, align: pos)

  /** The heap after one request, if it has an aligned fit. */
  ghost function Serve(h: HeapView, q: Request): Option<HeapView>
    requires h.blockSize > 0
  {
    var n := Needed(q.bytes, h.blockSize);
    var f := FirstAligned(h.table, h.startAddr, h.blockSize, n, q.align);
    if f.Some? then Some(h.After(f, n)) else None
  }

  /** The heap after a series of requests, if each has an aligned fit when its turn comes. */
  ghost function ServeAll(h: HeapView, rs: seq<Request>): (k: Option<HeapView>)
    requires h.blockSize > 0
    ensures k.Some? ==> k.value.blockSize == h.blockSize
  {
    if rs == [] then Some(h) else
      var k := ServeAll(h, rs[..|rs| - 1]);
      if k.None? then None else Serve(k.value, rs[|rs| - 1])
  }

  lemma PlaceIsNull(h: HeapView, f: Option<nat>)
    requires 0 < h.startAddr
    ensures h.Place(f) == NULL <==> f == None
  {
    if f.Some? { MulMonotone(0, f.value, h.blockSize); }
  }

  lemma RequestServes(h: HeapView, q: Request, k: HeapView, p: nat)
    requires h.Valid() && AlignedRequest(h, q.bytes, q.align, k, p)
    ensures Serve(h, q) == if p != NULL then Some(k) else None
  {
    PlaceIsNull(h, FirstAligned(h.table, h.startAddr, h.blockSize, Needed(q.bytes, h.blockSize), q.align));
  }

  lemma ServeOneMore(h: HeapView, rs: seq<Request>, q: Request)
    requires h.blockSize > 0
    ensures var k := ServeAll(h, rs); ServeAll(h, rs + [q]) == if k.None? then None else Serve(k.value, q)
  {
    assert (rs + [q])[..|rs + [q]| - 1] == rs;
  }

  /** One more request; `ok` says whether all before it were served. */
  lemma ServeStep(h0: HeapView, rs: seq<Request>, ok: bool, h: HeapView, q: Request, k: HeapView, p: nat)
    requires h0.blockSize > 0 && h.Valid() && ServeAll(h0, rs) == if ok then Some(h) else None
    requires AlignedRequest(h, q.bytes, q.align, k, p)
    ensures ServeAll(h0, rs + [q]) == if ok && p != NULL then Some(k) else None
  {
    RequestServes(h, q, k, p);
    ServeOneMore(h0, rs, q);
  }

  lemma {:induction false} ServeNoMore(h: HeapView, rs: seq<Request>, k: nat)
    requires h.blockSize > 0 && k <= |rs| && ServeAll(h, rs[..k]).None?
    ensures ServeAll(h, rs).None?
    decreases |rs|
  {
    if k == |rs| {
      assert rs[..k] == rs;
    } else {
      var front := rs[..|rs| - 1];
      assert front[..k] == rs[..k];
      ServeNoMore(h, front, k);
    }
  }

  /** What a port asks of the low heap. */
  function PortRequests(slots: nat): seq<Request> {
    [Request(CMD_LIST_BYTES, CMD_LIST_ALIGN), Request(FIS_BYTES, FIS_ALIGN), Request(POINTER_BYTES * slots, 1)]
    + seq(slots, _ => Request(CMD_TABLE_BYTES, CMD_TABLE_ALIGN))
  }

  lemma FixedRequests(slots: nat)
    ensures PortRequests(slots)[0] == Request(CMD_LIST_BYTES, CMD_LIST_ALIGN)
    ensures PortRequests(slots)[1] == Request(FIS_BYTES, FIS_ALIGN)
    ensures PortRequests(slots)[2] == Request(POINTER_BYTES * slots, 1)
    ensures IsPow2(CMD_LIST_ALIGN) && IsPow2(FIS_ALIGN)
  {
  }

  lemma TableRequest(slots: nat, i: nat)
    requires i < slots
    ensures PortRequests(slots)[3 + i] == Request(CMD_TABLE_BYTES, CMD_TABLE_ALIGN)
  {
  }

  /** The first `n` requests of the port are served, and the heap is `h`. */
  ghost predicate UpTo(h0: HeapView, slots: nat, n: nat, h: HeapView) {
    h0.blockSize > 0 && n <= 3 + slots && ServeAll(h0, PortRequests(slots)[..n]) == Some(h)
  }

  /** Some request of the port has no fit when its turn comes. */
  ghost predicate Stuck(h0: HeapView, slots: nat) {
    h0.blockSize > 0 && ServeAll(h0, PortRequests(slots)) == None
  }

  lemma AtStart(h: HeapView, slots: nat)
    requires h.blockSize > 0
    ensures UpTo(h, slots, 0, h)
  {
    assert PortRequests(slots)[..0] == [];
  }

  lemma AtEnd(h0: HeapView, slots: nat, h: HeapView)
    requires UpTo(h0, slots, 3 + slots, h)
    ensures ServeAll(h0, PortRequests(slots)) == Some(h)
  {
    assert PortRequests(slots)[..3 + slots] == PortRequests(slots);
  }

  /** Serving request `n`, or finding no fit for it. */
  lemma NextRequest(h0: HeapView, slots: nat, n: nat, h: HeapView, k: HeapView, p: nat)
    requires UpTo(h0, slots, n, h) && n < 3 + slots && h.Valid()
    requires AlignedRequest(h, PortRequests(slots)[n].bytes, PortRequests(slots)[n].align, k, p)
    ensures if p != NULL then UpTo(h0, slots, n + 1, k) else Stuck(h0, slots)
  {
    var rs := PortRequests(slots);
    ServeStep(h0, rs[..n], true, h, rs[n], k, p);
    assert rs[..n + 1] == rs[..n] + [rs[n]];
    if p == NULL { ServeNoMore(h0, rs, n + 1); }
  }

  /** `going` as long as every request was served. */
  ghost predicate Chain(h0: HeapView, slots: nat, n: nat, going: bool, h: HeapView) {
    if going then UpTo(h0, slots, n, h) else Stuck(h0, slots)
  }

  lemma ChainStep(h0: HeapView, slots: nat, n: nat, going: bool, h: HeapView, k: HeapView, p: nat)
    requires Chain(h0, slots, n, going, h) && n < 3 + slots && h.Valid()
    requires AlignedRequest(h, PortRequests(slots)[n].bytes, PortRequests(slots)[n].align, k, p)
    ensures Chain(h0, slots, n + 1, going && p != NULL, k)
  {
    if going { NextRequest(h0, slots, n, h, k, p); }
  }

  // ---- configuring a port ----

  class Port {
    var clb: nat
    var clbu: nat
    var fb: nat
    var fbu: nat

    constructor () {
      clb, clbu, fb, fbu := 0, 0, 0, 0;
    }
  }

  /** Address fields of a command header. */
  datatype Header = Header(ctba: nat, ctbau: nat)

  class PortData {
    var cmdList: nat
    var fis: nat
    var cmdTables: nat             // address of the pointer array
    var tables: seq<nat>           // its elements
    var headers: seq<Header>       // the headers in the command list
    var commandSlots: nat

    constructor ()
      ensures headers == seq(MAX_SLOTS, _ => Header(0, 0))
    {
      cmdList, fis, cmdTables, tables, commandSlots := NULL, NULL, NULL, [], 0;
      headers := seq(MAX_SLOTS, _ => Header(0, 0));
    }

    /** Everything the port owns on the low heap. */
    function Pieces(): seq<Piece>
      reads this
    {
      [Piece(cmdList, CMD_LIST_BYTES, CMD_LIST_ALIGN), Piece(fis, FIS_BYTES, FIS_ALIGN),
       Piece(cmdTables, POINTER_BYTES * commandSlots, 1)]
      + seq(|tables|, i requires 0 <= i < |tables| reads this => Piece(tables[i], CMD_TABLE_BYTES, CMD_TABLE_ALIGN))
    }

    /** Header `i` points to table `i`, as far as 32-bit words can say. */
    ghost predicate HeadersPoint(n: nat)
      reads this
    {
      n <= |tables| && |headers| == MAX_SLOTS && n <= MAX_SLOTS
      && forall i | 0 <= i < n :: headers[i] == Header(U32(tables[i]), 0)
    }

    /** Takes the next command table and points its header to it. */
    method AddTable(low: Heap) returns (table: nat)
      requires low.Valid() && LowHeap(low.View()) && OwnsAll(low.View(), Pieces())
      requires |tables| < MAX_SLOTS && HeadersPoint(|tables|)
      modifies this`tables, this`headers, low.blocks
      ensures low.Shaped() && LowHeap(low.View()) && OwnsAll(low.View(), Pieces())
      ensures |tables| == old(|tables|) + (if table == NULL then 0 else 1) && HeadersPoint(|tables|)
      ensures AlignedRequest(old(low.View()), CMD_TABLE_BYTES, CMD_TABLE_ALIGN, low.View(), table)
    {
      ghost var pieces := Pieces();
      table := TakeAligned(low, CMD_TABLE_BYTES, CMD_TABLE_ALIGN, pieces);
      if table == NULL {
        return;
      }
      headers := headers[|tables| := Header(U32(table), 0)];
      tables := tables + [table];
      assert Pieces() == pieces + [Piece(table, CMD_TABLE_BYTES, CMD_TABLE_ALIGN)];
    }

    /** Takes one command table per slot; it stops short only at a table that has no fit. */
    method TakeTables(low: Heap, ghost h0: HeapView)
      requires low.Valid() && LowHeap(low.View()) && OwnsAll(low.View(), Pieces())
      requires tables == [] && commandSlots <= MAX_SLOTS && |headers| == MAX_SLOTS
      requires UpTo(h0, commandSlots, 3, low.View())
      modifies this`tables, this`headers, low.blocks
      ensures low.Shaped() && LowHeap(low.View()) && OwnsAll(low.View(), Pieces())
      ensures |tables| <= commandSlots && HeadersPoint(|tables|)
      ensures if |tables| == commandSlots then ServeAll(h0, PortRequests(commandSlots)) == Some(low.View())
              else Stuck(h0, commandSlots)
    {
      for i := 0 to commandSlots
        invariant low.Valid() && LowHeap(low.View()) && OwnsAll(low.View(), Pieces())
        invariant |tables| == i && HeadersPoint(i) && UpTo(h0, commandSlots, 3 + i, low.View())
      {
        ghost var h := low.View();
        TableRequest(commandSlots, i);
        var table := AddTable(low);
        NextRequest(h0, commandSlots, 3 + i, h, low.View(), table);
        if table == NULL {
          return;
        }
      }
      AtEnd(h0, commandSlots, low.View());
    }
  }

  /** Everything `data` needs for `slots` commands is on the heap, and its headers say so. */
  ghost predicate Ready(data: PortData, slots: nat, h: HeapView)
    requires h.Valid()
    reads data
  {
    && data.commandSlots == slots && |data.tables| == slots <= MAX_SLOTS
    && data.HeadersPoint(slots) && OwnsAll(h, data.Pieces())
  }

  /** Sets a port up. `engineStops` and `receptionStops` say whether the hardware clears its running
      bits in time. It fails only for a bad slot count, for an engine that does not stop, or when a
      structure has no aligned fit. On success every structure is a live block of the low heap of
      its own, aligned as the controller demands, and the registers and headers hold their
      addresses. */
  method PortConfigure(port: Port, data: PortData, low: Heap, commandSlots: nat, engineStops: bool,
                       receptionStops: bool)
    returns (ok: bool)
    requires low.Valid() && LowHeap(low.View()) && data.tables == [] && |data.headers| == MAX_SLOTS
    modifies port, data, low.blocks
    ensures low.Shaped() && LowHeap(low.View())
    ensures ok <==> 0 < commandSlots <= MAX_SLOTS && engineStops && receptionStops
                    && ServeAll(old(low.View()), PortRequests(commandSlots)).Some?
    ensures ok ==>
      && ServeAll(old(low.View()), PortRequests(commandSlots)) == Some(low.View())
      && Ready(data, commandSlots, low.View())
      && Placed(data.cmdList, data.fis, data.cmdTables, data.tables)
      && port.clb == data.cmdList && port.clbu == 0 && port.fb == data.fis && port.fbu == 0
      && forall i | 0 <= i < commandSlots :: data.headers[i] == Header(data.tables[i], 0)
  {
    if commandSlots == 0 || commandSlots > MAX_SLOTS {
      return false;
    }
    if !engineStops || !receptionStops {
      return false;
    }
    ok := TakeStructures(data, low, commandSlots);
    if !ok {
      return;
    }
    PiecesFitRegisters(low.View(), data);
    PiecesArePlaced(low.View(), data);
    port.clb, port.clbu := U32(data.cmdList), 0;
    port.fb, port.fbu := U32(data.fis), 0;
  }

  /** Everything a port needs on the low heap; it fails only when something has no fit. */
  method TakeStructures(data: PortData, low: Heap, commandSlots: nat) returns (ok: bool)
    requires low.Valid() && LowHeap(low.View()) && 0 < commandSlots <= MAX_SLOTS
    requires data.tables == [] && |data.headers| == MAX_SLOTS
    modifies data, low.blocks
    ensures low.Shaped() && LowHeap(low.View())
    ensures ServeAll(old(low.View()), PortRequests(commandSlots)) == if ok then Some(low.View()) else None
    ensures ok ==> Ready(data, commandSlots, low.View())
  {
    ghost var h0 := low.View();
    data.cmdList, data.fis, data.cmdTables := TakeThree(low, commandSlots);
    if data.cmdList == NULL || data.fis == NULL || data.cmdTables == NULL {
      return false;
    }
    data.commandSlots := commandSlots;
    assert data.Pieces() == FirstPieces(data.cmdList, data.fis, data.cmdTables, commandSlots);
    data.TakeTables(low, h0);
    ok := |data.tables| == commandSlots;
  }

  function FirstPieces(list: nat, fis: nat, pointers: nat, slots: nat): seq<Piece> {
    [Piece(list, CMD_LIST_BYTES, CMD_LIST_ALIGN), Piece(fis, FIS_BYTES, FIS_ALIGN),
     Piece(pointers, POINTER_BYTES * slots, 1)]
  }

  /** Command list, received FIS and pointer array. */
  method TakeThree(low: Heap, slots: nat) returns (list: nat, fis: nat, pointers: nat)
    requires low.Valid() && LowHeap(low.View()) && 0 < slots <= MAX_SLOTS
    modifies low.blocks
    ensures low.Shaped() && LowHeap(low.View())
    ensures Chain(old(low.View()), slots, 3, list != NULL && fis != NULL && pointers != NULL, low.View())
    ensures list != NULL && fis != NULL && pointers != NULL ==>
      OwnsAll(low.View(), FirstPieces(list, fis, pointers, slots))
  {
    ghost var h0, pieces := low.View(), [];
    list, fis, pieces := TakeTwo(low, slots);
    ghost var h2 := low.View();
    pointers := TakeSmall(low, POINTER_BYTES * slots, pieces);
    ChainStep(h0, slots, 2, list != NULL && fis != NULL, h2, low.View(), pointers);
    ghost var p := Piece(pointers, POINTER_BYTES * slots, 1);
    assert list != NULL && fis != NULL ==> pieces + [p] == FirstPieces(list, fis, pointers, slots);
  }

  method TakeTwo(low: Heap, slots: nat) returns (list: nat, fis: nat, ghost pieces: seq<Piece>)
    requires low.Valid() && LowHeap(low.View()) && 0 < slots <= MAX_SLOTS
    modifies low.blocks
    ensures low.Shaped() && LowHeap(low.View()) && OwnsAll(low.View(), pieces)
    ensures Chain(old(low.View()), slots, 2, list != NULL && fis != NULL, low.View())
    ensures list != NULL && fis != NULL ==>
      pieces == [Piece(list, CMD_LIST_BYTES, CMD_LIST_ALIGN), Piece(fis, FIS_BYTES, FIS_ALIGN)]
  {
    ghost var h0 := low.View();
    AtStart(h0, slots);
    FixedRequests(slots);
    list, pieces := TakeNext(low, CMD_LIST_BYTES, CMD_LIST_ALIGN, h0, slots, 0, true, []);
    fis, pieces := TakeNext(low, FIS_BYTES, FIS_ALIGN, h0, slots, 1, list != NULL, pieces);
  }

  /** Takes piece `n` of a port, whether or not those before it could be served. */
  method TakeNext(low: Heap, bytes: nat, align: pos, ghost h0: HeapView, ghost slots: nat, ghost n: nat,
                  ghost going: bool, ghost pieces: seq<Piece>)
    returns (p: nat, ghost after: seq<Piece>)
    requires low.Valid() && LowHeap(low.View()) && OwnsAll(low.View(), pieces)
    requires 0 < bytes <= FOUR_GIB && IsPow2(align) && align < TWO64
    requires Chain(h0, slots, n, going, low.View()) && n < 3 + slots && PortRequests(slots)[n] == Request(bytes, align)
    modifies low.blocks
    ensures low.Shaped() && LowHeap(low.View()) && OwnsAll(low.View(), after)
    ensures after == if p == NULL then pieces else pieces + [Piece(p, bytes, align)]
    ensures Chain(h0, slots, n + 1, going && p != NULL, low.View())
  {
    ghost var h := low.View();
    p := TakeAligned(low, bytes, align, pieces);
    after := if p == NULL then pieces else pieces + [Piece(p, bytes, align)];
    ChainStep(h0, slots, n, going, h, low.View(), p);
  }

  lemma PiecesFitRegisters(h: HeapView, data: PortData)
    requires LowHeap(h) && OwnsAll(h, data.Pieces())
    ensures U32(data.cmdList) == data.cmdList && U32(data.fis) == data.fis
    ensures forall i | 0 <= i < |data.tables| :: U32(data.tables[i]) == data.tables[i]
  {
    var pieces := data.Pieces();
    PiecesApart(h, pieces, 0, 0);
    PiecesApart(h, pieces, 1, 1);
    forall i | 0 <= i < |data.tables|
      ensures U32(data.tables[i]) == data.tables[i]
    {
      assert pieces[3 + i].at == data.tables[i];
      PiecesApart(h, pieces, 3 + i, 3 + i);
    }
  }

  /** The bytes of all structures of a port: 1024 of the command list, 256 of the received FIS, 8 of each
      pointer, and 144 of each command table. */
  function Structures(list: nat, fis: nat, pointers: nat, tables: seq<nat>): seq<Span> {
    [Span(list, list + 1024), Span(fis, fis + 256), Span(pointers, pointers + 8 * |tables|)]
    + seq(|tables|, i requires 0 <= i < |tables| => Span(tables[i], tables[i] + 144))
  }

  /** The structures are aligned as the controller demands, lie below 4 GiB and share no byte. */
  ghost predicate Placed(list: nat, fis: nat, pointers: nat, tables: seq<nat>) {
    && list % 1024 == 0 && fis % 256 == 0 && (forall i | 0 <= i < |tables| :: tables[i] % 128 == 0)
    && (forall s | s in Structures(list, fis, pointers, tables) :: s.to <= 0x1_0000_0000)
    && forall i, j | 0 <= i < j < 3 + |tables| ::
         Apart(Structures(list, fis, pointers, tables)[i], Structures(list, fis, pointers, tables)[j])
  }

  lemma StructuresArePieces(data: PortData)
    requires data.commandSlots == |data.tables|
    ensures var all, pieces := Structures(data.cmdList, data.fis, data.cmdTables, data.tables), data.Pieces();
            |all| == |pieces| && forall i | 0 <= i < |all| :: all[i] == pieces[i].Bytes()
  {
  }

  lemma PiecesAreAligned(h: HeapView, data: PortData)
    requires LowHeap(h) && OwnsAll(h, data.Pieces())
    ensures data.cmdList % 1024 == 0 && data.fis % 256 == 0
    ensures forall i | 0 <= i < |data.tables| :: data.tables[i] % 128 == 0
  {
    var pieces := data.Pieces();
    assert Owned(h, pieces[0]) && Owned(h, pieces[1]);
    forall i | 0 <= i < |data.tables|
      ensures data.tables[i] % 128 == 0
    {
      assert Owned(h, pieces[3 + i]);
    }
  }

  lemma PiecesArePlaced(h: HeapView, data: PortData)
    requires LowHeap(h) && OwnsAll(h, data.Pieces()) && data.commandSlots == |data.tables|
    ensures Placed(data.cmdList, data.fis, data.cmdTables, data.tables)
  {
    var all, pieces := Structures(data.cmdList, data.fis, data.cmdTables, data.tables), data.Pieces();
    StructuresArePieces(data);
    PiecesAreAligned(h, data);
    forall i, j | 0 <= i < |all| && 0 <= j < |all|
      ensures all[i].to <= FOUR_GIB && (i != j ==> Apart(all[i], all[j]))
    {
      PiecesApart(h, pieces, i, j);
    }
  }

  // ---- issuing a command ----

  /** `1u << i`. */
  function Shl1(i: nat): nat { if i == 0 then 1 else 2 * Shl1(i - 1) }

  predicate Bit(x: nat, i: nat) { if i == 0 then x % 2 == 1 else Bit(x / 2, i - 1) }

  lemma {:induction false} AndShl1(x: nat, i: nat)
    ensures And(x, Shl1(i)) != 0 <==> Bit(x, i)
    ensures Shl1(i) > 0
  {
    if i == 0 {
      AndLowMask(x, 2);
    } else {
      AndShl1(x / 2, i - 1);
      AndEven(x, Shl1(i - 1));
    }
  }

  lemma {:induction false} ZeroBit(i: nat)
    ensures !Bit(0, i)
  {
    if i > 0 { ZeroBit(i - 1); }
  }

  /** A bit is set in the bitwise or exactly when it is set in one of the words. */
  lemma {:induction false} OrBit(x: nat, y: nat, i: nat)
    ensures Bit(Or(x, y), i) <==> Bit(x, i) || Bit(y, i)
  {
    if x == 0 || y == 0 {
      ZeroBit(i);
    } else if i > 0 {
      OrBit(x / 2, y / 2, i - 1);
    }
  }

  /** The lowest slot that is neither issued nor active, or -1 when all are taken. A port has at most
      32 slots, as many as a word has bits to shift to. */
  method FindCommandSlot(ci: nat, sact: nat, slots: nat) returns (slot: int)
    requires slots <= MAX_SLOTS
    ensures slot == -1 ==> forall k | 0 <= k < slots :: Bit(ci, k) || Bit(sact, k)
    ensures slot != -1 ==> 0 <= slot < slots && !Bit(ci, slot) && !Bit(sact, slot)
                           && forall k | 0 <= k < slot :: Bit(ci, k) || Bit(sact, k)
  {
    var occupied := Or(ci, sact);
    for i := 0 to slots
      invariant forall k | 0 <= k < i :: Bit(ci, k) || Bit(sact, k)
    {
      OrBit(ci, sact, i);
      AndShl1(occupied, i);
      if And(occupied, Shl1(i)) == 0 {
        return i;
      }
    }
    return -1;
  }

  /** The check on a DMA address before a command is issued. */
  predicate RejectsAddress(address: nat) { And(address, 3) != 0 || address > UINT32_MAX }

  lemma RejectsIff(address: nat)
    ensures RejectsAddress(address) <==> address % 4 != 0 || address > 0xFFFF_FFFF
  {
    AndLowMask(address, 4);
  }

  /** Aligned pieces of the low heap are never rejected. */
  lemma LowPieceAccepted(h: HeapView, p: Piece)
    requires LowHeap(h) && Owned(h, p) && IsPow2(p.align) && 4 <= p.align
    ensures !RejectsAddress(p.at) && p.at % 4 == 0 && p.at <= 0xFFFF_FFFF
  {
    PieceInRun(h, p);
    AddrOrder(h, h.BlockOf(p.at) + Runs(h.table)[h.BlockOf(p.at)], |h.table|);
    PowersDivide(4, p.align);
    MultipleOfMultiple(p.at, 4, p.align);
    AndLowMask(p.at, 4);
  }

  /** The sector buffer of a read: `hardware` is what the command completes with. The address check
      passes, and the buffer is given back whether or not the command succeeds. */
  method ReadThroughBuffer(low: Heap, hardware: bool) returns (ok: bool, ghost ran: bool)
    requires low.Valid() && LowHeap(low.View())
    modifies low.blocks
    ensures low.View() == old(low.View())
    ensures ok ==> hardware && ran
    ensures ran && hardware ==> ok
    ensures !ran ==> FirstAligned(low.View().table, low.startAddr, 512, 1, DMA_BYTES) == None
  {
    ghost var h := low.View();
    assert Needed(DMA_BYTES, 512) == 1;
    ghost var f := FirstAligned(h.table, h.startAddr, 512, 1, DMA_BYTES);
    var buffer := TakeAligned(low, DMA_BYTES, DMA_BYTES, []);
    if f.Some? {
      h.AddrInside(f.value);
      h.BlockOfAddr(f.value);
      h.TakeThenFree(f.value, 1);
    }
    if buffer == NULL {
      return false, false;
    }
    ran := true;
    ghost var p := Piece(buffer, DMA_BYTES, DMA_BYTES);
    assert Owned(low.View(), ([] + [p])[0]);
    LowPieceAccepted(low.View(), p);
    ok := !RejectsAddress(buffer) && hardware;
    low.Free(buffer);
  }
}
