/** The block allocator: first fit over a table of entries, changed in place. */
module Allocator {
  import opened Words
  import opened BlockTable

  /** Blocks a request asks for, in 64-bit arithmetic. */
  function Needed(size: nat, blockSize: nat): nat
    requires blockSize > 0
  {
    U64(size + blockSize - 1) / blockSize
  }

  /** The rounding is exact until the sum wraps; from there on the request asks for no
      block at all. */
  lemma NeededIsCeilUnlessItWraps(size: nat, blockSize: nat)
    requires 0 < blockSize < TWO16 && size < TWO64
    ensures size <= TWO64 - blockSize ==> Needed(size, blockSize) == CeilDiv(size, blockSize)
    ensures Needed(size, blockSize) == 0 <==> size == 0 || size > TWO64 - blockSize
  {
    var s := size + blockSize - 1;
    if size <= TWO64 - blockSize {
      RemainderSmall(s, TWO64);
      CeilDivBounds(size, blockSize);
    } else {
      assert s < TWO64 + blockSize - 1;
      DivModUnique(s, TWO64, 1, s - TWO64);
      DivModUnique(s - TWO64, blockSize, 0, s - TWO64);
    }
    if size == 0 { DivModUnique(s, blockSize, 0, s); }
  }

  /** A request so large that it asks for no block is answered with the first free block, which
      it does not reserve. */
  lemma OversizeRequestReservesNothing(mem: Table, total: nat, size: nat, blockSize: nat)
    requires total <= |mem| && 0 < blockSize < TWO16 && TWO64 - blockSize < size < TWO64
    ensures var f := FirstFit(mem, total, Needed(size, blockSize));
            Taking(mem, f, Needed(size, blockSize)) == mem
            && (f.Some? <==> exists k: nat | k < total :: !mem[k].taken)
  {
    NeededIsCeilUnlessItWraps(size, blockSize);
    forall k: nat | k < total
      ensures Fits(mem, total, 0, k) <==> !mem[k].taken
    {
    }
  }

  /** `alloc_aligned` answers such a request with the lowest aligned block, whether or not it is
      taken, or with the end of the table; again nothing is reserved. */
  lemma OversizeAlignedReservesNothing(t: Table, base: nat, size: nat, blockSize: nat, a: nat)
    requires 0 < blockSize < TWO16 && TWO64 - blockSize < size < TWO64 && a > 0
    ensures var n := Needed(size, blockSize);
            var f := FirstAligned(t, base, blockSize, n, a);
            && Taking(t, f, n) == t
            && if f.Some? then LowestAligned(base, blockSize, a, f.value) && f.value <= |t|
               else forall k: nat | k <= |t| :: !AlignedBlock(base, blockSize, a, k)
  {
    NeededIsCeilUnlessItWraps(size, blockSize);
    forall k: nat
      ensures FitsAligned(t, base, blockSize, 0, a, k) <==> k <= |t| && AlignedBlock(base, blockSize, a, k)
    {
      assert RunFree(t, k, 0) <==> k <= |t|;
    }
  }

  /** Block `k` of a heap at `base` has an aligned address. */
  predicate AlignedBlock(base: nat, blockSize: nat, a: nat, k: nat)
    requires a > 0
  {
    (base + k * blockSize) % a == 0
  }

  ghost predicate LowestAligned(base: nat, blockSize: nat, a: nat, k: nat)
    requires a > 0
  {
    AlignedBlock(base, blockSize, a, k) && forall j: nat | j < k :: !AlignedBlock(base, blockSize, a, j)
  }

  /** So a block that is in use is handed out a second time. */
  lemma OversizeAlignedSharesBlock()
    ensures var t := [Block(true, 0, 1)];
            WellFormed(t) && FirstAligned(t, 0x1000, 512, Needed(UINT64_MAX, 512), 1) == Some(0)
  {
    var t := [Block(true, 0, 1)];
    assert EntryOk(t, 0);
    NeededIsCeilUnlessItWraps(UINT64_MAX, 512);
    assert FitsAligned(t, 0x1000, 512, 0, 1, 0);
  }

  /** The table with its geometry, as a value. */
  datatype HeapView = HeapView(startAddr: nat, blockSize: nat, table: Table) {

    ghost predicate Valid() {
      && 0 < startAddr
      && 0 < blockSize < TWO16
      && startAddr + |table| * blockSize <= TWO64 / 2
      && |table| < TWO32
      && WellFormed(table)
    }

    function AddrOf(i: nat): nat { startAddr + i * blockSize }

    function BlockOf(p: nat): nat
      requires blockSize > 0 && startAddr <= p
    {
      (p - startAddr) / blockSize
    }

    /** `p` is the address of a live run. */
    ghost predicate Live(p: nat)
      requires Valid()
    {
      startAddr <= p && p == AddrOf(BlockOf(p)) && BlockOf(p) in Runs(table)
    }

    ghost function Place(f: Option<nat>): nat {
      if f.Some? then AddrOf(f.value) else NULL
    }

    /** The heap after taking run `f` of `n` blocks. */
    ghost function After(f: Option<nat>, n: nat): HeapView {
      this.(table := Taking(table, f, n))
    }

    /** The heap after freeing the run at block `b`. */
    ghost function Without(b: nat): HeapView
      requires b < |table|
    {
      this.(table := Cleared(table, b, table[b].end))
    }

    lemma AfterRefines(f: Option<nat>, n: nat)
      requires Valid() && n > 0 && (f.Some? ==> RunFree(table, f.value, n))
      ensures After(f, n).Valid()
      ensures Runs(After(f, n).table) == if f.Some? then Runs(table)[f.value := n] else Runs(table)
      ensures f.Some? ==> f.value !in Runs(table)
    {
      if f.Some? { MarkedRefines(table, f.value, n); }
    }

    lemma WithoutRefines(b: nat)
      requires Valid() && b in Runs(table)
      ensures b < |table| && Without(b).Valid() && Runs(Without(b).table) == Runs(table) - {b}
    {
      ClearedRefines(table, b);
    }

    /** Taking a run and freeing it gives back the same heap, entry for entry. */
    lemma TakeThenFree(f: nat, n: nat)
      requires Valid() && n > 0 && RunFree(table, f, n)
      ensures After(Some(f), n).Without(f) == this
    {
      MarkThenClear(table, f, n);
    }

    lemma LiveInTable(p: nat)
      requires Valid() && Live(p)
      ensures BlockOf(p) < |table| && p <= startAddr + |table| * blockSize
    {
      RunStart(table, BlockOf(p));
      AddrInside(BlockOf(p));
    }

    lemma BlockOfAddr(i: nat)
      requires blockSize > 0
      ensures BlockOf(AddrOf(i)) == i
    {
      DivModUnique(i * blockSize, blockSize, i, 0);
    }

    lemma AddrInside(i: nat)
      requires Valid() && i <= |table|
      ensures 0 < startAddr <= AddrOf(i) <= startAddr + |table| * blockSize
    {
      MulMonotone(i, |table|, blockSize);
    }
  }

  /** Memory after marking the run that was found, if one was. */
  ghost function Taking(mem: Table, f: Option<nat>, n: nat): Table {
    if f.Some? then Marked(mem, f.value, n) else mem
  }

  class Heap {
    const addr: nat               // where the heap header itself lies
    const blockSize: nat
    const startAddr: nat
    const maxSize: nat
    const blocks: array<Block>    // memory from the table on; the table is its first Total() entries

    function Total(): nat
      requires blockSize > 0
    {
      maxSize / blockSize
    }

    function View(): HeapView
      requires 0 < blockSize && Total() <= blocks.Length
      reads blocks
    {
      HeapView(startAddr, blockSize, blocks[..Total()])
    }

    ghost predicate Shaped() {
      0 < blockSize && Total() <= blocks.Length < TWO64
    }

    ghost predicate Valid()
      reads blocks
    {
      Shaped() && View().Valid()
    }

    /** The requests for which the scan of `alloc` meets only memory that is modelled:
        there is a fit in the table, or the entries beyond it are known. */
    ghost predicate Readable(size: nat)
      requires Shaped()
      reads blocks
    {
      HasRoom(View().table, Needed(size, blockSize)) || Total() + Needed(size, blockSize) <= blocks.Length + 1
    }

    constructor (addr: nat, blockSize: nat, startAddr: nat, maxSize: nat, blocks: array<Block>)
      requires 0 < blockSize && maxSize / blockSize <= blocks.Length < TWO64
      ensures this.addr == addr && this.blockSize == blockSize && this.startAddr == startAddr
      ensures this.maxSize == maxSize && this.blocks == blocks && Shaped()
    {
      this.addr, this.blockSize, this.startAddr, this.maxSize := addr, blockSize, startAddr, maxSize;
      this.blocks := blocks;
    }

    /** The loop that clears a new table, whatever its memory held before. */
    method Reset()
      requires Shaped()
      modifies blocks
      ensures forall k | 0 <= k < Total() :: blocks[k] == FREE
    {
      var i := 0;
      while i < maxSize / blockSize
        invariant i <= Total()
        invariant forall k | 0 <= k < i :: blocks[k] == FREE
      {
        blocks[i] := FREE;
        i := i + 1;
      }
    }

    /** The inner scan of both allocators: how many entries from `i` on are free, up to `needed`. */
    method FreePrefix(i: nat, needed: nat) returns (j: nat)
      requires i + needed <= blocks.Length
      ensures j <= needed && RunFree(blocks[..], i, j)
      ensures j < needed ==> blocks[i + j].taken
    {
      j := 0;
      while j < needed
        invariant j <= needed
        invariant forall m | i <= m < i + j :: !blocks[m].taken
      {
        if blocks[i + j].taken {
          break;
        }
        j := j + 1;
      }
    }

    /** The marking loop of both allocators. */
    method Mark(start: nat, needed: nat)
      requires start + needed <= blocks.Length
      modifies blocks
      ensures blocks[..] == Marked(old(blocks[..]), start, needed)
    {
      var f := start;
      while f < start + needed
        invariant start <= f <= start + needed
        invariant forall k | 0 <= k < blocks.Length ::
          blocks[k] == if start <= k < f then Block(true, U32(start), U32(start + needed)) else old(blocks[k])
      {
        blocks[f] := Block(true, U32(start), U32(start + needed));
        f := f + 1;
      }
    }

    /** The scan of `alloc`: over a taken run in one jump, past a free block whose run fails
        two blocks at a time, and still no fit is missed. `reach` is the end of what it reads: it
        keeps to the table exactly when the table has room, or does not end in a free block. */
    method ScanFirstFit(needed: nat) returns (start: int, ghost reach: nat)
      requires Valid()
      requires HasRoom(View().table, needed) || Total() + needed <= blocks.Length + 1
      ensures start == match FirstFit(blocks[..], Total(), needed) case Some(i) => i case None => -1
      ensures needed > 0 ==>
        (reach <= Total() <==> HasRoom(View().table, needed) || TailFree(View().table) == 0)
    {
      start := -1;
      var i := 0;
      ghost var mem, total := blocks[..], Total();
      reach := 0;
      while maxSize / blockSize > i
        invariant start == -1
        invariant forall k: nat | k < i :: !Fits(mem, total, needed, k)
        invariant needed > 0 ==> ReachOk(mem, total, needed, i, reach)
      {
        reach := Max(reach, i + 1);
        if !blocks[i].taken {
          ScanStaysInside(mem, total, needed, i);
          var j := FreePrefix(i, needed);
          ghost var before := reach;
          reach := Max(reach, Min(i + j + 1, i + needed));
          if needed > 0 { CandidateReach(mem, total, needed, i, j, before, reach); }
          if j == needed {
            start := i;
            assert Fits(mem, total, needed, i);
            break;
          }
          i := i + 1;
        } else {
          start := -1;
          TakenRunAhead(mem, total, i);
          if needed > 0 { JumpReach(mem, total, needed, i, blocks[i].end, reach); }
          if blocks[i].end > i {
            i := blocks[i].end;
          } else {
            i := i + 1;
          }
          continue;
        }
        i := i + 1;
      }
      assert start == -1 ==> FirstFit(mem, total, needed) == None;
      assert blocks[..] == mem;
    }

    /** First fit: the lowest run that looks free is marked, and nothing else changes. With
        room in the table that run lies inside it. */
    method Alloc(size: nat) returns (p: nat)
      requires Valid() && size < TWO64 && Readable(size)
      modifies blocks
      ensures size == 0 ==> p == NULL && blocks[..] == old(blocks[..])
      ensures size > 0 ==>
        var f := FirstFit(old(blocks[..]), Total(), Needed(size, blockSize));
        p == View().Place(f) && blocks[..] == Taking(old(blocks[..]), f, Needed(size, blockSize))
      ensures size > 0 && Needed(size, blockSize) > 0 && HasRoom(old(View()).table, Needed(size, blockSize)) ==>
        var n := Needed(size, blockSize);
        var f := FirstFit(old(View()).table, Total(), n);
        && f.Some? && p == old(View()).AddrOf(f.value)
        && Valid() && View() == old(View()).After(f, n)
        && blocks[Total()..] == old(blocks[Total()..])
    {
      if size == 0 {
        return NULL;
      }
      var needed := Needed(size, blockSize);
      TakingInside(blocks[..], View(), needed);
      ghost var reach;
      var start;
      start, reach := ScanFirstFit(needed);
      if start == -1 {
        return NULL;
      }
      Mark(start, needed);
      return startAddr + start * blockSize;
    }

    /** Lowest aligned fit; a failed request changes nothing. */
    method AllocAligned(size: nat, alignment: nat) returns (p: nat)
      requires Valid() && size < TWO64 && alignment < TWO64
      modifies blocks
      ensures size == 0 || (alignment > 0 && !IsPow2(alignment)) ==> p == NULL && blocks[..] == old(blocks[..])
      ensures size > 0 && (alignment == 0 || IsPow2(alignment)) ==>
        var n := Needed(size, blockSize);
        var f := FirstAligned(old(View()).table, startAddr, blockSize, n, Max(alignment, 1));
        && p == View().Place(f)
        && View() == old(View()).After(f, n)
        && (n > 0 ==> Valid())
      ensures blocks[Total()..] == old(blocks[Total()..])
    {
      if size == 0 {
        return NULL;
      }
      var a := if alignment == 0 then 1 else alignment;
      if !PassesMaskTest(a) {
        return NULL;
      }
      var needed := Needed(size, blockSize);
      if needed > maxSize / blockSize {
        return NULL;
      }
      var found := ScanFirstAligned(needed, a);
      if found == None {
        return NULL;
      }
      var start := found.value;
      ghost var h := View();
      MarkedPrefix(blocks[..], Total(), start, needed);
      if needed > 0 { h.AfterRefines(found, needed); }
      MulMonotone(0, start, blockSize);
      Mark(start, needed);
      return startAddr + start * blockSize;
    }

    /** The block of any pointer, in 64-bit arithmetic; below the heap the subtraction wraps. */
    function BlockIndex(ptr: nat): nat
      requires 0 < blockSize
    {
      U64(ptr - startAddr) / blockSize
    }

    /** The memory that `free` of a pointer outside the table touches is modelled. */
    predicate StrayKnown(ptr: nat)
      requires 0 < blockSize
      reads blocks
    {
      BlockIndex(ptr) < blocks.Length && blocks[BlockIndex(ptr)].end <= blocks.Length
    }

    /** Clears the entries from the block of `ptr` to the end recorded there; a live pointer loses
        exactly its run. */
    method Free(ptr: nat)
      requires Valid() && ptr < TWO64
      requires ptr == NULL || (startAddr <= ptr && View().BlockOf(ptr) < Total()) || StrayKnown(ptr)
      modifies blocks
      ensures ptr == NULL ==> blocks[..] == old(blocks[..])
      ensures ptr != NULL ==>
        var b := BlockIndex(ptr);
        b < blocks.Length && blocks[..] == Cleared(old(blocks[..]), b, old(blocks[..])[b].end)
      ensures startAddr <= ptr && View().BlockOf(ptr) < Total() ==>
        var b := View().BlockOf(ptr);
        && View() == old(View()).Without(b)
        && blocks[Total()..] == old(blocks[Total()..])
        && (b in Runs(old(View()).table) ==> Valid() && Runs(View().table) == Runs(old(View()).table) - {b})
    {
      if ptr == NULL {
        return;
      }
      var block := U64(ptr - startAddr);
      block := block / blockSize;
      ghost var h := View();
      if startAddr <= ptr { RemainderSmall(ptr - startAddr, TWO64); }
      var end := blocks[block].end;
      if block < Total() {
        assert EntryOk(h.table, block);
        ClearedPrefix(blocks[..], Total(), block, end);
        if block in Runs(h.table) { h.WithoutRefines(block); }
      }
      Clear(block, end);
    }

    /** The clearing loop of `free`. */
    method Clear(block: nat, end: nat)
      requires end <= blocks.Length
      modifies blocks
      ensures blocks[..] == Cleared(old(blocks[..]), block, end)
    {
      var i := block;
      while i < end
        invariant block <= i
        invariant forall k | 0 <= k < blocks.Length ::
          blocks[k] == if block <= k < i && k < end then FREE else old(blocks[k])
      {
        blocks[i] := FREE;
        i := i + 1;
      }
    }

    /** The scan of `alloc_aligned`: it jumps to the next aligned block and over the run it
        collides with, always forward, and still no aligned fit is missed. */
    method ScanFirstAligned(needed: nat, alignment: nat) returns (found: Option<nat>)
      requires Valid() && IsPow2(alignment) && alignment < TWO64
      ensures found == FirstAligned(View().table, startAddr, blockSize, needed, alignment)
    {
      var bs := blockSize;
      var total := maxSize / bs;
      var i := 0;
      ghost var t := View().table;
      while i + needed <= total
        invariant forall k: nat | k < i :: !FitsAligned(t, startAddr, bs, needed, alignment, k)
        decreases total - i
      {
        var addr := startAddr + i * bs;
        View().AddrInside(i);
        AndLowMask(addr, alignment);
        if And(addr, alignment - 1) != 0 {
          var aligned := AlignUp(addr, alignment);
          AlignmentJump(View(), alignment, needed, i);
          i := U64(aligned - startAddr + bs - 1) / bs;
          continue;
        }
        var j := FreePrefix(i, needed);
        if j < needed {
          TakenRunAhead(blocks[..], total, i + j);
          var end := blocks[i + j].end;
          TakenBlocksFits(t, needed, i + j, end);
          i := if end > i + j then end else i + j + 1;
          continue;
        }
        assert FitsAligned(t, startAddr, bs, needed, alignment, i);
        return Some(i);
      }
      return None;
    }
  }

  /** The jump goes forward and over blocks whose address is not aligned. */
  lemma AlignmentJump(h: HeapView, a: nat, n: nat, i: nat)
    requires h.Valid() && IsPow2(a) && a < TWO64 && i <= |h.table| && h.AddrOf(i) % a != 0
    ensures var to := U64(AlignUp(h.AddrOf(i), a) - h.startAddr + h.blockSize - 1) / h.blockSize;
            i < to && forall k: nat | i <= k < to :: !FitsAligned(h.table, h.startAddr, h.blockSize, n, a, k)
  {
    var addr, bs := h.AddrOf(i), h.blockSize;
    h.AddrInside(i);
    AlignUpStaysLow(addr, a);
    var gap := AlignUp(addr, a) - h.startAddr;
    RemainderSmall(gap + bs - 1, TWO64);
    CeilDivAbove(gap, bs, i);
    forall k: nat | i <= k < CeilDiv(gap, bs)
      ensures !FitsAligned(h.table, h.startAddr, bs, n, a, k)
    {
      CeilDivAbove(gap, bs, k);
      MulMonotone(i, k, bs);
      assert addr <= h.AddrOf(k) < h.startAddr + gap;
    }
  }

  /** No run of `n` blocks that touches the taken stretch `[c, end)` is free. */
  lemma TakenBlocksFits(t: Table, n: nat, c: nat, end: nat)
    requires n > 0 && c < end <= |t| && forall m | c <= m < end :: t[m].taken
    ensures forall k: nat | c < k + n && k < end :: !RunFree(t, k, n)
  {
    forall k: nat | c < k + n && k < end
      ensures !RunFree(t, k, n)
    {
      assert t[if k <= c then c else k].taken;
    }
  }

  /** From a taken entry to the end of its run no block is free. */
  lemma TakenRunAhead(mem: Table, total: nat, i: nat)
    requires total <= |mem| && WellFormed(mem[..total]) && i < total && mem[i].taken
    ensures i < mem[i].end <= total && forall k | i <= k < mem[i].end :: mem[k].taken
  {
    var t := mem[..total];
    assert EntryOk(t, i);
    forall k | i <= k < mem[i].end
      ensures mem[k].taken
    {
      assert t[k] == mem[k];
    }
  }

  /** A scan that has not passed a fit of the table has not run off the memory it may read. */
  lemma ScanStaysInside(mem: Table, total: nat, n: nat, i: nat)
    requires i < total <= |mem| && (HasRoom(mem[..total], n) || total + n <= |mem| + 1)
    requires forall k: nat | k < i :: !Fits(mem, total, n, k)
    ensures i + n <= |mem| && (n > 0 && HasRoom(mem[..total], n) ==> i + n <= total)
  {
    if n > 0 && HasRoom(mem[..total], n) {
      FirstFitInside(mem, total, n);
    }
  }

  lemma MarkedPrefix(mem: Table, total: nat, i: nat, n: nat)
    requires i + n <= total <= |mem|
    ensures Marked(mem, i, n)[..total] == Marked(mem[..total], i, n)
    ensures Marked(mem, i, n)[total..] == mem[total..]
  {
  }

  lemma ClearedPrefix(mem: Table, total: nat, i: nat, e: nat)
    requires e <= total <= |mem|
    ensures Cleared(mem, i, e)[..total] == Cleared(mem[..total], i, e)
    ensures Cleared(mem, i, e)[total..] == mem[total..]
  {
  }

  /** With room in the table, first fit over all of memory is first fit over the table. */
  lemma TakingInside(mem: Table, h: HeapView, n: nat)
    requires h.Valid() && |h.table| <= |mem| && h.table == mem[..|h.table|]
    ensures n > 0 && HasRoom(h.table, n) ==>
      var total := |h.table|;
      var f := FirstFit(mem, total, n);
      && f == FirstFit(h.table, total, n) && f.Some?
      && Taking(mem, f, n)[..total] == h.After(f, n).table
      && Taking(mem, f, n)[total..] == mem[total..]
      && h.After(f, n).Valid()
  {
    if n > 0 && HasRoom(h.table, n) {
      FirstFitInside(mem, |h.table|, n);
      h.AfterRefines(FirstFit(mem, |h.table|, n), n);
    }
  }

  // ---- where `alloc` has no bound check of its own ----

  /** Free blocks at the end of the table. */
  function TailFree(t: Table): nat
    ensures TailFree(t) <= |t|
  {
    if t == [] || t[|t| - 1].taken then 0 else 1 + TailFree(t[..|t| - 1])
  }

  lemma {:induction false} TailFreeMeaning(t: Table)
    ensures RunFree(t, |t| - TailFree(t), TailFree(t))
    ensures TailFree(t) < |t| ==> t[|t| - TailFree(t) - 1].taken
  {
    if t != [] && !t[|t| - 1].taken { TailFreeMeaning(t[..|t| - 1]); }
  }

  /** Reads of the scan stay in the table: there is room in it, or its last block is taken. */
  ghost predicate Contained(mem: Table, total: nat, n: nat)
    requires total <= |mem|
  {
    HasRoom(mem[..total], n) || TailFree(mem[..total]) == 0
  }

  /** Before candidate `i`, with all reads below `reach`: if reads stay inside, they have so far; if
      not, they have left the table or the free tail is still ahead. */
  ghost predicate ReachOk(mem: Table, total: nat, n: nat, i: nat, reach: nat)
    requires total <= |mem|
  {
    if Contained(mem, total, n) then reach <= total
    else reach > total || i <= total - TailFree(mem[..total])
  }

  /** What a free candidate `i` with `j` free entries adds to the reads. */
  lemma CandidateReach(mem: Table, total: nat, n: nat, i: nat, j: nat, before: nat, reach: nat)
    requires n > 0 && i < total <= |mem| && !mem[i].taken && ReachOk(mem, total, n, i, before)
    requires j <= n && RunFree(mem, i, j) && (j < n ==> i + j < |mem| && mem[i + j].taken)
    requires HasRoom(mem[..total], n) ==> i + n <= total
    requires reach == Max(before, Min(i + j + 1, i + n))
    ensures ReachOk(mem, total, n, i + 2, reach)
    ensures j == n ==> (reach <= total <==> Contained(mem, total, n))
  {
    var t := mem[..total];
    TailFreeMeaning(t);
    if HasRoom(t, n) {
    } else if TailFree(t) == 0 {
      assert t[total - 1].taken && mem[total - 1].taken;
    } else if before <= total {
      TailCandidate(mem, total, n, i, j);
    }
  }

  /** Without room and with a free tail, a candidate before the tail fails and is followed by one
      that is not behind its start; the candidate at its start is read past the table. */
  lemma TailCandidate(mem: Table, total: nat, n: nat, i: nat, j: nat)
    requires n > 0 && i < total <= |mem| && !mem[i].taken
    requires j <= n && RunFree(mem, i, j) && (j < n ==> i + j < |mem| && mem[i + j].taken)
    requires !HasRoom(mem[..total], n) && TailFree(mem[..total]) > 0 && i <= total - TailFree(mem[..total])
    ensures Min(i + j + 1, i + n) > total || (j < n && i + 2 <= total - TailFree(mem[..total]))
  {
    var t := mem[..total];
    var tail := total - TailFree(t);
    TailFreeMeaning(t);
    assert !RunFree(t, i, n);
    assert forall m | 0 <= m < total :: t[m] == mem[m];
    if i < tail { assert mem[tail - 1].taken; }
  }

  /** A jump over a taken run reads nothing, and does not pass the start of the free tail. */
  lemma JumpReach(mem: Table, total: nat, n: nat, i: nat, end: nat, reach: nat)
    requires n > 0 && i < end <= total <= |mem| && (forall k | i <= k < end :: mem[k].taken)
    requires ReachOk(mem, total, n, i, reach)
    ensures ReachOk(mem, total, n, end, reach)
  {
    var t := mem[..total];
    var tail := total - TailFree(t);
    TailFreeMeaning(t);
    if tail < total { assert !t[tail].taken && !mem[tail].taken; }
  }

  /** The answer of `alloc` lies in the table exactly when the table has room, or its free tail
      together with the memory behind it does not look like a long enough free run. (What the scan
      reads on the way is another matter: see `ScanFirstFit`.) */
  lemma AllocKeepsToTableIff(mem: Table, total: nat, n: nat)
    requires total <= |mem| && n > 0
    ensures var f := FirstFit(mem, total, n);
            var t := mem[..total];
            (f.Some? ==> f.value + n <= total) <==>
            HasRoom(t, n) || TailFree(t) == 0 || !RunFree(mem, total - TailFree(t), n)
  {
    var t := mem[..total];
    var tail := TailFree(t);
    TailFreeMeaning(t);
    var f := FirstFit(mem, total, n);
    if HasRoom(t, n) {
      FirstFitInside(mem, total, n);
    } else {
      if f.Some? && f.value + n <= total {
        assert RunFree(t, f.value, n);
      }
      if f.Some? {
        assert RunFree(mem, f.value, n);
        if tail < total { assert t[total - tail - 1] == mem[total - tail - 1]; }
        assert RunFree(mem, total - tail, n) by { TailThenRun(mem, total, tail, f.value, n); }
      }
      if tail > 0 && RunFree(mem, total - tail, n) {
        assert Fits(mem, total, n, total - tail);
      }
    }
  }

  lemma TailThenRun(mem: Table, total: nat, tail: nat, i: nat, n: nat)
    requires tail <= total <= |mem| && RunFree(mem[..total], total - tail, tail)
    requires total - tail <= i <= total && RunFree(mem, i, n)
    ensures RunFree(mem, total - tail, n)
  {
    forall m | total - tail <= m < total - tail + n
      ensures !mem[m].taken
    {
      if m < total { assert !mem[..total][m].taken; }
    }
  }

  /** A full request on a table of one free block followed by free-looking memory is served
      past the end of the table, which breaks it. */
  lemma AllocOverrunsTable()
    ensures var mem := [FREE, FREE];
            FirstFit(mem, 1, 2) == Some(0) && !WellFormed(Marked(mem, 0, 2)[..1])
  {
    var mem := [FREE, FREE];
    assert Fits(mem, 1, 2, 0);
    var u := Marked(mem, 0, 2)[..1];
    assert u[0] == Block(true, 0, 2);
    assert !EntryOk(u, 0);
  }
}
