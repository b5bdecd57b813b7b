/** Callers that take blocks from a heap and give them back: what one call does to the live runs,
    and when a heap is as it was before. */
module ScratchHeap {
  import opened Words
  import opened BlockTable
  import opened Allocator

  predicate SameShape(h: HeapView, k: HeapView) {
    h.startAddr == k.startAddr && h.blockSize == k.blockSize && |h.table| == |k.table|
  }

  /** The same live runs mean the same table. */
  lemma SameRunsSameHeap(h: HeapView, k: HeapView)
    requires h.Valid() && k.Valid() && SameShape(h, k) && Runs(h.table) == Runs(k.table)
    ensures h == k
  {
    TableDetermined(h.table, k.table);
  }

  /** A plain request that is served: its size does not wrap, and some run that long is free. */
  ghost predicate Fit(h: HeapView, size: nat) {
    h.Valid() && 0 < size <= TWO64 - h.blockSize && HasRoom(h.table, Needed(size, h.blockSize))
  }

  /** The block it gets. */
  ghost function FitAt(h: HeapView, size: nat): nat
    requires h.blockSize > 0
  {
    var f := FirstFit(h.table, |h.table|, Needed(size, h.blockSize));
    if f.Some? then f.value else 0
  }

  /** The heap afterwards. */
  ghost function Next(h: HeapView, size: nat): (k: HeapView)
    requires h.blockSize > 0
    ensures k.blockSize == h.blockSize
  {
    h.After(Some(FitAt(h, size)), Needed(size, h.blockSize))
  }

  /** Two requests are served, the second while the first block is held. */
  ghost predicate FitBoth(h: HeapView, first: nat, second: nat) {
    Fit(h, first) && Fit(Next(h, first), second)
  }

  /** `k` is `h` with one more run of `n` blocks, at block `b`. */
  ghost predicate Grown(h: HeapView, k: HeapView, n: nat, b: nat) {
    k.Valid() && SameShape(k, h) && b !in Runs(h.table) && Runs(k.table) == Runs(h.table)[b := n]
  }

  lemma FitGrows(h: HeapView, size: nat)
    requires Fit(h, size)
    ensures FirstFit(h.table, |h.table|, Needed(size, h.blockSize)) == Some(FitAt(h, size))
    ensures Needed(size, h.blockSize) > 0 && Grown(h, Next(h, size), Needed(size, h.blockSize), FitAt(h, size))
    ensures Next(h, size).AddrOf(FitAt(h, size)) != NULL
  {
    var n := Needed(size, h.blockSize);
    NeededIsCeilUnlessItWraps(size, h.blockSize);
    assert h.table[..|h.table|] == h.table;
    FirstFitInside(h.table, |h.table|, n);
    h.AfterRefines(Some(FitAt(h, size)), n);
    MulMonotone(0, FitAt(h, size), h.blockSize);
  }

  /** A free stretch that is long enough serves a request, and is only eaten from the left. */
  lemma StretchServes(h: HeapView, size: nat, r: nat, room: nat)
    requires h.Valid() && 0 < size <= TWO64 - h.blockSize && RunFree(h.table, r, room)
    requires Needed(size, h.blockSize) <= room
    ensures Fit(h, size)
    ensures var n := Needed(size, h.blockSize); RunFree(Next(h, size).table, r + n, room - n)
  {
    var n := Needed(size, h.blockSize);
    NeededIsCeilUnlessItWraps(size, h.blockSize);
    assert RunFree(h.table, r, n);
    RoomAfterFirstFit(h.table, r, room, n);
  }

  /** Takes a block. */
  method Take(h: Heap, size: nat) returns (p: nat, ghost b: nat)
    requires h.Valid() && Fit(h.View(), size)
    modifies h.blocks
    ensures h.View() == Next(old(h.View()), size) && b == FitAt(old(h.View()), size)
    ensures Grown(old(h.View()), h.View(), Needed(size, h.blockSize), b)
    ensures p == h.View().AddrOf(b) && p != NULL
  {
    FitGrows(h.View(), size);
    b := FitAt(h.View(), size);
    p := h.Alloc(size);
  }

  /** Gives the block at `b` back: exactly its run goes. */
  method Drop(h: Heap, p: nat, ghost b: nat)
    requires h.Valid() && b in Runs(h.View().table) && p == h.View().AddrOf(b)
    modifies h.blocks
    ensures h.View().Valid() && SameShape(h.View(), old(h.View()))
    ensures b < |old(h.View()).table| && h.View() == old(h.View()).Without(b)
    ensures Runs(h.View().table) == Runs(old(h.View()).table) - {b}
  {
    h.View().BlockOfAddr(b);
    h.View().LiveInTable(p);
    h.Free(p);
  }
}
