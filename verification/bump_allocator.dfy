/** The bump allocator that hands out the address space of the MMIO hole. */
module BumpAllocator {
  import opened Words

  datatype BumpView = BumpView(start: nat, size: nat, next: nat) {

    ghost predicate Valid() {
      start <= next <= start + size <= FOUR_GIB
    }

    function End(): nat { start + size }

    /** `p` could be handed out for `bytes` bytes at alignment `a`. */
    ghost predicate Fits(bytes: nat, a: nat, p: nat)
      requires a > 0
    {
      next <= p && p % a == 0 && p + bytes <= End()
    }

    ghost predicate HasPlace(bytes: nat, a: nat)
      requires a > 0
    {
      exists q :: Fits(bytes, a, q)
    }

    /** The lowest such address. */
    ghost predicate IsPlace(bytes: nat, a: nat, p: nat)
      requires a > 0
    {
      Fits(bytes, a, p) && forall q | Fits(bytes, a, q) :: p <= q
    }
  }

  /** What a request does: a malformed one is refused; a proper one gets the lowest place, and
      the arena shrinks to what lies behind it; without a place nothing changes. */
  ghost predicate Served(h: BumpView, bytes: nat, alignment: nat, after: BumpView, p: nat) {
    var a := Max(alignment, 1);
    if bytes > 0 && IsPow2(a) && h.HasPlace(bytes, a)
    then h.IsPlace(bytes, a, p) && after == h.(next := p + bytes)
    else p == NULL && after == h
  }

  class BumpHeap {
    const start: nat
    const size: nat
    var next: nat

    function View(): BumpView
      reads this
    {
      BumpView(start, size, next)
    }

    constructor (start: nat, size: nat)
      ensures View() == BumpView(start, size, start)
    {
      this.start, this.size, this.next := start, size, start;
    }

    /** `(next + a - 1) & ~(a - 1)`: the only address worth trying. */
    method RoundedNext(bytes: nat, a: nat) returns (addr: nat)
      requires View().Valid() && IsPow2(a) && a < TWO64
      ensures View().HasPlace(bytes, a) <==> addr + bytes <= View().End()
      ensures View().HasPlace(bytes, a) ==> View().IsPlace(bytes, a, addr)
    {
      PlaceIsRoundedUp(View(), bytes, a);
      addr := AlignUp(next, a);
    }

    /** The least aligned address at or above `next` that fits; nothing changes when none does. */
    method AllocAligned(bytes: nat, alignment: nat) returns (p: nat)
      requires View().Valid() && bytes < TWO64 && alignment < TWO64
      modifies this
      ensures View().Valid() && Served(old(View()), bytes, alignment, View(), p)
    {
      if bytes == 0 {
        return NULL;
      }
      var a := if alignment == 0 then 1 else alignment;
      if !PassesMaskTest(a) {
        return NULL;
      }
      RemainderSmall(start + size, TWO64);
      var end := U64(start + size);
      var addr := RoundedNext(bytes, a);
      if addr > end || bytes > end - addr {
        return NULL;
      }
      RemainderSmall(addr + bytes, TWO64);
      next := U64(addr + bytes);
      return addr;
    }

    method Alloc(bytes: nat) returns (p: nat)
      requires View().Valid() && bytes < TWO64
      modifies this
      ensures View().Valid() && Served(old(View()), bytes, 1, View(), p)
    {
      p := AllocAligned(bytes, 1);
    }
  }

  /** Without an alignment the windows are handed out back to back. */
  lemma PlainIsBackToBack(h: BumpView, bytes: nat, after: BumpView, p: nat)
    requires h.Valid() && Served(h, bytes, 1, after, p)
    ensures if 0 < bytes && h.next + bytes <= h.End() then p == h.next && after.next == p + bytes
            else p == NULL && after == h
  {
    if 0 < bytes && h.next + bytes <= h.End() { assert h.Fits(bytes, 1, h.next); }
  }

  /** Rounding `next` up decides whether anything fits, and where the lowest fit is. */
  lemma PlaceIsRoundedUp(h: BumpView, bytes: nat, a: nat)
    requires h.Valid() && IsPow2(a) && a < TWO64
    ensures var addr := AlignUp(h.next, a);
            && (h.HasPlace(bytes, a) <==> addr + bytes <= h.End())
            && (h.HasPlace(bytes, a) ==> h.IsPlace(bytes, a, addr))
  {
    PowerBelowWord(a);
    AlignUpIsLeast(h.next, a);
    LeastMultipleDecides(h, bytes, a, AlignUp(h.next, a));
  }

  lemma LeastMultipleDecides(h: BumpView, bytes: nat, a: nat, addr: nat)
    requires a > 0 && h.next <= addr && addr % a == 0
    requires forall y | h.next <= y && y % a == 0 :: addr <= y
    ensures h.HasPlace(bytes, a) <==> addr + bytes <= h.End()
    ensures h.HasPlace(bytes, a) ==> h.IsPlace(bytes, a, addr)
  {
    if addr + bytes <= h.End() { assert h.Fits(bytes, a, addr); }
  }

  /** NULL tells failure from success exactly when no window can start at address 0. */
  lemma NullMeansFailureIff(h: BumpView, bytes: nat, a: nat, p: nat)
    requires h.Valid() && bytes > 0 && IsPow2(a) && h.IsPlace(bytes, a, p)
    ensures p == NULL <==> h.next == 0
  {
    if h.next == 0 { assert h.Fits(bytes, a, 0) by { DivModUnique(0, a, 0, 0); } }
  }
}
