/** Selecting devices by class into a buffer on the kernel heap that grows as it fills. */
module ComponentBus {
  import opened Words
  import opened BlockTable
  import opened Allocator
  import opened ScratchHeap

  const DEVICE_BYTES: nat := 176   // sizeof(component_device_t)
  const CHUNK: nat := 16

  datatype Component = Component(bus: nat, device: nat, func: nat, vendorId: nat, deviceId: nat,
                                 classCode: nat, subclass: nat, progIf: nat, revision: nat)

  /** The class codes asked for; the programming interface only if one is given. */
  datatype Query = Query(classCode: nat, subclass: nat, progIf: Option<nat>) {
    predicate Matches(c: Component) {
      c.classCode == classCode && c.subclass == subclass && (progIf.Some? ==> c.progIf == progIf.value)
    }
  }

  /** What a caller asks for. */
  predicate Wanted(q: Query, c: Component) {
    c.classCode == q.classCode && c.subclass == q.subclass && (q.progIf == None || q.progIf == Some(c.progIf))
  }

  /** `r` lists the devices at the places `at`, in order, and these are all that are wanted. */
  ghost predicate ListsWanted(q: Query, devices: seq<Component>, r: seq<Component>, at: seq<nat>) {
    && |at| == |r|
    && (forall k | 0 <= k < |at| :: at[k] < |devices| && r[k] == devices[at[k]] && Wanted(q, r[k]))
    && (forall j, k | 0 <= j < k < |at| :: at[j] < at[k])
    && forall i: nat | i < |devices| && Wanted(q, devices[i]) :: i in at
  }

  /** Every wanted device once, in the order of the bus, and nothing else. */
  ghost predicate IsAnswer(q: Query, devices: seq<Component>, r: seq<Component>) {
    exists at: seq<nat> :: ListsWanted(q, devices, r, at)
  }

  /** One more device, wanted or not. */
  lemma AnswerStep(q: Query, devices: seq<Component>, r: seq<Component>)
    requires devices != [] && IsAnswer(q, devices[..|devices| - 1], r)
    ensures var c := devices[|devices| - 1]; IsAnswer(q, devices, r + if q.Matches(c) then [c] else [])
  {
    var last := |devices| - 1;
    var at: seq<nat> :| ListsWanted(q, devices[..last], r, at);
    if Wanted(q, devices[last]) {
      OneMoreListed(q, devices, r, at);
    } else {
      NoneMoreListed(q, devices, r, at);
      assert r + [] == r;
    }
  }

  lemma OneMoreListed(q: Query, devices: seq<Component>, r: seq<Component>, at: seq<nat>)
    requires devices != [] && Wanted(q, devices[|devices| - 1]) && ListsWanted(q, devices[..|devices| - 1], r, at)
    ensures ListsWanted(q, devices, r + [devices[|devices| - 1]], at + [|devices| - 1])
  {
    var last := |devices| - 1;
    forall i: nat | i < |devices| && Wanted(q, devices[i])
      ensures i in at + [last]
    {
      if i < last { assert devices[..last][i] == devices[i]; }
    }
  }

  lemma NoneMoreListed(q: Query, devices: seq<Component>, r: seq<Component>, at: seq<nat>)
    requires devices != [] && !Wanted(q, devices[|devices| - 1]) && ListsWanted(q, devices[..|devices| - 1], r, at)
    ensures ListsWanted(q, devices, r, at)
  {
    forall i: nat | i < |devices| && Wanted(q, devices[i])
      ensures i in at
    {
      assert devices[..|devices| - 1][i] == devices[i];
    }
  }

  lemma NothingListed(q: Query)
    ensures IsAnswer(q, [], [])
  {
    assert ListsWanted(q, [], [], []);
  }

  /** The selection is the answer to the query. */
  lemma {:induction false} SelectIsAnswer(q: Query, devices: seq<Component>)
    ensures IsAnswer(q, devices, Select(q, devices))
  {
    if devices == [] {
      NothingListed(q);
    } else {
      SelectIsAnswer(q, devices[..|devices| - 1]);
      AnswerStep(q, devices, Select(q, devices[..|devices| - 1]));
    }
  }

  /** The matching devices, in order. */
  function Select(q: Query, devices: seq<Component>): seq<Component> {
    if devices == [] then []
    else Select(q, devices[..|devices| - 1]) + if q.Matches(devices[|devices| - 1]) then [devices[|devices| - 1]]
      else []
  }

  /** Exactly the matching devices are selected. */
  lemma {:induction false} SelectedAreMatching(q: Query, devices: seq<Component>, c: Component)
    ensures c in Select(q, devices) <==> c in devices && Wanted(q, c)
  {
    if devices != [] {
      var front := devices[..|devices| - 1];
      SelectedAreMatching(q, front, c);
      assert devices == front + [devices[|devices| - 1]];
    }
  }

  /** Selection is pointwise: it goes through concatenation, so order is kept. */
  lemma {:induction false} SelectConcat(q: Query, a: seq<Component>, b: seq<Component>)
    ensures Select(q, a + b) == Select(q, a) + Select(q, b)
  {
    if b == [] {
      assert a + b == a;
    } else {
      var front := b[..|b| - 1];
      SelectConcat(q, a, front);
      assert (a + b)[..|a + b| - 1] == a + front;
    }
  }

  /** Selection from a start of the list is no more than selection from all of it. */
  lemma SelectGrows(q: Query, devices: seq<Component>, i: nat)
    requires i <= |devices|
    ensures |Select(q, devices[..i])| <= |Select(q, devices)|
  {
    SelectConcat(q, devices[..i], devices[i..]);
    assert devices == devices[..i] + devices[i..];
  }

  lemma SelectNext(q: Query, devices: seq<Component>, i: nat)
    requires i < |devices|
    ensures Select(q, devices[..i + 1]) == Select(q, devices[..i]) + if q.Matches(devices[i]) then [devices[i]] else []
  {
    assert devices[..i + 1][..i] == devices[..i];
  }

  function Blocks(h: HeapView, entries: nat): nat
    requires h.blockSize > 0
  {
    Needed(DEVICE_BYTES * entries, h.blockSize)
  }

  /** The heap after the buffer at block `b` is exchanged for one of `bytes` bytes: the new block is
      taken while the old one is held. */
  ghost function Swapped(k: HeapView, b: nat, bytes: nat): (m: HeapView)
    requires k.blockSize > 0
    ensures m.blockSize == k.blockSize
  {
    var g := Next(k, bytes);
    if b < |g.table| then g.Without(b) else g
  }

  /** Each request from here on is served: the buffer at `b` grows for as long as the `m` matching
      devices do not fit, and is cut to size at the end unless it fits exactly or stays empty. */
  ghost predicate RoomToGrow(k: HeapView, b: nat, capacity: nat, m: nat)
    requires k.blockSize > 0
    decreases if m > capacity then m - capacity else 0
  {
    if m > capacity then
      var bytes := DEVICE_BYTES * (capacity + CHUNK);
      Fit(k, bytes) && RoomToGrow(Swapped(k, b, bytes), FitAt(k, bytes), capacity + CHUNK, m)
    else 0 < m < capacity ==> Fit(k, DEVICE_BYTES * m)
  }

  /** The heap `k` is `h` with one buffer of `entries` entries at block `b`. */
  ghost predicate HoldsBuffer(h: HeapView, k: HeapView, entries: nat, at: nat, b: nat) {
    && k.Valid() && SameShape(k, h) && b !in Runs(h.table)
    && Runs(k.table) == Runs(h.table)[b := Blocks(h, entries)] && at == k.AddrOf(b)
  }

  lemma KeyExchanged(runs: map<nat, nat>, b: nat, x: nat, c: nat, n: nat)
    requires b !in runs && c !in runs[b := x]
    ensures runs[b := x][c := n] - {b} == runs[c := n]
  {
  }

  lemma Exchanged(h: HeapView, g: HeapView, k: HeapView, m: HeapView, capacity: nat, entries: nat,
                  held: nat, at: nat, b: nat, c: nat)
    requires h.Valid() && HoldsBuffer(h, g, capacity, held, b)
    requires Grown(g, k, Blocks(h, entries), c) && at == k.AddrOf(c)
    requires m.Valid() && SameShape(m, k) && Runs(m.table) == Runs(k.table) - {b}
    ensures HoldsBuffer(h, m, entries, at, c)
  {
    KeyExchanged(Runs(h.table), b, Blocks(h, capacity), c, Blocks(h, entries));
  }

  /** Exchanges the buffer for one of `entries` entries. */
  method Exchange(heap: Heap, held: nat, capacity: nat, entries: nat, ghost h: HeapView, ghost b: nat)
    returns (at: nat, ghost c: nat)
    requires heap.Valid() && h.Valid() && HoldsBuffer(h, heap.View(), capacity, held, b)
    requires Fit(heap.View(), DEVICE_BYTES * entries)
    modifies heap.blocks
    ensures HoldsBuffer(h, heap.View(), entries, at, c)
    ensures heap.View() == Swapped(old(heap.View()), b, DEVICE_BYTES * entries)
    ensures c == FitAt(old(heap.View()), DEVICE_BYTES * entries)
  {
    ghost var g := heap.View();
    at, c := Take(heap, DEVICE_BYTES * entries);
    ghost var k := heap.View();
    Drop(heap, held, b);
    Exchanged(h, g, k, heap.View(), capacity, entries, held, at, b, c);
  }

  /** The buffer on the heap, and room for what is still to come. */
  ghost predicate Growing(h: HeapView, k: HeapView, capacity: nat, m: nat, at: nat, b: nat)
    requires h.Valid()
  {
    HoldsBuffer(h, k, capacity, at, b) && capacity > 0 && RoomToGrow(k, b, capacity, m)
  }

  /** Appends one device, growing the buffer first when it is full; `m` devices match in all. */
  method Append(heap: Heap, c: Component, ret: array<Component>, index: nat, at: nat,
                ghost h: HeapView, ghost m: nat, ghost b: nat)
    returns (ret': array<Component>, at': nat, ghost b': nat)
    requires heap.Valid() && h.Valid() && Growing(h, heap.View(), ret.Length, m, at, b)
    requires index <= ret.Length && index < m
    modifies heap.blocks, ret
    ensures (ret' == ret || fresh(ret')) && index < ret'.Length
    ensures ret'[..index + 1] == old(ret[..index]) + [c]
    ensures heap.Shaped() && Growing(h, heap.View(), ret'.Length, m, at', b')
  {
    ret', at', b' := ret, at, b;
    if index >= ret.Length {
      ret', at', b' := Grow(heap, ret, at, h, m, b);
    }
    ret'[index] := c;
  }

  /** A longer buffer with the same entries. */
  method Grow(heap: Heap, ret: array<Component>, at: nat, ghost h: HeapView, ghost m: nat, ghost b: nat)
    returns (ret': array<Component>, at': nat, ghost b': nat)
    requires heap.Valid() && h.Valid() && Growing(h, heap.View(), ret.Length, m, at, b) && ret.Length < m
    modifies heap.blocks
    ensures fresh(ret') && ret'.Length == ret.Length + CHUNK && ret'[..ret.Length] == ret[..]
    ensures heap.Shaped() && Growing(h, heap.View(), ret'.Length, m, at', b')
  {
    ret' := new Component[ret.Length + CHUNK];
    forall k | 0 <= k < ret.Length {
      ret'[k] := ret[k];
    }
    at', b' := Exchange(heap, at, ret.Length, ret.Length + CHUNK, h, b);
  }

  method TakeFirst(heap: Heap, ghost m: nat) returns (at: nat, ghost b: nat)
    requires heap.Valid() && RoomToSelect(heap.View(), m)
    modifies heap.blocks
    ensures heap.Shaped() && Growing(old(heap.View()), heap.View(), CHUNK, m, at, b)
  {
    at, b := Take(heap, DEVICE_BYTES * CHUNK);
  }

  /** No request of a query that `m` devices match fails. */
  ghost predicate RoomToSelect(h: HeapView, m: nat) {
    var bytes := DEVICE_BYTES * CHUNK;
    Fit(h, bytes) && RoomToGrow(Next(h, bytes), FitAt(h, bytes), CHUNK, m)
  }

  /** Both bus queries: the matching devices in order, in a buffer that fits exactly, while no
      request fails. The heap holds that buffer and nothing else; with no match it is as it was, and
      the pointer is NULL. */
  method GetDevices(heap: Heap, devices: seq<Component>, q: Query)
    returns (ret: array<Component>, size: nat, at: nat, ghost b: nat)
    requires heap.Valid() && RoomToSelect(heap.View(), |Select(q, devices)|)
    modifies heap.blocks
    ensures ret[..] == Select(q, devices) && size == |Select(q, devices)|
    ensures IsAnswer(q, devices, ret[..])
    ensures size > 0 ==> HoldsBuffer(old(heap.View()), heap.View(), size, at, b)
    ensures size == 0 ==> at == NULL && heap.View() == old(heap.View())
  {
    SelectIsAnswer(q, devices);
    ghost var h, m := heap.View(), |Select(q, devices)|;
    at, b := TakeFirst(heap, m);
    var index;
    ret, index, at, b := Collect(heap, devices, q, at, h, b);
    size := ret.Length;
    if size > index {
      ret, at, b := Shrink(heap, ret, index, at, h, b);
      size := index;
    }
    assert ret[..] == ret[..index];
  }

  /** The loop over all devices. */
  method Collect(heap: Heap, devices: seq<Component>, q: Query, first: nat, ghost h: HeapView, ghost b: nat)
    returns (ret: array<Component>, index: nat, at: nat, ghost b': nat)
    requires heap.Valid() && h.Valid() && Growing(h, heap.View(), CHUNK, |Select(q, devices)|, first, b)
    modifies heap.blocks
    ensures fresh(ret) && index <= ret.Length && ret[..index] == Select(q, devices)
    ensures heap.Shaped() && Growing(h, heap.View(), ret.Length, index, at, b')
  {
    ghost var m := |Select(q, devices)|;
    at, b' := first, b;
    ret := new Component[CHUNK];
    index := 0;
    for i := 0 to |devices|
      invariant fresh(ret) && index <= ret.Length
      invariant ret[..index] == Select(q, devices[..i])
      invariant Growing(h, heap.View(), ret.Length, m, at, b')
    {
      SelectNext(q, devices, i);
      SelectGrows(q, devices, i + 1);
      if q.Matches(devices[i]) {
        ret, at, b' := Append(heap, devices[i], ret, index, at, h, m, b');
        index := index + 1;
      }
    }
    assert devices[..|devices|] == devices;
  }

  /** The final fit. For no entries at all the allocator answers NULL. */
  method Shrink(heap: Heap, ret: array<Component>, index: nat, at: nat, ghost h: HeapView, ghost b: nat)
    returns (ret': array<Component>, at': nat, ghost b': nat)
    requires heap.Valid() && h.Valid() && Growing(h, heap.View(), ret.Length, index, at, b)
    requires index < ret.Length
    modifies heap.blocks
    ensures fresh(ret') && ret'[..] == old(ret[..index])
    ensures index > 0 ==> HoldsBuffer(h, heap.View(), index, at', b')
    ensures index == 0 ==> at' == NULL && heap.View() == h
  {
    ret' := new Component[index];
    forall k | 0 <= k < index {
      ret'[k] := ret[k];
    }
    b' := b;
    if index == 0 {
      at' := NULL;
      Release(heap, at, ret.Length, h, b);
    } else {
      at', b' := Exchange(heap, at, ret.Length, index, h, b);
    }
  }

  /** Without the buffer the heap is as it was. */
  method Release(heap: Heap, at: nat, capacity: nat, ghost h: HeapView, ghost b: nat)
    requires heap.Valid() && h.Valid() && HoldsBuffer(h, heap.View(), capacity, at, b)
    modifies heap.blocks
    ensures heap.View() == h
  {
    Drop(heap, at, b);
    assert Runs(h.table)[b := Blocks(h, capacity)] - {b} == Runs(h.table);
    SameRunsSameHeap(heap.View(), h);
  }
}
