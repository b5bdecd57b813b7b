/** The exFAT driver: opening a file by path, with its buffers on the kernel heap. */
module ExfatDriver {
  import opened BlockTable
  import opened Allocator
  import opened ScratchHeap
  import opened ExfatFormat
  import opened ExfatLookup
  import ExfatEncode
  import ExfatDirectory

  const FILE_BYTES: nat := 48    // sizeof(exfat_file_entry_t)
  const NAME_BYTES: nat := 256

  /** An open file: its entry, and where the entry and the name lie on the heap. */
  datatype Opened = Opened(entry: FileEntry, at: nat, pathAt: nat)

  function Blocks(h: HeapView, bytes: nat): nat
    requires h.blockSize > 0
  {
    Needed(bytes, h.blockSize)
  }

  /** The scan of a directory falls through its first cluster and reads the table. */
  predicate ReadsTable(v: Volume, cluster: nat, name: seq<byte>)
    requires v.Cluster(cluster).Some? ==> FitFrom(v.Cluster(cluster).value, 0)
  {
    var b := v.Cluster(cluster);
    b.Some? && FindSet(SetsFrom(b.value, 0), name).None? && !EndsFrom(b.value, 0)
  }

  /** Each request of the scan of a directory is served when its turn comes: the blocks of a file
      if there is a set to try, the sector buffer if the table is read. `g` is the heap with the
      cluster buffer. */
  ghost predicate RoomBeside(v: Volume, g: HeapView, chain: seq<nat>, name: seq<byte>)
    requires Walk(v, chain)
  {
    && (Listing(v, chain) != [] ==> FitBoth(g, FILE_BYTES, NAME_BYTES))
    && (ReadsTable(v, chain[0], name) ==> Fit(g, SECTOR))
  }

  ghost predicate RoomToScan(v: Volume, h: HeapView, chain: seq<nat>, name: seq<byte>)
    requires Walk(v, chain)
  {
    Fit(h, v.ClusterBytes()) && RoomBeside(v, Next(h, v.ClusterBytes()), chain, name)
  }

  /** No request of the whole lookup fails. Each directory on the path is scanned on the same heap. */
  ghost predicate RoomToOpen(v: Volume, h: HeapView, directory: nat, tree: Tree, parts: seq<seq<byte>>)
    requires RepresentsAlong(v, directory, tree, parts)
    decreases |parts|
  {
    parts == [] ||
    (&& RoomToScan(v, h, tree.chain, parts[0])
     && var item := FindItem(tree.items, parts[0]);
        |parts| > 1 && item.Some? && item.value.entry.IsDirectory() ==>
          RoomToOpen(v, h, item.value.entry.info.firstCluster, item.value.below, parts[1..]))
  }

  method ReadCluster(v: Volume, cluster: nat, buffer: array<byte>) returns (ok: bool)
    requires buffer.Length == v.ClusterBytes()
    modifies buffer
    ensures ok <==> v.Cluster(cluster).Some?
    ensures ok ==> buffer[..] == v.Cluster(cluster).value
  {
    var lba := v.Lba(cluster);
    for s := 0 to v.sectorsPerCluster
      invariant v.Sectors(cluster, s).Some? && buffer[..s * SECTOR] == v.Sectors(cluster, s).value
    {
      var sector := v.Read(lba + s);
      if sector == None {
        NoClusterWithout(v, cluster, s, v.sectorsPerCluster);
        return false;
      }
      ghost var before := buffer[..s * SECTOR];
      forall k | 0 <= k < SECTOR {
        buffer[s * SECTOR + k] := sector.value[k];
      }
      assert buffer[..(s + 1) * SECTOR] == before + sector.value;
    }
    assert buffer[..] == buffer[..v.sectorsPerCluster * SECTOR];
    return true;
  }

  /** One sector that cannot be read is enough. */
  lemma {:induction false} NoClusterWithout(v: Volume, cluster: nat, s: nat, n: nat)
    requires s < n && v.Read(v.Lba(cluster) + s) == None
    ensures v.Sectors(cluster, n) == None
  {
    if s < n - 1 { NoClusterWithout(v, cluster, s, n - 1); }
  }

  /** The read of a table entry; 0 when the sector cannot be read. */
  method ReadTableWord(v: Volume, cluster: nat) returns (next: nat)
    ensures next == v.Next(cluster)
  {
    var sector := v.Read(v.start + v.fatOffset + cluster * 4 / SECTOR);
    if sector == None {
      return 0;
    }
    return U32At(sector.value, TableOffset(cluster));
  }

  /** Reads a table entry through a sector buffer, which is given back whether or not the read
      succeeds. */
  method GetFatEntry(heap: Heap, v: Volume, cluster: nat) returns (next: nat)
    requires heap.Valid() && Fit(heap.View(), SECTOR)
    modifies heap.blocks
    ensures heap.View() == old(heap.View())
    ensures next == v.Next(cluster)
  {
    var buffer, b := Take(heap, SECTOR);
    next := ReadTableWord(v, cluster);
    Drop(heap, buffer, b);
    SameRunsSameHeap(heap.View(), old(heap.View()));
  }

  /** Compares two NUL-terminated strings. */
  method StrCmp(a: seq<byte>, b: seq<byte>) returns (d: int)
    requires 0 in a && 0 in b
    ensures d == 0 <==> CString(a) == CString(b)
  {
    var i := 0;
    while a[i] != 0 && a[i] == b[i]
      invariant i < |a| && i < |b| && forall k | 0 <= k < i :: a[k] != 0 && a[k] == b[k]
      decreases |a| - i
    {
      NulAhead(a, i);
      NulAhead(b, i);
      i := i + 1;
    }
    CStringUpTo(a, i);
    CStringUpTo(b, i);
    d := (a[i] as int) - (b[i] as int);
  }

  lemma NulAhead(s: seq<byte>, i: nat)
    requires 0 in s && i < |s| && forall k | 0 <= k <= i :: s[k] != 0
    ensures i + 1 < |s|
  {
    var k :| 0 <= k < |s| && s[k] == 0;
  }

  lemma CStringUpTo(s: seq<byte>, i: nat)
    requires i < |s| && forall k | 0 <= k < i :: s[k] != 0
    ensures i <= |CString(s)| && CString(s)[..i] == s[..i]
    ensures s[i] == 0 ==> |CString(s)| == i
    ensures s[i] != 0 ==> i < |CString(s)| && CString(s)[i] == s[i]
  {
    var r := CString(s);
    assert forall k | 0 <= k < |r| :: r[k] == s[k] && r[k] != 0;
  }

  // ---- reading an entry set ----

  /** Appends the characters of one name entry; the buffer never holds more than 255. */
  method ReadName(e: seq<byte>, filename: array<byte>, index: nat, length: nat) returns (nameIndex: nat)
    requires |e| == ENTRY && filename.Length == NAME_BYTES && index <= 255 && length <= 255
    modifies filename
    ensures nameIndex <= 255 && filename[..nameIndex] == NameFrom(old(filename[..index]), length, e, 0)
  {
    nameIndex := index;
    var k := 0;
    while k < 15
      invariant k <= 15 && nameIndex <= 255
      invariant NameFrom(filename[..nameIndex], length, e, k) == NameFrom(old(filename[..index]), length, e, 0)
    {
      if nameIndex >= length {
        break;
      }
      ghost var before := filename[..nameIndex];
      filename[nameIndex] := e[2 + k * 2];
      nameIndex := nameIndex + 1;
      assert filename[..nameIndex] == before + [e[2 + k * 2]];
      k := k + 1;
    }
  }

  /** One secondary entry; the name so far is in the buffer. */
  method ReadSecondary(e: seq<byte>, p: Parsed, filename: array<byte>, index: nat) returns (q: Parsed, nameIndex: nat)
    requires |e| == ENTRY && filename.Length == NAME_BYTES && index <= 255 && p.nameLength <= 255
    modifies filename
    ensures nameIndex <= 255 && q.nameLength <= 255
    ensures q.(name := filename[..nameIndex]) == Secondary(p.(name := old(filename[..index])), e)
  {
    q, nameIndex := p, index;
    if e[0] == 0xC0 {
      q := Secondary(p, e);
    }
    if e[0] == 0xC1 {
      nameIndex := ReadName(e, filename, index, p.nameLength);
    }
  }

  /** Reads the set at slot `i` into an entry whose memory held `stale`, and its name into the
      name buffer, NUL-terminated. */
  method ReadSet(b: seq<byte>, i: nat, filename: array<byte>, stale: Parsed) returns (entry: FileEntry)
    requires i < Slots(b) && SetFits(b, i) && filename.Length == NAME_BYTES
    modifies filename
    ensures entry == SetAt(b, i, stale)
    ensures 0 in filename[..] && CString(filename[..]) == entry.Name()
    ensures ReadsBack(b, i, entry)
  {
    WrittenReadsBack(b, i, stale);
    var first := Slot(b, i);
    var count := first[1] as nat;
    var p := Unread(stale);
    var nameIndex: nat := 0;
    for f := 0 to count
      invariant nameIndex <= 255 && p.nameLength <= 255
      invariant p.(name := filename[..nameIndex]) == Secondaries(Unread(stale), b, i, f)
    {
      SecondariesStep(Unread(stale), b, i, f);
      p, nameIndex := ReadSecondary(Slot(b, i + 1 + f), p, filename, nameIndex);
    }
    filename[nameIndex] := 0;
    Terminated(filename[..], nameIndex);
    return FileEntry(U16At(first, 4), p.(name := filename[..nameIndex]));
  }

  /** The values of any set that was written at slot `i`. */
  ghost predicate ReadsBack(b: seq<byte>, i: nat, entry: FileEntry) {
    forall info: ExfatEncode.Info | info.Ok() && ExfatEncode.HoldsSet(b, i, info) ::
      ExfatDirectory.HasValues(entry, info)
  }

  lemma WrittenReadsBack(b: seq<byte>, i: nat, stale: Parsed)
    requires i < Slots(b) && SetFits(b, i)
    ensures ReadsBack(b, i, SetAt(b, i, stale))
  {
    forall info: ExfatEncode.Info | info.Ok() && ExfatEncode.HoldsSet(b, i, info)
      ensures ExfatDirectory.HasValues(SetAt(b, i, stale), info)
    {
      ExfatEncode.SetBack(b, i, info, stale);
      ExfatDirectory.DecodedName(info);
    }
  }

  lemma SecondariesStep(p: Parsed, b: seq<byte>, i: nat, f: nat)
    requires i + f + 1 < Slots(b)
    ensures Secondaries(p, b, i, f + 1) == Secondary(Secondaries(p, b, i, f), Slot(b, i + 1 + f))
  {
    assert i + (f + 1) == i + 1 + f;
  }

  /** Behind a terminator nothing counts. */
  lemma Terminated(s: seq<byte>, n: nat)
    requires n < |s| && s[n] == 0
    ensures 0 in s && CString(s) == CString(s[..n])
  {
    var a, b := CString(s), CString(s[..n]);
    assert forall k | 0 <= k < |a| :: a[k] == s[k] && a[k] != 0;
    assert forall k | 0 <= k < |b| :: b[k] == s[k] && b[k] != 0;
  }

  // ---- scanning a directory ----

  /** The heap with a file entry at block `f` and its name at block `n`, and nothing else new. */
  ghost predicate HoldsFile(h: HeapView, k: HeapView, o: Opened, f: nat, n: nat) {
    && k.Valid() && SameShape(k, h)
    && f != n && f !in Runs(h.table) && n !in Runs(h.table)
    && Runs(k.table) == Runs(h.table)[f := Blocks(h, FILE_BYTES)][n := Blocks(h, NAME_BYTES)]
    && o.at == k.AddrOf(f) && o.pathAt == k.AddrOf(n)
  }

  /** Takes the two blocks of a file. */
  method TakeFile(heap: Heap) returns (at: nat, pathAt: nat, ghost f: nat, ghost n: nat)
    requires heap.Valid() && FitBoth(heap.View(), FILE_BYTES, NAME_BYTES)
    modifies heap.blocks
    ensures HoldsFile(old(heap.View()), heap.View(), Opened(FileEntry(0, BLANK), at, pathAt), f, n)
  {
    at, f := Take(heap, FILE_BYTES);
    pathAt, n := Take(heap, NAME_BYTES);
  }

  lemma BothDropped(runs: map<nat, nat>, f: nat, x: nat, n: nat, y: nat)
    requires f !in runs && n !in runs && f != n
    ensures runs[f := x][n := y] - {n} - {f} == runs
  {
  }

  /** Gives both back: the heap is as it was. */
  method DropFile(heap: Heap, o: Opened, ghost h: HeapView, ghost f: nat, ghost n: nat)
    requires heap.Valid() && h.Valid() && HoldsFile(h, heap.View(), o, f, n)
    modifies heap.blocks
    ensures heap.View() == h
  {
    Drop(heap, o.pathAt, n);
    Drop(heap, o.at, f);
    BothDropped(Runs(h.table), f, Blocks(h, FILE_BYTES), n, Blocks(h, NAME_BYTES));
    SameRunsSameHeap(heap.View(), h);
  }

  /** Reads the set at slot `i` into fresh blocks and keeps them only if the name matches. */
  method TrySet(heap: Heap, b: seq<byte>, i: nat, component: seq<byte>, stale: Parsed)
    returns (found: Option<Opened>, ghost f: nat, ghost n: nat)
    requires heap.Valid() && FitBoth(heap.View(), FILE_BYTES, NAME_BYTES)
    requires i < Slots(b) && SetFits(b, i) && 0 in component && CString(component) != []
    modifies heap.blocks
    ensures found.Some? <==> SetAt(b, i, BLANK).Name() == CString(component)
    ensures found.Some? ==> found.value.entry == SetAt(b, i, BLANK)
                            && HoldsFile(old(heap.View()), heap.View(), found.value, f, n)
    ensures found.None? ==> heap.View() == old(heap.View())
  {
    var at, pathAt;
    at, pathAt, f, n := TakeFile(heap);
    var filename := new byte[NAME_BYTES];
    var entry := ReadSet(b, i, filename, stale);
    StaleDoesNotMatter(b, i, stale);
    var d := StrCmp(filename[..], component);
    var o := Opened(entry, at, pathAt);
    if d == 0 {
      return Some(o), f, n;
    }
    DropFile(heap, o, old(heap.View()), f, n);
    found := None;
  }

  lemma StaleDoesNotMatter(b: seq<byte>, i: nat, stale: Parsed)
    requires i < Slots(b) && SetFits(b, i)
    ensures SetAt(b, i, stale).Name() == SetAt(b, i, BLANK).Name()
    ensures SetAt(b, i, stale).Name() != [] ==> SetAt(b, i, stale) == SetAt(b, i, BLANK)
  {
    NoStaleFields(b, i, Slot(b, i)[1] as nat, stale, BLANK);
  }

  datatype Scan = Match(o: Opened) | End | More

  /** What a scan from slot `i` finds: the first set with the name, and whether the end marker is there. */
  ghost function Search(b: seq<byte>, i: nat, name: seq<byte>): (Option<FileEntry>, bool)
    requires i <= Slots(b) && FitFrom(b, i)
  {
    (FindSet(SetsFrom(b, i), name), EndsFrom(b, i))
  }

  /** What one slot contributes to the search. */
  lemma SlotStep(b: seq<byte>, i: nat, name: seq<byte>)
    requires i < Slots(b) && FitFrom(b, i)
    ensures var tag := Slot(b, i)[0];
            if tag == 0 then Search(b, i, name) == (None, true)
            else
              && FitFrom(b, i + 1) && (tag == 0x85 ==> SetFits(b, i))
              && (tag == 0x85 || SetsFrom(b, i + 1) != [] ==> SetsFrom(b, i) != [])
              && Search(b, i, name) ==
                   if tag == 0x85 && SetAt(b, i, BLANK).Name() == name then (Some(SetAt(b, i, BLANK)), EndsFrom(b, i))
                   else Search(b, i + 1, name)
  {
    if Slot(b, i)[0] == 0x85 {
      var s := SetsFrom(b, i);
      assert s[0] == SetAt(b, i, BLANK) && s[1..] == SetsFrom(b, i + 1);
    }
  }

  /** One slot of the scan. */
  method ScanSlot(heap: Heap, b: seq<byte>, i: nat, component: seq<byte>)
    returns (res: Scan, ghost f: nat, ghost n: nat)
    requires heap.Valid() && i < Slots(b) && FitFrom(b, i) && 0 in component && CString(component) != []
    requires SetsFrom(b, i) != [] ==> FitBoth(heap.View(), FILE_BYTES, NAME_BYTES)
    modifies heap.blocks
    ensures res.Match? ==> Search(b, i, CString(component)).0 == Some(res.o.entry)
                           && HoldsFile(old(heap.View()), heap.View(), res.o, f, n)
    ensures !res.Match? ==> heap.View() == old(heap.View())
    ensures res.End? ==> Search(b, i, CString(component)) == (None, true)
    ensures res.More? ==> FitFrom(b, i + 1) && Search(b, i, CString(component)) == Search(b, i + 1, CString(component))
                          && (SetsFrom(b, i + 1) != [] ==> SetsFrom(b, i) != [])
  {
    f, n := 0, 0;
    var e := Slot(b, i);
    SlotStep(b, i, CString(component));
    if e[0] == 0x00 {
      return End, f, n;
    }
    if e[0] != 0x85 {
      return More, f, n;
    }
    var stale: Parsed := *;
    var found;
    found, f, n := TrySet(heap, b, i, component, stale);
    return if found.Some? then Match(found.value) else More, f, n;
  }

  /** Scans the slots of one cluster: the first set with the name, or the end marker, or neither. */
  method ScanSlots(heap: Heap, b: seq<byte>, component: seq<byte>)
    returns (res: Scan, ghost f: nat, ghost n: nat)
    requires heap.Valid() && FitFrom(b, 0) && 0 in component && CString(component) != []
    requires SetsFrom(b, 0) != [] ==> FitBoth(heap.View(), FILE_BYTES, NAME_BYTES)
    modifies heap.blocks
    ensures res.Match? ==> Search(b, 0, CString(component)).0 == Some(res.o.entry)
                           && HoldsFile(old(heap.View()), heap.View(), res.o, f, n)
    ensures !res.Match? ==> heap.View() == old(heap.View())
    ensures !res.Match? ==> Search(b, 0, CString(component)) == (None, res.End?)
  {
    f, n := 0, 0;
    var i := 0;
    while i < Slots(b)
      invariant i <= Slots(b) && FitFrom(b, i) && heap.View() == old(heap.View())
      invariant SetsFrom(b, i) != [] ==> SetsFrom(b, 0) != []
      invariant Search(b, 0, CString(component)) == Search(b, i, CString(component))
    {
      res, f, n := ScanSlot(heap, b, i, component);
      if !res.More? {
        return;
      }
      i := i + 1;
    }
    return More, f, n;
  }

  /** Giving the cluster buffer back leaves the file and nothing else. */
  lemma FileWithoutBuffer(h: HeapView, g: HeapView, k: HeapView, m: HeapView, o: Opened, f: nat, n: nat, b: nat,
                          size: nat)
    requires h.Valid() && m.Valid() && SameShape(g, h) && b !in Runs(h.table)
    requires Runs(g.table) == Runs(h.table)[b := size]
    requires HoldsFile(g, k, o, f, n) && SameShape(m, k) && Runs(m.table) == Runs(k.table) - {b}
    ensures HoldsFile(h, m, o, f, n)
  {
    BufferDropped(Runs(h.table), b, size, f, Blocks(h, FILE_BYTES), n, Blocks(h, NAME_BYTES));
  }

  /** The heap `m` after the scan: it holds the file that was found, or is what it was. */
  lemma BufferReturned(h: HeapView, g: HeapView, k: HeapView, m: HeapView, found: Option<Opened>, f: nat, n: nat,
                       b: nat, size: nat)
    requires h.Valid() && Grown(h, g, size, b) && m.Valid() && SameShape(m, k) && Runs(m.table) == Runs(k.table) - {b}
    requires if found.Some? then HoldsFile(g, k, found.value, f, n) else k == g
    ensures if found.Some? then HoldsFile(h, m, found.value, f, n) else m == h
  {
    if found.Some? {
      FileWithoutBuffer(h, g, k, m, found.value, f, n, b, size);
    } else {
      assert Runs(h.table)[b := size] - {b} == Runs(h.table);
      SameRunsSameHeap(m, h);
    }
  }

  lemma BufferDropped(runs: map<nat, nat>, b: nat, size: nat, f: nat, x: nat, n: nat, y: nat)
    requires b !in runs && f !in runs[b := size] && n !in runs[b := size]
    ensures runs[b := size][f := x][n := y] - {b} == runs[f := x][n := y]
  {
  }

  /** Follows the chain of a directory, cluster by cluster through one buffer. The walk ends
      because its chain does. */
  method ScanChain(heap: Heap, v: Volume, directory: nat, component: seq<byte>, buffer: array<byte>,
                   ghost chain: seq<nat>)
    returns (found: Option<Opened>, ghost f: nat, ghost n: nat)
    requires heap.Valid() && Walk(v, chain) && chain[0] == directory && 0 in component && CString(component) != []
    requires RoomBeside(v, heap.View(), chain, CString(component))
    requires buffer.Length == v.ClusterBytes()
    modifies heap.blocks, buffer
    ensures FindSet(Listing(v, chain), CString(component)) == if found.Some? then Some(found.value.entry) else None
    ensures found.Some? ==> HoldsFile(old(heap.View()), heap.View(), found.value, f, n)
    ensures found.None? ==> heap.View() == old(heap.View())
  {
    ghost var name := CString(component);
    var cluster := directory;
    ghost var rest := chain;
    found, f, n := None, 0, 0;
    while true
      invariant heap.View() == old(heap.View())
      invariant Walk(v, rest) && rest[0] == cluster && RoomBeside(v, heap.View(), rest, name)
      invariant FindSet(Listing(v, chain), name) == FindSet(Listing(v, rest), name)
      decreases |rest|
    {
      var ok := ReadCluster(v, cluster, buffer);
      if !ok {
        return;
      }
      ListingHead(v, rest, name);
      var res;
      res, f, n := ScanSlots(heap, buffer[..], component);
      if res.Match? {
        return Some(res.o), f, n;
      }
      if res.End? {
        return;
      }
      var next := GetFatEntry(heap, v, cluster);
      if next >= END_OF_CHAIN {
        return;
      }
      cluster := next;
      rest := rest[1..];
    }
  }

  /** Scans a directory; the cluster buffer is given back on every path. */
  method ScanDirectory(heap: Heap, v: Volume, directory: nat, component: seq<byte>,
                       ghost chain: seq<nat>)
    returns (found: Option<Opened>, ghost f: nat, ghost n: nat)
    requires heap.Valid() && Walk(v, chain) && chain[0] == directory && 0 in component && CString(component) != []
    requires RoomToScan(v, heap.View(), chain, CString(component))
    modifies heap.blocks
    ensures FindSet(Listing(v, chain), CString(component)) == if found.Some? then Some(found.value.entry) else None
    ensures found.Some? ==> HoldsFile(old(heap.View()), heap.View(), found.value, f, n)
    ensures found.None? ==> heap.View() == old(heap.View())
  {
    ghost var h, bytes := heap.View(), Blocks(heap.View(), v.ClusterBytes());
    var at, block := Take(heap, v.ClusterBytes());
    ghost var g := heap.View();
    var buffer := new byte[v.ClusterBytes()];
    found, f, n := ScanChain(heap, v, directory, component, buffer, chain);
    ghost var k := heap.View();
    Drop(heap, at, block);
    BufferReturned(h, g, k, heap.View(), found, f, n, block, bytes);
  }

  /** A search of a listing is a search of its first cluster, then of the rest. */
  lemma ListingHead(v: Volume, chain: seq<nat>, name: seq<byte>)
    requires Walk(v, chain)
    ensures var b := v.Cluster(chain[0]);
            b.Some? ==>
              var here := FindSet(SetsFrom(b.value, 0), name);
              FindSet(Listing(v, chain), name) ==
                if here.Some? then here else if Stops(v, chain[0]) then None else FindSet(Listing(v, chain[1..]), name)
    ensures v.Cluster(chain[0]).Some? && SetsFrom(v.Cluster(chain[0]).value, 0) != [] ==> Listing(v, chain) != []
    ensures !Stops(v, chain[0]) && Listing(v, chain[1..]) != [] ==> Listing(v, chain) != []
  {
    var b := v.Cluster(chain[0]);
    if b.Some? && !Stops(v, chain[0]) {
      FindSetConcat(SetsFrom(b.value, 0), Listing(v, chain[1..]), name);
    }
  }

  // ---- opening a file ----

  /** Copies the next component into the component buffer. A pointer into the path is the string
      it points to. */
  method NextComponent(current: seq<byte>, component: array<byte>) returns (length: nat)
    requires 0 !in current && component.Length == 256 && |Head(current)| <= 255
    modifies component
    ensures length == |Head(current)|
    ensures 0 in component[..] && CString(component[..]) == Head(current)
  {
    ghost var head := Head(current);
    HeadIsPrefix(current);
    length := 0;
    while length < |current| && current[length] != SLASH
      invariant length <= |head| && component[..length] == head[..length]
    {
      assert length < |head| && head[length] == current[length];
      component[length] := current[length];
      length := length + 1;
    }
    assert length == |head|;
    component[length] := 0;
    Terminated(component[..], length);
    NoNul(head);
    assert component[..length] == head;
  }

  lemma NoNul(s: seq<byte>)
    requires 0 !in s
    ensures CString(s) == s
  {
  }

  method SkipOver(from: seq<byte>) returns (next: seq<byte>)
    ensures next == SkipSlashes(from) && |next| <= |from|
  {
    next := from;
    while next != [] && next[0] == SLASH
      invariant SkipSlashes(next) == SkipSlashes(from) && |next| <= |from|
    {
      next := next[1..];
    }
  }

  /** Cuts the next component off the path: into the buffer, and on to the one behind it. */
  method Advance(current: seq<byte>, component: array<byte>) returns (next: seq<byte>)
    requires 0 !in current && component.Length == 256
    requires current != [] && current == SkipSlashes(current) && |Head(current)| <= 255
    modifies component
    ensures |next| < |current| && 0 !in next && next == SkipSlashes(next)
    ensures Components(current) == [CString(component[..])] + Components(next)
    ensures 0 in component[..] && CString(component[..]) != []
    ensures next == [] <==> Components(next) == []
  {
    var length := NextComponent(current, component);
    next := SkipOver(current[length..]);
    PartsBehind(current, next);
    SuffixBehind(current, next);
  }

  lemma PartsBehind(current: seq<byte>, next: seq<byte>)
    requires current != [] && current == SkipSlashes(current) && next == SkipSlashes(current[|Head(current)|..])
    ensures Head(current) != [] && Components(current) == [Head(current)] + Components(next)
    ensures next == SkipSlashes(next) && (next == [] <==> Components(next) == [])
  {
    FirstPart(current);
    var behind := current[|Head(current)|..];
    ComponentsOfSuffix(behind);
    NoPartsLeft(next);
  }

  lemma SuffixBehind(current: seq<byte>, next: seq<byte>)
    requires current != [] && current[0] != SLASH && next == SkipSlashes(current[|Head(current)|..])
    ensures |next| < |current| && (0 !in current ==> 0 !in next)
  {
    SkippedIsSuffix(current[|Head(current)|..]);
    SuffixOfSuffix(current, |Head(current)|, next);
  }

  lemma SuffixOfSuffix(s: seq<byte>, k: nat, next: seq<byte>)
    requires k <= |s| && |next| <= |s| - k && next == s[k..][|s| - k - |next|..]
    ensures 0 !in s ==> 0 !in next
  {
    assert next == s[|s| - |next|..];
  }

  lemma FirstPart(p: seq<byte>)
    requires p != [] && p == SkipSlashes(p)
    ensures Head(p) != []
    ensures Components(p) == [Head(p)] + Components(p[|Head(p)|..])
  {
    assert p[0] != SLASH;
  }

  lemma NoPartsLeft(p: seq<byte>)
    requires p == SkipSlashes(p)
    ensures p == [] <==> Components(p) == []
  {
  }

  /** The search for the first of the components: the answer to the whole lookup, or the directory
      in which it goes on. */
  method OpenComponent(heap: Heap, v: Volume, directory: nat, component: seq<byte>, last: bool,
                       ghost parts: seq<seq<byte>>, ghost tree: Tree)
    returns (file: Option<Opened>, deeper: bool, below: nat, ghost sub: Tree, ghost f: nat, ghost n: nat)
    requires heap.Valid() && parts != [] && RepresentsAlong(v, directory, tree, parts)
    requires RoomToOpen(v, heap.View(), directory, tree, parts)
    requires 0 in component && CString(component) == parts[0] != [] && (last <==> |parts| == 1)
    modifies heap.blocks
    ensures deeper ==>
      && file.None? && !last && RepresentsAlong(v, below, sub, parts[1..])
      && RoomToOpen(v, heap.View(), below, sub, parts[1..]) && Lookup(tree, parts) == Lookup(sub, parts[1..])
    ensures !deeper ==> Lookup(tree, parts) == if file.Some? then Some(file.value.entry) else None
    ensures file.Some? ==> HoldsFile(old(heap.View()), heap.View(), file.value, f, n)
    ensures file.None? ==> heap.View() == old(heap.View())
  {
    deeper, below, sub := false, 0, Leaf;
    StepDown(v, directory, tree, parts);
    file, f, n := ScanDirectory(heap, v, directory, component, tree.chain);
    if file == None || last {
      return;
    }
    var found := file.value;
    DropFile(heap, found, old(heap.View()), f, n);
    file := None;
    if !found.entry.IsDirectory() {
      return;
    }
    deeper, below := true, found.entry.info.firstCluster;
    sub := FindItem(tree.items, parts[0]).value.below;
  }

  lemma FirstIsHead(p: seq<byte>, parts: seq<seq<byte>>)
    requires p != [] && p == SkipSlashes(p) && parts == Components(p) && ShortParts(parts)
    ensures parts != [] && parts[0] == Head(p) && |Head(p)| <= 255
  {
  }

  lemma RestOfParts(parts: seq<seq<byte>>, rest: seq<seq<byte>>)
    requires parts != [] && ShortParts(parts) && parts == [parts[0]] + rest
    ensures rest == parts[1..] && ShortParts(rest)
  {
  }

  predicate ShortParts(parts: seq<seq<byte>>) {
    forall i | 0 <= i < |parts| :: |parts[i]| <= 255
  }

  /** Opens the file a path leads to. The answer is the recursive lookup in the directory tree, for
      every path whose directories have ending walks, while no request fails; a failed open leaves
      the heap as it was, a successful one holds the entry and its name and nothing else. */
  method OpenFile(heap: Heap, v: Volume, path: seq<byte>, ghost root: Tree)
    returns (file: Option<Opened>, ghost f: nat, ghost n: nat)
    requires heap.Valid() && 0 !in path && ShortParts(Components(path))
    requires RepresentsAlong(v, v.rootCluster, root, Components(path))
    requires RoomToOpen(v, heap.View(), v.rootCluster, root, Components(path))
    modifies heap.blocks
    ensures Lookup(root, Components(path)) == if file.Some? then Some(file.value.entry) else None
    ensures file.Some? ==> HoldsFile(old(heap.View()), heap.View(), file.value, f, n)
    ensures file.None? ==> heap.View() == old(heap.View())
    ensures forall d | ExfatDirectory.OnDisk(v, v.rootCluster, d) ::
              ExfatDirectory.Answers(d, Components(path), if file.Some? then Some(file.value.entry) else None)
  {
    AnswersOnDisk(v, root, path);
    ComponentsOfSuffix(path);
    SkippedIsSuffix(path);
    var start := SkipOver(path);
    assert start == path[|path| - |start|..];
    file, f, n := OpenFrom(heap, v, start, root);
  }

  /** On a volume written as a tree of directories the lookup gives the values that were written. */
  lemma AnswersOnDisk(v: Volume, root: Tree, path: seq<byte>)
    requires RepresentsAlong(v, v.rootCluster, root, Components(path))
    ensures forall d | ExfatDirectory.OnDisk(v, v.rootCluster, d) ::
              ExfatDirectory.Answers(d, Components(path), Lookup(root, Components(path)))
  {
    PartsAreNotEmpty(path);
    forall d | ExfatDirectory.OnDisk(v, v.rootCluster, d)
      ensures ExfatDirectory.Answers(d, Components(path), Lookup(root, Components(path)))
    {
      ExfatDirectory.LookupAnswers(v, root, d, Components(path));
    }
  }

  /** The loop over the components. */
  method OpenFrom(heap: Heap, v: Volume, path: seq<byte>, ghost root: Tree)
    returns (file: Option<Opened>, ghost f: nat, ghost n: nat)
    requires heap.Valid() && 0 !in path && ShortParts(Components(path)) && path == SkipSlashes(path)
    requires RepresentsAlong(v, v.rootCluster, root, Components(path))
    requires RoomToOpen(v, heap.View(), v.rootCluster, root, Components(path))
    modifies heap.blocks
    ensures Lookup(root, Components(path)) == if file.Some? then Some(file.value.entry) else None
    ensures file.Some? ==> HoldsFile(old(heap.View()), heap.View(), file.value, f, n)
    ensures file.None? ==> heap.View() == old(heap.View())
  {
    file, f, n := None, 0, 0;
    var current := path;
    var directory := v.rootCluster;
    ghost var tree := root;
    var component := new byte[256];
    while current != []
      invariant 0 !in current && current == SkipSlashes(current) && ShortParts(Components(current))
      invariant heap.View() == old(heap.View()) && RepresentsAlong(v, directory, tree, Components(current))
      invariant RoomToOpen(v, heap.View(), directory, tree, Components(current))
      invariant Lookup(root, Components(path)) == Lookup(tree, Components(current))
      invariant file == None
      decreases |current|
    {
      ghost var parts := Components(current);
      FirstIsHead(current, parts);
      var next := Advance(current, component);
      RestOfParts(parts, Components(next));
      var deeper, below;
      ghost var sub;
      file, deeper, below, sub, f, n :=
        OpenComponent(heap, v, directory, component[..], next == [], parts, tree);
      if !deeper {
        return;
      }
      current, directory := next, below;
      tree := sub;
    }
  }
}
