/** Reading a whole file: contiguous clusters or a chain in the allocation table, through one
    cluster buffer on the kernel heap. */
module ExfatRead {
  import opened Words
  import opened BlockTable
  import opened Allocator
  import opened ScratchHeap
  import opened ExfatFormat
  import opened ExfatBytes
  import opened ExfatDriver

  // The unchecked read computes the size of a cluster as an `int`, which overflows from this many sectors on.
  const INT_CLUSTER_LIMIT: nat := 0x40_0000

  /** The stream of a file: its first cluster, its length, and whether its clusters are contiguous. */
  datatype Stream = Stream(first: nat, length: nat, contiguous: bool) {

    function Step(v: Volume, cluster: nat): nat {
      if contiguous then U32(cluster + 1) else v.Next(cluster)
    }

    /** The `k`-th cluster of the stream. */
    function At(v: Volume, k: nat): nat {
      if k == 0 then first else Step(v, At(v, k - 1))
    }

    /** Clusters it takes to hold the file. */
    function Count(v: Volume): nat
      requires v.sectorsPerCluster > 0
    {
      CeilDiv(length, v.ClusterBytes())
    }

    /** Reading the file takes a look at the table: it has a chain of more than one cluster. */
    predicate FollowsTable(v: Volume)
      requires v.sectorsPerCluster > 0
    {
      !contiguous && Count(v) > 1
    }

    /** The `k`-th cluster is there: reading has not run off the chain, and the cluster can be read. */
    predicate Present(v: Volume, k: nat) {
      v.Cluster(At(v, k)).Some? && (!contiguous && k > 0 ==> At(v, k) < END_OF_CHAIN)
    }

    /** Every cluster of the file is there. */
    predicate Readable(v: Volume)
      requires v.sectorsPerCluster > 0
    {
      forall k | 0 <= k < Count(v) :: Present(v, k)
    }

    /** The file's byte `i` is `b`: byte `i % size` of cluster `i / size`. */
    predicate ByteIs(v: Volume, i: nat, b: byte)
      requires v.sectorsPerCluster > 0
    {
      ByteAt(v, i / v.ClusterBytes(), i % v.ClusterBytes(), b)
    }

    predicate ByteAt(v: Volume, k: nat, j: nat, b: byte)
      requires j < v.ClusterBytes()
    {
      var c := v.Cluster(At(v, k));
      c.Some? && b == c.value[j]
    }

    /** `bytes` is the start of the file. */
    ghost predicate Holds(v: Volume, bytes: seq<byte>)
      requires v.sectorsPerCluster > 0
    {
      forall i | 0 <= i < |bytes| :: ByteIs(v, i, bytes[i])
    }
  }

  /** The stream of an open file; bit 1 of its flags says that no chain is recorded. */
  function StreamOf(e: FileEntry): Stream {
    Stream(e.info.firstCluster, e.info.dataLength, And(e.info.flags, 2) != 0)
  }

  /** A consecutive chain reads the same either way. */
  lemma {:induction false} ModesAgree(v: Volume, first: nat, length: nat, k: nat)
    requires first + k < TWO32 && forall c | first <= c < first + k :: v.Next(c) == c + 1
    ensures Stream(first, length, true).At(v, k) == Stream(first, length, false).At(v, k) == first + k
  {
    if k > 0 {
      ModesAgree(v, first, length, k - 1);
      RemainderSmall(first + k, TWO32);
    }
  }

  /** Copies one more cluster (or the tail that is left) behind `done` bytes. */
  lemma HoldsMore(s: Stream, v: Volume, k: nat, bytes: seq<byte>, more: seq<byte>)
    requires v.sectorsPerCluster > 0 && s.Holds(v, bytes) && |bytes| == k * v.ClusterBytes()
    requires v.Cluster(s.At(v, k)).Some? && more <= v.Cluster(s.At(v, k)).value
    ensures s.Holds(v, bytes + more)
  {
    var size := v.ClusterBytes();
    forall i | |bytes| <= i < |bytes + more|
      ensures i / size == k && i % size == i - |bytes|
    {
      DivModUnique(i, size, k, i - |bytes|);
    }
  }

  /** Each request of a read is served when its turn comes: the data, unless the file is empty, ... */
  ghost predicate RoomToRead(v: Volume, h: HeapView, s: Stream) {
    && h.Valid() && v.sectorsPerCluster > 0
    && if s.length == 0 then RoomForBuffer(v, h, s) else Fit(h, s.length) && RoomForBuffer(v, Next(h, s.length), s)
  }

  /** ... then the cluster buffer, and beside it a sector buffer whenever the table is read. */
  ghost predicate RoomForBuffer(v: Volume, h: HeapView, s: Stream)
    requires v.sectorsPerCluster > 0
  {
    Fit(h, v.ClusterBytes()) && (s.FollowsTable(v) ==> Fit(Next(h, v.ClusterBytes()), SECTOR))
  }

  /** The bytes the next cluster contributes. */
  lemma TailOfStream(v: Volume, s: Stream, k: nat)
    requires v.sectorsPerCluster > 0 && k * v.ClusterBytes() < s.length
    ensures k < s.Count(v)
    ensures s.length <= (k + 1) * v.ClusterBytes() ==> k + 1 == s.Count(v)
    ensures s.length > (k + 1) * v.ClusterBytes() ==> k + 1 < s.Count(v)
  {
    CeilDivAbove(s.length, v.ClusterBytes(), k);
    CeilDivAbove(s.length, v.ClusterBytes(), k + 1);
  }

  method CopyInto(data: array<byte>, done: nat, from: array<byte>, n: nat)
    requires data != from && done + n <= data.Length && n <= from.Length
    modifies data
    ensures data[..done + n] == old(data[..done]) + from[..n]
  {
    for i := 0 to n
      invariant data[..done] == old(data[..done])
      invariant forall k | 0 <= k < i :: data[done + k] == from[k]
    {
      data[done + i] := from[i];
    }
    assert data[..done + n] == data[..done] + data[done..done + n];
    assert data[done..done + n] == from[..n];
  }

  /** Copies what cluster `k` holds of the file behind the `done` bytes before it. */
  method CopyPart(v: Volume, s: Stream, ghost k: nat, data: array<byte>, done: nat, buffer: array<byte>)
    returns (after: nat)
    requires v.sectorsPerCluster > 0 && data != buffer && data.Length == s.length && buffer.Length == v.ClusterBytes()
    requires done == k * v.ClusterBytes() < s.length
    modifies data
    ensures after == Min(s.length, (k + 1) * v.ClusterBytes()) > done
    ensures old(s.Holds(v, data[..done])) && v.Cluster(s.At(v, k)) == Some(buffer[..]) ==> s.Holds(v, data[..after])
  {
    var n := Min(s.length - done, v.ClusterBytes());
    after := done + n;
    ghost var before := data[..done];
    if s.Holds(v, before) && v.Cluster(s.At(v, k)) == Some(buffer[..]) {
      HoldsMore(s, v, k, before, buffer[..n]);
    }
    CopyInto(data, done, buffer, n);
  }

  /** The next cluster of a stream. */
  method NextCluster(heap: Heap, v: Volume, s: Stream, cluster: nat) returns (next: nat)
    requires heap.Valid() && (!s.contiguous ==> Fit(heap.View(), SECTOR))
    modifies heap.blocks
    ensures heap.View() == old(heap.View()) && next == s.Step(v, cluster)
  {
    if s.contiguous {
      next := U32(cluster + 1);
    } else {
      next := GetFatEntry(heap, v, cluster);
    }
  }

  /** `done` bytes are read and `k` clusters used up. */
  ghost predicate UpTo(v: Volume, s: Stream, k: nat, done: nat)
    requires v.sectorsPerCluster > 0
  {
    && done == Min(s.length, k * v.ClusterBytes())
    && if done < s.length then k < s.Count(v) else k == s.Count(v)
  }

  lemma UpToNext(v: Volume, s: Stream, k: nat, done: nat, after: nat)
    requires v.sectorsPerCluster > 0 && UpTo(v, s, k, done) && done < s.length
    requires after == Min(s.length, (k + 1) * v.ClusterBytes())
    ensures UpTo(v, s, k + 1, after)
  {
    TailOfStream(v, s, k);
  }

  /** The loop of the checked read. It succeeds exactly when every cluster of the file is there,
      and then the data holds the file. */
  method FillChecked(heap: Heap, v: Volume, s: Stream, data: array<byte>, buffer: array<byte>)
    returns (ok: bool)
    requires heap.Valid() && v.sectorsPerCluster > 0 && (s.FollowsTable(v) ==> Fit(heap.View(), SECTOR))
    requires data != buffer && data.Length == s.length && buffer.Length == v.ClusterBytes()
    modifies heap.blocks, data, buffer
    ensures heap.View() == old(heap.View())
    ensures ok <==> s.Readable(v)
    ensures ok ==> s.Holds(v, data[..])
  {
    var done := 0;
    var cluster := s.first;
    ghost var k := 0;
    CeilDivAbove(s.length, v.ClusterBytes(), 0);
    while done < s.length
      invariant heap.View() == old(heap.View())
      invariant done <= s.length && UpTo(v, s, k, done)
      invariant done < s.length ==> cluster == s.At(v, k) && (!s.contiguous && k > 0 ==> cluster < END_OF_CHAIN)
      invariant s.Holds(v, data[..done])
      invariant forall j | 0 <= j < k :: s.Present(v, j)
      decreases s.length - done
    {
      var got := ReadCluster(v, cluster, buffer);
      if !got {
        assert !s.Present(v, k);
        return false;
      }
      assert s.Present(v, k);
      var after := CopyPart(v, s, k, data, done, buffer);
      UpToNext(v, s, k, done, after);
      done, k := after, k + 1;
      if done < s.length {
        cluster := NextCluster(heap, v, s, cluster);
        if !s.contiguous && cluster >= END_OF_CHAIN {
          assert !s.Present(v, k);
          return false;
        }
      }
    }
    assert data[..done] == data[..];
    return true;
  }

  /** A read that goes on when sectors fail: the buffer keeps what it held there. */
  method ReadClusterLoose(v: Volume, cluster: nat, buffer: array<byte>)
    requires buffer.Length == v.ClusterBytes()
    modifies buffer
    ensures v.Cluster(cluster).Some? ==> v.Cluster(cluster) == Some(buffer[..])
  {
    var lba := v.Lba(cluster);
    for i := 0 to v.sectorsPerCluster
      invariant v.Sectors(cluster, i).Some? ==> buffer[..i * SECTOR] == v.Sectors(cluster, i).value
    {
      var sector := v.Read(lba + i);
      ghost var before := buffer[..i * SECTOR];
      if sector.Some? {
        forall k | 0 <= k < SECTOR {
          buffer[i * SECTOR + k] := sector.value[k];
        }
        assert buffer[..(i + 1) * SECTOR] == before + sector.value;
      }
    }
    assert buffer[..] == buffer[..v.sectorsPerCluster * SECTOR];
  }

  /** The loop of the unchecked read: it always runs to the end, and on a readable file the data
      holds the file. */
  method FillUnchecked(heap: Heap, v: Volume, s: Stream, data: array<byte>, buffer: array<byte>)
    requires heap.Valid() && v.sectorsPerCluster > 0 && (s.FollowsTable(v) ==> Fit(heap.View(), SECTOR))
    requires data != buffer && data.Length == s.length && buffer.Length == v.ClusterBytes()
    modifies heap.blocks, data, buffer
    ensures heap.View() == old(heap.View())
    ensures s.Readable(v) ==> s.Holds(v, data[..])
  {
    var done := 0;
    var cluster := s.first;
    ghost var k := 0;
    CeilDivAbove(s.length, v.ClusterBytes(), 0);
    while done < s.length
      invariant heap.View() == old(heap.View())
      invariant done <= s.length && UpTo(v, s, k, done)
      invariant done < s.length ==> cluster == s.At(v, k)
      invariant s.Readable(v) ==> s.Holds(v, data[..done])
      decreases s.length - done
    {
      ReadClusterLoose(v, cluster, buffer);
      assert s.Readable(v) ==> s.Present(v, k);
      var after := CopyPart(v, s, k, data, done, buffer);
      UpToNext(v, s, k, done, after);
      done, k := after, k + 1;
      if done < s.length {
        cluster := NextCluster(heap, v, s, cluster);
      }
    }
    assert data[..done] == data[..];
  }

  /** The heap `k` is `h` with the file's data at block `b`; an empty file takes no block, and its
      data pointer is NULL. */
  ghost predicate HoldsData(h: HeapView, k: HeapView, s: Stream, at: nat, b: nat) {
    if s.length == 0 then k == h && at == NULL
    else
      && k.Valid() && SameShape(k, h) && b !in Runs(h.table)
      && Runs(k.table) == Runs(h.table)[b := Blocks(h, s.length)] && at == k.AddrOf(b)
  }

  /** A request for no bytes takes nothing. */
  method TakeNothing(heap: Heap) returns (at: nat)
    requires heap.Valid()
    modifies heap.blocks
    ensures at == NULL && heap.View() == old(heap.View())
  {
    at := heap.Alloc(0);
  }

  /** Takes the data block. */
  method TakeData(heap: Heap, v: Volume, s: Stream) returns (at: nat, ghost b: nat)
    requires heap.Valid() && RoomToRead(v, heap.View(), s)
    modifies heap.blocks
    ensures HoldsData(old(heap.View()), heap.View(), s, at, b) && (at == NULL <==> s.length == 0)
    ensures RoomForBuffer(v, heap.View(), s)
  {
    b := 0;
    if s.length == 0 {
      at := TakeNothing(heap);
    } else {
      at, b := Take(heap, s.length);
    }
  }

  /** Gives the data block back. */
  method DropData(heap: Heap, s: Stream, at: nat, ghost h: HeapView, ghost b: nat)
    requires heap.Valid() && h.Valid() && HoldsData(h, heap.View(), s, at, b)
    modifies heap.blocks
    ensures heap.View() == h
  {
    if at == NULL {
      heap.Free(at);
    } else {
      Drop(heap, at, b);
      SameRunsSameHeap(heap.View(), h);
    }
  }

  /** The checked read through a cluster buffer that is given back on either path. */
  method ReadChecked(heap: Heap, v: Volume, s: Stream, data: array<byte>) returns (ok: bool)
    requires heap.Valid() && v.sectorsPerCluster > 0 && RoomForBuffer(v, heap.View(), s) && data.Length == s.length
    modifies heap.blocks, data
    ensures heap.View() == old(heap.View())
    ensures ok <==> s.Readable(v)
    ensures ok ==> s.Holds(v, data[..])
  {
    var buffer := new byte[v.ClusterBytes()];
    var scratch, c := Take(heap, v.ClusterBytes());
    ok := FillChecked(heap, v, s, data, buffer);
    Drop(heap, scratch, c);
    SameRunsSameHeap(heap.View(), old(heap.View()));
  }

  method ReadUnchecked(heap: Heap, v: Volume, s: Stream, data: array<byte>)
    requires heap.Valid() && v.sectorsPerCluster > 0 && RoomForBuffer(v, heap.View(), s) && data.Length == s.length
    modifies heap.blocks, data
    ensures heap.View() == old(heap.View())
    ensures s.Readable(v) ==> s.Holds(v, data[..])
  {
    var buffer := new byte[v.ClusterBytes()];
    var scratch, c := Take(heap, v.ClusterBytes());
    FillUnchecked(heap, v, s, data, buffer);
    Drop(heap, scratch, c);
    SameRunsSameHeap(heap.View(), old(heap.View()));
  }

  /** Reads a whole file, or nothing: `at` is the pointer returned, `size` what is stored for the
      caller, if anything is. Only a readable file has a size, and only a readable file that is not
      empty has a pointer; then the data is the file and the heap holds it alone. On failure the
      heap is as it was. */
  method ReadFileAll(heap: Heap, v: Volume, file: FileEntry)
    returns (at: nat, size: Option<nat>, data: array<byte>, ghost b: nat)
    requires heap.Valid() && RoomToRead(v, heap.View(), StreamOf(file))
    modifies heap.blocks
    ensures size == if StreamOf(file).Readable(v) then Some(file.info.dataLength) else None
    ensures at == NULL <==> !StreamOf(file).Readable(v) || file.info.dataLength == 0
    ensures size.Some? ==> data.Length == file.info.dataLength && StreamOf(file).Holds(v, data[..])
                           && HoldsData(old(heap.View()), heap.View(), StreamOf(file), at, b)
    ensures size.None? ==> heap.View() == old(heap.View())
    ensures forall c | Clusters(v, file, c) && Enough(v, file.info.dataLength, |c|) ::
              (size.Some? <==> AllThere(v, file, c)) && (size.Some? ==> FileIs(v, c, data[..]))
  {
    var s := StreamOf(file);
    ReadableOnAll(v, file);
    data := new byte[s.length];
    at, b := TakeData(heap, v, s);
    var ok := ReadChecked(heap, v, s, data);
    if !ok {
      DropData(heap, s, at, old(heap.View()), b);
      return NULL, None, data, b;
    }
    size := Some(s.length);
    HoldsOnAll(v, file, data[..]);
  }

  /** Reads a whole file without looking at errors. On a readable file the data is the file, the
      same as the checked read returns. */
  method ReadFile(heap: Heap, v: Volume, file: FileEntry)
    returns (at: nat, size: nat, data: array<byte>, ghost b: nat)
    requires heap.Valid() && RoomToRead(v, heap.View(), StreamOf(file)) && v.sectorsPerCluster < INT_CLUSTER_LIMIT
    modifies heap.blocks
    ensures size == data.Length == file.info.dataLength
    ensures at == NULL <==> file.info.dataLength == 0
    ensures HoldsData(old(heap.View()), heap.View(), StreamOf(file), at, b)
    ensures StreamOf(file).Readable(v) ==> StreamOf(file).Holds(v, data[..])
    ensures forall c | Clusters(v, file, c) && Enough(v, file.info.dataLength, |c|) ::
              AllThere(v, file, c) ==> FileIs(v, c, data[..])
  {
    var s := StreamOf(file);
    ReadableOnAll(v, file);
    size := s.length;
    data := new byte[s.length];
    at, b := TakeData(heap, v, s);
    ReadUnchecked(heap, v, s, data);
    if s.Readable(v) { HoldsOnAll(v, file, data[..]); }
  }

  // ---- the contents, cluster by cluster ----

  lemma ContiguousFlag(file: FileEntry)
    ensures StreamOf(file).contiguous <==> IsContiguous(file)
  {
    AndEven(file.info.flags, 1);
    AndLowMask(file.info.flags / 2, 2);
  }

  lemma NextModulo(x: nat)
    ensures U32(U32(x) + 1) == U32(x + 1)
  {
  }

  /** The clusters of a file are those that the reads visit. */
  lemma {:induction false} ClustersAreVisited(v: Volume, file: FileEntry, c: seq<nat>, k: nat)
    requires Clusters(v, file, c) && k < |c|
    ensures StreamOf(file).At(v, k) == c[k]
    decreases k
  {
    if k > 0 {
      ClustersAreVisited(v, file, c, k - 1);
      OneStep(v, file, c, k);
    }
  }

  lemma OneStep(v: Volume, file: FileEntry, c: seq<nat>, k: nat)
    requires Clusters(v, file, c) && 0 < k < |c|
    ensures StreamOf(file).Step(v, c[k - 1]) == c[k]
  {
    var first := file.info.firstCluster;
    ContiguousFlag(file);
    NextIsTableWord(v, c[k - 1]);
    NextModulo(first + k - 1);
    assert Follows(v, file, c, k) && (k > 1 ==> Follows(v, file, c, k - 1));
  }

  lemma EnoughIsCount(v: Volume, s: Stream, n: nat)
    requires v.sectorsPerCluster > 0 && Enough(v, s.length, n)
    ensures n == s.Count(v)
  {
    CeilDivAbove(s.length, v.ClusterBytes(), n);
    if n > 0 { CeilDivAbove(s.length, v.ClusterBytes(), n - 1); }
  }

  lemma ReadableOnClusters(v: Volume, file: FileEntry, c: seq<nat>)
    requires v.sectorsPerCluster > 0 && Clusters(v, file, c) && Enough(v, file.info.dataLength, |c|)
    ensures StreamOf(file).Readable(v) <==> AllThere(v, file, c)
  {
    EnoughIsCount(v, StreamOf(file), |c|);
    forall k | 0 <= k < |c|
      ensures StreamOf(file).Present(v, k) <==>
              ClusterReadable(v, c[k]) && (!IsContiguous(file) && k > 0 ==> c[k] < 0xFFFF_FFF8)
    {
      ClustersAreVisited(v, file, c, k);
      ClusterIsBytes(v, c[k]);
      ContiguousFlag(file);
    }
  }

  lemma HoldsOnClusters(v: Volume, file: FileEntry, c: seq<nat>, bytes: seq<byte>)
    requires v.sectorsPerCluster > 0 && Clusters(v, file, c) && Enough(v, file.info.dataLength, |c|)
    requires |bytes| == file.info.dataLength && StreamOf(file).Holds(v, bytes)
    ensures FileIs(v, c, bytes)
  {
    EnoughIsCount(v, StreamOf(file), |c|);
    forall i | 0 <= i < |bytes|
      ensures FileByteIs(v, c, i, bytes[i])
    {
      assert StreamOf(file).ByteIs(v, i, bytes[i]);
      ClusterOfByte(i, |bytes|, v.ClusterBytes());
      FileByteOnCluster(v, file, c, i, bytes[i]);
    }
  }

  lemma FileByteOnCluster(v: Volume, file: FileEntry, c: seq<nat>, i: nat, b: byte)
    requires v.sectorsPerCluster > 0 && Clusters(v, file, c) && i / v.ClusterBytes() < |c|
    requires StreamOf(file).ByteIs(v, i, b)
    ensures FileByteIs(v, c, i, b)
  {
    var size := v.ClusterBytes();
    DivParts(i, size);
    ByteOnCluster(v, file, c, i / size, i % size, b);
  }

  lemma ByteOnCluster(v: Volume, file: FileEntry, c: seq<nat>, k: nat, j: nat, b: byte)
    requires Clusters(v, file, c) && k < |c| && j < v.ClusterBytes() && StreamOf(file).ByteAt(v, k, j, b)
    ensures FileByteAt(v, c, k, j, b)
  {
    ClustersAreVisited(v, file, c, k);
    ClusterIsBytes(v, c[k]);
  }

  lemma ReadableOnAll(v: Volume, file: FileEntry)
    requires v.sectorsPerCluster > 0
    ensures forall c | Clusters(v, file, c) && Enough(v, file.info.dataLength, |c|) ::
              StreamOf(file).Readable(v) <==> AllThere(v, file, c)
  {
    forall c | Clusters(v, file, c) && Enough(v, file.info.dataLength, |c|)
      ensures StreamOf(file).Readable(v) <==> AllThere(v, file, c)
    {
      ReadableOnClusters(v, file, c);
    }
  }

  lemma HoldsOnAll(v: Volume, file: FileEntry, bytes: seq<byte>)
    requires v.sectorsPerCluster > 0 && |bytes| == file.info.dataLength && StreamOf(file).Holds(v, bytes)
    ensures forall c | Clusters(v, file, c) && Enough(v, file.info.dataLength, |c|) :: FileIs(v, c, bytes)
  {
    forall c | Clusters(v, file, c) && Enough(v, file.info.dataLength, |c|)
      ensures FileIs(v, c, bytes)
    {
      HoldsOnClusters(v, file, c, bytes);
    }
  }

  /** Every file has such clusters. */
  lemma ClustersExist(v: Volume, file: FileEntry)
    requires v.sectorsPerCluster > 0
    ensures exists c :: Clusters(v, file, c) && Enough(v, file.info.dataLength, |c|)
  {
    var s := StreamOf(file);
    var c := seq(s.Count(v), (k: nat) => s.At(v, k));
    ContiguousFlag(file);
    CountIsEnough(v, s);
    forall k: nat | 0 < k < |c|
      ensures Follows(v, file, c, k)
    {
      VisitedFollows(v, file, k);
    }
    assert c != [] ==> c[0] == s.At(v, 0) == s.first;
    assert Clusters(v, file, c);
  }

  lemma VisitedFollows(v: Volume, file: FileEntry, k: nat)
    requires k > 0
    ensures var s := StreamOf(file);
            s.At(v, k) == if IsContiguous(file) then (s.first + k) % 0x1_0000_0000 else TableWord(v, s.At(v, k - 1))
  {
    var s := StreamOf(file);
    ContiguousFlag(file);
    NextIsTableWord(v, s.At(v, k - 1));
    if IsContiguous(file) { ConsecutiveFrom(v, s, k); }
  }

  lemma CountIsEnough(v: Volume, s: Stream)
    requires v.sectorsPerCluster > 0
    ensures Enough(v, s.length, s.Count(v))
  {
    CeilDivBounds(s.length, v.ClusterBytes());
    if s.Count(v) > 0 { CeilDivAbove(s.length, v.ClusterBytes(), s.Count(v) - 1); }
  }

  lemma {:induction false} ConsecutiveFrom(v: Volume, s: Stream, k: nat)
    requires s.contiguous && k > 0
    ensures s.At(v, k) == U32(s.first + k)
    decreases k
  {
    if k > 1 {
      ConsecutiveFrom(v, s, k - 1);
      NextModulo(s.first + k - 1);
    }
  }

  /** What a file holds is determined: two reads of the same stream agree byte for byte. */
  lemma ReadsAgree(v: Volume, s: Stream, a: seq<byte>, b: seq<byte>)
    requires v.sectorsPerCluster > 0 && |a| == |b| && s.Holds(v, a) && s.Holds(v, b)
    ensures a == b
  {
  }

  /** Every byte of a file lies in one of its clusters. */
  lemma ClusterOfByte(i: nat, n: nat, size: nat)
    requires size > 0 && i < n
    ensures i / size < CeilDiv(n, size)
  {
    assert i == i / size * size + i % size;
    CeilDivAbove(n, size, i / size);
  }

  /** The cluster number alone decides what a byte is. */
  lemma ByteFollowsCluster(v: Volume, s: Stream, t: Stream, i: nat, b: byte)
    requires v.sectorsPerCluster > 0 && s.At(v, i / v.ClusterBytes()) == t.At(v, i / v.ClusterBytes())
    ensures s.ByteIs(v, i, b) <==> t.ByteIs(v, i, b)
  {
  }

  lemma ByteInBothModes(v: Volume, first: nat, n: nat, i: nat, b: byte)
    requires v.sectorsPerCluster > 0 && i < n
    requires first + CeilDiv(n, v.ClusterBytes()) <= TWO32
    requires forall c | first <= c < first + CeilDiv(n, v.ClusterBytes()) - 1 :: v.Next(c) == c + 1
    ensures Stream(first, n, true).ByteIs(v, i, b) <==> Stream(first, n, false).ByteIs(v, i, b)
  {
    var size := v.ClusterBytes();
    ClusterOfByte(i, n, size);
    ModesAgree(v, first, n, i / size);
    ByteFollowsCluster(v, Stream(first, n, true), Stream(first, n, false), i, b);
  }

  /** A contiguous file whose chain is also recorded, consecutively, reads the same in both modes. */
  lemma HoldsInBothModes(v: Volume, first: nat, bytes: seq<byte>)
    requires v.sectorsPerCluster > 0
    requires first + CeilDiv(|bytes|, v.ClusterBytes()) <= TWO32
    requires forall c | first <= c < first + CeilDiv(|bytes|, v.ClusterBytes()) - 1 :: v.Next(c) == c + 1
    ensures Stream(first, |bytes|, true).Holds(v, bytes) <==> Stream(first, |bytes|, false).Holds(v, bytes)
  {
    var s, t := Stream(first, |bytes|, true), Stream(first, |bytes|, false);
    forall i | 0 <= i < |bytes|
      ensures s.ByteIs(v, i, bytes[i]) <==> t.ByteIs(v, i, bytes[i])
    {
      ByteInBothModes(v, first, |bytes|, i, bytes[i]);
    }
  }
}
