/** The allocation table and the clusters of a volume as bytes, and what a file holds, cluster by
    cluster (exFAT specification, sections 4.1 and 6.4.2.2). */
module ExfatBytes {
  import opened Words
  import opened BlockTable
  import opened ExfatFormat

  /** Byte `j` behind the start of a sector, if its sector can be read. Sector numbers are 32-bit. */
  function DiskByte(v: Volume, sector: nat, j: nat): Option<byte> {
    var s := v.disk((sector + j / 512) % 0x1_0000_0000);
    if s.Some? then Some(s.value[j % 512]) else None
  }

  /** The allocation table is one string of bytes. */
  function TableByte(v: Volume, j: nat): Option<byte> { DiskByte(v, v.start + v.fatOffset, j) }

  /** The little-endian word at byte `4 * c` of the table, or 0 when it cannot be read. */
  function TableWord(v: Volume, c: nat): nat {
    var b0, b1 := TableByte(v, 4 * c), TableByte(v, 4 * c + 1);
    var b2, b3 := TableByte(v, 4 * c + 2), TableByte(v, 4 * c + 3);
    if b0.Some? && b1.Some? && b2.Some? && b3.Some?
    then b0.value as nat + b1.value as nat * 0x100 + b2.value as nat * 0x1_0000 + b3.value as nat * 0x100_0000
    else 0
  }

  /** Byte `j` of a cluster. Clusters are numbered from 2 on. */
  function ClusterByte(v: Volume, c: nat, j: nat): Option<byte> {
    DiskByte(v, v.start + v.heapOffset + (c + 0xFFFF_FFFE) % 0x1_0000_0000 * v.sectorsPerCluster, j)
  }

  predicate ClusterReadable(v: Volume, c: nat) { BytesThere(v, c, 512 * v.sectorsPerCluster) }

  // ---- what a file holds ----

  predicate IsContiguous(file: FileEntry) { file.info.flags / 2 % 2 == 1 }

  /** `c` are clusters of the file in order: consecutive ones, or linked by the table. */
  ghost predicate Clusters(v: Volume, file: FileEntry, c: seq<nat>) {
    && (c != [] ==> c[0] == file.info.firstCluster)
    && forall k: nat | 0 < k < |c| :: Follows(v, file, c, k)
  }

  /** Cluster `k` of the file, from the first or from the table entry of the one before. */
  ghost predicate Follows(v: Volume, file: FileEntry, c: seq<nat>, k: nat)
    requires 0 < k < |c|
  {
    c[k] == if IsContiguous(file) then (file.info.firstCluster + k) % 0x1_0000_0000 else TableWord(v, c[k - 1])
  }

  /** As many clusters as the length of the file needs. */
  predicate Enough(v: Volume, length: nat, n: nat) {
    length <= n * (512 * v.sectorsPerCluster) && (n > 0 ==> (n - 1) * (512 * v.sectorsPerCluster) < length)
  }

  /** All clusters can be read, and the chain does not end before the last. */
  ghost predicate AllThere(v: Volume, file: FileEntry, c: seq<nat>) {
    forall k | 0 <= k < |c| ::
      ClusterReadable(v, c[k]) && (!IsContiguous(file) && k > 0 ==> c[k] < 0xFFFF_FFF8)
  }

  /** Byte `i` is byte `i % size` of cluster `c[i / size]`. */
  ghost predicate FileIs(v: Volume, c: seq<nat>, bytes: seq<byte>)
    requires v.sectorsPerCluster > 0
  {
    forall i | 0 <= i < |bytes| :: FileByteIs(v, c, i, bytes[i])
  }

  predicate FileByteIs(v: Volume, c: seq<nat>, i: nat, b: byte)
    requires v.sectorsPerCluster > 0
  {
    var size := 512 * v.sectorsPerCluster;
    FileByteAt(v, c, i / size, i % size, b)
  }

  /** Byte `j` of the cluster at place `k`. */
  predicate FileByteAt(v: Volume, c: seq<nat>, k: nat, j: nat, b: byte) {
    k < |c| && ClusterByte(v, c[k], j) == Some(b)
  }

  // ---- the driver's reads are reads of these bytes ----

  lemma WordInOneSector(c: nat, k: nat)
    requires k < 4
    ensures (4 * c + k) / 512 == c * 4 / 512 && (4 * c + k) % 512 == TableOffset(c) + k
  {
    DivModUnique(4 * c + k, 512, c / 128, c % 128 * 4 + k);
    DivModUnique(c * 4, 512, c / 128, c % 128 * 4);
  }

  lemma NextIsTableWord(v: Volume, c: nat)
    ensures v.Next(c) == TableWord(v, c)
  {
    WordInOneSector(c, 0);
    WordInOneSector(c, 1);
    WordInOneSector(c, 2);
    WordInOneSector(c, 3);
  }

  /** Where the sectors of a cluster lie: clusters from 2 on follow each other. */
  lemma LbaFromTwo(v: Volume, c: nat)
    requires 2 <= c < 0x1_0000_0002
    ensures v.Lba(c) == v.start + v.heapOffset + (c - 2) * v.sectorsPerCluster
  {
    RemainderSmall(c - 2, TWO32);
  }

  /** The clusters tile the heap area: no two share a sector, and each sector is in one. */
  lemma ClustersTile(v: Volume, c: nat, d: nat, s: nat, t: nat)
    requires 2 <= c < 0x1_0000_0002 && 2 <= d < 0x1_0000_0002 && s < v.sectorsPerCluster && t < v.sectorsPerCluster
    ensures v.Lba(c) + s == v.Lba(d) + t ==> c == d && s == t
  {
    var n := v.sectorsPerCluster;
    LbaFromTwo(v, c);
    LbaFromTwo(v, d);
    if (c - 2) * n + s == (d - 2) * n + t {
      DivModUnique((c - 2) * n + s, n, c - 2, s);
      DivModUnique((c - 2) * n + s, n, d - 2, t);
    }
  }

  lemma SectorInCluster(v: Volume, x: nat)
    requires v.sectorsPerCluster > 0 && x < 0xFFFF_FFFE * v.sectorsPerCluster
    ensures var c, s := x / v.sectorsPerCluster + 2, x % v.sectorsPerCluster;
            2 <= c < 0x1_0000_0000 && v.Lba(c) + s == v.start + v.heapOffset + x
  {
    var n := v.sectorsPerCluster;
    assert x == x / n * n + x % n;
    if x / n >= 0xFFFF_FFFE { MulMonotone(0xFFFF_FFFE, x / n, n); }
    LbaFromTwo(v, x / n + 2);
  }

  lemma LbaWraps(v: Volume, c: nat)
    ensures v.Lba(c) == v.start + v.heapOffset + (c + 0xFFFF_FFFE) % 0x1_0000_0000 * v.sectorsPerCluster
  {
    assert (c - 2) % TWO32 == (c + 0xFFFF_FFFE) % TWO32;
  }

  /** The first `n` bytes of a cluster can be read. */
  predicate BytesThere(v: Volume, c: nat, n: nat) {
    forall j | 0 <= j < n :: ClusterByte(v, c, j).Some?
  }

  ghost predicate BytesAre(v: Volume, c: nat, s: seq<byte>) {
    forall j | 0 <= j < |s| :: ClusterByte(v, c, j) == Some(s[j])
  }

  /** The first `n` sectors of a cluster, byte by byte. */
  lemma {:induction false} SectorsAreBytes(v: Volume, c: nat, n: nat)
    ensures v.Sectors(c, n).Some? <==> BytesThere(v, c, 512 * n)
    ensures v.Sectors(c, n).Some? ==> BytesAre(v, c, v.Sectors(c, n).value)
  {
    if n > 0 {
      SectorsAreBytes(v, c, n - 1);
      LastSector(v, c, n - 1);
      var r := v.Read(v.Lba(c) + n - 1);
      assert r.Some? <==> ClusterByte(v, c, 512 * (n - 1)).Some?;
      if r.Some? && v.Sectors(c, n - 1).Some? { BytesAppend(v, c, v.Sectors(c, n - 1).value, r.value); }
    }
  }

  lemma BytesAppend(v: Volume, c: nat, s: seq<byte>, t: seq<byte>)
    requires BytesAre(v, c, s) && forall j | |s| <= j < |s| + |t| :: ClusterByte(v, c, j) == Some(t[j - |s|])
    ensures BytesAre(v, c, s + t) && BytesThere(v, c, |s| + |t|)
  {
  }

  /** The bytes of sector `s` of a cluster. */
  lemma LastSector(v: Volume, c: nat, s: nat)
    ensures var r := v.Read(v.Lba(c) + s);
            forall j | 512 * s <= j < 512 * s + 512 ::
              ClusterByte(v, c, j) == if r.Some? then Some(r.value[j - 512 * s]) else None
  {
    LbaWraps(v, c);
    forall j | 512 * s <= j < 512 * s + 512
      ensures j / 512 == s && j % 512 == j - 512 * s
    {
      DivModUnique(j, 512, s, j - 512 * s);
    }
  }

  lemma ClusterIsBytes(v: Volume, c: nat)
    ensures v.Cluster(c).Some? <==> ClusterReadable(v, c)
    ensures v.Cluster(c).Some? ==> BytesAre(v, c, v.Cluster(c).value)
  {
    SectorsAreBytes(v, c, v.sectorsPerCluster);
  }
}
