/** What is on an exFAT volume: sectors, clusters, the allocation table and directory entry sets,
    read the way the driver reads them. */
module ExfatFormat {
  import opened Words
  import opened BlockTable

  newtype byte = b: int | 0 <= b < 256

  const SECTOR: nat := 512
  const ENTRY: nat := 32
  const END_OF_CHAIN: nat := 0xFFFFFFF8

  type Sector = s: seq<byte> | |s| == SECTOR witness seq(SECTOR, _ => 0)

  /** A mounted volume. `disk` answers a sector number with its bytes, or fails. */
  datatype Volume = Volume(disk: nat -> Option<Sector>, start: nat, fatOffset: nat, heapOffset: nat,
                           rootCluster: nat, sectorsPerCluster: nat) {

    function ClusterBytes(): nat { SECTOR * sectorsPerCluster }

    /** Sector numbers are passed to the disk as 32-bit words. */
    function Read(lba: nat): Option<Sector> { disk(U32(lba)) }

    function Lba(cluster: nat): nat {
      start + heapOffset + U32(cluster - 2) * sectorsPerCluster
    }

    /** The first `n` sectors of a cluster, if they can all be read. */
    function Sectors(cluster: nat, n: nat): (r: Option<seq<byte>>)
      ensures r.Some? ==> |r.value| == SECTOR * n
    {
      if n == 0 then Some([]) else
        var before := Sectors(cluster, n - 1);
        var last := Read(Lba(cluster) + n - 1);
        if before.Some? && last.Some? then Some(before.value + last.value) else None
    }

    function Cluster(cluster: nat): (r: Option<seq<byte>>)
      ensures r.Some? ==> |r.value| == ClusterBytes()
    {
      Sectors(cluster, sectorsPerCluster)
    }

    /** The table entry of a cluster; 0 when the table cannot be read. */
    function Next(cluster: nat): (r: nat)
      ensures r < TWO32
    {
      var sector := Read(start + fatOffset + cluster * 4 / SECTOR);
      if sector.Some? then U32At(sector.value, TableOffset(cluster)) else 0
    }
  }

  /** Where the four bytes of a table entry start in their sector. */
  function TableOffset(cluster: nat): (r: nat)
    ensures r + 4 <= SECTOR
  {
    DivModUnique(cluster * 4, SECTOR, cluster / 128, cluster % 128 * 4);
    cluster * 4 % SECTOR
  }

  // ---- little-endian words ----

  function U16At(b: seq<byte>, i: nat): (r: nat)
    requires i + 2 <= |b|
    ensures r < TWO16
  {
    (b[i] as nat) + (b[i + 1] as nat) * 0x100
  }

  function U32At(b: seq<byte>, i: nat): (r: nat)
    requires i + 4 <= |b|
    ensures r < TWO32
  {
    U16At(b, i) + U16At(b, i + 2) * 0x1_0000
  }

  function U64At(b: seq<byte>, i: nat): (r: nat)
    requires i + 8 <= |b|
    ensures r < TWO64
  {
    U32At(b, i) + U32At(b, i + 4) * 0x1_0000_0000
  }

  // ---- directory entry sets ----

  /** What the secondary entries of a set have said so far. */
  datatype Parsed = Parsed(nameLength: nat, nameHash: nat, flags: nat, validLength: nat,
                           firstCluster: nat, dataLength: nat, name: seq<byte>)

  /** A set before its secondary entries are read: the fields the driver does not clear keep
      whatever their memory held. */
  function Unread(stale: Parsed): Parsed {
    stale.(nameLength := 0, firstCluster := 0, dataLength := 0, name := [])
  }

  const BLANK := Parsed(0, 0, 0, 0, 0, 0, [])

  datatype FileEntry = FileEntry(attributes: nat, info: Parsed) {
    function Name(): seq<byte> { CString(info.name) }

    predicate IsDirectory() { And(attributes, 0x10) != 0 }
  }

  /** The bytes before the first NUL. */
  function CString(s: seq<byte>): (r: seq<byte>)
    ensures |r| <= |s| && r == s[..|r|] && 0 !in r && (|r| < |s| ==> s[|r|] == 0)
  {
    if s == [] || s[0] == 0 then [] else [s[0]] + CString(s[1..])
  }

  function Slots(b: seq<byte>): nat { |b| / ENTRY }

  function Slot(b: seq<byte>, i: nat): (r: seq<byte>)
    requires i < Slots(b)
    ensures |r| == ENTRY
  {
    b[i * ENTRY..(i + 1) * ENTRY]
  }

  /** A file name entry adds up to fifteen characters, the low bytes of its UTF-16 units. */
  function NameFrom(name: seq<byte>, length: nat, e: seq<byte>, k: nat): (r: seq<byte>)
    requires |e| == ENTRY && k <= 15
    ensures |name| <= |r| && |r| <= Max(|name|, length)
    decreases 15 - k
  {
    if k == 15 || |name| >= length then name else NameFrom(name + [e[2 + k * 2]], length, e, k + 1)
  }

  /** One secondary entry: the stream extension (0xC0) sets the fields, a name entry (0xC1)
      extends the name, others are skipped. */
  function Secondary(p: Parsed, e: seq<byte>): Parsed
    requires |e| == ENTRY
  {
    if e[0] == 0xC0 then
      p.(nameLength := e[3] as nat, nameHash := U16At(e, 4), flags := e[1] as nat, validLength := U64At(e, 8),
         firstCluster := U32At(e, 0x14), dataLength := U64At(e, 0x18))
    else if e[0] == 0xC1 then p.(name := NameFrom(p.name, p.nameLength, e, 0))
    else p
  }

  /** The first `n` secondary entries of the set at slot `i`. */
  function Secondaries(p: Parsed, b: seq<byte>, i: nat, n: nat): (r: Parsed)
    requires i + n < Slots(b)
    ensures p.nameLength <= 255 ==> r.nameLength <= 255
    ensures p.nameLength <= 255 && |p.name| <= 255 ==> |r.name| <= 255
  {
    if n == 0 then p else Secondary(Secondaries(p, b, i, n - 1), Slot(b, i + n))
  }

  /** The set at slot `i` lies inside the buffer. */
  predicate SetFits(b: seq<byte>, i: nat)
    requires i < Slots(b)
  {
    i + Slot(b, i)[1] as nat < Slots(b)
  }

  function SetAt(b: seq<byte>, i: nat, stale: Parsed): (r: FileEntry)
    requires i < Slots(b) && SetFits(b, i)
    ensures r.info.nameLength <= 255 && |r.info.name| <= 255
  {
    FileEntry(U16At(Slot(b, i), 4), Secondaries(Unread(stale), b, i, Slot(b, i)[1] as nat))
  }

  /** A set with a name has been through its stream extension, so nothing stale is left in it. */
  lemma {:induction false} NoStaleFields(b: seq<byte>, i: nat, n: nat, p: Parsed, q: Parsed)
    requires i + n < Slots(b)
    ensures var r, s := Secondaries(Unread(p), b, i, n), Secondaries(Unread(q), b, i, n);
            r.name == s.name && r.nameLength == s.nameLength
            && (r.nameLength > 0 || r.name != [] ==> r == s)
  {
    if n > 0 { NoStaleFields(b, i, n - 1, p, q); }
  }

  // ---- directories ----

  /** Sets of a cluster from slot `i` on, up to the end marker. */
  function SetsFrom(b: seq<byte>, i: nat): seq<FileEntry>
    requires i <= Slots(b) && FitFrom(b, i)
    decreases Slots(b) - i
  {
    if i == Slots(b) || Slot(b, i)[0] == 0 then []
    else if Slot(b, i)[0] != 0x85 then SetsFrom(b, i + 1)
    else [SetAt(b, i, BLANK)] + SetsFrom(b, i + 1)
  }

  /** No set before the end marker straddles the end of the cluster. */
  predicate FitFrom(b: seq<byte>, i: nat)
    requires i <= Slots(b)
    decreases Slots(b) - i
  {
    i == Slots(b) || Slot(b, i)[0] == 0 || ((Slot(b, i)[0] == 0x85 ==> SetFits(b, i)) && FitFrom(b, i + 1))
  }

  predicate EndsFrom(b: seq<byte>, i: nat)
    requires i <= Slots(b)
    decreases Slots(b) - i
  {
    i < Slots(b) && (Slot(b, i)[0] == 0 || EndsFrom(b, i + 1))
  }

  /** The directory goes no further than this cluster: it cannot be read, it holds the end marker,
      or it is the last of its chain. */
  predicate Stops(v: Volume, cluster: nat) {
    var b := v.Cluster(cluster);
    b.None? || EndsFrom(b.value, 0) || v.Next(cluster) >= END_OF_CHAIN
  }

  /** `chain` is what a scan that starts at its first cluster may visit. */
  ghost predicate Walk(v: Volume, chain: seq<nat>) {
    && chain != []
    && (v.Cluster(chain[0]).Some? ==> FitFrom(v.Cluster(chain[0]).value, 0))
    && if Stops(v, chain[0]) then |chain| == 1
       else |chain| > 1 && chain[1] == v.Next(chain[0]) && Walk(v, chain[1..])
  }

  /** The sets of a directory, in the order of the scan. */
  ghost function Listing(v: Volume, chain: seq<nat>): seq<FileEntry>
    requires Walk(v, chain)
  {
    var b := v.Cluster(chain[0]);
    if b.None? then []
    else if Stops(v, chain[0]) then SetsFrom(b.value, 0)
    else SetsFrom(b.value, 0) + Listing(v, chain[1..])
  }

  /** Walks from one cluster are unique. */
  lemma {:induction false} WalkUnique(v: Volume, c: seq<nat>, d: seq<nat>)
    requires Walk(v, c) && Walk(v, d) && c[0] == d[0]
    ensures c == d
  {
    if !Stops(v, c[0]) {
      WalkUnique(v, c[1..], d[1..]);
      assert c == [c[0]] + c[1..] && d == [d[0]] + d[1..];
    }
  }
}
