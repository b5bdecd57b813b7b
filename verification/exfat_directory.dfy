/** Directories written as entry sets, cluster by cluster: what the driver lists there, and what a path
    leads to, in the values that were written. */
module ExfatDirectory {
  import opened Words
  import opened BlockTable
  import opened ExfatFormat
  import opened ExfatLookup
  import opened ExfatBytes
  import opened ExfatEncode

  // ---- one cluster ----

  ghost predicate AllOk(infos: seq<Info>) { forall i | 0 <= i < |infos| :: infos[i].Ok() }

  /** Slots that the sets of `infos` take. */
  function SlotsOf(infos: seq<Info>): nat
    decreases |infos|
  {
    if infos == [] then 0 else 2 + NameEntries(infos[0]) + SlotsOf(infos[1..])
  }

  /** The sets of `infos`, one behind the other from slot `i` on. */
  ghost predicate HoldsSets(b: seq<byte>, i: nat, infos: seq<Info>)
    requires AllOk(infos)
    decreases |infos|
  {
    infos == [] || (HoldsSet(b, i, infos[0]) && HoldsSets(b, i + 2 + NameEntries(infos[0]), infos[1..]))
  }

  /** A slot that starts nothing: neither a file entry nor the end marker. */
  predicate Idle(b: seq<byte>, i: nat) {
    i < Slots(b) && Slot(b, i)[0] != 0x00 && Slot(b, i)[0] != 0x85
  }

  /** The cluster holds these sets, then idle slots, and then the end marker if `ended`. */
  ghost predicate ClusterHolds(v: Volume, cluster: nat, infos: seq<Info>, ended: bool) {
    && AllOk(infos) && v.Cluster(cluster).Some?
    && exists gap: nat :: BufferHolds(v.Cluster(cluster).value, infos, gap, ended)
  }

  ghost predicate BufferHolds(b: seq<byte>, infos: seq<Info>, gap: nat, ended: bool)
    requires AllOk(infos)
  {
    var end := SlotsOf(infos) + gap;
    && HoldsSets(b, 0, infos)
    && IdleBetween(b, SlotsOf(infos), end)
    && EndsAt(b, end, ended)
  }

  predicate IdleBetween(b: seq<byte>, start: nat, end: nat) {
    forall k: nat | start <= k < end :: Idle(b, k)
  }

  // ---- writing a cluster ----

  function EncodeAll(infos: seq<Info>): (slots: seq<seq<byte>>)
    requires AllOk(infos)
    ensures |slots| == SlotsOf(infos) && AllSlots(slots)
    decreases |infos|
  {
    if infos == [] then [] else Encode(infos[0]) + EncodeAll(infos[1..])
  }

  lemma {:induction false} EncodedSetsAreHeld(before: seq<seq<byte>>, infos: seq<Info>, behind: seq<seq<byte>>)
    requires AllOk(infos) && AllSlots(before) && AllSlots(behind)
    ensures HoldsSets(Flatten(before + EncodeAll(infos) + behind), |before|, infos)
    decreases |infos|
  {
    if infos != [] {
      var first, rest := Encode(infos[0]), EncodeAll(infos[1..]);
      assert before + EncodeAll(infos) + behind == before + first + (rest + behind);
      EncodedIsHeld(before, infos[0], rest + behind);
      assert before + EncodeAll(infos) + behind == (before + first) + rest + behind;
      EncodedSetsAreHeld(before + first, infos[1..], behind);
    }
  }

  /** A cluster written as sets, idle slots and (if `tail` starts with it) the end marker holds just that. */
  lemma WrittenCluster(infos: seq<Info>, idle: seq<seq<byte>>, tail: seq<seq<byte>>)
    requires AllOk(infos) && AllSlots(idle) && AllSlots(tail) && AllIdle(idle) && StartsWithEnd(tail)
    ensures BufferHolds(Flatten(EncodeAll(infos) + idle + tail), infos, |idle|, tail != [])
  {
    SetsHeldFirst(infos, idle, tail);
    LaidOutFlat(EncodeAll(infos), idle, tail);
    Assembled(Flatten(EncodeAll(infos) + idle + tail), infos, idle, tail);
  }

  /** The slots of the buffer, one by one. */
  ghost predicate LaidOut(b: seq<byte>, slots: seq<seq<byte>>) {
    Slots(b) == |slots| && forall k | 0 <= k < |slots| :: SlotIs(b, k, slots[k])
  }

  predicate SlotIs(b: seq<byte>, k: nat, slot: seq<byte>) { k < Slots(b) && Slot(b, k) == slot }

  lemma LaidOutFlat(sets: seq<seq<byte>>, idle: seq<seq<byte>>, tail: seq<seq<byte>>)
    requires AllSlots(sets) && AllSlots(idle) && AllSlots(tail)
    ensures LaidOut(Flatten(sets + idle + tail), sets + idle + tail)
  {
    BothSlots(sets, idle);
    BothSlots(sets + idle, tail);
    FlatLaidOut(sets + idle + tail);
  }

  lemma FlatLaidOut(slots: seq<seq<byte>>)
    requires AllSlots(slots)
    ensures LaidOut(Flatten(slots), slots)
  {
    FlattenLength(slots);
    forall k | 0 <= k < |slots|
      ensures SlotIs(Flatten(slots), k, slots[k])
    {
      FlattenSlot(slots, k);
    }
  }

  lemma BothSlots(a: seq<seq<byte>>, b: seq<seq<byte>>)
    requires AllSlots(a) && AllSlots(b)
    ensures AllSlots(a + b)
  {
  }

  lemma Assembled(b: seq<byte>, infos: seq<Info>, idle: seq<seq<byte>>, tail: seq<seq<byte>>)
    requires AllOk(infos) && HoldsSets(b, 0, infos) && LaidOut(b, EncodeAll(infos) + idle + tail)
    requires AllIdle(idle) && StartsWithEnd(tail)
    ensures BufferHolds(b, infos, |idle|, tail != [])
  {
    AllIdleHeld(b, EncodeAll(infos), idle, tail);
    EndHeld(b, EncodeAll(infos) + idle, tail);
  }

  predicate IsIdle(slot: seq<byte>) { slot != [] && slot[0] != 0x00 && slot[0] != 0x85 }

  predicate AllIdle(slots: seq<seq<byte>>) { forall k | 0 <= k < |slots| :: IsIdle(slots[k]) }

  predicate StartsWithEnd(tail: seq<seq<byte>>) { tail == [] || (tail[0] != [] && tail[0][0] == 0x00) }

  ghost predicate EndsAt(b: seq<byte>, end: nat, ended: bool) {
    if ended then end < Slots(b) && Slot(b, end)[0] == 0x00 else end == Slots(b)
  }

  lemma SetsHeldFirst(infos: seq<Info>, idle: seq<seq<byte>>, tail: seq<seq<byte>>)
    requires AllOk(infos) && AllSlots(idle) && AllSlots(tail)
    ensures HoldsSets(Flatten(EncodeAll(infos) + idle + tail), 0, infos)
  {
    Regrouped(EncodeAll(infos), idle, tail);
    BothSlots(idle, tail);
    EncodedSetsAreHeld([], infos, idle + tail);
  }

  lemma Regrouped<T>(a: seq<T>, b: seq<T>, c: seq<T>)
    ensures [] + a + (b + c) == a + b + c
  {
  }

  lemma EndHeld(b: seq<byte>, before: seq<seq<byte>>, tail: seq<seq<byte>>)
    requires StartsWithEnd(tail) && LaidOut(b, before + tail)
    ensures EndsAt(b, |before|, tail != [])
  {
    if tail != [] { assert SlotIs(b, |before|, (before + tail)[|before|]); }
  }

  lemma AllIdleHeld(b: seq<byte>, sets: seq<seq<byte>>, idle: seq<seq<byte>>, tail: seq<seq<byte>>)
    requires AllIdle(idle) && LaidOut(b, sets + idle + tail)
    ensures IdleBetween(b, |sets|, |sets| + |idle|)
  {
    forall k: nat | |sets| <= k < |sets| + |idle|
      ensures Idle(b, k)
    {
      assert SlotIs(b, k, (sets + idle + tail)[k]) && (sets + idle + tail)[k] == idle[k - |sets|];
    }
  }

  function DecodedAll(infos: seq<Info>): (s: seq<FileEntry>)
    ensures |s| == |infos| && forall i | 0 <= i < |infos| :: s[i] == Decoded(infos[i])
  {
    seq(|infos|, i requires 0 <= i < |infos| => Decoded(infos[i]))
  }

  // ---- what the scan of a cluster sees ----

  /** What a scan from slot `i` sees: whether sets fit, the sets, and whether it ends. */
  ghost predicate Sees(b: seq<byte>, i: nat, sets: seq<FileEntry>, ends: bool) {
    i <= Slots(b) && FitFrom(b, i) && SetsFrom(b, i) == sets && EndsFrom(b, i) == ends
  }

  lemma SeesPastIdle(b: seq<byte>, i: nat, sets: seq<FileEntry>, ends: bool)
    requires Idle(b, i) && Sees(b, i + 1, sets, ends)
    ensures Sees(b, i, sets, ends)
  {
  }

  lemma {:induction false} SeesPastAll(b: seq<byte>, i: nat, end: nat, sets: seq<FileEntry>, ends: bool)
    requires i <= end && IdleBetween(b, i, end) && Sees(b, end, sets, ends)
    ensures Sees(b, i, sets, ends)
    decreases end - i
  {
    if i < end {
      SeesPastAll(b, i + 1, end, sets, ends);
      SeesPastIdle(b, i, sets, ends);
    }
  }

  lemma SecondariesAreIdle(b: seq<byte>, i: nat, info: Info)
    requires info.Ok() && HoldsSet(b, i, info)
    ensures IdleBetween(b, i + 1, i + 2 + NameEntries(info))
  {
    HeldSlots(b, i, info);
    forall k: nat | i + 1 <= k < i + 2 + NameEntries(info)
      ensures Idle(b, k)
    {
      if k > i + 1 { assert NameAt(b, i, info, k - i - 2); }
    }
  }

  /** One set, and what comes behind it. */
  lemma SeesSet(b: seq<byte>, i: nat, info: Info, sets: seq<FileEntry>, ends: bool)
    requires info.Ok() && HoldsSet(b, i, info) && Sees(b, i + 2 + NameEntries(info), sets, ends)
    ensures Sees(b, i, [Decoded(info)] + sets, ends)
  {
    SetBack(b, i, info, BLANK);
    HeldSlots(b, i, info);
    FileBack(info);
    SecondariesAreIdle(b, i, info);
    SeesPastAll(b, i + 1, i + 2 + NameEntries(info), sets, ends);
  }

  lemma {:induction false} SeesSets(b: seq<byte>, i: nat, infos: seq<Info>, ends: bool)
    requires AllOk(infos) && HoldsSets(b, i, infos) && Sees(b, i + SlotsOf(infos), [], ends)
    ensures Sees(b, i, DecodedAll(infos), ends)
    decreases |infos|
  {
    if infos == [] {
      assert DecodedAll(infos) == [];
    } else {
      SeesSets(b, i + 2 + NameEntries(infos[0]), infos[1..], ends);
      SeesSet(b, i, infos[0], DecodedAll(infos[1..]), ends);
      DecodedFirst(infos);
    }
  }

  lemma DecodedFirst(infos: seq<Info>)
    requires infos != []
    ensures DecodedAll(infos) == [Decoded(infos[0])] + DecodedAll(infos[1..])
  {
  }

  lemma SeesNoMore(b: seq<byte>, end: nat, ended: bool)
    requires EndsAt(b, end, ended)
    ensures Sees(b, end, [], ended)
  {
  }

  lemma SeesCluster(v: Volume, cluster: nat, infos: seq<Info>, ended: bool)
    requires ClusterHolds(v, cluster, infos, ended)
    ensures Sees(v.Cluster(cluster).value, 0, DecodedAll(infos), ended)
  {
    var b := v.Cluster(cluster).value;
    var gap: nat :| BufferHolds(b, infos, gap, ended);
    var end := SlotsOf(infos) + gap;
    SeesNoMore(b, end, ended);
    SeesPastAll(b, SlotsOf(infos), end, [], ended);
    SeesSets(b, 0, infos, ended);
  }

  // ---- a chain of clusters ----

  /** The directory of `chain` holds `parts[k]` in its cluster `k`. It goes on where the table says,
      until the end marker or the end of the chain. */
  ghost predicate ChainHolds(v: Volume, chain: seq<nat>, parts: seq<seq<Info>>)
    decreases |chain|
  {
    && |chain| == |parts| > 0
    && if |chain| == 1 then
         || ClusterHolds(v, chain[0], parts[0], true)
         || (ClusterHolds(v, chain[0], parts[0], false) && TableWord(v, chain[0]) >= 0xFFFF_FFF8)
       else
         && ClusterHolds(v, chain[0], parts[0], false)
         && chain[1] == TableWord(v, chain[0]) < 0xFFFF_FFF8
         && ChainHolds(v, chain[1..], parts[1..])
  }

  function Concat(parts: seq<seq<Info>>): seq<Info>
    decreases |parts|
  {
    if parts == [] then [] else parts[0] + Concat(parts[1..])
  }

  /** The last cluster of a walk. */
  lemma WalkEnds(v: Volume, chain: seq<nat>, sets: seq<FileEntry>, ended: bool)
    requires |chain| == 1 && v.Cluster(chain[0]).Some? && Sees(v.Cluster(chain[0]).value, 0, sets, ended)
    requires ended || v.Next(chain[0]) >= END_OF_CHAIN
    ensures Walk(v, chain) && Listing(v, chain) == sets
  {
  }

  /** A cluster that the walk goes past. */
  lemma WalkGoesOn(v: Volume, chain: seq<nat>, sets: seq<FileEntry>)
    requires |chain| > 1 && v.Cluster(chain[0]).Some? && Sees(v.Cluster(chain[0]).value, 0, sets, false)
    requires chain[1] == v.Next(chain[0]) < END_OF_CHAIN && Walk(v, chain[1..])
    ensures Walk(v, chain) && Listing(v, chain) == sets + Listing(v, chain[1..])
  {
  }

  lemma {:induction false} ChainListing(v: Volume, chain: seq<nat>, parts: seq<seq<Info>>)
    requires ChainHolds(v, chain, parts)
    ensures Walk(v, chain) && Listing(v, chain) == DecodedAll(Concat(parts)) && AllOk(Concat(parts))
    decreases |chain|
  {
    NextIsTableWord(v, chain[0]);
    if |chain| == 1 {
      var ended := ClusterHolds(v, chain[0], parts[0], true);
      SeesCluster(v, chain[0], parts[0], ended);
      WalkEnds(v, chain, DecodedAll(parts[0]), ended);
      assert Concat(parts) == parts[0] + [] == parts[0];
    } else {
      SeesCluster(v, chain[0], parts[0], false);
      ChainListing(v, chain[1..], parts[1..]);
      WalkGoesOn(v, chain, DecodedAll(parts[0]));
      DecodedConcat(parts[0], Concat(parts[1..]));
    }
  }

  lemma DecodedConcat(a: seq<Info>, b: seq<Info>)
    ensures DecodedAll(a + b) == DecodedAll(a) + DecodedAll(b)
  {
  }

  // ---- a tree of directories ----

  /** A directory with its clusters and what they hold; `below[i]` is the directory that item `i` leads to,
      if it leads to one. */
  datatype Directory = Directory(chain: seq<nat>, parts: seq<seq<Info>>, below: seq<Directory>) {
    function Infos(): seq<Info> { Concat(parts) }
  }

  /** The directory at `cluster` of the volume is `d`, with all directories below it. */
  ghost predicate OnDisk(v: Volume, cluster: nat, d: Directory)
    decreases d
  {
    && ChainHolds(v, d.chain, d.parts) && d.chain[0] == cluster && |d.below| == |d.Infos()|
    && forall i | 0 <= i < |d.below| :: d.Infos()[i].IsDirectory() ==> OnDisk(v, d.Infos()[i].firstCluster, d.below[i])
  }

  /** Item `i` is the first with this name. */
  predicate IsFirst(infos: seq<Info>, i: nat, name: seq<byte>) {
    i < |infos| && infos[i].name == name && forall k | 0 <= k < i :: infos[k].name != name
  }

  /** The path of these components leads to `info`: each component but the last names a directory. */
  ghost predicate LeadsTo(d: Directory, path: seq<seq<byte>>, info: Info)
    requires path != []
    decreases |path|
  {
    exists i: nat :: IsFirst(d.Infos(), i, path[0]) && LeadsFrom(d, i, path, info)
  }

  ghost predicate LeadsFrom(d: Directory, i: nat, path: seq<seq<byte>>, info: Info)
    requires path != [] && i < |d.Infos()|
    decreases |path|, 0
  {
    if |path| == 1 then info == d.Infos()[i]
    else d.Infos()[i].IsDirectory() && i < |d.below| && LeadsTo(d.below[i], path[1..], info)
  }

  /** The same as a tree of entries. */
  function TreeOf(d: Directory): Tree
    decreases d
  {
    Folder(d.chain, seq(|d.Infos()|, i requires 0 <= i < |d.Infos()| =>
      Item(Decoded(d.Infos()[i]), if i < |d.below| then TreeOf(d.below[i]) else Leaf)))
  }

  lemma DecodedName(info: Info)
    requires info.Ok()
    ensures Decoded(info).Name() == info.name
  {
  }

  lemma DecodedDirectory(info: Info)
    ensures Decoded(info).IsDirectory() <==> info.IsDirectory()
  {
    var a := info.attributes;
    AndEven(a, 8);
    AndEven(a / 2, 4);
    AndEven(a / 4, 2);
    AndEven(a / 8, 1);
    AndLowMask(a / 16, 2);
    assert a / 2 / 2 == a / 4 && a / 4 / 2 == a / 8 && a / 8 / 2 == a / 16;
  }

  lemma {:induction false} DiskIsTree(v: Volume, cluster: nat, d: Directory)
    requires OnDisk(v, cluster, d)
    ensures Represents(v, cluster, TreeOf(d))
    decreases d
  {
    var t, infos := TreeOf(d), d.Infos();
    ChainListing(v, d.chain, d.parts);
    forall i | 0 <= i < |t.items|
      ensures t.items[i].entry == Listing(v, t.chain)[i]
      ensures t.items[i].entry.IsDirectory() && t.items[i].entry.Name() != [] ==>
                Represents(v, t.items[i].entry.info.firstCluster, t.items[i].below)
    {
      DecodedDirectory(infos[i]);
      if infos[i].IsDirectory() { DiskIsTree(v, infos[i].firstCluster, d.below[i]); }
    }
  }

  // ---- opening by path ----

  lemma FirstFound(d: Directory, name: seq<byte>) returns (i: nat)
    requires AllOk(d.Infos()) && FindItem(TreeOf(d).items, name).Some?
    ensures IsFirst(d.Infos(), i, name) && FindItem(TreeOf(d).items, name).value == TreeOf(d).items[i]
  {
    i := FoundAt(TreeOf(d).items, name);
    NamesOf(d);
  }

  lemma NamesOf(d: Directory)
    requires AllOk(d.Infos())
    ensures forall k | 0 <= k < |d.Infos()| :: TreeOf(d).items[k].entry.Name() == d.Infos()[k].name
  {
    forall k | 0 <= k < |d.Infos()|
      ensures TreeOf(d).items[k].entry.Name() == d.Infos()[k].name
    {
      DecodedName(d.Infos()[k]);
    }
  }

  /** A name that is there is found where it is first. */
  lemma FirstIsFound(d: Directory, i: nat, name: seq<byte>)
    requires AllOk(d.Infos()) && IsFirst(d.Infos(), i, name)
    ensures FindItem(TreeOf(d).items, name) == Some(TreeOf(d).items[i])
  {
    NamesOf(d);
    assert TreeOf(d).items[i].entry.Name() == name;
    var k := FirstFound(d, name);
    assert !(i < k) && !(k < i);
  }

  /** The lookup finds what the path leads to. */
  lemma {:induction false} LookupFinds(v: Volume, cluster: nat, d: Directory, path: seq<seq<byte>>, info: Info)
    requires OnDisk(v, cluster, d) && path != [] && LeadsTo(d, path, info)
    ensures Lookup(TreeOf(d), path) == Some(Decoded(info))
    decreases |path|
  {
    ChainListing(v, d.chain, d.parts);
    var i: nat :| IsFirst(d.Infos(), i, path[0]) && LeadsFrom(d, i, path, info);
    LookupStep(d, i, path);
    if |path| > 1 { LookupFinds(v, d.Infos()[i].firstCluster, d.below[i], path[1..], info); }
  }

  /** One step of the lookup, at the first item with the name. */
  lemma LookupStep(d: Directory, i: nat, path: seq<seq<byte>>)
    requires AllOk(d.Infos()) && path != [] && IsFirst(d.Infos(), i, path[0]) && i < |d.below|
    ensures Lookup(TreeOf(d), path) ==
            if |path| == 1 then Some(Decoded(d.Infos()[i]))
            else if !d.Infos()[i].IsDirectory() then None
            else Lookup(TreeOf(d.below[i]), path[1..])
  {
    FirstIsFound(d, i, path[0]);
    DecodedDirectory(d.Infos()[i]);
  }

  ghost predicate LeadsSomewhere(d: Directory, path: seq<seq<byte>>)
    requires path != []
  {
    exists info :: LeadsTo(d, path, info)
  }

  /** And finds nothing else. */
  lemma {:induction false} FoundLeadsTo(v: Volume, cluster: nat, d: Directory, path: seq<seq<byte>>)
    requires OnDisk(v, cluster, d) && path != [] && Lookup(TreeOf(d), path).Some?
    ensures LeadsSomewhere(d, path)
    decreases |path|
  {
    ChainListing(v, d.chain, d.parts);
    var i := FirstFound(d, path[0]);
    LookupStep(d, i, path);
    if |path| == 1 {
      assert LeadsFrom(d, i, path, d.Infos()[i]);
      assert LeadsTo(d, path, d.Infos()[i]);
    } else {
      FoundLeadsTo(v, d.Infos()[i].firstCluster, d.below[i], path[1..]);
      var info :| LeadsTo(d.below[i], path[1..], info);
      assert LeadsFrom(d, i, path, info);
      assert LeadsTo(d, path, info);
    }
  }

  /** The entry has the values that were written. */
  predicate HasValues(e: FileEntry, info: Info) {
    && e.attributes == info.attributes && e.Name() == info.name
    && e.info.nameLength == |info.name| && e.info.nameHash == info.nameHash && e.info.flags == info.flags as nat
    && e.info.validLength == info.validLength && e.info.dataLength == info.dataLength
    && e.info.firstCluster == info.firstCluster
  }

  /** The answer to a path on a volume with directory `d` at its root. */
  ghost predicate Answers(d: Directory, path: seq<seq<byte>>, file: Option<FileEntry>) {
    && (file.Some? <==> path != [] && LeadsSomewhere(d, path))
    && (path != [] ==> forall info | LeadsTo(d, path, info) :: file.Some? && HasValues(file.value, info))
  }

  /** Whatever tree a lookup goes by, it answers with the values that were written. */
  lemma LookupAnswers(v: Volume, t: Tree, d: Directory, path: seq<seq<byte>>)
    requires RepresentsAlong(v, v.rootCluster, t, path) && OnDisk(v, v.rootCluster, d)
    requires forall i | 0 <= i < |path| :: path[i] != []
    ensures Answers(d, path, Lookup(t, path))
  {
    if path != [] {
      DiskIsTree(v, v.rootCluster, d);
      WholeTreeRepresents(v, v.rootCluster, TreeOf(d), path);
      LookupDetermined(v, v.rootCluster, t, TreeOf(d), path);
      if Lookup(t, path).Some? { FoundLeadsTo(v, v.rootCluster, d, path); }
      forall info | LeadsTo(d, path, info)
        ensures Lookup(t, path).Some? && HasValues(Lookup(t, path).value, info)
      {
        LookupFinds(v, v.rootCluster, d, path, info);
        LedToIsOk(v, v.rootCluster, d, path, info);
        DecodedName(info);
      }
    }
  }

  lemma {:induction false} LedToIsOk(v: Volume, cluster: nat, d: Directory, path: seq<seq<byte>>, info: Info)
    requires OnDisk(v, cluster, d) && path != [] && LeadsTo(d, path, info)
    ensures info.Ok()
    decreases |path|
  {
    ChainListing(v, d.chain, d.parts);
    var i: nat :| IsFirst(d.Infos(), i, path[0]) && LeadsFrom(d, i, path, info);
    if |path| > 1 { LedToIsOk(v, d.Infos()[i].firstCluster, d.below[i], path[1..], info); }
  }
}
