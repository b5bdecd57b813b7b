/** Directory entry sets as the exFAT specification lays them out (sections 7.4, 7.6 and 7.7), written
    out byte by byte; reading one back gives the values that were written. */
module ExfatEncode {
  import opened Words
  import opened ExfatFormat

  /** What a set says about a file. */
  datatype Info = Info(attributes: nat, flags: byte, nameHash: nat, validLength: nat, dataLength: nat,
                       firstCluster: nat, name: seq<byte>) {
    predicate Ok() {
      && attributes < 0x1_0000 && nameHash < 0x1_0000 && firstCluster < 0x1_0000_0000
      && validLength < 0x1_0000_0000_0000_0000 && dataLength < 0x1_0000_0000_0000_0000
      && 1 <= |name| <= 255 && forall k | 0 <= k < |name| :: name[k] != 0
    }

    predicate IsDirectory() { attributes / 16 % 2 == 1 }
  }

  // ---- writing ----

  /** Two, four and eight bytes, lowest first. */
  function Le2(x: nat): (s: seq<byte>)
    ensures |s| == 2
  {
    [(x % 0x100) as byte, (x / 0x100 % 0x100) as byte]
  }

  function Le4(x: nat): (s: seq<byte>)
    ensures |s| == 4
  {
    Le2(x % 0x1_0000) + Le2(x / 0x1_0000)
  }

  function Le8(x: nat): (s: seq<byte>)
    ensures |s| == 8
  {
    Le4(x % 0x1_0000_0000) + Le4(x / 0x1_0000_0000)
  }

  function Zeros(n: nat): seq<byte> { seq(n, _ => 0) }

  /** Fifteen characters of a name fit one entry. */
  function NameEntries(info: Info): nat { (|info.name| + 14) / 15 }

  /** The file directory entry: type, number of secondary entries, and at 4 the attributes. */
  function FileSlot(info: Info): (s: seq<byte>)
    requires info.Ok()
    ensures |s| == 32
  {
    [0x85, (1 + NameEntries(info)) as byte] + Zeros(2) + Le2(info.attributes) + Zeros(26)
  }

  /** The stream extension: flags at 1, length of the name at 3, its hash at 4, valid length at 8, first
      cluster at 20, length of the data at 24. */
  function StreamSlot(info: Info): (s: seq<byte>)
    requires info.Ok()
    ensures |s| == 32
  {
    [0xC0, info.flags, 0, |info.name| as byte] + Le2(info.nameHash) + Zeros(2) + Le8(info.validLength)
    + Zeros(4) + Le4(info.firstCluster) + Le8(info.dataLength)
  }

  /** Name entry `j`: characters `15 * j` to `15 * j + 14`, each in two bytes. */
  function NameSlot(name: seq<byte>, j: nat): (s: seq<byte>)
    ensures |s| == 32
  {
    [0xC1, 0] + seq(30, t requires 0 <= t < 30 =>
      if t % 2 == 0 && 15 * j + t / 2 < |name| then name[15 * j + t / 2] else 0)
  }

  function Encode(info: Info): (slots: seq<seq<byte>>)
    requires info.Ok()
    ensures |slots| == 2 + NameEntries(info) && AllSlots(slots)
  {
    [FileSlot(info), StreamSlot(info)] + seq(NameEntries(info), (j: nat) => NameSlot(info.name, j))
  }

  ghost predicate AllSlots(slots: seq<seq<byte>>) { forall i | 0 <= i < |slots| :: |slots[i]| == 32 }

  function Flatten(slots: seq<seq<byte>>): seq<byte> {
    if slots == [] then [] else Flatten(slots[..|slots| - 1]) + slots[|slots| - 1]
  }

  /** What the driver makes of it. */
  function Decoded(info: Info): FileEntry {
    FileEntry(info.attributes, Named(info, info.name))
  }

  /** The fields of the stream extension, with the name so far. */
  function Named(info: Info, name: seq<byte>): Parsed {
    Parsed(|info.name|, info.nameHash, info.flags as nat, info.validLength, info.firstCluster, info.dataLength, name)
  }

  // ---- slots of a buffer ----

  lemma {:induction false} FlattenLength(slots: seq<seq<byte>>)
    requires AllSlots(slots)
    ensures |Flatten(slots)| == 32 * |slots| && Slots(Flatten(slots)) == |slots|
  {
    if slots != [] { FlattenLength(slots[..|slots| - 1]); }
  }

  lemma {:induction false} FlattenSlot(slots: seq<seq<byte>>, i: nat)
    requires AllSlots(slots) && i < |slots|
    ensures Slots(Flatten(slots)) == |slots| && Slot(Flatten(slots), i) == slots[i]
  {
    FlattenLength(slots);
    var front := slots[..|slots| - 1];
    FlattenLength(front);
    if i < |front| {
      FlattenSlot(front, i);
      assert Flatten(slots)[i * 32..(i + 1) * 32] == Flatten(front)[i * 32..(i + 1) * 32];
    } else {
      assert Flatten(slots)[i * 32..(i + 1) * 32] == slots[i];
    }
  }

  // ---- reading numbers back ----

  lemma U16Back(s: seq<byte>, i: nat, x: nat)
    requires i + 2 <= |s| && s[i..i + 2] == Le2(x) && x < 0x1_0000
    ensures U16At(s, i) == x
  {
    assert s[i] == s[i..i + 2][0] && s[i + 1] == s[i..i + 2][1];
  }

  lemma U32Back(s: seq<byte>, i: nat, x: nat)
    requires i + 4 <= |s| && s[i..i + 4] == Le4(x) && x < 0x1_0000_0000
    ensures U32At(s, i) == x
  {
    assert s[i..i + 2] == s[i..i + 4][..2] && s[i + 2..i + 4] == s[i..i + 4][2..];
    U16Back(s, i, x % 0x1_0000);
    U16Back(s, i + 2, x / 0x1_0000);
  }

  lemma U64Back(s: seq<byte>, i: nat, x: nat)
    requires i + 8 <= |s| && s[i..i + 8] == Le8(x) && x < 0x1_0000_0000_0000_0000
    ensures U64At(s, i) == x
  {
    assert s[i..i + 4] == s[i..i + 8][..4] && s[i + 4..i + 8] == s[i..i + 8][4..];
    U32Back(s, i, x % 0x1_0000_0000);
    U32Back(s, i + 4, x / 0x1_0000_0000);
  }

  // ---- reading one entry back ----

  lemma FileBack(info: Info)
    requires info.Ok()
    ensures var e := FileSlot(info);
            e[0] == 0x85 && e[1] as nat == 1 + NameEntries(info) <= 18 && U16At(e, 4) == info.attributes
  {
    assert FileSlot(info)[4..6] == Le2(info.attributes);
    U16Back(FileSlot(info), 4, info.attributes);
  }

  /** The stream extension gives all fields but the name. */
  lemma StreamBack(info: Info, stale: Parsed)
    requires info.Ok()
    ensures StreamSlot(info)[0] == 0xC0 && Secondary(Unread(stale), StreamSlot(info)) == Named(info, [])
  {
    var e := StreamSlot(info);
    StreamParts(info);
    U16Back(e, 4, info.nameHash);
    U64Back(e, 8, info.validLength);
    U32Back(e, 20, info.firstCluster);
    U64Back(e, 24, info.dataLength);
  }

  lemma Middle<T>(a: seq<T>, b: seq<T>, c: seq<T>)
    ensures (a + b + c)[|a|..|a| + |b|] == b
  {
  }

  lemma StreamParts(info: Info)
    requires info.Ok()
    ensures var e := StreamSlot(info);
            && e[4..6] == Le2(info.nameHash) && e[8..16] == Le8(info.validLength)
            && e[20..24] == Le4(info.firstCluster) && e[24..32] == Le8(info.dataLength)
  {
    var e := StreamSlot(info);
    var head := [0xC0, info.flags, 0, |info.name| as byte];
    var hash, valid, cluster, length :=
      Le2(info.nameHash), Le8(info.validLength), Le4(info.firstCluster), Le8(info.dataLength);
    var p8 := head + hash + Zeros(2);
    var p20 := p8 + valid + Zeros(4);
    assert e == head + hash + (Zeros(2) + valid + Zeros(4) + cluster + length);
    Middle(head, hash, Zeros(2) + valid + Zeros(4) + cluster + length);
    assert e == p8 + valid + (Zeros(4) + cluster + length);
    Middle(p8, valid, Zeros(4) + cluster + length);
    assert e == p20 + cluster + length;
    Middle(p20, cluster, length);
    assert e == (p20 + cluster) + length + [];
    Middle(p20 + cluster, length, []);
  }

  lemma CharacterAt(name: seq<byte>, j: nat, k: nat)
    requires k < 15 && 15 * j + k < |name|
    ensures NameSlot(name, j)[2 + k * 2] == name[15 * j + k]
  {
    assert k * 2 / 2 == k && k * 2 % 2 == 0;
  }

  lemma OneCharacter(name: seq<byte>, length: nat, e: seq<byte>, k: nat)
    requires |e| == 32 && k < 15 && |name| < length
    ensures NameFrom(name, length, e, k) == NameFrom(name + [e[2 + k * 2]], length, e, k + 1)
  {
  }

  /** The characters of one name entry, one by one. */
  lemma {:induction false} CharactersBack(name: seq<byte>, j: nat, k: nat)
    requires k <= 15 && 15 * j <= |name|
    ensures NameFrom(name[..Min(15 * j + k, |name|)], |name|, NameSlot(name, j), k) == name[..Min(15 * j + 15, |name|)]
    decreases 15 - k
  {
    var e, n := NameSlot(name, j), 15 * j + k;
    if k < 15 && n < |name| {
      CharacterAt(name, j, k);
      assert name[..n] + [name[n]] == name[..n + 1];
      CharactersBack(name, j, k + 1);
      OneCharacter(name[..n], |name|, e, k);
    } else {
      assert Min(n, |name|) == Min(15 * j + 15, |name|);
    }
  }

  /** The part of the name that `j` entries hold. */
  function NameSoFar(info: Info, j: nat): seq<byte> { info.name[..Min(15 * j, |info.name|)] }

  lemma NameBack(info: Info, j: nat)
    requires info.Ok() && j < NameEntries(info)
    ensures NameSlot(info.name, j)[0] == 0xC1
    ensures Secondary(Named(info, NameSoFar(info, j)), NameSlot(info.name, j)) == Named(info, NameSoFar(info, j + 1))
  {
    var e := NameSlot(info.name, j);
    NameEntryAdds(Named(info, NameSoFar(info, j)), e);
    CharactersBack(info.name, j, 0);
    assert 15 * j + 0 == 15 * j && 15 * (j + 1) == 15 * j + 15;
  }

  lemma NameEntryAdds(p: Parsed, e: seq<byte>)
    requires |e| == 32 && e[0] == 0xC1
    ensures Secondary(p, e) == p.(name := NameFrom(p.name, p.nameLength, e, 0))
  {
  }

  // ---- reading a set back ----

  /** The buffer `b` holds the encoded set from slot `i` on. */
  ghost predicate HoldsSet(b: seq<byte>, i: nat, info: Info)
    requires info.Ok()
  {
    i + |Encode(info)| <= Slots(b) && forall k | 0 <= k < |Encode(info)| :: Slot(b, i + k) == Encode(info)[k]
  }

  lemma HeldSlots(b: seq<byte>, i: nat, info: Info)
    requires info.Ok() && HoldsSet(b, i, info)
    ensures i + 2 + NameEntries(info) <= Slots(b)
    ensures Slot(b, i) == FileSlot(info) && Slot(b, i + 1) == StreamSlot(info)
    ensures forall j: nat | j < NameEntries(info) :: NameAt(b, i, info, j)
  {
    var e := Encode(info);
    assert Slot(b, i + 0) == e[0] && Slot(b, i + 1) == e[1];
    forall j: nat | j < NameEntries(info)
      ensures NameAt(b, i, info, j)
    {
      assert Slot(b, i + (2 + j)) == e[2 + j];
    }
  }

  /** Up to name entry `j` the set at slot `i` reads as it was encoded. */
  ghost predicate ReadUpTo(p: Parsed, b: seq<byte>, i: nat, info: Info, j: nat) {
    i + 1 + j < Slots(b) && Secondaries(p, b, i, 1 + j) == Named(info, NameSoFar(info, j))
  }

  /** Name entry `j` of the set at slot `i`. */
  ghost predicate NameAt(b: seq<byte>, i: nat, info: Info, j: nat) {
    i + 2 + j < Slots(b) && Slot(b, i + 2 + j) == NameSlot(info.name, j)
  }

  lemma {:induction false} SecondariesBack(p: Parsed, b: seq<byte>, i: nat, info: Info, j: nat)
    requires info.Ok() && j <= NameEntries(info) && forall k: nat | k < NameEntries(info) :: NameAt(b, i, info, k)
    requires ReadUpTo(p, b, i, info, 0)
    ensures ReadUpTo(p, b, i, info, j)
    decreases j
  {
    if j > 0 {
      SecondariesBack(p, b, i, info, j - 1);
      NextEntryBack(p, b, i, info, j - 1);
    }
  }

  lemma FirstEntryBack(b: seq<byte>, i: nat, info: Info, stale: Parsed)
    requires info.Ok() && i + 1 < Slots(b) && Slot(b, i + 1) == StreamSlot(info)
    ensures ReadUpTo(Unread(stale), b, i, info, 0)
  {
    StreamBack(info, stale);
    OneMoreEntry(Unread(stale), b, i, 0);
    assert Secondaries(Unread(stale), b, i, 0) == Unread(stale);
    assert NameSoFar(info, 0) == [];
  }

  lemma NextEntryBack(p: Parsed, b: seq<byte>, i: nat, info: Info, j: nat)
    requires info.Ok() && j < NameEntries(info) && NameAt(b, i, info, j) && ReadUpTo(p, b, i, info, j)
    ensures ReadUpTo(p, b, i, info, j + 1)
  {
    OneMoreEntry(p, b, i, 1 + j);
    assert i + 1 + (1 + j) == i + 2 + j;
    NameBack(info, j);
  }

  lemma OneMoreEntry(p: Parsed, b: seq<byte>, i: nat, n: nat)
    requires i + 1 + n < Slots(b)
    ensures Secondaries(p, b, i, 1 + n) == Secondary(Secondaries(p, b, i, n), Slot(b, i + 1 + n))
  {
  }

  /** Reading an encoded set gives exactly the values that were encoded, whatever the memory of the
      entry held before. */
  lemma SetBack(b: seq<byte>, i: nat, info: Info, stale: Parsed)
    requires info.Ok() && HoldsSet(b, i, info)
    ensures SetFits(b, i) && SetAt(b, i, stale) == Decoded(info)
  {
    FileBack(info);
    HeldSlots(b, i, info);
    FirstEntryBack(b, i, info, stale);
    SecondariesBack(Unread(stale), b, i, info, NameEntries(info));
    assert NameSoFar(info, NameEntries(info)) == info.name;
  }

  lemma SlotHeld(before: seq<seq<byte>>, middle: seq<seq<byte>>, behind: seq<seq<byte>>, k: nat)
    requires AllSlots(before) && AllSlots(middle) && AllSlots(behind) && k < |middle|
    ensures var b := Flatten(before + middle + behind);
            Slots(b) == |before| + |middle| + |behind| && Slot(b, |before| + k) == middle[k]
  {
    InTheMiddle(before, middle, behind, k);
    FlattenSlot(before + middle + behind, |before| + k);
  }

  lemma InTheMiddle(a: seq<seq<byte>>, b: seq<seq<byte>>, c: seq<seq<byte>>, k: nat)
    requires AllSlots(a) && AllSlots(b) && AllSlots(c) && k < |b|
    ensures AllSlots(a + b + c) && (a + b + c)[|a| + k] == b[k]
  {
    assert (a + b)[|a| + k] == b[k];
  }

  lemma EncodedIsHeld(before: seq<seq<byte>>, info: Info, behind: seq<seq<byte>>)
    requires info.Ok() && AllSlots(before) && AllSlots(behind)
    ensures HoldsSet(Flatten(before + Encode(info) + behind), |before|, info)
  {
    forall k | 0 <= k < |Encode(info)|
      ensures var b := Flatten(before + Encode(info) + behind);
              |before| + |Encode(info)| <= Slots(b) && Slot(b, |before| + k) == Encode(info)[k]
    {
      SlotHeld(before, Encode(info), behind, k);
    }
    SlotHeld(before, Encode(info), behind, 0);
  }

  /** The round trip: a set written into a buffer of slots is read back from there. */
  lemma RoundTrip(before: seq<seq<byte>>, info: Info, behind: seq<seq<byte>>, stale: Parsed)
    requires info.Ok() && AllSlots(before) && AllSlots(behind)
    ensures var b := Flatten(before + Encode(info) + behind);
            |before| < Slots(b) && SetFits(b, |before|) && SetAt(b, |before|, stale) == Decoded(info)
  {
    EncodedIsHeld(before, info, behind);
    SetBack(Flatten(before + Encode(info) + behind), |before|, info, stale);
  }
}
