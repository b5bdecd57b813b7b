/** Which addresses below 4 GiB are in use, by what uses them, and the hole as the largest interval
    without any. */
module UsedAddresses {
  import opened Words
  import E820
  import MmioHole
  import Pcie

  /** `x` is the address of a configuration register of a function on a bus of the entry. */
  ghost predicate ConfigByte(e: MmioHole.McfgEntry, x: nat) {
    exists bus: nat, d: nat, f: nat, o: nat |
      e.startBus <= bus <= e.endBus && d < 32 && f < 8 && o < 0x1000 ::
      x == Pcie.ConfigAddr(e.baseAddress, bus, d, f, o)
  }

  /** What entries of the table look like: bus numbers are bytes, and no address wraps. */
  ghost predicate EntriesOk(mcfg: seq<MmioHole.McfgEntry>) {
    forall i | 0 <= i < |mcfg| :: EntryOk(mcfg[i])
  }

  predicate EntryOk(e: MmioHole.McfgEntry) {
    e.startBus < 256 && e.endBus < 256 && e.baseAddress + 0x1000_0000 < TWO64
  }

  /** Memory of any kind, a fixed device, or configuration space. */
  ghost predicate Used(m: E820.MemoryMap, mcfg: seq<MmioHole.McfgEntry>, x: nat) {
    || (exists i | 0 <= i < |m| :: m[i].base <= x < m[i].base + m[i].length)
    || MmioHole.FixedDevice(x)
    || exists i | 0 <= i < |mcfg| :: ConfigByte(mcfg[i], x)
  }

  ghost predicate Unused(m: E820.MemoryMap, mcfg: seq<MmioHole.McfgEntry>, a: nat, b: nat) {
    a < b <= 0x1_0000_0000 && forall x: nat | a <= x < b :: !Used(m, mcfg, x)
  }

  /** A longest unused interval below 4 GiB, and the lowest of those. */
  ghost predicate LargestUnused(m: E820.MemoryMap, mcfg: seq<MmioHole.McfgEntry>, base: nat, end: nat) {
    && Unused(m, mcfg, base, end)
    && forall a: nat, b: nat | Unused(m, mcfg, a, b) :: b - a < end - base || (b - a == end - base && base <= a)
  }

  // ---- an entry is recorded as its configuration space ----

  /** Bus, device, function and register of an address. */
  lemma ConfigDigits(base: nat, x: nat)
    requires base <= x < base + 0x1000_0000 && base + 0x1000_0000 < TWO64
    ensures var y := x - base;
            x == Pcie.ConfigAddr(base, y / 0x10_0000, y / 0x8000 % 32, y / 0x1000 % 8, y % 0x1000)
  {
    var y := x - base;
    var page := y / 0x1000;
    var slot := page / 8;
    DivModUnique(y, 0x8000, slot, page % 8 * 0x1000 + y % 0x1000);
    DivModUnique(y, 0x10_0000, slot / 32, slot % 32 * 0x8000 + page % 8 * 0x1000 + y % 0x1000);
    RemainderSmall(x, TWO64);
  }

  lemma WindowBounds(e: MmioHole.McfgEntry)
    requires EntryOk(e)
    ensures e.Window() ==
            MmioHole.Range(e.baseAddress + e.startBus * 0x10_0000, e.baseAddress + (e.endBus + 1) * 0x10_0000)
  {
    RemainderSmall(e.baseAddress + e.startBus * 0x10_0000, TWO64);
    RemainderSmall(e.baseAddress + (e.endBus + 1) * 0x10_0000, TWO64);
  }

  lemma RegisterBounds(base: nat, bus: nat, d: nat, f: nat, o: nat)
    requires base + 0x1000_0000 < TWO64 && bus < 256 && d < 32 && f < 8 && o < 0x1000
    ensures base + bus * 0x10_0000 <= Pcie.ConfigAddr(base, bus, d, f, o) < base + (bus + 1) * 0x10_0000
  {
    RemainderSmall(base + bus * 0x10_0000 + d * 0x8000 + f * 0x1000 + o, TWO64);
  }

  lemma WindowIsConfigSpace(e: MmioHole.McfgEntry, x: nat)
    requires EntryOk(e)
    ensures e.Window().Covers(x) <==> ConfigByte(e, x)
  {
    WindowBounds(e);
    if e.Window().Covers(x) { CoveredIsRegister(e, x); }
    if ConfigByte(e, x) {
      var bus: nat, d: nat, f: nat, o: nat :| e.startBus <= bus <= e.endBus && d < 32 && f < 8 && o < 0x1000
                                             && x == Pcie.ConfigAddr(e.baseAddress, bus, d, f, o);
      RegisterBounds(e.baseAddress, bus, d, f, o);
    }
  }

  lemma CoveredIsRegister(e: MmioHole.McfgEntry, x: nat)
    requires EntryOk(e) && e.baseAddress + e.startBus * 0x10_0000 <= x < e.baseAddress + (e.endBus + 1) * 0x10_0000
    ensures ConfigByte(e, x)
  {
    var y := x - e.baseAddress;
    var bus, d, f, o := y / 0x10_0000, y / 0x8000 % 32, y / 0x1000 % 8, y % 0x1000;
    ConfigDigits(e.baseAddress, x);
    assert e.startBus <= bus <= e.endBus;
    assert x == Pcie.ConfigAddr(e.baseAddress, bus, d, f, o);
  }

  // ---- the recorded ranges are what is in use ----

  /** At most 72 ranges are worth recording. */
  ghost predicate AllRecorded(m: E820.MemoryMap, mcfg: seq<MmioHole.McfgEntry>) {
    |MmioHole.Worthwhile(MmioHole.InUse(m, mcfg))| <= 72
  }

  lemma RecordedIsUsed(m: E820.MemoryMap, mcfg: seq<MmioHole.McfgEntry>, x: nat)
    requires E820.WellFormed(m) && EntriesOk(mcfg) && AllRecorded(m, mcfg) && x < 0x1_0000_0000
    ensures MmioHole.Covered(MmioHole.RecordAll([], MmioHole.InUse(m, mcfg)), x) <==> Used(m, mcfg, x)
  {
    var memory, windows := MmioHole.E820Ranges(m), MmioHole.McfgRanges(mcfg);
    MmioHole.RecordsAllIff(MmioHole.InUse(m, mcfg));
    MmioHole.WorthwhileCovers(MmioHole.InUse(m, mcfg), x);
    MmioHole.CoveredConcat(memory + MmioHole.FixedRanges(), windows, x);
    MmioHole.CoveredConcat(memory, MmioHole.FixedRanges(), x);
    MmioHole.E820RangesCover(m, x);
    MmioHole.FixedRangesCover(x);
    WindowsAreConfigSpace(mcfg, x);
    assert E820.Covered(m, x) <==> exists i | 0 <= i < |m| :: m[i].base <= x < m[i].base + m[i].length;
  }

  lemma WindowsAreConfigSpace(mcfg: seq<MmioHole.McfgEntry>, x: nat)
    requires EntriesOk(mcfg)
    ensures MmioHole.Covered(MmioHole.McfgRanges(mcfg), x) <==> exists i | 0 <= i < |mcfg| :: ConfigByte(mcfg[i], x)
  {
    forall i | 0 <= i < |mcfg|
      ensures MmioHole.McfgRanges(mcfg)[i].Covers(x) <==> ConfigByte(mcfg[i], x)
    {
      WindowIsConfigSpace(mcfg[i], x);
    }
  }

  /** An interval misses bounded ranges exactly when none of its addresses is covered. */
  lemma FreeIffNoneCovered(rs: seq<MmioHole.Range>, a: nat, b: nat)
    requires MmioHole.Bounded(rs)
    ensures MmioHole.Free(rs, a, b) <==>
            a < b <= 0x1_0000_0000 && forall x: nat | a <= x < b :: !MmioHole.Covered(rs, x)
  {
    if a < b <= 0x1_0000_0000 && forall x: nat | a <= x < b :: !MmioHole.Covered(rs, x) {
      forall i | 0 <= i < |rs|
        ensures rs[i].Misses(a, b)
      {
        var x := Max(a, rs[i].base);
        assert rs[i].Covers(x) ==> MmioHole.Covered(rs, x);
      }
    }
  }

  lemma FreeIffUnused(m: E820.MemoryMap, mcfg: seq<MmioHole.McfgEntry>, a: nat, b: nat)
    requires E820.WellFormed(m) && EntriesOk(mcfg) && AllRecorded(m, mcfg)
    ensures MmioHole.Free(MmioHole.RecordAll([], MmioHole.InUse(m, mcfg)), a, b) <==> Unused(m, mcfg, a, b)
  {
    var rs := MmioHole.RecordAll([], MmioHole.InUse(m, mcfg));
    MmioHole.RecordAllBounded([], MmioHole.InUse(m, mcfg));
    FreeIffNoneCovered(rs, a, b);
    forall x: nat | x < 0x1_0000_0000
      ensures MmioHole.Covered(rs, x) <==> Used(m, mcfg, x)
    {
      RecordedIsUsed(m, mcfg, x);
    }
  }

  /** The hole that the search finds is the largest interval without memory, fixed device or
      configuration register; and there is one exactly when some address is unused. */
  lemma HoleIsLargestUnused(m: E820.MemoryMap, mcfg: seq<MmioHole.McfgEntry>, base: nat, end: nat)
    requires E820.WellFormed(m) && EntriesOk(mcfg) && AllRecorded(m, mcfg)
    ensures MmioHole.LargestFree(MmioHole.RecordAll([], MmioHole.InUse(m, mcfg)), base, end) <==>
            LargestUnused(m, mcfg, base, end)
  {
    forall a: nat, b: nat
      ensures MmioHole.Free(MmioHole.RecordAll([], MmioHole.InUse(m, mcfg)), a, b) <==> Unused(m, mcfg, a, b)
    {
      FreeIffUnused(m, mcfg, a, b);
    }
  }

  lemma HoleExistsIff(m: E820.MemoryMap, mcfg: seq<MmioHole.McfgEntry>)
    requires E820.WellFormed(m) && EntriesOk(mcfg) && AllRecorded(m, mcfg)
    ensures var rs := MmioHole.RecordAll([], MmioHole.InUse(m, mcfg));
            (exists x: nat | x < 0x1_0000_0000 :: !MmioHole.Covered(rs, x)) <==>
            (exists x: nat | x < 0x1_0000_0000 :: !Used(m, mcfg, x))
  {
    var rs := MmioHole.RecordAll([], MmioHole.InUse(m, mcfg));
    if x: nat :| x < 0x1_0000_0000 && !MmioHole.Covered(rs, x) { RecordedIsUsed(m, mcfg, x); }
    if x: nat :| x < 0x1_0000_0000 && !Used(m, mcfg, x) { RecordedIsUsed(m, mcfg, x); }
  }

  /** No register of a function on a listed bus lies in a free interval. */
  lemma NoRegisterInHole(m: E820.MemoryMap, mcfg: seq<MmioHole.McfgEntry>, base: nat, end: nat, i: nat,
                         bus: nat, d: nat, f: nat, o: nat)
    requires E820.WellFormed(m) && EntriesOk(mcfg) && AllRecorded(m, mcfg)
    requires MmioHole.Free(MmioHole.RecordAll([], MmioHole.InUse(m, mcfg)), base, end)
    requires i < |mcfg| && mcfg[i].startBus <= bus <= mcfg[i].endBus && d < 32 && f < 8 && o < 0x1000
    ensures !(base <= Pcie.ConfigAddr(mcfg[i].baseAddress, bus, d, f, o) < end)
  {
    FreeIffUnused(m, mcfg, base, end);
    RegisterIsUsed(m, mcfg, i, bus, d, f, o);
  }

  lemma RegisterIsUsed(m: E820.MemoryMap, mcfg: seq<MmioHole.McfgEntry>, i: nat, bus: nat, d: nat, f: nat, o: nat)
    requires i < |mcfg| && mcfg[i].startBus <= bus <= mcfg[i].endBus && d < 32 && f < 8 && o < 0x1000
    ensures Used(m, mcfg, Pcie.ConfigAddr(mcfg[i].baseAddress, bus, d, f, o))
  {
    assert ConfigByte(mcfg[i], Pcie.ConfigAddr(mcfg[i].baseAddress, bus, d, f, o));
  }

  /** No address of a free interval is memory of any kind or one of the fixed devices, and with room
      for all ranges none is a configuration register of a function on a listed bus. Whatever else is
      recorded, the flash at the end of the first 4 GiB is. */
  lemma HoleIsClear(m: E820.MemoryMap, mcfg: seq<MmioHole.McfgEntry>, base: nat, end: nat, x: nat)
    requires E820.WellFormed(m) && MmioHole.Free(MmioHole.RecordAll([], MmioHole.InUse(m, mcfg)), base, end)
    requires base <= x < end
    ensures end <= 0xFFC0_0000
    ensures !E820.Covered(m, x) && !MmioHole.FixedDevice(x)
    ensures EntriesOk(mcfg) && AllRecorded(m, mcfg) ==> NoConfigByte(mcfg, x)
  {
    MmioHole.FlashIsRecorded(m, mcfg);
    MmioHole.FirstRecorded(m, mcfg, x);
    if EntriesOk(mcfg) && AllRecorded(m, mcfg) { HoleMissesConfig(m, mcfg, base, end, x); }
  }

  ghost predicate NoConfigByte(mcfg: seq<MmioHole.McfgEntry>, x: nat) {
    forall i | 0 <= i < |mcfg| :: !ConfigByte(mcfg[i], x)
  }

  lemma HoleMissesConfig(m: E820.MemoryMap, mcfg: seq<MmioHole.McfgEntry>, base: nat, end: nat, x: nat)
    requires E820.WellFormed(m) && EntriesOk(mcfg) && AllRecorded(m, mcfg)
    requires MmioHole.Free(MmioHole.RecordAll([], MmioHole.InUse(m, mcfg)), base, end) && base <= x < end
    ensures NoConfigByte(mcfg, x)
  {
    FreeIffUnused(m, mcfg, base, end);
    assert !Used(m, mcfg, x);
  }
}
