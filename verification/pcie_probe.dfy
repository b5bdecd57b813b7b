/** Sizing the BARs of a device that hard-wires the low bits of its registers, as section
    6.2.5.1 of the PCI Local Bus Specification 3.0 lays down. */
module PcieProbe {
  import opened Words
  import opened Pcie

  // ---- devices that mask writes ----

  /** What one register implements. `Upper` is the second half of a 64-bit BAR. */
  datatype Slot =
    | Absent
    | Mem32(size: nat, prefetch: bool)
    | Mem64(size: nat, prefetch: bool)
    | Upper(size: nat)
    | Io(size: nat)
  {

    ghost predicate Ok() {
      match this
      case Absent => true
      case Mem32(s, _) => IsPow2(s) && 16 <= s <= TWO32 / 2
      case Mem64(s, _) => IsPow2(s) && 16 <= s <= TWO64 / 2
      case Upper(s) => IsPow2(s) && 16 <= s <= TWO64 / 2
      case Io(s) => IsPow2(s) && 4 <= s <= TWO32 / 2
    }

    /** Address bits below this unit are hard-wired. */
    function Unit(): nat {
      match this
      case Absent => TWO32
      case Mem32(s, _) => s
      case Mem64(s, _) => Min(s, TWO32)
      case Upper(s) => if s <= TWO32 then 1 else s / TWO32
      case Io(s) => s
    }

    /** What the hard-wired bits read as: space indicator, type and prefetchable bit. */
    function Flags(): nat {
      match this
      case Absent => 0
      case Mem32(_, p) => if p then 8 else 0
      case Mem64(_, p) => if p then 12 else 4
      case Upper(_) => 0
      case Io(_) => 1
    }

    /** The value a register holds after `v` is written to it. */
    function Latched(v: nat): nat
      requires Unit() > 0
    {
      RemainderBelow(v, Unit());
      v - v % Unit() + Flags()
    }

    lemma UnitOk()
      requires Ok()
      ensures 0 < Unit() <= TWO32 && IsPow2(Unit()) && Flags() < Unit() && TWO32 % Unit() == 0
    {
      WordSizesArePowers();
      match this {
        case Upper(s) =>
          if s > TWO32 { PowerQuotient(s, TWO32); }
        case _ =>
      }
      PowersDivide(Unit(), TWO32);
    }

    lemma LatchedFacts(v: nat)
      requires Ok() && v < TWO32
      ensures Unit() > 0 && Latched(v) < TWO32 && Latched(v) % Unit() == Flags() && Latched(Latched(v)) == Latched(v)
    {
      UnitOk();
      FillBelow(v, TWO32, Unit());
      Replaced(v, Unit(), Flags());
    }

    /** Written with ones, the register reads back the complement of its unit. */
    lemma LatchedOnes()
      requires Ok()
      ensures Unit() > 0 && Latched(UINT32_MAX) == TWO32 - Unit() + Flags()
    {
      UnitOk();
      LastRemainder(TWO32, Unit());
    }
  }

  /** Replacing the remainder by `f` makes `f` the remainder. */
  lemma Replaced(v: nat, u: nat, f: nat)
    requires f < u
    ensures (v - v % u + f) % u == f
  {
    DivModUnique(v - v % u + f, u, v / u, f);
  }

  lemma LastRemainder(m: nat, u: nat)
    requires u > 0 && m >= u && m % u == 0
    ensures (m - 1) % u == u - 1
  {
    var q := m / u;
    assert m == q * u;
    assert m - 1 == (q - 1) * u + (u - 1);
    DivModUnique(m - 1, u, q - 1, u - 1);
  }

  lemma {:induction false} PowerQuotient(a: nat, b: nat)
    requires IsPow2(a) && IsPow2(b) && b <= a
    ensures IsPow2(a / b)
  {
    if b > 1 {
      var x, y := a / 2, b / 2;
      PowerQuotient(x, y);
      PowersDivide(y, x);
      DoubledQuotient(a, b, x, y);
    }
  }

  lemma DoubledQuotient(a: nat, b: nat, x: nat, y: nat)
    requires y > 0 && x % y == 0 && a == 2 * x && b == 2 * y
    ensures a / b == x / y
  {
    var q := x / y;
    assert x == q * y;
    assert a == q * b;
    DivModUnique(a, b, q, 0);
  }

  type Layout = l: seq<Slot> | |l| == BARS witness [Absent, Absent, Absent, Absent, Absent, Absent]

  /** 64-bit BARs take two slots, both inside the header. */
  ghost predicate LayoutOk(l: Layout) {
    forall i | 0 <= i < BARS :: SlotOk(l, i)
  }

  ghost predicate SlotOk(l: Layout, i: nat)
    requires i < BARS
  {
    && l[i].Ok()
    && (l[i].Mem64? ==> i + 1 < BARS && l[i + 1] == Upper(l[i].size))
    && (l[i].Upper? ==> i > 0 && l[i - 1].Mem64? && l[i - 1].size == l[i].size)
  }

  /** The device answers every write to a BAR as the layout says, and holds what it would latch. */
  ghost predicate Masks(cfg: ConfigSpace, l: Layout)
    requires LayoutOk(l)
    reads cfg
  {
    && (forall n: nat, i: nat, x: nat, v: nat | i < BARS && v < TWO32 :: cfg.respond(n, i, x, v) == Latched(l, i, v))
    && Holds(l, cfg.regs)
  }

  function Latched(l: Layout, i: nat, v: nat): nat
    requires i < BARS
  {
    if l[i].Unit() > 0 then l[i].Latched(v) else 0
  }

  ghost predicate Holds(l: Layout, regs: Registers) {
    forall i | 0 <= i < BARS :: regs[i] == Latched(l, i, regs[i])
  }

  // ---- what the probe should find ----

  /** The address programmed into BAR `i`. */
  function Programmed(l: Layout, regs: Registers, i: nat): int
    requires i < BARS
  {
    match l[i]
    case Absent => 0
    case Upper(_) => 0
    case Mem64(_, _) => regs[i + 1] * TWO32 + regs[i] - l[i].Flags()
    case _ => regs[i] - l[i].Flags()
  }

  /** The record of BAR `i`: exact base, size and kind; an absent BAR and the upper half of a
      64-bit pair are invalid. The prefetchable bit is bit 3 of the register, whatever it means. */
  ghost predicate Recovered(l: Layout, regs: Registers, i: nat, b: Bar)
    requires i < BARS
  {
    && b.isValid == !(l[i].Absent? || l[i].Upper?)
    && b.is64Bits == l[i].Mem64?
    && (b.isValid ==> b.isIO == l[i].Io? && b.base == Programmed(l, regs, i) && b.size == l[i].size)
    && (!b.isValid ==> b.size == 0)
    && (l[i].Mem32? || l[i].Mem64? ==> b.isPrefetchable == l[i].prefetch)
  }

  // ---- the probe ----

  predicate IsIo(data: nat)
    ensures IsIo(data) <==> data % 2 == 1
  {
    AndLowMask(data, 2);
    And(data, 1) != 0
  }

  /** The two type bits of a memory BAR. */
  function TypeBits(data: nat): (t: nat)
    ensures t == data / 2 % 4
  {
    AndLowMask(data / 2, 4);
    And(data / 2, 3)
  }

  predicate IsPrefetchable(data: nat)
    ensures IsPrefetchable(data) <==> data / 8 % 2 == 1
  {
    AndLowMask(data / 8, 2);
    AndEven(data, 4);
    AndEven(data / 2, 2);
    AndEven(data / 4, 1);
    assert data / 2 / 2 == data / 4 && data / 4 / 2 == data / 8;
    And(data, 8) != 0
  }

  /** Complement and add one: the size a 32-bit mask stands for. */
  function Size32(m: nat): (size: nat)
    requires m < TWO32
    ensures size == if m == 0 then 0 else TWO32 - m
  {
    U32(Not32(m) + 1)
  }

  function Size64(m: nat): (size: nat)
    requires m < TWO64
    ensures size == if m == 0 then 0 else TWO64 - m
  {
    U64(Not64(m) + 1)
  }

  /** What the probe concludes from a register pair and the masks read back from it. */
  function Classify(data: nat, dataHigh: nat, mask: nat, maskHigh: nat): Bar
    requires data < TWO32 && dataHigh < TWO32 && mask < TWO32 && maskHigh < TWO32
  {
    if IsIo(data) then ClassifyIo(data, mask)
    else if TypeBits(data) == 3 then Bar(false, false, false, IsPrefetchable(data), 0, 0)
    else if TypeBits(data) == 2 then Classify64(data, dataHigh, mask, maskHigh)
    else Classify32(data, mask)
  }

  function ClassifyIo(data: nat, mask: nat): Bar
    requires data < TWO32 && mask < TWO32
  {
    var m := KeepHigh(mask, 4);
    Bar(m != 0 && Size32(m) != 0, false, true, IsPrefetchable(data), KeepHigh(data, 4), Size32(m))
  }

  function Classify32(data: nat, mask: nat): Bar
    requires data < TWO32 && mask < TWO32
  {
    var m := KeepHigh(mask, 16);
    Bar(m != 0 && Size32(m) != 0, false, false, IsPrefetchable(data), KeepHigh(data, 16), Size32(m))
  }

  function Classify64(data: nat, dataHigh: nat, mask: nat, maskHigh: nat): Bar
    requires data < TWO32 && dataHigh < TWO32 && mask < TWO32 && maskHigh < TWO32
  {
    var m := Join(maskHigh, KeepHigh(mask, 16));
    Bar(m != 0 && Size64(m) != 0, true, false, IsPrefetchable(data), Join(dataHigh, KeepHigh(data, 16)), Size64(m))
  }

  // ---- the probe on a masking device ----

  /** With respect to a divisor of the unit, a held value also leaves the flags. */
  lemma SmallerRemainder(v: nat, u: nat, g: nat, f: nat)
    requires u > 0 && g > 0 && u % g == 0 && v % u == f < g
    ensures v % g == f
  {
    assert v == v / u * u + f && u == u / g * g;
    assert v == (v / u * (u / g)) * g + f;
    DivModUnique(v, g, v / u * (u / g), f);
  }

  /** What a held register reads as, before and after writing ones. */
  lemma HeldBits(s: Slot, d: nat, g: nat)
    requires s.Ok() && d < TWO32 && (g == 4 || g == 16) && g <= s.Unit() && s.Flags() < g && d == s.Latched(d)
    ensures d % g == s.Flags() && s.Unit() % g == 0 && s.Unit() <= TWO32
    ensures s.Latched(UINT32_MAX) == TWO32 - s.Unit() + s.Flags() < TWO32
  {
    var u, f := s.Unit(), s.Flags();
    s.UnitOk();
    s.LatchedOnes();
    assert d % u == f;
    FlagUnitIsPower(g);
    PowersDivide(g, u);
    SmallerRemainder(d, u, g, f);
  }

  /** The two masks of a pair make up the complement of the 64-bit size. */
  lemma PairMask(size: nat)
    requires IsPow2(size) && 16 <= size <= TWO64 / 2
    ensures var low, high := Mem64(size, false).Unit(), Upper(size).Unit();
            (TWO32 - high) * TWO32 + (TWO32 - low) == TWO64 - size
  {
    if size > TWO32 {
      WordSizesArePowers();
      PowersDivide(TWO32, size);
    }
  }

  lemma PairUnits(size: nat)
    requires IsPow2(size) && 16 <= size <= TWO64 / 2
    ensures 16 <= Mem64(size, false).Unit() <= TWO32 && 0 < Upper(size).Unit() <= TWO32
  {
    Upper(size).UnitOk();
  }

  /** Reading the flag bits `f` and the address bits above them. */
  lemma Flagged(x: nat, q: nat, f: nat)
    requires x == 16 * q + f < TWO32 && (f == 0 || f == 4 || f == 8 || f == 12)
    ensures KeepHigh(x, 16) == 16 * q && !IsIo(x)
    ensures TypeBits(x) == (if f == 4 || f == 12 then 2 else 0) && (IsPrefetchable(x) <==> f >= 8)
  {
    FlagArithmetic(x, q, f);
  }

  lemma FlagArithmetic(x: nat, q: nat, f: nat)
    requires x == 16 * q + f && (f == 0 || f == 4 || f == 8 || f == 12)
    ensures x % 16 == f && x % 2 == 0
    ensures x / 2 % 4 == (if f == 4 || f == 12 then 2 else 0) && (x / 8 % 2 == 1 <==> f >= 8)
  {
    DivModUnique(x, 16, q, f);
    DivModUnique(x, 2, 8 * q + f / 2, 0);
    DivModUnique(8 * q + f / 2, 4, 2 * q + f / 8, if f == 4 || f == 12 then 2 else 0);
    DivModUnique(x, 8, 2 * q + f / 8, if f == 4 || f == 12 then 4 else 0);
    DivModUnique(2 * q + f / 8, 2, q, f / 8);
  }

  lemma Pair64(d: nat, h: nat, f: nat, low: nat, high: nat, size: nat)
    requires d < TWO32 && h < TWO32 && (f == 4 || f == 12) && d % 16 == f
    requires 16 <= low <= TWO32 && low % 16 == 0 && 0 < high <= TWO32
    requires 0 < size < TWO64 && (TWO32 - high) * TWO32 + (TWO32 - low) == TWO64 - size
    ensures Classify64(d, h, TWO32 - low + f, TWO32 - high) ==
      Bar(true, true, false, f == 12, h * TWO32 + (d - f), size)
  {
    Flagged(d, d / 16, f);
    Flagged(TWO32 - low + f, 0x1000_0000 - low / 16, f);
  }

  lemma Memory32(d: nat, f: nat, size: nat)
    requires d < TWO32 && (f == 0 || f == 8) && d % 16 == f
    requires 16 <= size < TWO32 && size % 16 == 0
    ensures Classify32(d, TWO32 - size + f) == Bar(true, false, false, f == 8, d - f, size)
  {
    Flagged(d, d / 16, f);
    Flagged(TWO32 - size + f, 0x1000_0000 - size / 16, f);
  }

  lemma KeptHigh(x: nat, g: nat, r: nat)
    requires x < TWO32 && (g == 4 || g == 16) && x - x % g == r
    ensures KeepHigh(x, g) == r
  {
  }

  lemma IoSpace(d: nat, size: nat)
    requires d < TWO32 && d % 4 == 1 && 4 <= size < TWO32 && size % 4 == 0
    ensures ClassifyIo(d, TWO32 - size + 1) == Bar(true, false, true, IsPrefetchable(d), d - 1, size)
  {
    var k := size / 4;
    DivModUnique(TWO32 - size + 1, 4, 0x4000_0000 - k, 1);
    KeptHigh(TWO32 - size + 1, 4, TWO32 - size);
    KeptHigh(d, 4, d - 1);
  }

  /** What one slot answers when ones are written to it. */
  function Ones(l: Layout, i: nat): nat
    requires i < BARS
  {
    Latched(l, i, UINT32_MAX)
  }

  /** What the probe reads from a masking device determines the record. */
  lemma ProbeRecovers(l: Layout, regs: Registers, i: nat, high: nat, onesHigh: nat)
    requires LayoutOk(l) && Holds(l, regs) && i < BARS && !l[i].Upper?
    requires SlotOk(l, i) && l[i].Unit() > 0
    requires if l[i].Mem64? then high == regs[i + 1] && onesHigh == Ones(l, i + 1) else high == onesHigh == 0
    ensures Ones(l, i) < TWO32 && onesHigh < TWO32
    ensures Recovered(l, regs, i, Classify(regs[i], high, Ones(l, i), onesHigh))
    ensures !IsIo(regs[i]) && TypeBits(regs[i]) == 2 <==> l[i].Mem64?
  {
    if l[i].Mem64? {
      assert SlotOk(l, i + 1);
      HeldBits(l[i], regs[i], 16);
      l[i + 1].UnitOk();
      l[i + 1].LatchedOnes();
      RecoversMem64(l[i], regs[i], high, Ones(l, i), onesHigh);
    } else if l[i].Mem32? {
      HeldBits(l[i], regs[i], 16);
      RecoversMem32(l[i], regs[i], Ones(l, i));
    } else if l[i].Io? {
      HeldBits(l[i], regs[i], 4);
      RecoversIo(l[i], regs[i], Ones(l, i));
    } else {
      HeldBits(l[i], regs[i], 16);
      RemainderSmall(regs[i], TWO32);
      RecoversAbsent();
    }
  }

  lemma RecoversIo(s: Slot, d: nat, ones: nat)
    requires s.Io? && s.Ok() && d < TWO32 && d % 4 == 1 && ones == TWO32 - s.size + 1 && s.size % 4 == 0
    ensures ones < TWO32 && IsIo(d) && Classify(d, 0, ones, 0) ==
      Bar(true, false, true, IsPrefetchable(d), d - 1, s.size)
  {
    assert d % 2 == 1;
    IoSpace(d, s.size);
  }

  lemma RecoversAbsent()
    ensures !IsIo(0) && TypeBits(0) == 0 && Classify(0, 0, 0, 0) == Bar(false, false, false, false, 0, 0)
  {
    Flagged(0, 0, 0);
  }

  lemma RecoversMem64(s: Slot, d: nat, h: nat, ones: nat, onesHigh: nat)
    requires s.Mem64? && s.Ok() && d < TWO32 && h < TWO32 && ones < TWO32 && onesHigh < TWO32
    requires d % 16 == s.Flags() && s.Unit() % 16 == 0
    requires ones == TWO32 - s.Unit() + s.Flags() && onesHigh == TWO32 - Upper(s.size).Unit()
    ensures !IsIo(d) && TypeBits(d) == 2
    ensures Classify64(d, h, ones, onesHigh) == Bar(true, true, false, s.prefetch, h * TWO32 + (d - s.Flags()), s.size)
  {
    Flagged(d, d / 16, s.Flags());
    PairUnits(s.size);
    PairMask(s.size);
    Pair64(d, h, s.Flags(), s.Unit(), Upper(s.size).Unit(), s.size);
  }

  lemma RecoversMem32(s: Slot, d: nat, ones: nat)
    requires s.Mem32? && s.Ok() && d < TWO32 && ones < TWO32
    requires d % 16 == s.Flags() && s.Unit() % 16 == 0 && ones == TWO32 - s.Unit() + s.Flags()
    ensures !IsIo(d) && TypeBits(d) == 0
    ensures Classify32(d, ones) == Bar(true, false, false, s.prefetch, d - s.Flags(), s.size)
  {
    Flagged(d, d / 16, s.Flags());
    Memory32(d, s.Flags(), s.size);
  }

  /** A masking device takes back what it holds, and reads all ones as the layout says. */
  lemma MasksTakeBack(cfg: ConfigSpace, l: Layout)
    requires LayoutOk(l) && Masks(cfg, l)
    ensures forall i | 0 <= i < BARS :: cfg.TakesBack(i)
    ensures forall n: nat, i: nat, x: nat | i < BARS :: U32(cfg.respond(n, i, x, UINT32_MAX)) == Ones(l, i)
  {
    forall i: nat | i < BARS
      ensures cfg.TakesBack(i) && forall n: nat, x: nat :: U32(cfg.respond(n, i, x, UINT32_MAX)) == Ones(l, i)
    {
      assert SlotOk(l, i);
      l[i].LatchedFacts(cfg.regs[i]);
      l[i].LatchedFacts(UINT32_MAX);
    }
  }

  /** The register protocol of one probe, on any device that takes its old values back: decoding
      is off until the old values are back (`Write32` asks for it, and the command word is restored
      last), and everything is as before afterwards. */
  method ReadMasks(cfg: ConfigSpace, i: nat, is64: bool) returns (mask: nat, maskHigh: nat)
    requires i < BARS && cfg.TakesBack(i) && (is64 ==> cfg.TakesBack(i + 1))
    modifies cfg
    ensures cfg.regs == old(cfg.regs) && cfg.command == old(cfg.command)
    ensures mask == U32(cfg.respond(old(cfg.writes), i, old(cfg.regs)[i], UINT32_MAX))
    ensures maskHigh == if is64 then U32(cfg.respond(old(cfg.writes) + 1, i + 1, old(cfg.regs)[i + 1], UINT32_MAX))
      else 0
  {
    var data := cfg.regs[i];
    var dataHigh := if is64 then cfg.regs[i + 1] else 0;
    var command := cfg.command;
    cfg.DisableDecoding();
    cfg.Write32(i, UINT32_MAX);
    if is64 {
      cfg.Write32(i + 1, UINT32_MAX);
    }
    mask, maskHigh := cfg.regs[i], 0;
    if is64 {
      maskHigh := cfg.regs[i + 1];
      cfg.Write32(i + 1, dataHigh);
    }
    cfg.Write32(i, data);
    assert cfg.regs == old(cfg.regs);
    cfg.command := command;
  }

  /** Probes BAR `i`: save, disable decoding, write ones, read back, restore. The device is left
      as it was, and the record says what the device implements. */
  method ProbeBar(d: Device, i: nat, lastWas64: bool, ghost l: Layout) returns (is64: bool)
    requires i < BARS && |d.bars| == BARS
    requires LayoutOk(l) && Masks(d.cfg, l) && lastWas64 == l[i].Upper?
    modifies d, d.cfg
    ensures d.cfg.regs == old(d.cfg.regs) && d.cfg.command == old(d.cfg.command)
    ensures |d.bars| == BARS && d.bars == old(d.bars)[i := d.bars[i]]
    ensures Recovered(l, d.cfg.regs, i, d.bars[i]) && is64 == l[i].Mem64?
  {
    var cfg := d.cfg;
    var data := cfg.regs[i];
    assert SlotOk(l, i);
    if lastWas64 {
      d.bars := d.bars[i := Bar(false, false, IsIo(data), IsPrefetchable(data), 0, 0)];
      return false;
    }
    is64 := !IsIo(data) && TypeBits(data) == 2;
    ghost var high, onesHigh := if l[i].Mem64? then cfg.regs[i + 1] else 0, if l[i].Mem64? then Ones(l, i + 1) else 0;
    l[i].UnitOk();
    ProbeRecovers(l, cfg.regs, i, high, onesHigh);
    MasksTakeBack(cfg, l);
    var dataHigh := if is64 then cfg.regs[i + 1] else 0;
    var mask, maskHigh := ReadMasks(cfg, i, is64);
    d.bars := d.bars[i := Classify(data, dataHigh, mask, maskHigh)];
  }

  /** Every record matches what the device implements and where it is programmed. */
  ghost predicate AllRecovered(l: Layout, regs: Registers, bars: seq<Bar>) {
    |bars| == BARS && forall i | 0 <= i < BARS :: Recovered(l, regs, i, bars[i])
  }

  /** The six probes of one function. */
  method ProbeAll(d: Device, ghost l: Layout)
    requires |d.bars| == BARS && LayoutOk(l) && Masks(d.cfg, l)
    modifies d, d.cfg
    ensures d.cfg.regs == old(d.cfg.regs) && d.cfg.command == old(d.cfg.command)
    ensures AllRecovered(l, d.cfg.regs, d.bars)
  {
    var lastWas64 := false;
    for i := 0 to BARS
      invariant |d.bars| == BARS && d.cfg.regs == old(d.cfg.regs) && d.cfg.command == old(d.cfg.command)
      invariant forall k | 0 <= k < i :: Recovered(l, d.cfg.regs, k, d.bars[k])
      invariant lastWas64 <==> 0 < i && l[i - 1].Mem64?
    {
      assert SlotOk(l, i);
      assert i > 0 ==> SlotOk(l, i - 1);
      lastWas64 := ProbeBar(d, i, lastWas64, l);
    }
  }
}
