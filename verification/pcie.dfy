/** PCI configuration space, the probe that sizes base address registers, and the move of a
    register onto a new address. */
module Pcie {
  import opened Words

  // ---- addressing ----

  /** Where a register of a function lies in the ECAM window at `base`. */
  function ConfigAddr(base: nat, bus: nat, device: nat, func: nat, offset: nat): nat {
    U64(base + bus * 0x10_0000 + device * 0x8000 + func * 0x1000 + offset)
  }

  predicate IsFunction(bus: nat, device: nat, func: nat, offset: nat) {
    bus < 256 && device < 32 && func < 8 && offset < 0x1000
  }

  /** Different functions, and different registers of one, lie at different addresses, all inside
      the megabyte of their bus. */
  lemma ConfigAddrInjective(base: nat, b: nat, d: nat, f: nat, o: nat, b': nat, d': nat, f': nat, o': nat)
    requires base + 0x1000_0000 <= TWO64 && IsFunction(b, d, f, o) && IsFunction(b', d', f', o')
    ensures base + b * 0x10_0000 <= ConfigAddr(base, b, d, f, o) < base + (b + 1) * 0x10_0000
    ensures ConfigAddr(base, b, d, f, o) == ConfigAddr(base, b', d', f', o') ==>
              b == b' && d == d' && f == f' && o == o'
  {
    RemainderSmall(base + b * 0x10_0000 + d * 0x8000 + f * 0x1000 + o, TWO64);
    RemainderSmall(base + b' * 0x10_0000 + d' * 0x8000 + f' * 0x1000 + o', TWO64);
  }

  /** An address tells bus, device, function and register apart, as the standard lays them out: 12 bits
      of register, 3 of function, 5 of device, and the bus above. */
  lemma ConfigAddrDigits(base: nat, b: nat, d: nat, f: nat, o: nat)
    requires base + 0x1000_0000 <= TWO64 && b < 256 && d < 32 && f < 8 && o < 4096
    ensures var y := ConfigAddr(base, b, d, f, o) - base;
            y >= 0 && y % 4096 == o && y / 4096 % 8 == f && y / 32768 % 32 == d && y / 1048576 == b
  {
    RemainderSmall(base + b * 0x10_0000 + d * 0x8000 + f * 0x1000 + o, TWO64);
    Digits(b, d, f, o, b * 0x10_0000 + d * 0x8000 + f * 0x1000 + o);
  }

  lemma Digits(b: nat, d: nat, f: nat, o: nat, y: nat)
    requires d < 32 && f < 8 && o < 4096 && y == b * 0x10_0000 + d * 0x8000 + f * 0x1000 + o
    ensures y % 4096 == o && y / 4096 % 8 == f && y / 32768 % 32 == d && y / 1048576 == b
  {
    var upper, top := b * 32 + d, b * 256 + d * 8 + f;
    DivModUnique(y, 4096, top, o);
    DivModUnique(top, 8, upper, f);
    DivModUnique(y, 32768, upper, f * 4096 + o);
    DivModUnique(upper, 32, b, d);
    DivModUnique(y, 1048576, b, d * 32768 + f * 4096 + o);
  }

  // ---- the driver's record of a BAR ----

  datatype Bar = Bar(isValid: bool, is64Bits: bool, isIO: bool, isPrefetchable: bool, base: nat, size: nat)

  const BARS: nat := 6

  // ---- hardware ----

  /** The dwords at 0x10, 0x14, .. 0x28 of a header: six BARs and the dword behind them. */
  type Registers = r: seq<nat> | |r| == BARS + 1 && forall i | 0 <= i < |r| :: r[i] < TWO32
    witness [0, 0, 0, 0, 0, 0, 0]

  /** What a register holds next: from the number of the write, the register, what it holds, and
      what is written. The number lets a device answer each write as it likes, whatever the answer
      depends on. */
  type Response = (nat, nat, nat, nat) -> nat

  class ConfigSpace {
    const respond: Response
    var regs: Registers
    var command: nat
    var writes: nat          // how many writes there were

    constructor (respond: Response, regs: Registers, command: nat)
      ensures this.respond == respond && this.regs == regs && this.command == command
    {
      this.respond, this.regs, this.command, this.writes := respond, regs, command, 0;
    }

    /** The two low bits of the command word switch decoding on. */
    predicate Decodes()
      reads this
    {
      command % 4 != 0
    }

    /** A BAR is written only while the device does not decode. */
    method Write32(r: nat, value: nat)
      requires r <= BARS && value < TWO32 && !Decodes()
      modifies this`regs, this`writes
      ensures regs == old(regs)[r := U32(respond(old(writes), r, old(regs)[r], value))] && writes == old(writes) + 1
    {
      regs := regs[r := U32(respond(writes, r, regs[r], value))];
      writes := writes + 1;
    }

    /** `command & ~3`. */
    method DisableDecoding()
      modifies this`command
      ensures !Decodes()
    {
      ClearedLowBits(command);
      command := And(command, 0xFFFC);
    }

    /** Register `r` takes the value it holds back, whatever it was overwritten with. */
    ghost predicate TakesBack(r: nat)
      requires r <= BARS
      reads this
    {
      forall n: nat, x: nat :: U32(respond(n, r, x, regs[r])) == regs[r]
    }
  }

  lemma ClearedLowBits(x: nat)
    ensures And(x, 0xFFFC) % 4 == 0
  {
    AndEven(x, 0x7FFE);
    AndEven(x / 2, 0x3FFF);
  }

  // ---- the address a register pair decodes to ----

  /** Address bits of BAR `i` for a record of kind `b`. */
  function Decoded(b: Bar, regs: Registers, i: nat): nat
    requires i < BARS
  {
    if b.isIO then regs[i] - regs[i] % 4
    else if b.is64Bits then regs[i + 1] * TWO32 + (regs[i] - regs[i] % 16)
    else regs[i] - regs[i] % 16
  }

  lemma LowBits(x: nat, g: nat)
    requires x < TWO32 && (g == 4 || g == 16)
    ensures And(x, g - 1) == x % g && And(x, Not32(g - 1)) == x - x % g
  {
    FlagUnitIsPower(g);
    MaskedBits(x, g);
  }

  lemma FlagUnitIsPower(g: nat)
    requires g == 4 || g == 16
    ensures IsPow2(g)
  {
  }

  lemma MaskedBits(x: nat, g: nat)
    requires x < TWO32 && IsPow2(g) && g <= TWO32
    ensures And(x, g - 1) == x % g && And(x, Not32(g - 1)) == x - x % g
  {
    WordSizesArePowers();
    AndLowMask(x, g);
    AndHighMask(x, g, TWO32);
  }

  /** `x & ~(g - 1)` and `x & (g - 1)` on 32-bit words. */
  function KeepHigh(x: nat, g: nat): (r: nat)
    requires x < TWO32 && (g == 4 || g == 16)
    ensures r == x - x % g
  {
    LowBits(x, g);
    And(x, Not32(g - 1))
  }

  function KeepLow(x: nat, g: nat): (r: nat)
    requires x < TWO32 && (g == 4 || g == 16)
    ensures r == x % g
  {
    LowBits(x, g);
    And(x, g - 1)
  }

  /** `((uint64_t)high << 32) | low`. */
  function Join(high: nat, low: nat): (r: nat)
    requires low < TWO32
    ensures r == high * TWO32 + low
  {
    JoinWords(high, low);
    Or(high * TWO32, low)
  }

  /** A high word shifted up, or-ed with a low one. */
  lemma JoinWords(high: nat, low: nat)
    requires low < TWO32
    ensures Or(high * TWO32, low) == high * TWO32 + low
  {
    WordSizesArePowers();
    DivModUnique(high * TWO32, TWO32, high, 0);
    OrDisjoint(low, high * TWO32, TWO32);
  }

  function ReadBack(b: Bar, low: nat, high: nat): nat
    requires low < TWO32 && high < TWO32
  {
    if b.isIO then KeepHigh(low, 4)
    else if b.is64Bits then Join(high, KeepHigh(low, 16))
    else KeepHigh(low, 16)
  }

  lemma ReadBackDecodes(b: Bar, regs: Registers, i: nat)
    requires i < BARS
    ensures ReadBack(b, regs[i], if b.is64Bits then regs[i + 1] else 0) == Decoded(b, regs, i)
  {
  }

  /** The checks that refuse a new base before anything is written. */
  predicate Acceptable(b: Bar, newBase: nat) {
    if b.isIO then
      !(newBase > UINT32_MAX || And(newBase, 3) != 0 || U64(newBase + b.size) > UINT32_MAX)
    else
      && b.size > 0
      && And(newBase, b.size - 1) == 0
      && !((!b.is64Bits && newBase > UINT32_MAX) || U64(newBase + b.size) > UINT32_MAX)
  }

  /** What the checks come to: an I/O base is a multiple of 4, a memory base one of the size, and the
      window, counted in 64 bits, ends below the last byte under 4 GiB. */
  lemma AcceptableIff(b: Bar, newBase: nat)
    requires newBase < TWO64 && (b.isIO || b.size == 0 || IsPow2(b.size))
    ensures Acceptable(b, newBase) <==>
      && (b.isIO || (b.size > 0 && newBase % b.size == 0)) && (b.isIO ==> newBase % 4 == 0)
      && ((b.is64Bits && !b.isIO) || newBase <= 0xFFFF_FFFF)
      && (newBase + b.size) % 0x1_0000_0000_0000_0000 <= 0xFFFF_FFFF
  {
    if b.isIO {
      LowTwoBits(newBase);
    } else if b.size > 0 {
      AndLowMask(newBase, b.size);
    }
  }

  lemma LowTwoBits(x: nat)
    ensures And(x, 3) == x % 4
  {
    AndLowMask(x, 4);
  }

  /** The word written to the low register: its flag bits kept, the address bits new. */
  function NewLow(b: Bar, low: nat, newBase: nat): nat
    requires low < TWO32
  {
    if b.isIO then Or(KeepLow(low, 4), KeepHigh(U32(newBase), 4))
    else Or(KeepLow(low, 16), KeepHigh(U32(newBase), 16))
  }

  lemma NewLowValue(b: Bar, low: nat, newBase: nat)
    requires low < TWO32
    ensures var g := if b.isIO then 4 else 16;
            NewLow(b, low, newBase) == low % g + (U32(newBase) - U32(newBase) % g) < TWO32
  {
    MergeBits(low, U32(newBase), if b.isIO then 4 else 16);
  }

  /** The low bits of one word under the high bits of another. */
  lemma MergeBits(low: nat, w: nat, g: nat)
    requires low < TWO32 && w < TWO32 && (g == 4 || g == 16)
    ensures Or(KeepLow(low, g), KeepHigh(w, g)) == low % g + (w - w % g) < TWO32
  {
    RoundDown(w, g);
    OrOfParts(low % g, w - w % g, g);
    assert TWO32 % 4 == 0 && TWO32 % 16 == 0;
    FillBelow(w, TWO32, g);
  }

  lemma OrOfParts(lo: nat, hi: nat, g: nat)
    requires (g == 4 || g == 16) && lo < g && hi % g == 0
    ensures Or(lo, hi) == lo + hi
  {
    OrDisjoint(lo, hi, g);
  }

  /** Below a multiple of `g`, a multiple leaves room for all smaller remainders. */
  lemma FillBelow(w: nat, top: nat, g: nat)
    requires g > 0 && w < top && top % g == 0
    ensures w - w % g + g <= top
  {
    RoundDown(w, g);
    MultiplesApart(w - w % g, top, g);
  }

  /** The registers of BAR `i` spell the address `x`, above two flag bits of an I/O BAR or four of a
      memory BAR; the register behind a 64-bit BAR holds the upper half. */
  predicate Shows(b: Bar, regs: Registers, i: nat, x: nat)
    requires i < BARS
  {
    var unit := if b.isIO then 4 else 16;
    var value := regs[i] + if b.is64Bits && !b.isIO then regs[i + 1] * 0x1_0000_0000 else 0;
    x % unit == 0 && x <= value < x + unit
  }

  /** So the address that is read back is the one the registers spell. */
  lemma DecodedIffShown(b: Bar, regs: Registers, i: nat, x: nat)
    requires i < BARS
    ensures Decoded(b, regs, i) == x <==> Shows(b, regs, i, x)
  {
    var unit := if b.isIO then 4 else 16;
    var high := if b.is64Bits && !b.isIO then regs[i + 1] else 0;
    WordsAbove(regs[i], high, unit);
    RoundedIff(regs[i] + high * TWO32, unit, x);
  }

  lemma WordsAbove(low: nat, high: nat, unit: nat)
    requires unit == 4 || unit == 16
    ensures (low + high * TWO32) % unit == low % unit
  {
    DivModUnique(low + high * TWO32, unit, high * (TWO32 / unit) + low / unit, low % unit);
  }

  lemma RoundedIff(v: nat, unit: nat, x: nat)
    requires unit == 4 || unit == 16
    ensures v - v % unit == x <==> x % unit == 0 && x <= v < x + unit
  {
    RoundDown(v, unit);
    if x % unit == 0 && x <= v < x + unit { DivModUnique(v, unit, x / unit, v - x); }
  }

  /** A device that stores what is written. */
  ghost predicate Stores(respond: Response) { forall k: nat, r: nat, was: nat, v: nat :: respond(k, r, was, v) == v }

  /** Such a device shows the new base afterwards, under the flags it had, and no other register has
      changed. */
  lemma StoredAsWritten(respond: Response, n: nat, regs: Registers, b: Bar, i: nat, x: nat)
    requires Stores(respond) && i < BARS && !(b.isIO && b.is64Bits)
    requires x < (if b.is64Bits then TWO64 else TWO32) && x % (if b.isIO then 4 else 16) == 0
    ensures var unit, after := if b.isIO then 4 else 16, Written(respond, n, regs, b, i, x);
            && Shows(b, after, i, x) && after[i] % unit == regs[i] % unit
            && forall k | 0 <= k <= BARS && k != i && !(b.is64Bits && k == i + 1) :: after[k] == regs[k]
  {
    var unit, after := if b.isIO then 4 else 16, Written(respond, n, regs, b, i, x);
    var low, flags := U32(x), regs[i] % unit;
    LowWord(x, unit);
    FlagsUnder(low, unit, flags);
    NewLowValue(b, regs[i], x);
    RemainderSmall(low + flags, TWO32);
    if b.is64Bits {
      RemainderSmall(U32(x / TWO32), TWO32);
      RemainderSmall(x / TWO32, TWO32);
      assert after[i + 1] == x / TWO32;
    } else {
      RemainderSmall(x, TWO32);
    }
    assert after[i] == low + flags;
  }

  lemma LowWord(x: nat, unit: nat)
    requires (unit == 4 || unit == 16) && x % unit == 0
    ensures U32(x) % unit == 0 && x == U32(x) + x / TWO32 * TWO32
  {
    WordsAbove(x % TWO32, x / TWO32, unit);
  }

  lemma FlagsUnder(low: nat, unit: nat, flags: nat)
    requires (unit == 4 || unit == 16) && low % unit == 0 && flags < unit
    ensures (low + flags) % unit == flags
  {
    DivModUnique(low + flags, unit, low / unit, flags);
  }

  class Device {
    const cfg: ConfigSpace
    var bars: seq<Bar>

    constructor (cfg: ConfigSpace)
      ensures this.cfg == cfg && |bars| == BARS
    {
      this.cfg := cfg;
      this.bars := seq(BARS, _ => Bar(false, false, false, false, 0, 0));
    }

    /** Moves BAR `i` to a new base, or leaves everything as it was. */
    method Remap(i: nat, newBase: nat) returns (ok: bool)
      requires newBase < TWO64 && |bars| == BARS
      requires i < BARS ==> cfg.TakesBack(i) && (bars[i].is64Bits ==> cfg.TakesBack(i + 1))
      modifies this, cfg
      ensures |bars| == BARS && cfg.command == old(cfg.command)
      ensures !ok ==> cfg.regs == old(cfg.regs) && bars == old(bars)
      ensures ok ==>
        && i < BARS && old(bars[i]).isValid && bars == old(bars)[i := old(bars[i]).(base := newBase)]
        && Decoded(bars[i], cfg.regs, i) == newBase && Shows(bars[i], cfg.regs, i, newBase)
        && cfg.regs == Written(cfg.respond, old(cfg.writes), old(cfg.regs), bars[i], i, newBase)
        && forall r | 0 <= r <= BARS && r != i && !(bars[i].is64Bits && r == i + 1) :: cfg.regs[r] == old(cfg.regs[r])
      ensures ok <==> Moves(cfg.respond, old(cfg.writes), old(cfg.regs), old(bars), i, newBase)
    {
      if i >= BARS {
        return false;
      }
      if !bars[i].isValid {
        return false;
      }
      var b := bars[i];
      if !Acceptable(b, newBase) {
        return false;
      }
      ok := Attempt(b, i, newBase);
      if ok {
        bars := bars[i := b.(base := newBase)];
        DecodedIffShown(bars[i], cfg.regs, i, newBase);
      }
    }

    /** The move with decoding off; when the device does not show the new base the old values are
        written back. Either way the command word is restored last. */
    method Attempt(b: Bar, i: nat, newBase: nat) returns (ok: bool)
      requires i < BARS && newBase < TWO64 && cfg.TakesBack(i) && (b.is64Bits ==> cfg.TakesBack(i + 1))
      modifies cfg
      ensures cfg.command == old(cfg.command)
      ensures ok <==> Decoded(b, Written(cfg.respond, old(cfg.writes), old(cfg.regs), b, i, newBase), i) == newBase
      ensures cfg.regs == if ok then Written(cfg.respond, old(cfg.writes), old(cfg.regs), b, i, newBase)
        else old(cfg.regs)
    {
      var command := cfg.command;
      var low := cfg.regs[i];
      var high := 0;
      cfg.DisableDecoding();
      if b.is64Bits {
        high := cfg.regs[i + 1];
      }
      var actual := Program(b, i, newBase);
      ok := actual == newBase;
      if !ok {
        if b.is64Bits {
          cfg.Write32(i + 1, high);
        }
        cfg.Write32(i, low);
        assert cfg.regs == old(cfg.regs);
      }
      cfg.command := command;
    }

    /** Writes the new base and reads back what the device made of it. */
    method Program(b: Bar, i: nat, newBase: nat) returns (actual: nat)
      requires i < BARS && newBase < TWO64 && !cfg.Decodes()
      modifies cfg`regs, cfg`writes
      ensures cfg.regs == Written(cfg.respond, old(cfg.writes), old(cfg.regs), b, i, newBase)
      ensures actual == Decoded(b, cfg.regs, i)
    {
      var newLow := NewLow(b, cfg.regs[i], newBase);
      NewLowValue(b, cfg.regs[i], newBase);
      if b.is64Bits {
        cfg.Write32(i + 1, U32(newBase / TWO32));
      }
      cfg.Write32(i, newLow);
      var checkLow := cfg.regs[i];
      var checkHigh := if b.is64Bits then cfg.regs[i + 1] else 0;
      ReadBackDecodes(b, cfg.regs, i);
      actual := ReadBack(b, checkLow, checkHigh);
    }
  }

  /** What the registers hold once the new base was written, by writes from number `n` on. */
  function Written(respond: Response, n: nat, regs: Registers, b: Bar, i: nat, newBase: nat): Registers
    requires i < BARS
  {
    NewLowValue(b, regs[i], newBase);
    var r1: Registers := if b.is64Bits then regs[i + 1 := U32(respond(n, i + 1, regs[i + 1], U32(newBase / TWO32)))]
      else regs;
    r1[i := U32(respond(if b.is64Bits then n + 1 else n, i, r1[i], NewLow(b, regs[i], newBase)))]
  }

  /** The move succeeds exactly when the checks pass and the device shows the new base. */
  predicate Moves(respond: Response, n: nat, regs: Registers, bars: seq<Bar>, i: nat, newBase: nat)
    requires |bars| == BARS
  {
    && i < BARS && bars[i].isValid && Acceptable(bars[i], newBase)
    && Decoded(bars[i], Written(respond, n, regs, bars[i], i, newBase), i) == newBase
  }
}
