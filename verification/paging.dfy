/** The page tables the second boot stage builds, and the address translation they give (section
    4.5 of the Intel SDM, volume 3A). */
module Paging {
  import opened Words
  import opened BlockTable

  const PML4: nat := 0x9_0000
  const PDPT: nat := 0x9_1000
  const PD0: nat := 0x9_2000
  const TABLE: nat := 0x1000
  const TABLES_END: nat := PML4 + 6 * TABLE
  const LARGE_PAGE: nat := 0x20_0000
  const LARGE_PAGES: nat := 2048

  /** The tables' memory as dwords, from PML4 on. */
  predicate IsTableMemory(mem: seq<nat>) {
    |mem| == (TABLES_END - PML4) / 4 && forall i | 0 <= i < |mem| :: mem[i] < TWO32
  }

  /** The eight-byte entry `i` of the table at `table`, if that lies in the memory. */
  function EntryAt(mem: seq<nat>, table: nat, i: nat): Option<nat> {
    var d := table + 8 * i;
    if PML4 <= d && d + 8 <= TABLES_END && d % 8 == 0 && |mem| == (TABLES_END - PML4) / 4
    then Some(mem[(d - PML4) / 4] + mem[(d - PML4) / 4 + 1] * TWO32)
    else None
  }

  predicate IsPresent(e: nat) { e % 2 == 1 }

  predicate IsLarge(e: nat) { e / 0x80 % 2 == 1 }

  /** Address bits of an entry, above the low `unit`. */
  function Target(e: nat, unit: nat): nat
    requires unit > 0
  {
    (e - e % unit) % 0x10_0000_0000_0000
  }

  /** The four-level walk, as far as 2 MiB pages need it. */
  function Translate(mem: seq<nat>, va: nat): Option<nat> {
    var e4 := EntryAt(mem, PML4, va / 0x80_0000_0000 % 512);
    if e4.None? || !IsPresent(e4.value) then None else
      var e3 := EntryAt(mem, Target(e4.value, TABLE), va / 0x4000_0000 % 512);
      if e3.None? || !IsPresent(e3.value) || IsLarge(e3.value) then None else
        var e2 := EntryAt(mem, Target(e3.value, TABLE), va / LARGE_PAGE % 512);
        if e2.None? || !IsPresent(e2.value) || !IsLarge(e2.value) then None
        else Some(Target(e2.value, LARGE_PAGE) + va % LARGE_PAGE)
  }

  /** The dwords of the first `n` page-directory entries. */
  ghost predicate PagesFilled(mem: seq<nat>, n: nat) {
    IsTableMemory(mem) && n <= LARGE_PAGES && forall k | 0 <= k < n ::
      mem[0x800 + 2 * k] == k * LARGE_PAGE + 0x83 && mem[0x800 + 2 * k + 1] == 0
  }

  /** The upper levels: one PML4 entry and four directory pointers. */
  ghost predicate UpperLevels(mem: seq<nat>) {
    && IsTableMemory(mem)
    && mem[0] == PDPT + 3 && mem[1] == 0
    && forall i | 0 <= i < 4 :: mem[0x400 + 2 * i] == PD0 + i * TABLE + 3 && mem[0x400 + 2 * i + 1] == 0
  }

  lemma PageFlags(eax: nat, k: nat)
    requires eax == k * LARGE_PAGE
    ensures Or(eax, 0x83) == eax + 0x83
  {
    assert IsPow2(0x100) && IsPow2(0x20);
    Pow2Product(0x100, 0x100);
    Pow2Product(TWO16, 0x20);
    DivModUnique(eax, LARGE_PAGE, k, 0);
    OrDisjoint(0x83, eax, LARGE_PAGE);
  }

  method WriteUpperLevels(mem: array<nat>)
    requires IsTableMemory(mem[..])
    modifies mem
    ensures UpperLevels(mem[..])
  {
    mem[0], mem[1] := PDPT + 3, 0;
    mem[0x400], mem[0x401] := PD0 + 3, 0;
    mem[0x402], mem[0x403] := PD0 + TABLE + 3, 0;
    mem[0x404], mem[0x405] := PD0 + 2 * TABLE + 3, 0;
    mem[0x406], mem[0x407] := PD0 + 3 * TABLE + 3, 0;
  }

  /** The two stores of entry `k`. */
  method StoreEntry(mem: array<nat>, edi: nat, edx: nat, ghost k: nat)
    requires mem.Length == (TABLES_END - PML4) / 4 && k < LARGE_PAGES && edi == PD0 + 8 * k
    modifies mem
    ensures mem[..] == old(mem[..])[0x800 + 2 * k := edx][0x800 + 2 * k + 1 := 0]
  {
    PageIndex(edi, k);
    mem[(edi - PML4) / 4] := edx;
    mem[(edi + 4 - PML4) / 4] := 0;
  }

  /** The fill loop, register by register; `eax` wraps to 0 behind the last page. */
  method FillPages(mem: array<nat>)
    requires UpperLevels(mem[..])
    modifies mem
    ensures UpperLevels(mem[..]) && PagesFilled(mem[..], LARGE_PAGES)
  {
    var edi, eax, ecx := PD0, 0, LARGE_PAGES;
    while ecx > 0
      invariant 0 <= ecx <= LARGE_PAGES && edi == PD0 + 8 * (LARGE_PAGES - ecx)
      invariant ecx > 0 ==> eax == (LARGE_PAGES - ecx) * LARGE_PAGE
      invariant UpperLevels(mem[..]) && PagesFilled(mem[..], LARGE_PAGES - ecx)
      decreases ecx
    {
      ghost var before, k := mem[..], LARGE_PAGES - ecx;
      PageFlags(eax, k);
      NextPage(eax, k);
      var edx := Or(eax, 0x83);
      StoreEntry(mem, edi, edx, k);
      OnePageMore(before, mem[..], k);
      eax := U32(eax + LARGE_PAGE);
      edi := edi + 8;
      ecx := ecx - 1;
    }
  }

  /** Where the loop writes entry `k`. */
  lemma PageIndex(edi: nat, k: nat)
    requires edi == PD0 + 8 * k
    ensures (edi - PML4) / 4 == 0x800 + 2 * k && (edi + 4 - PML4) / 4 == 0x800 + 2 * k + 1
  {
    DivModUnique(edi - PML4, 4, 0x800 + 2 * k, 0);
    DivModUnique(edi + 4 - PML4, 4, 0x800 + 2 * k + 1, 0);
  }

  lemma NextPage(eax: nat, k: nat)
    requires eax == k * LARGE_PAGE && k < LARGE_PAGES
    ensures k + 1 < LARGE_PAGES ==> U32(eax + LARGE_PAGE) == (k + 1) * LARGE_PAGE
  {
    if k + 1 < LARGE_PAGES { RemainderSmall(eax + LARGE_PAGE, TWO32); }
  }

  lemma OnePageMore(before: seq<nat>, after: seq<nat>, k: nat)
    requires UpperLevels(before) && PagesFilled(before, k) && k < LARGE_PAGES
    requires after == before[0x800 + 2 * k := k * LARGE_PAGE + 0x83][0x800 + 2 * k + 1 := 0]
    ensures UpperLevels(after) && PagesFilled(after, k + 1)
  {
  }

  /** Writes the tables over whatever was there; afterwards every address below 4 GiB translates to
      itself. */
  method BuildTables(mem: array<nat>)
    requires IsTableMemory(mem[..])
    modifies mem
    ensures IsTableMemory(mem[..])
    ensures forall va: nat | va < FOUR_GIB :: Translate(mem[..], va) == Some(va)
  {
    WriteUpperLevels(mem);
    FillPages(mem);
    forall va: nat | va < FOUR_GIB
      ensures Translate(mem[..], va) == Some(va)
    {
      IdentityMapped(mem[..], va);
    }
  }

  /** The three levels that hold something, read through `EntryAt`. */
  lemma Entries(mem: seq<nat>, g: nat, j: nat)
    requires UpperLevels(mem) && PagesFilled(mem, LARGE_PAGES) && g < 4 && j < 512
    ensures EntryAt(mem, PML4, 0) == Some(PDPT + 3)
    ensures EntryAt(mem, PDPT, g) == Some(PD0 + g * TABLE + 3)
    ensures EntryAt(mem, PD0 + g * TABLE, j) == Some((g * 512 + j) * LARGE_PAGE + 0x83)
  {
    var k := g * 512 + j;
    assert (PD0 + g * TABLE + 8 * j - PML4) / 4 == 0x800 + 2 * k;
    assert mem[0x800 + 2 * k] == k * LARGE_PAGE + 0x83 && mem[0x800 + 2 * k + 1] == 0;
    assert mem[0x400 + 2 * g] == PD0 + g * TABLE + 3 && mem[0x400 + 2 * g + 1] == 0;
  }

  lemma DirectoryTargets(g: nat)
    requires g < 4
    ensures IsPresent(PDPT + 3) && Target(PDPT + 3, TABLE) == PDPT
    ensures var e := PD0 + g * TABLE + 3; IsPresent(e) && !IsLarge(e) && Target(e, TABLE) == PD0 + g * TABLE
  {
  }

  lemma PageTarget(k: nat)
    requires k < LARGE_PAGES
    ensures var e := k * LARGE_PAGE + 0x83; IsPresent(e) && IsLarge(e) && Target(e, LARGE_PAGE) == k * LARGE_PAGE
  {
    var e := k * LARGE_PAGE + 0x83;
    DivModUnique(e, LARGE_PAGE, k, 0x83);
    DivModUnique(e, 2, k * 0x10_0000 + 0x41, 1);
    DivModUnique(e, 0x80, k * 0x4000 + 1, 3);
    DivModUnique(k * 0x4000 + 1, 2, k * 0x2000, 1);
    RemainderSmall(k * LARGE_PAGE, 0x10_0000_0000_0000);
  }

  lemma Digits(va: nat)
    requires va < FOUR_GIB
    ensures va / 0x80_0000_0000 == 0 && va / 0x4000_0000 < 4
    ensures va / LARGE_PAGE == va / 0x4000_0000 * 512 + va / LARGE_PAGE % 512 < LARGE_PAGES
  {
    var k := va / LARGE_PAGE;
    DivModUnique(va, 0x4000_0000, k / 512, k % 512 * LARGE_PAGE + va % LARGE_PAGE);
  }

  /** What the walk answers, from the entries it meets. */
  lemma WalkThrough(mem: seq<nat>, va: nat, e4: nat, e3: nat, e2: nat)
    requires EntryAt(mem, PML4, va / 0x80_0000_0000 % 512) == Some(e4) && IsPresent(e4)
    requires EntryAt(mem, Target(e4, TABLE), va / 0x4000_0000 % 512) == Some(e3) && IsPresent(e3) && !IsLarge(e3)
    requires EntryAt(mem, Target(e3, TABLE), va / LARGE_PAGE % 512) == Some(e2) && IsPresent(e2) && IsLarge(e2)
    ensures Translate(mem, va) == Some(Target(e2, LARGE_PAGE) + va % LARGE_PAGE)
  {
  }

  /** Filled tables map an address below 4 GiB to itself. */
  lemma IdentityMapped(mem: seq<nat>, va: nat)
    requires UpperLevels(mem) && PagesFilled(mem, LARGE_PAGES) && va < FOUR_GIB
    ensures Translate(mem, va) == Some(va)
  {
    var g, k := va / 0x4000_0000, va / LARGE_PAGE;
    Digits(va);
    RemainderSmall(g, 512);
    Entries(mem, g, k % 512);
    DirectoryTargets(g);
    PageTarget(k);
    WalkThrough(mem, va, PDPT + 3, PD0 + g * TABLE + 3, k * LARGE_PAGE + 0x83);
    assert va == k * LARGE_PAGE + va % LARGE_PAGE;
  }
}
