# Ketone memory arenas, device windows and exFAT, verified

A model in Dafny of the parts of the Ketone kernel that others rely on, with proofs:

- **The block allocator** (`block_table.dfy`, `allocator.dfy`): a table of entries changed in place. The table is a class with an
  array; its abstract value is a map from start block to length. Memory behind the table is part of the array, so that what
  `alloc` reads there without an end check is described exactly.
- **The arenas** (`e820.dfy`, `mmio_hole.dfy`, `used_addresses.dfy`, `bump_allocator.dfy`, `manager.dfy`, `arenas.dfy`): region
  search, layout, the split of the E820 map, the in-place sort and sweep for the largest hole below 4 GiB, that hole as the largest
  interval without memory, fixed device or configuration register, and one state machine for all calls on the three arenas. `EveryRunIsSafe` is about every run of that machine; every method of `MemoryManager` is proved to be one of its steps.
- **PCIe BARs** (`pcie.dfy`, `pcie_probe.dfy`, `pcie_relocate.dfy`, `pcie_plan.dfy`): the sizing probe on a register file that masks
  writes as section 6.2.5.1 of the PCI Local Bus Specification 3.0 describes, and the move of every BAR into the hole.
- **exFAT** (`exfat_format.dfy`, `exfat_lookup.dfy`, `exfat_driver.dfy`, `exfat_read.dfy`, `exfat_walk.dfy`, `orbits.dfy`): path
  lookup against an abstract directory tree, file contents against the cluster chain, and what each call leaves on the heap
  (`scratch_heap.dfy`). `exfat_encode.dfy` and `exfat_directory.dfy` write entry sets and directories, which the driver reads back;
  `exfat_bytes.dfy` takes table and clusters as bytes of the disk. Formats follow the Microsoft exFAT specification, sections 4.1,
  6.4.2.2, 7.4, 7.6 and 7.7.
- **Users of the low heap and of memory below 4 GiB**: AHCI structures (`sata.dfy`), device queries (`component_bus.dfy`) and the
  identity-mapped page tables (`paging.dfy`, `address_space.dfy`).

Words are natural numbers with explicit wrap-around; `words.dfy` defines the bitwise operators on them and proves what the mask
expressions compute. `FreePrefix`, `Mark`, `Clear` and similar small methods are loops that the source writes inline.

## Where the code falls short of its intent

Each is proved, with an input that fails and the exact condition under which the code does what it should. Firmware maps that
fail with the kernel's own sizes are in `boot_cases.dfy`.

- `alloc` has no end check. Its scan reads past the table exactly when there is no room and the last block is free (`ScanFirstFit`);
  when its answer lies past it, `AllocKeepsToTableIff` says, and `AllocOverrunsTable` is a case. Theorems about runs therefore ask
  for a fit (`Arenas.PlainRequest`).
- A size within `block_size - 1` of 2^64 wraps to a request for no block: the caller gets an address that is not reserved
  (`OversizeRequestReservesNothing`, `NeededIsCeilUnlessItWraps`), from `alloc_aligned` even one in use
  (`OversizeAlignedReservesNothing`, `OversizeAlignedSharesBlock`).
- `free` of a pointer into the middle of a run leaves stale bounds behind (`ClearKeepsWellFormedIff`, `MiddlePointerBreaksTable`).
- With 64 entries in the map, what is left of the root heap's entry drops out of it (`SplitConservesIff`, `FullMapLosesMemory`).
- With more than 72 useful ranges the later ones (ECAM windows come last) are not seen by the hole search (`RecordsAllIff`,
  `HoleCanCoverEcam`). The windows are those it decodes itself (see the MCFG line under "Left out").
- The low heap can be placed over the kernel image (`LowHeapMissesIff`, `LowHeapMissesKernelIff`, `LowHeapCanCoverKernel`), and for
  the same reason over the page tables (`BootLeavesTablesAlone`, `LowHeapCanCoverTables`).
- A bump arena that starts at address 0 cannot tell success from failure (`NullMeansFailureIff`, `HoleCanStartAtZero`,
  `WindowAtZeroIsLost`).
- A BAR without room keeps its base, which may lie in the part of the hole that others got (`DecodeApartIff`, `HoleCanBeSmall`,
  `RelocationCanOverlap`).

## Model

| member | source | states |
|---|---|---|
| `Allocator.Heap.ScanFirstFit` | src/os/kernel/mem_manager/allocator.c:12-37 | The scan of `alloc`, which jumps to `end_block` and moves by two after a failed free candidate, answers exactly the plain lowest-first search; it reads inside the table if and only if the table has room or its last block is taken |
| `Allocator.Heap.Alloc` | src/os/kernel/mem_manager/allocator.c:3-50 | `alloc` marks the lowest run that looks free and nothing else; with room in the table the run lies inside it, the table stays well formed and the memory behind it is untouched |
| `Allocator.Heap.ScanFirstAligned` | src/os/kernel/mem_manager/allocator.c:63-109 | Neither the alignment jump nor the jump over a collision skips an aligned fit, and every step goes forward |
| `Allocator.Heap.AllocAligned` | src/os/kernel/mem_manager/allocator.c:52-110 | `alloc_aligned` serves the lowest aligned fit, returns NULL exactly without one (or for size 0 or a bad alignment) and then changes nothing |
| `Allocator.Heap.Free` | src/os/kernel/mem_manager/allocator.c:112-127 | Any pointer clears the entries from its block (64-bit arithmetic, in the table or not) to the end recorded there; a live pointer loses exactly its run; NULL changes nothing |
| `Allocator.Heap.Mark` | src/os/kernel/mem_manager/allocator.c:43-47 | The marking loops write exactly the run, with bounds cut to 32 bits |
| `Allocator.Heap.Clear` | src/os/kernel/mem_manager/allocator.c:122-126 | The clearing loop zeroes exactly the range |
| `Allocator.Heap.FreePrefix` | src/os/kernel/mem_manager/allocator.c:14-20 | The inner scans stop at the first taken entry of the candidate run |
| `Allocator.Heap.Reset` | src/os/kernel/mem_manager/manager.c:194-198 | The set-up loops leave every entry of a new table free |
| `Allocator.NeededIsCeilUnlessItWraps` | src/os/kernel/mem_manager/allocator.c:8-8 | The block count is the ceiling until `size + block_size - 1` wraps, and is 0 exactly for size 0 and for the sizes that wrap |
| `Allocator.OversizeRequestReservesNothing` | src/os/kernel/mem_manager/allocator.c:8-49 | A size that wraps gets the address of the first free block and reserves nothing |
| `Allocator.OversizeAlignedReservesNothing` | src/os/kernel/mem_manager/allocator.c:61-107 | `alloc_aligned` answers such a size with the lowest aligned block, taken or not, or the end of the table, and reserves nothing |
| `Allocator.OversizeAlignedSharesBlock` | src/os/kernel/mem_manager/allocator.c:61-107 | A table on which such a request gets a block that is in use |
| `Allocator.AlignmentJump` | src/os/kernel/mem_manager/allocator.c:77-81 | The jump to the next aligned address goes forward and over unaligned blocks only, with 64-bit arithmetic |
| `Allocator.ScanStaysInside` | src/os/kernel/mem_manager/allocator.c:15-16 | A scan that has not passed a fit reads only memory it may read, and inside the table when the table has room |
| `Allocator.AllocKeepsToTableIff` | src/os/kernel/mem_manager/allocator.c:12-47 | The answer of `alloc`, which has no end check, lies in its table if and only if there is room, or the last block is taken, or the free tail continued into the memory behind the table does not look like a long enough run |
| `Allocator.AllocOverrunsTable` | src/os/kernel/mem_manager/allocator.c:12-47 | A concrete table on which `alloc` hands out and marks memory past its end |
| `Allocator.TakingInside` | src/os/kernel/mem_manager/allocator.c:12-47 | With room, first fit over all memory is first fit over the table and leaves what lies behind alone |
| `Allocator.HeapView.AfterRefines` | src/os/kernel/mem_manager/allocator.c:43-47 | Taking a run adds exactly one entry to the map of live runs |
| `Allocator.HeapView.WithoutRefines` | src/os/kernel/mem_manager/allocator.c:117-126 | Freeing a live run removes exactly its entry from the map of live runs |
| `Allocator.HeapView.TakeThenFree` | src/os/kernel/mem_manager/allocator.c:43-126 | Allocate then free restores the table entry for entry |
| `BlockTable.MarkedRefines` | src/os/kernel/mem_manager/allocator.c:43-47 | Marking a free run keeps the table well formed: exact bounds on taken entries, zeros on free ones |
| `BlockTable.ClearedRefines` | src/os/kernel/mem_manager/allocator.c:122-126 | Clearing a live run keeps the table well formed |
| `BlockTable.ClearKeepsWellFormedIff` | src/os/kernel/mem_manager/allocator.c:117-126 | `free` of a table block keeps the table well formed if and only if the block is free or starts its run; a pointer into the middle of a run breaks it |
| `BlockTable.MiddlePointerBreaksTable` | src/os/kernel/mem_manager/allocator.c:117-126 | Freeing the second block of a run of two leaves a table that is not well formed |
| `BlockTable.ClearingFreeBlock` | src/os/kernel/mem_manager/allocator.c:117-126 | Freeing a block that is already free changes nothing |
| `BlockTable.ClearsCommute` | src/os/kernel/mem_manager/allocator.c:117-126 | Frees of two live pointers commute |
| `BlockTable.RunsDisjoint` | src/os/kernel/mem_manager/allocator.c:43-47 | Live runs are disjoint intervals inside the table |
| `BlockTable.TableDetermined` | src/os/kernel/mem_manager/allocator.c:43-47 | The map of live runs determines the table |
| `BlockTable.TakenIffInRun` | src/os/kernel/mem_manager/allocator.c:43-47 | A block is taken exactly when a live run contains it |
| `BlockTable.TakenIsTotal` | src/os/kernel/mem_manager/allocator.c:43-47 | The number of taken blocks is the sum of the live run lengths |
| `BlockTable.FirstFitInside` | src/os/kernel/mem_manager/allocator.c:12-37 | With room in the table, the first fit lies in the table whatever the memory behind it holds |
| `BlockTable.FirstFitIsFirstAligned` | src/os/kernel/mem_manager/allocator.c:12-109 | `alloc` and `alloc_aligned` agree for every alignment that divides both the first address and the block size |
| `BlockTable.RoomAfterFirstFit` | src/os/kernel/mem_manager/allocator.c:12-47 | First fit eats a free stretch from the left only |
| `BumpAllocator.BumpHeap.AllocAligned` | src/os/kernel/mem_manager/bump_allocator.c:3-25 | Returns the least aligned address at or above `next` that fits, fails exactly when none fits, and then changes nothing |
| `BumpAllocator.BumpHeap.Alloc` | src/os/kernel/mem_manager/bump_allocator.c:27-29 | The same with alignment 1 |
| `BumpAllocator.PlaceIsRoundedUp` | src/os/kernel/mem_manager/bump_allocator.c:14-21 | Below 4 GiB the mask form finds the least fitting multiple for every power of two, without wrapping |
| `BumpAllocator.PlainIsBackToBack` | src/os/kernel/mem_manager/bump_allocator.c:27-29 | Unaligned requests are served back to back |
| `BumpAllocator.NullMeansFailureIff` | src/os/kernel/mem_manager/bump_allocator.c:23-24 | NULL means failure if and only if the arena is not still at address 0 |
| `BootCases.HoleCanStartAtZero` | src/os/kernel/mem_manager/manager.c:116-170 | A firmware map on which the set-up succeeds with a hole that starts at address 0 |
| `BootCases.WindowAtZeroIsLost` | src/os/kernel/drivers/component_bus/pcie/pcie.c:303-309 | In that hole the first BAR gets a window, takes it for a failure and stays, and the window is gone |
| `Words.AlignUpIsLeast` | src/os/kernel/mem_manager/bump_allocator.c:16-16 | `(x + a - 1) & ~(a - 1)` is the least multiple of a power of two at or above `x` |
| `Words.PowerOfTwoTest` | src/os/kernel/mem_manager/bump_allocator.c:10-10 | `!(a & (a - 1))` accepts exactly the powers of two |
| `E820.FindRegion` | src/os/kernel/mem_manager/manager.c:60-108 | The first suitable entry decides; the window runs from the lowest aligned place on offer to the (saturated, clamped) end of the entry; the search fails exactly when no entry has an aligned run of the size |
| `E820.WindowOf` | src/os/kernel/mem_manager/manager.c:72-105 | The body of the search decides exactly whether one entry suits, overflow guards included |
| `E820.SplitWellFormed` | src/os/kernel/mem_manager/manager.c:250-264 | Splitting the map keeps its entries disjoint |
| `E820.SplitKinds` | src/os/kernel/mem_manager/manager.c:254-264 | With a slot left, an address changes kind exactly on [base, heap end), from usable to reserved |
| `E820.SplitConservesIff` | src/os/kernel/mem_manager/manager.c:257-264 | The split loses no memory if and only if nothing is left over or the map has a slot for it |
| `BootCases.FullMapLosesMemory` | src/os/kernel/mem_manager/manager.c:250-283 | A firmware map of 64 entries on which, with the sizes the kernel asks for, memory behind the root heap is in no entry afterwards and the set-up fails |
| `MemoryManagement.PlaceRootHeap` | src/os/kernel/mem_manager/manager.c:213-233 | The first entry that passes the test for the root heap is chosen, and none exactly when none passes |
| `MemoryManagement.RootFitsIff` | src/os/kernel/mem_manager/manager.c:213-233 | An entry passes exactly when it is usable and has a page above the kernel from which 32 bytes of header, 12 bytes for each 512-byte block, 4095 of padding and the data fit into it below 4 GiB |
| `MemoryManagement.RootLayout` | src/os/kernel/mem_manager/manager.c:219-251 | Root heap header, table and data lie in their entry, above the kernel and below 4 GiB |
| `MemoryManagement.LowHeapFitsIff` | src/os/kernel/mem_manager/manager.c:184-188 | The low heap fits its bytes if and only if they hold header and padding; below that the subtraction wraps |
| `MemoryManagement.LowSuitsIff` | src/os/kernel/mem_manager/manager.c:60-108 | An entry suits the low heap exactly when it is usable and has a page from which the size fits into it and below the last byte under 4 GiB |
| `MemoryManagement.LowBlocksAreMost` | src/os/kernel/mem_manager/manager.c:184-186 | The low heap has as many blocks as fit, at 512 bytes and 12 of table each: one more would not |
| `MemoryManagement.LowHeapInit` | src/os/kernel/mem_manager/manager.c:172-200 | The low heap lies at the lowest aligned address of the first region that can hold it, in 512-byte blocks, with header, table, padding and data inside its bytes; it fails exactly when no region can |
| `MemoryManagement.RootMissesLow` | src/os/kernel/mem_manager/manager.c:250-283 | The search for the low heap cannot land on the root heap |
| `MemoryManagement.ArenasApart` | src/os/kernel/mem_manager/manager.c:202-303 | Root heap, low heap and hole, as placed, are pairwise disjoint and form a valid start state |
| `MemoryManagement.MemManagerInit` | src/os/kernel/mem_manager/manager.c:202-303 | Set-up succeeds exactly when an entry takes the root heap and what is left holds the low heap and a hole; then the three arenas are a valid state, each in the place the searches determine. For a kernel of fewer than 2^32 bytes all this is so with the kernel ending at 0x12_0000 + 512 * sectors, and the root heap with its header and table lies apart from the image; the hole is the largest unused interval (`LargestUnused`) |
| `MemoryManagement.MemoryManager.Kalloc` | src/os/kernel/mem_manager/manager.c:305-307 | `kalloc` is one step of the arena state machine and keeps its invariant |
| `MemoryManagement.MemoryManager.KallocAligned` | src/os/kernel/mem_manager/manager.c:313-315 | `kalloc_aligned` is one step of the arena state machine |
| `MemoryManagement.MemoryManager.Kfree` | src/os/kernel/mem_manager/manager.c:321-323 | `kfree` is one step of the arena state machine |
| `MemoryManagement.MemoryManager.LowKalloc` | src/os/kernel/mem_manager/manager.c:309-311 | `low_kalloc` is one step of the arena state machine |
| `MemoryManagement.MemoryManager.LowKallocAligned` | src/os/kernel/mem_manager/manager.c:317-319 | `low_kalloc_aligned` is one step of the arena state machine |
| `MemoryManagement.MemoryManager.LowKfree` | src/os/kernel/mem_manager/manager.c:325-327 | `low_kfree` is one step of the arena state machine |
| `MemoryManagement.MemoryManager.KBumpAlloc` | src/os/kernel/mem_manager/manager.c:329-331 | `k_bump_alloc` is one step of the arena state machine |
| `MemoryManagement.MemoryManager.KBumpAllocAligned` | src/os/kernel/mem_manager/manager.c:333-335 | `k_bump_alloc_aligned` is one step of the arena state machine, taken to return what the bump allocator returns |
| `MemoryManagement.LowHeapMissesIff` | src/os/kernel/mem_manager/manager.c:172-188 | For every map and every guarded span below the root heap: the low heap misses it if and only if each suitable entry (but the one the root heap took) whose start it would take over that span comes behind another suitable one |
| `MemoryManagement.LowHeapMissesKernelIff` | src/os/kernel/mem_manager/manager.c:172-188 | With one entry holding the image [0x12_0000, 0x12_0000 + 512 * sectors): the low heap misses the image if and only if the root heap took that entry, or an earlier one suits, or it does not suit, or there is room enough below the kernel |
| `MemoryManagement.LowHeapClearOfKernel` | src/os/kernel/mem_manager/manager.c:172-188 | The low heap is clear of the image [0x12_0000, 0x12_0000 + 512 * sectors) when the root heap was cut from an entry that starts at or below the kernel, whatever else the map holds |
| `MemoryManagement.LowHeapCanCoverKernel` | src/os/kernel/mem_manager/manager.c:172-188 | A memory map on which, with the sizes the kernel asks for, the one place the search can find for the low heap lies over the kernel image |
| `Arenas.StepKeepsValid` | src/os/kernel/mem_manager/manager.c:305-335 | Every allocation and every free of a live pointer keeps the three arenas valid |
| `Arenas.LiveBlockPlaced` | src/os/kernel/mem_manager/manager.c:305-335 | Every live block is non-empty, in its arena, below 4 GiB and clear of both heap headers and tables |
| `Arenas.LiveBlocksApart` | src/os/kernel/mem_manager/manager.c:305-335 | No two live blocks of any arenas share an address |
| `Arenas.RecordsAddUp` | src/os/kernel/mem_manager/allocator.c:8-47 | The taken blocks of a heap are the sum of the requested sizes of its live allocations, each rounded up to blocks |
| `Arenas.EveryRunIsSafe` | src/os/kernel/mem_manager/manager.c:305-335 | At every point of every run all of the above holds |
| `Arenas.NoBlockOver` | src/os/kernel/mem_manager/manager.c:305-335 | What an arena does not cover at the start, none of its blocks covers at any point of any run |
| `AddressSpace.EveryBlockIsMapped` | src/os/bootloader/bootloader_s2.asm:58-105 | At every point of every run every address of every block translates to itself and is outside [0x9_0000, 0x9_6000), if the arenas are clear of the page tables at the start |
| `AddressSpace.InitIsBooted` | src/os/kernel/mem_manager/manager.c:202-303 | The state that the initialisation leaves is a start state of the next four lemmas |
| `AddressSpace.BootLeavesAlone` | src/os/kernel/mem_manager/manager.c:172-303 | For any span below the kernel end: the low heap gets memory apart from it if and only if the firmware map keeps every suitable start over it behind another; then all three arenas are clear of it, if firmware lists its memory or the hole misses it |
| `AddressSpace.NoBlockOverKernel` | src/os/kernel/mem_manager/manager.c:202-335 | When firmware lists the memory of the image [0x12_0000, 0x12_0000 + 512 * sectors) and the low heap avoids it, no block handed out at any point of any run after the set-up covers a byte of it |
| `AddressSpace.NoRootBlockOverKernel` | src/os/kernel/mem_manager/manager.c:203-247 | No block of the root heap covers a byte of the image at any point of any run, whatever the map says |
| `AddressSpace.BootLeavesTablesAlone` | src/os/kernel/mem_manager/manager.c:172-303 | The same for the six pages of page tables at 0x9_0000 |
| `AddressSpace.LowHeapCanCoverTables` | src/os/kernel/mem_manager/manager.c:172-188 | A memory map on which the one place for the low heap lies over the page tables |
| `MmioHole.RangeTable.Add` | src/os/kernel/mem_manager/manager.c:110-114 | `range_add` drops useless ranges and those beyond slot 72 and clips the rest at 4 GiB |
| `MmioHole.RangeTable.Insert` | src/os/kernel/mem_manager/manager.c:145-150 | One insertion extends the sorted part and keeps the elements |
| `MmioHole.RangeTable.Sort` | src/os/kernel/mem_manager/manager.c:144-150 | The insertion sort leaves a sorted permutation |
| `MmioHole.RangeTable.Sweep` | src/os/kernel/mem_manager/manager.c:152-166 | The sweep finds a longest interval below 4 GiB that misses every range, the lowest on a tie, and size 0 exactly when there is none |
| `MmioHole.FindHole` | src/os/kernel/mem_manager/manager.c:116-170 | The hole is the largest (lowest on a tie) interval missing every recorded range; the search fails exactly when the recorded ranges cover [0, 4 GiB) |
| `MmioHole.RecordsAllIff` | src/os/kernel/mem_manager/manager.c:110-137 | Every useful range is recorded if and only if there are at most 72 of them |
| `BootCases.HoleCanCoverEcam` | src/os/kernel/mem_manager/manager.c:110-170 | A firmware map of 63 entries and five windows on which the set-up succeeds with a hole that contains the fifth window |
| `UsedAddresses.HoleIsClear` | src/os/kernel/mem_manager/manager.c:116-170 | No address of the hole is memory of any kind, I/O APIC, HPET, local APIC or flash (given by their addresses), and with at most 72 ranges worth recording none is a configuration register of a function on a listed bus |
| `UsedAddresses.WindowIsConfigSpace` | src/os/kernel/mem_manager/manager.c:134-137 | What the search records for an entry of the MCFG table is exactly the addresses of the configuration registers on its buses, first to last |
| `UsedAddresses.RecordedIsUsed` | src/os/kernel/mem_manager/manager.c:116-139 | With at most 72 ranges worth recording, an address below 4 GiB is covered by the recorded ranges exactly when it is memory, a fixed device, or a configuration register on a listed bus |
| `UsedAddresses.HoleIsLargestUnused` | src/os/kernel/mem_manager/manager.c:116-170 | Then what `FindHole` returns is exactly the longest interval (the lowest of the longest) below 4 GiB without any such address |
| `UsedAddresses.HoleExistsIff` | src/os/kernel/mem_manager/manager.c:116-170 | ... and it finds one exactly when some address below 4 GiB is unused |
| `UsedAddresses.NoRegisterInHole` | src/os/kernel/mem_manager/manager.c:116-170 | No configuration register of any function on a listed bus has its address in the hole |
| `MmioHole.MovedSorted` | src/os/kernel/mem_manager/manager.c:145-149 | Moving an entry down past the larger keys keeps the order |
| `Pcie.ConfigAddrInjective` | src/os/kernel/drivers/component_bus/pcie/pcie.c:11-17 | Different functions and registers have different configuration addresses, inside the megabyte of their bus |
| `Pcie.ConfigAddrDigits` | src/os/kernel/drivers/component_bus/pcie/pcie.c:11-17 | An address gives back bus, device, function and register: 12 bits of register, 3 of function, 5 of device, the bus above |
| `Pcie.ConfigSpace.Write32` | src/os/kernel/drivers/component_bus/pcie/pcie.c:83-116 | A BAR is written only while the device does not decode: every write of the probe and of a move happens with both decode bits clear |
| `Pcie.Device.Remap` | src/os/kernel/drivers/component_bus/pcie/pcie.c:43-124 | The move is transactional on any device that takes its old values back, however it answers other writes: true exactly when the checks pass and the device shows the new base, false leaves registers and record unchanged, and the command register is restored either way |
| `Pcie.AcceptableIff` | src/os/kernel/drivers/component_bus/pcie/pcie.c:60-79 | The checks before the write pass exactly for a base that is a multiple of 4 (I/O) or of a size above 0 (memory), below 4 GiB unless the BAR is a 64-bit one, whose end counted in 64 bits is at most 0xFFFF_FFFF |
| `Pcie.DecodedIffShown` | src/os/kernel/drivers/component_bus/pcie/pcie.c:90-104 | The address read back is x exactly when the registers, the high one included for a 64-bit BAR, spell x above two or four flag bits |
| `Pcie.StoredAsWritten` | src/os/kernel/drivers/component_bus/pcie/pcie.c:66-88 | On a device that stores what is written the move makes the registers spell the new base, keeps the flag bits, and changes no other register |
| `Pcie.Device.Attempt` | src/os/kernel/drivers/component_bus/pcie/pcie.c:83-121 | Decoding off, new base written and read back, old values written back on a mismatch, command word restored last |
| `Pcie.Device.Program` | src/os/kernel/drivers/component_bus/pcie/pcie.c:84-104 | Write sequence and read-back of a move |
| `PcieProbe.ReadMasks` | src/os/kernel/drivers/component_bus/pcie/pcie.c:190-207 | The probe protocol reads what the device answers to ones, keeps decoding off until the old values are back, and leaves every register and the command word as they were, on any device that takes its old values back |
| `PcieProbe.ProbeRecovers` | src/os/kernel/drivers/component_bus/pcie/pcie.c:168-242 | On a device that masks writes, the masks determine base, size and kind of every 32-bit, 64-bit and I/O BAR |
| `PcieRelocation.RecordShows` | src/os/kernel/drivers/component_bus/pcie/pcie.c:168-242 | The base on record is the address that the registers spell, and the size that of the device |
| `PcieProbe.ProbeBar` | src/os/kernel/drivers/component_bus/pcie/pcie.c:168-261 | One probe recovers its BAR, or marks the upper half of a pair invalid, and changes no register |
| `PcieProbe.ProbeAll` | src/os/kernel/drivers/component_bus/pcie/pcie.c:168-262 | Six probes recover every BAR of any legal layout and leave the configuration space as it was |
| `PcieRelocation.RemapWorks` | src/os/kernel/drivers/component_bus/pcie/pcie.c:297-324 | On a masking device a naturally aligned base below the flash passes every check and the read-back |
| `PcieRelocation.TakeWindow` | src/os/kernel/drivers/component_bus/pcie/pcie.c:303-309 | A window is the lowest naturally aligned one left, below the flash; NULL exactly without room or when it starts at address 0 |
| `PcieRelocation.RelocateBar` | src/os/kernel/drivers/component_bus/pcie/pcie.c:298-323 | The branch that halts is never taken. A BAR with `isValid` and size above 0 gets the lowest naturally aligned window left and is moved there, unless that window is at address 0; without a window, or if invalid or of size 0, it stays and takes nothing |
| `PcieRelocation.RelocateDevice` | src/os/kernel/drivers/component_bus/pcie/pcie.c:298-323 | Each of the six BARs has that outcome when its turn comes, record and hardware stay in step, and the command register is as before |
| `PcieRelocation.RelocateAll` | src/os/kernel/drivers/component_bus/pcie/pcie.c:297-324 | All devices: no halt, records in step with the hardware, and each BAR has that outcome when its turn comes; bases, hole and windows are those of the plan for the list of all BARs |
| `PcieRelocation.EveryOutcome` | src/os/kernel/drivers/component_bus/pcie/pcie.c:297-324 | In the plan every BAR with `isValid` and size above 0 moves to the lowest naturally aligned window that was left, or had none when its turn came, or lost one at address 0; every other BAR is unchanged and takes no window |
| `RelocationPlan.BarOutcome` | src/os/kernel/drivers/component_bus/pcie/pcie.c:297-324 | ... for one BAR, from the hole as the BARs before it left it |
| `PcieRelocation.FlatAt` | src/os/kernel/drivers/component_bus/pcie/pcie.c:297-298 | BAR f of device i is number 6 * i + f of the list |
| `PcieRelocation.BootedHole` | src/os/kernel/mem_manager/manager.c:286-302 | The hole that the initialisation leaves ends at or below the flash, and starts above address 0 when firmware lists that address |
| `RelocationPlan.PlacedWindow` | src/os/kernel/drivers/component_bus/pcie/pcie.c:297-324 | A BAR that moves is valid, has a size above 0 and decodes a naturally aligned window inside the hole, behind all windows before it |
| `RelocationPlan.StaysWithoutRoom` | src/os/kernel/drivers/component_bus/pcie/pcie.c:303-309 | A BAR with `isValid` and size above 0 that stays has no room in what is left of the hole at the end, or its window was at address 0 |
| `RelocationPlan.DecodeApartIff` | src/os/kernel/drivers/component_bus/pcie/pcie.c:297-324 | After relocation no two BARs of one address space, valid and of a size above 0, overlap if and only if each of them that stays misses the final ranges of all others |
| `BootCases.HoleCanBeSmall` | src/os/kernel/mem_manager/manager.c:116-170 | A firmware map on which the set-up succeeds with a hole of 256 MiB |
| `BootCases.RelocationCanOverlap` | src/os/kernel/drivers/component_bus/pcie/pcie.c:297-324 | Two BARs that overlap after relocation into that hole: one moved onto the range the other keeps |
| `PcieRelocation.WindowsAreClear` | src/os/kernel/drivers/component_bus/pcie/pcie.c:297-324 | No address of a relocated window is memory, a fixed device (given by addresses), flash, or in another window, nor (with at most 72 ranges worth recording) a configuration register of any function on any bus from first to last of an entry |
| `ExfatDriver.ReadCluster` | src/os/kernel/drivers/fs/exfat/exfat.c:135-142 | The cluster loop succeeds exactly when all its sectors can be read, and then holds them in order |
| `ExfatDriver.GetFatEntry` | src/os/kernel/drivers/fs/exfat/exfat.c:47-64 | Returns the table entry, or 0 when the sector cannot be read; the heap is unchanged |
| `ExfatDriver.StrCmp` | src/os/kernel/utils.c:11-18 | 0 exactly for equal strings up to the first NUL |
| `ExfatDriver.ReadSet` | src/os/kernel/drivers/fs/exfat/exfat.c:153-193 | Reads an entry set; the name stays within its 256 bytes and is terminated; of a set that was written it returns the values that were written |
| `ExfatEncode.RoundTrip` | src/os/kernel/drivers/fs/exfat/exfat.c:153-191 | A set written from attributes, flags, hash, both lengths, first cluster and a name of 1 to 255 non-zero bytes, at any slot of a buffer, is read back as exactly these values, whatever the memory of the entry held before |
| `ExfatEncode.SetBack` | src/os/kernel/drivers/fs/exfat/exfat.c:153-191 | ... for any buffer that holds the slots of the set |
| `ExfatFormat.NoStaleFields` | src/os/kernel/drivers/fs/exfat/exfat.c:153-191 | A set with a name has no field left that was never written |
| `ExfatDriver.TrySet` | src/os/kernel/drivers/fs/exfat/exfat.c:153-202 | A set is kept exactly when its name matches; otherwise both blocks are given back and the table is as before, for any heap where the two requests are served |
| `ExfatDriver.ScanSlots` | src/os/kernel/drivers/fs/exfat/exfat.c:144-203 | The slot loop finds the first matching set before the end marker |
| `ExfatDriver.ScanChain` | src/os/kernel/drivers/fs/exfat/exfat.c:134-210 | The chain loop ends on every walk that ends, and finds the first matching set of the listing |
| `ExfatWalk.WalkExistsIff` | src/os/kernel/drivers/fs/exfat/exfat.c:134-210 | The walk of a directory ends if and only if the table leads to no cluster twice before one at which the scan stops |
| `Orbits.StopsIffNoRepeat` | src/os/kernel/drivers/fs/exfat/exfat.c:134-210 | Following links among finitely many nodes stops if and only if no node comes twice |
| `ExfatDriver.ScanDirectory` | src/os/kernel/drivers/fs/exfat/exfat.c:127-213 | The cluster buffer is given back on every path; only a found file stays on the heap; requests are asked to succeed only where the scan makes them |
| `ExfatDriver.OpenComponent` | src/os/kernel/drivers/fs/exfat/exfat.c:127-230 | One component: the final answer, or the directory in which the lookup goes on |
| `ExfatDriver.OpenFile` | src/os/kernel/drivers/fs/exfat/exfat.c:101-233 | For every path whose directories have ending walks the answer is the recursive lookup in the directory tree, and on any volume with written directories a file entry with the values that were written for what the path leads to, or NULL exactly when it leads nowhere; NULL leaves the block table as it was, success leaves exactly the entry and its name, as long as no request the lookup makes fails |
| `ExfatDirectory.WrittenCluster` | src/os/kernel/drivers/fs/exfat/exfat.c:144-203 | A cluster written as sets, unused slots and the end marker holds these sets |
| `ExfatDirectory.ChainListing` | src/os/kernel/drivers/fs/exfat/exfat.c:134-210 | A directory written cluster by cluster along the allocation table is listed as the sets that were written, in order |
| `ExfatDirectory.DiskIsTree` | src/os/kernel/drivers/fs/exfat/exfat.c:127-230 | A tree of written directories is the tree that lookups go by |
| `ExfatDirectory.LookupFinds` | src/os/kernel/drivers/fs/exfat/exfat.c:101-233 | The lookup finds what the path leads to |
| `ExfatDirectory.FoundLeadsTo` | src/os/kernel/drivers/fs/exfat/exfat.c:101-233 | ... and nothing else |
| `ExfatDirectory.LookupAnswers` | src/os/kernel/drivers/fs/exfat/exfat.c:101-233 | Whatever tree along the path a lookup goes by, it answers with the written values |
| `ExfatLookup.LookupDetermined` | src/os/kernel/drivers/fs/exfat/exfat.c:127-230 | Two trees for the same path on the same volume give the same answer |
| `ExfatLookup.StepDown` | src/os/kernel/drivers/fs/exfat/exfat.c:195-226 | Searching a directory on disk is searching its items in the tree, and a directory item leads to a tree for the rest of the path |
| `ExfatLookup.TreeAlongIffWalkable` | src/os/kernel/drivers/fs/exfat/exfat.c:127-230 | A path has such a tree if and only if the walk of every directory on it ends, whatever the rest of the volume is |
| `ExfatLookup.WholeTreeRepresents` | src/os/kernel/drivers/fs/exfat/exfat.c:127-230 | A tree of the whole volume serves every path |
| `ExfatLookup.ComponentsOfJoined` | src/os/kernel/drivers/fs/exfat/exfat.c:104-125 | Splitting a path undoes joining its components |
| `ExfatLookup.ComponentsWithExtra` | src/os/kernel/drivers/fs/exfat/exfat.c:104-125 | Extra slashes make no difference |
| `ExfatFormat.WalkUnique` | src/os/kernel/drivers/fs/exfat/exfat.c:134-210 | The clusters a scan may visit are determined by the first one |
| `ExfatRead.FillChecked` | src/os/kernel/drivers/fs/exfat/exfat.c:288-324 | The checked read succeeds exactly when every cluster of the file is there; byte i is byte i mod size of cluster i div size |
| `ExfatRead.FillUnchecked` | src/os/kernel/drivers/fs/exfat/exfat.c:247-272 | The unchecked read always ends and holds the file when it is readable |
| `ExfatRead.ReadFileAll` | src/os/kernel/drivers/fs/exfat/exfat.c:278-330 | For an entry as opened, while no request it makes fails: on any clusters that follow the allocation table as bytes of the disk (or each other, with bit 1 of the flags set) and are as many as the length needs, a size is stored exactly when each can be read and none before the last ends the chain, and then byte i is byte i mod size of cluster i div size; success leaves one new block with the data (none for an empty file), failure restores the block table |
| `ExfatRead.ReadFile` | src/os/kernel/drivers/fs/exfat/exfat.c:235-276 | While no request it makes fails: the pointer is NULL exactly for an empty file; when all clusters are there, byte i is byte i mod size of cluster i div size; one new block |
| `ExfatRead.ReadableOnClusters` | src/os/kernel/drivers/fs/exfat/exfat.c:288-324 | A file is readable exactly when its clusters, by the table as bytes or by the flag, are all there |
| `ExfatRead.HoldsOnClusters` | src/os/kernel/drivers/fs/exfat/exfat.c:288-324 | ... and then holds the bytes of these clusters in order |
| `ExfatRead.ClustersExist` | src/os/kernel/drivers/fs/exfat/exfat.c:255-270 | Every file has such clusters |
| `ExfatBytes.NextIsTableWord` | src/os/kernel/drivers/fs/exfat/exfat.c:47-64 | The table entry of a cluster is the little-endian word at byte 4 * cluster of the table, taken as one string of bytes |
| `ExfatBytes.ClusterIsBytes` | src/os/kernel/drivers/fs/exfat/exfat.c:41-45 | A cluster can be read exactly when all its bytes are on the disk, and is these bytes in order |
| `ExfatBytes.ClustersTile` | src/os/kernel/drivers/fs/exfat/exfat.c:41-45 | Clusters from 2 on share no sector |
| `ExfatBytes.SectorInCluster` | src/os/kernel/drivers/fs/exfat/exfat.c:41-45 | ... and each sector of the heap area is in one |
| `ExfatRead.ReadsAgree` | src/os/kernel/drivers/fs/exfat/exfat.c:235-330 | Both reads of a file agree byte for byte |
| `ExfatRead.ModesAgree` | src/os/kernel/drivers/fs/exfat/exfat.c:267-271 | Contiguous and table-following modes visit the same clusters of a consecutive chain |
| `ExfatRead.HoldsInBothModes` | src/os/kernel/drivers/fs/exfat/exfat.c:313-323 | ... and so read the same bytes |
| `ScratchHeap.SameRunsSameHeap` | src/os/kernel/mem_manager/allocator.c:112-127 | A heap with its old live runs is its old table |
| `ScratchHeap.StretchServes` | src/os/kernel/mem_manager/allocator.c:12-47 | A free stretch that is long enough serves a request and is only eaten from the left |
| `ComponentBus.GetDevices` | src/os/kernel/drivers/component_bus/common.c:95-151 | While no request it makes fails, both queries return every device with the class and subclass (and programming interface, if one is given) once, in the order of the bus, and nothing else, in a buffer that fits; at most one block stays on the heap, none without a match |
| `ComponentBus.Append` | src/os/kernel/drivers/component_bus/common.c:101-109 | Growing keeps what was collected, and leaves room for all growth to come |
| `ComponentBus.SelectedAreMatching` | src/os/kernel/drivers/component_bus/common.c:99-111 | Exactly the devices with these three fields are selected |
| `ComponentBus.SelectIsAnswer` | src/os/kernel/drivers/component_bus/common.c:99-111 | The selection lists the places of all wanted devices in increasing order |
| `ComponentBus.SelectConcat` | src/os/kernel/drivers/component_bus/common.c:99-111 | Selection keeps the order |
| `Sata.PortConfigure` | src/os/kernel/drivers/disk/sata/sata.c:32-105 | It succeeds if and only if the slot count is 1 to 32, both engines stop, and every structure has an aligned fit when its turn comes; then command list (1024 bytes, address a multiple of 1024), received FIS (256, of 256), pointer array and command tables (144, of 128) are live blocks below 4 GiB that share no byte, as sections 3.3.1, 3.3.3 and 4.2.2 of AHCI 1.3.1 require, and registers and headers hold their exact addresses |
| `Sata.PiecesApart` | src/os/kernel/drivers/disk/sata/sata.c:58-96 | Structures of the low heap share no byte and survive the cast to 32 bits |
| `Sata.BootedLowHeap` | src/os/kernel/mem_manager/manager.c:172-200 | The low heap that the initialisation leaves meets what the SATA driver relies on, after any calls |
| `Sata.PortData.TakeTables` | src/os/kernel/drivers/disk/sata/sata.c:79-88 | One table per slot, each with its header; it stops short only at a table without a fit |
| `Sata.TakeSmall` | src/os/kernel/drivers/disk/sata/sata.c:65-67 | A one-block request cannot run off the table, and is refused only without a free block |
| `Sata.FindCommandSlot` | src/os/kernel/drivers/disk/sata/sata.c:23-30 | The lowest slot whose bit is clear in both PxCI and PxSACT, or -1 when there is none |
| `Sata.OrBit` | src/os/kernel/drivers/disk/sata/sata.c:24-27 | A bit is set in the or of two words exactly when it is set in one of them |
| `Sata.RejectsIff` | src/os/kernel/drivers/disk/sata/sata.c:148-152 | The address check rejects exactly what is not a multiple of 4 or does not fit 32 bits |
| `Sata.LowPieceAccepted` | src/os/kernel/drivers/disk/sata/sata.c:148-152 | The address check never rejects an aligned buffer of the low heap |
| `Sata.ReadThroughBuffer` | src/os/kernel/drivers/disk/sata/sata.c:318-360 | The sector buffer is given back on every path, and a read fails only without a buffer or by the hardware |
| `Paging.BuildTables` | src/os/bootloader/bootloader_s2.asm:58-105 | After the fill loop the four-level walk maps every address below 4 GiB to itself |
| `Paging.FillPages` | src/os/bootloader/bootloader_s2.asm:85-105 | The register loop writes 2048 consecutive 2 MiB entries |
| `Paging.IdentityMapped` | src/os/bootloader/bootloader_s2.asm:58-105 | Filled tables translate each address below 4 GiB to itself |

## Left out

- Port I/O, serial output, `halt`, inline assembly, real-mode boot steps: hardware effects only; a halt is a missing result or a flag.
- ATA transfers and SATA command completion: device timing. A disk is a function from sector number to an optional sector; a command
  completes as a parameter says; whether a port's engines stop in time is a parameter.
- ACPI scanning and MCFG decoding: decoded entries are inputs. `find_mmio_hole` reads them 36 bytes into the table
  (src/os/kernel/mem_manager/manager.c:131-132) and `PCIE_init` 44 bytes (src/os/kernel/drivers/component_bus/pcie/pcie.c:133),
  so on the code as written the windows the hole search avoids are not the devices' configuration windows.
- `k_bump_alloc_aligned` has no return statement (src/os/kernel/mem_manager/manager.c:333-335); it is taken to return the bump result.
- `memset` as written (src/os/kernel/utils.c:39-43): no property rests on it; DMA structures are not claimed to be zero.
- Enumeration of buses and the growing device array of `PCIE_get_devices`: the devices to probe and to relocate are given.
- Bridge headers, a 64-bit BAR in slot 5, I/O BARs with 16-bit decode, memory BARs of the reserved types.
- exFAT case folding, name hash, checksums and writing, and mounting (`EXFAT_init`).
- MemoryManagement.MemManagerInit: E820 entries are disjoint, at most 64, and end a page below 2^64; sizes below 2^63, a root heap of at
  least five blocks and a low heap of at least 4127 bytes, as the kernel asks for. For a kernel of 2^32 bytes or more the size in bytes
  wraps, and only the clause with the wrapped end holds.
- UsedAddresses.HoleIsLargestUnused: buses of MCFG entries are bytes and their windows end below 2^64.
- Allocator.Heap.Alloc: the array models memory as far as the scan reads, a table has fewer than 2^32 blocks, and the arena ends in
  the lower half of the address space.
- BumpAllocator.BumpHeap.AllocAligned: the arena ends at or below 4 GiB, as the hole always does.
- PcieRelocation.RelocateAll: devices mask their BAR writes.
- ExfatDriver.OpenFile: 512-byte sectors, components of at most 255 bytes, sets that do not straddle a cluster, directories whose
  walk ends and that are stored as table chains, and a heap on which every request the lookup makes is served when its turn comes
  (a failed request leads to a write through NULL). Fragmented heaps are included.
- ExfatRead.ReadFileAll: every request it makes is served when its turn comes.
- ExfatRead.ReadFile: the same, and fewer than 2^22 sectors per cluster, where the `int` product of the cluster size overflows. Bytes
  returned for an unreadable file are not described.
- ComponentBus.GetDevices: every request it makes is served when its turn comes.
- Sata.FindCommandSlot: at most 32 slots; beyond that the shift is undefined.
- Sata.PortConfigure: the command register and the structures a failed call leaves behind are not described.
- Pcie.Device.Remap: the command register is a plain register, and a write to one BAR changes no other.
- Allocator.Heap.Free: for a pointer outside the table, the memory it clears is modelled only as far as the array of blocks reaches.
