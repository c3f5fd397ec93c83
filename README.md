# MMU kernel-mapping façade of the Raspberry Pi OS tutorials

This project models the architecture-neutral MMU module of the kernel in two
tutorials of the Rust Raspberry Pi OS series. Tutorial 14 adds MMIO remapping;
tutorial 15 adds precomputed tables. The module sits between drivers and boot
code on one side, and the translation table, the mapping record, the board
layer and the aarch64 MMU driver on the other. It offers:

- **Granule and address-space constants.** A `TranslationGranule` or
  `AddressSpace` exists only for a power-of-two size. `MASK` is `SIZE - 1` and
  `SHIFT` is `log2(SIZE)`, which is the number of trailing zero bits. An
  address space must also pass the architecture's own sanity check.
- **Guarded raw mapping.** `kernel_map_pages_at` refuses, with nothing
  changed, any virtual slice that touches the table's reserved MMIO window.
  Otherwise it behaves as `kernel_map_pages_at_unchecked`. That call asks the
  table to map the pages and returns the table's error at once. Only after the
  table accepts does it record the mapping; a full record only yields a
  warning.
- **MMIO remapping with reuse.** `kernel_map_mmio` rounds the device window out
  to whole 64 KiB pages and takes the offset of the start within its page as
  `start & MASK`. If a recorded device-memory mapping covers exactly the same
  physical pages, the caller reuses its virtual pages and is recorded as
  another user. If not,
  the call takes the next pages of the MMIO window and maps them as device
  memory, read-write and never executable. The result is the virtual page
  start plus the offset.
- **Kernel binary (tutorial 14).** `kernel_map_binary` initialises the table,
  takes its physical base address, lets the board layer map the kernel image,
  and returns the base, or the first error the board layer reports.
- **MMU control.** `enable_mmu_and_caching` works once and then fails with
  `AlreadyEnabled`. `try_virt_to_phys` fails with `MMUDisabled` while
  translation is off and with `Aborted` for an unmapped address.

## How the model is laid out

| module (file) | what it holds |
|---|---|
| `Wrappers` (wrappers.dfy) | `Option`, `Result`, `Outcome` |
| `Bits` (bits.dfy) | `usize` as a 64-bit subset of `nat`, powers of two, `trailing_zeros`, bitwise AND |
| `MmuInterface` (mmu_interface.dfy) | error types, `Display`, granule and address-space constructors, the 64 KiB kernel granule |
| `Types` (types.dfy) | addresses tagged physical or virtual, page slices, MMIO descriptors and their page rounding, attributes |
| `TranslationTable` (translation_table.dfy) | class `KernelTranslationTable`: initialised flag, page map, MMIO cursor; the map verdict `MapCheck`; `Translate` |
| `MappingRecord` (mapping_record.dfy) | class `KernelMappingRecord`: bounded sequence of entries, duplicate search |
| `ArchMmu` (arch_mmu.dfy) | class `MemoryManagementUnit`: enabled flag, programmed table base |
| `Mmu` (mmu.dfy) | the façade operations, the invariant they keep, and the lemmas about their effects |
| `MmuScenarios` (scenarios.dfy) | sequences of façade calls on fresh objects, each with its outcome proved |

The kernel has one global translation table, one mapping record and one MMU.
Only the table is reached through a read-write lock: the façade takes it for
each table access (15_virtual_mem_part3_precomputed_tables/src/memory/mmu.rs:108-109,
189-190 and 222-224). The MMU is reached directly through the architecture
driver (lines 247 and 259 there, and
14_virtual_mem_part2_mmio_remap/src/memory/mmu.rs:242). Here all three are
objects passed to every façade method. Each call runs as one exclusive step.

`TryVirtToPhys` takes the table as a parameter and walks the mappings of
whatever table object it is given. It does not look up the table whose base
address was programmed by `EnableMmuAndCaching`; the model does not tie the
two together.

Each façade method is specified by the state it leaves behind. For MMIO
mapping, that state is the ghost predicate `MapMmioEffect`: `DedupEffect` on
the reuse path and `FreshEffect` on the fresh path. Separate lemmas prove what
that effect implies:

- the returned address keeps the page offset;
- it translates back to the device's first byte;
- the invariant is kept;
- a new window always succeeds where room exists.

The invariant is `KernelInvariant`. It says that the unallocated tail of the
MMIO window is unmapped, and that every record entry is backed by the table.
It is stated as preservation (`old(invariant) ==> invariant`), because the
source does not demand it of its callers. `NewKernel` supplies the base case:
the objects as boot creates them satisfy it, so it holds after any sequence
of façade calls.

`KernelMapBinary` is specified by the pure function `MapSegments`. It runs
`MapSegment` over the board layer's segments in order and stops at the first
failure. The method's result, final page map and final record are exactly
those of that run. Lemmas then prove three things about the run: a failure
sticks, a successful run maps every segment, and mapping the same segment
twice is refused.

The duplicate search of the record considers device-memory entries only
(`IsDeviceMappingOf`). The same physical pages mapped as normal memory, for
example by `kernel_map_pages_at`, are therefore never handed to a driver.
`MapMmioIsDeviceMemory` proves that the page behind every address
`KernelMapMmio` returns has the device memory type.

## Model

| member | source | states |
|---|---|---|
| MmuInterface.Display | 15_virtual_mem_part3_precomputed_tables/src/memory/mmu.rs:120-127 | `AlreadyEnabled` displays as "MMU is already enabled"; `Other(x)` displays its message `x` |
| MmuInterface.NewTranslationGranule | 15_virtual_mem_part3_precomputed_tables/src/memory/mmu.rs:129-144 | a granule exists exactly when its size is a power of two; then `SIZE` is the size, `MASK = SIZE - 1` and `2^SHIFT = SIZE` |
| MmuInterface.GranuleMaskIsPageOffset | 15_virtual_mem_part3_precomputed_tables/src/memory/mmu.rs:133-134 | for a valid granule, `addr & MASK` is the offset of `addr` within its page (`addr mod SIZE`) |
| MmuInterface.NewAddressSpace | 15_virtual_mem_part3_precomputed_tables/src/memory/mmu.rs:146-161 | an address space exists exactly when its size is a power of two and passes the architecture check; then `2^SIZE_SHIFT = SIZE` |
| MmuInterface.KernelGranuleIsChecked | 15_virtual_mem_part3_precomputed_tables/src/memory/mmu.rs:129-144 | the 64 KiB kernel granule passes the power-of-two check, with `MASK = 0xFFFF` and `SHIFT = 16` |
| MmuInterface.KernelPageOffset | 15_virtual_mem_part3_precomputed_tables/src/memory/mmu.rs:212-213 | masking a start address with the kernel granule's MASK yields its offset within its 64 KiB page |
| Bits.PowerOfTwoShift | 15_virtual_mem_part3_precomputed_tables/src/memory/mmu.rs:136-137 | the trailing-zero count of a 64-bit power of two is below 64 and is its base-2 logarithm |
| Bits.MaskIsModulo | 15_virtual_mem_part3_precomputed_tables/src/memory/mmu.rs:133-134 | AND with `2^k - 1` equals the remainder modulo `2^k` |
| Bits.Pow2IsPowerOfTwo | 15_virtual_mem_part3_precomputed_tables/src/memory/mmu.rs:139-143 | every `2^k` that fits in `usize` passes the power-of-two check |
| Types.MmioPageSlice | 15_virtual_mem_part3_precomputed_tables/src/memory/mmu.rs:211 | the whole pages covering a device window: they start at the page holding the window's first byte, that byte's offset within it is `start mod SIZE`, and the last page holds the window's last byte |
| TranslationTable.SliceIntersectsWindowIff | 15_virtual_mem_part3_precomputed_tables/src/memory/mmu.rs:189-193 | the interval test used for the MMIO guard holds exactly when some page of the slice lies in the MMIO window |
| TranslationTable.MapCheck | 15_virtual_mem_part3_precomputed_tables/src/memory/mmu.rs:108-109 | the table accepts a mapping exactly when it is initialised, the slices have equal length, the slice fits in the table and none of its pages is mapped; an uninitialised table fails with its own error; every other failure is one of the table's errors |
| TranslationTable.Translate | 15_virtual_mem_part3_precomputed_tables/src/memory/mmu.rs:63-69 | an address translates exactly when its page is mapped, and keeps its offset within the page |
| TranslationTable.TranslateAfterInstall | 15_virtual_mem_part3_precomputed_tables/src/memory/mmu.rs:63-69 | once a slice is installed, every address in it translates to the same offset from the start of the physical slice |
| TranslationTable.Install | 15_virtual_mem_part3_precomputed_tables/src/memory/mmu.rs:108-109 | installing maps each page of the virtual range to the physical page at the same position, with the given attributes, and keeps every other page as it was |
| TranslationTable.KernelTranslationTable.MapPagesAt | 15_virtual_mem_part3_precomputed_tables/src/memory/mmu.rs:108-109 | the result is the table verdict; the pages are installed on success and nothing changes on failure |
| TranslationTable.KernelTranslationTable.NextMmioVirtPageSlice | 15_virtual_mem_part3_precomputed_tables/src/memory/mmu.rs:222-224 | zero pages and too few pages left are errors; otherwise the next pages of the MMIO window are handed out and the cursor moves past them |
| TranslationTable.KernelTranslationTable.Init | 14_virtual_mem_part2_mmio_remap/src/memory/mmu.rs:223-226 | initialising marks the table ready and changes no mapping |
| MappingRecord.FirstDeviceWithPhys | 15_virtual_mem_part3_precomputed_tables/src/memory/mmu.rs:215-217 | the first device-memory entry whose physical slice is exactly the one asked for, or None exactly when no entry is one |
| MappingRecord.FirstDeviceWithPhysAppend | 15_virtual_mem_part3_precomputed_tables/src/memory/mmu.rs:215-219 | recording another user behind an existing match does not change which entry is found |
| MappingRecord.KernelMappingRecord.Add | 15_virtual_mem_part3_precomputed_tables/src/memory/mmu.rs:170 | adding succeeds exactly when the store has room, then appends the entry; otherwise it fails with the exhaustion error and changes nothing |
| MappingRecord.KernelMappingRecord.FindDuplicate | 15_virtual_mem_part3_precomputed_tables/src/memory/mmu.rs:215-217 | the scan returns the first device-memory entry with exactly the given physical pages, as `FirstDeviceWithPhys` defines it |
| MappingRecord.KernelMappingRecord.FindAndInsertMmioDuplicate | 15_virtual_mem_part3_precomputed_tables/src/memory/mmu.rs:216-219 | without a match nothing changes and None is returned; with one, the matched virtual start is returned and the new user recorded when there is room |
| ArchMmu.MemoryManagementUnit.EnableMmuAndCaching | 15_virtual_mem_part3_precomputed_tables/src/memory/mmu.rs:49-58 | a second enable fails with `AlreadyEnabled` and changes nothing; unsupported hardware fails with `Other`; otherwise translation is on with the given table base |
| ArchMmu.MemoryManagementUnit.TryVirtToPhys | 15_virtual_mem_part3_precomputed_tables/src/memory/mmu.rs:63-69 | `MMUDisabled` exactly when translation is off, `Aborted` exactly when it is on and the page is unmapped, success exactly otherwise and then the table's translation |
| Mmu.KernelAddMappingRecord | 15_virtual_mem_part3_precomputed_tables/src/memory/mmu.rs:163-173 | the entry is appended when the record has room and dropped otherwise; the caller never sees an error |
| Mmu.KernelMapPagesAtUnchecked | 15_virtual_mem_part3_precomputed_tables/src/memory/mmu.rs:102-114 | the table verdict is returned; on success the pages are installed and then recorded if there is room; on failure nothing changes; the record stays backed by the table |
| Mmu.KernelMapPagesAt | 15_virtual_mem_part3_precomputed_tables/src/memory/mmu.rs:183-198 | a slice touching the MMIO window is refused and nothing changes; any other slice is mapped as by the unchecked call; the kernel invariant is kept |
| Mmu.InstallMapsSlice | 15_virtual_mem_part3_precomputed_tables/src/memory/mmu.rs:108-109 | after a successful map every page of the virtual slice maps to its counterpart in the physical slice |
| Mmu.InstallKeepsSliceMapped | 15_virtual_mem_part3_precomputed_tables/src/memory/mmu.rs:108-111 | mapping unmapped pages leaves every earlier mapped slice intact |
| Mmu.RecordAgreesAfterMap | 15_virtual_mem_part3_precomputed_tables/src/memory/mmu.rs:108-111 | after a successful map, the record, with or without the new entry, is still backed by the table |
| Mmu.OutsideWindowPages | 15_virtual_mem_part3_precomputed_tables/src/memory/mmu.rs:189-195 | a slice that passes the MMIO guard has no page in the MMIO window |
| Mmu.RecordAgreesAfterDuplicate | 15_virtual_mem_part3_precomputed_tables/src/memory/mmu.rs:215-219 | recording another user of an existing mapping keeps the record backed by the table |
| Mmu.AlignedPlusOffset | 15_virtual_mem_part3_precomputed_tables/src/memory/mmu.rs:240 | adding an in-page offset to a page start yields an address with that offset |
| Mmu.MappedSliceTranslates | 15_virtual_mem_part3_precomputed_tables/src/memory/mmu.rs:243-248 | in a mapped slice, its page start plus an in-page offset translates to the physical start plus that offset, and the page carries the slice's attributes |
| Mmu.InstalledSliceTranslates | 15_virtual_mem_part3_precomputed_tables/src/memory/mmu.rs:222-240 | in a freshly installed slice, its page start plus an in-page offset translates to the physical start plus that offset, and the page carries the installed attributes |
| Mmu.FreshSlice | 15_virtual_mem_part3_precomputed_tables/src/memory/mmu.rs:222-224 | the pages handed out at the cursor form a well-formed slice that lies inside the MMIO window |
| Mmu.WindowTailAfterFresh | 15_virtual_mem_part3_precomputed_tables/src/memory/mmu.rs:222-235 | under the invariant, the pages at the cursor are unmapped and an initialised table accepts them; once mapped, the rest of the window stays unmapped |
| Mmu.FreshEffectOfSteps | 15_virtual_mem_part3_precomputed_tables/src/memory/mmu.rs:221-237 | allocating, mapping and recording in that order has exactly the fresh-path effect |
| Mmu.MapFreshMmio | 15_virtual_mem_part3_precomputed_tables/src/memory/mmu.rs:221-237 | the fresh path: too few window pages is an error with nothing changed; otherwise the cursor advances and the table verdict decides whether the device pages are mapped and recorded |
| Mmu.KernelMapMmio | 15_virtual_mem_part3_precomputed_tables/src/memory/mmu.rs:207-241 | an exact duplicate's virtual pages are reused with the table unchanged; otherwise fresh window pages are mapped; the kernel invariant is kept |
| Mmu.MapMmioKeepsOffset | 15_virtual_mem_part3_precomputed_tables/src/memory/mmu.rs:211-240 | the returned address has the same offset within its page as the window's start, on both paths |
| Mmu.MapMmioTranslatesBack | 15_virtual_mem_part3_precomputed_tables/src/memory/mmu.rs:207-241 | the returned address translates to the window's first byte: always on the fresh path, and on the reuse path whenever the table backs the record |
| Mmu.FreshEffectInstalled | 15_virtual_mem_part3_precomputed_tables/src/memory/mmu.rs:222-240 | a success on the fresh path means the window had room, the table accepted the fresh slice and installed the device pages there, and the address is the slice's start plus the offset |
| Mmu.MapMmioIsDeviceMemory | 15_virtual_mem_part3_precomputed_tables/src/memory/mmu.rs:215-235 | the page behind the returned address is mapped with the device memory type; on the fresh path it carries exactly device, read-write, never executable |
| Mmu.FreshEffectKeepsInvariant | 15_virtual_mem_part3_precomputed_tables/src/memory/mmu.rs:221-235 | the fresh path keeps the window tail unmapped and the record backed by the table |
| Mmu.MapMmioKeepsInvariant | 15_virtual_mem_part3_precomputed_tables/src/memory/mmu.rs:215-235 | both paths of MMIO mapping keep the window tail unmapped and the record backed by the table |
| Mmu.MapMmioSucceedsWithRoom | 15_virtual_mem_part3_precomputed_tables/src/memory/mmu.rs:220-237 | under the invariant, a window not mapped before is always mapped once the table is initialised and the MMIO window has room; the cursor then advances by its page count |
| Mmu.NewKernel | 14_virtual_mem_part2_mmio_remap/src/memory/mmu.rs:222-226 | the objects as boot creates them, before `kernel_map_binary` initialises the table: an uninitialised empty table, an empty record and the MMU off; the kernel invariant holds for them |
| Mmu.MapSegment | 14_virtual_mem_part2_mmio_remap/src/memory/mmu.rs:217-232 | one segment mapped as `kernel_map_pages_at` does on an initialised table: it fails exactly when it touches the MMIO window or the table refuses, and a failure changes nothing |
| Mmu.MapSegments | 14_virtual_mem_part2_mmio_remap/src/memory/mmu.rs:217-232 | every failure of the board layer's run is the guard's error or a table error |
| Mmu.MapSegmentsStep | 14_virtual_mem_part2_mmio_remap/src/memory/mmu.rs:217-232 | after an accepted prefix, one more segment's run is that segment mapped on the prefix's result |
| Mmu.MapSegmentsFailureSticks | 14_virtual_mem_part2_mmio_remap/src/memory/mmu.rs:217-232 | once a prefix of the segments fails, the whole run ends with that prefix's error, page map and record |
| Mmu.MapSegmentsMapsAll | 14_virtual_mem_part2_mmio_remap/src/memory/mmu.rs:217-232 | a run that succeeds leaves every segment mapped |
| Mmu.RepeatedSegmentRefused | 14_virtual_mem_part2_mmio_remap/src/memory/mmu.rs:217-232 | mapping a segment a second time is refused with "Virtual page is already mapped" |
| Mmu.KernelMapBinary | 14_virtual_mem_part2_mmio_remap/src/memory/mmu.rs:217-232 | the table is initialised and the cursor unchanged; the result, page map and record are exactly those of `MapSegments` over the segments: the table's physical base and every segment mapped, or the first failing segment's error with the later segments not attempted; the invariant is kept |
| Mmu.EnableMmuAndCaching | 15_virtual_mem_part3_precomputed_tables/src/memory/mmu.rs:250-260 | delegates to the MMU: enabling works once and then fails with `AlreadyEnabled`; unsupported hardware fails with `Other`; success programs the given table base, and a failure keeps the previous one |
| Mmu.TryVirtToPhys | 15_virtual_mem_part3_precomputed_tables/src/memory/mmu.rs:243-248 | delegates to the MMU: `MMUDisabled` while off, `Aborted` for an unmapped page, otherwise the table's translation |
| MmuScenarios.SameWindowThreeTimes | 15_virtual_mem_part3_precomputed_tables/src/memory/mmu.rs:215-219 | three drivers mapping the same device window get the same virtual address, keeping the window's page offset; a record with room for two lists two users |
| MmuScenarios.NormalMemoryMappingNotReused | 15_virtual_mem_part3_precomputed_tables/src/memory/mmu.rs:215-235 | after the device's pages are mapped by hand as normal memory, a driver still gets the first fresh window page plus the offset, mapped as device memory |
| MmuScenarios.ExhaustedWindowStillReuses | 15_virtual_mem_part3_precomputed_tables/src/memory/mmu.rs:215-224 | once the MMIO window is used up, a new device is refused with "Not enough MMIO space left", but a device mapped earlier is still handed its address |
| MmuScenarios.DeviceReachableAfterEnable | 15_virtual_mem_part3_precomputed_tables/src/memory/mmu.rs:243-260 | before enabling, translating the mapped device address fails with `MMUDisabled`; afterwards it yields the device's first byte |
| MmuScenarios.EnableTwice | 15_virtual_mem_part3_precomputed_tables/src/memory/mmu.rs:120-127 | the second enable is refused with `AlreadyEnabled`, displayed as "MMU is already enabled", and the first table base stays programmed |
| MmuScenarios.UnsupportedGranule | 15_virtual_mem_part3_precomputed_tables/src/memory/mmu.rs:256-260 | hardware without the granule refuses to enable, and translation then fails with `MMUDisabled` |
| MmuScenarios.ManualMapIntoWindowRefused | 15_virtual_mem_part3_precomputed_tables/src/memory/mmu.rs:189-193 | a manual map touching the MMIO window is refused, and a later MMIO mapping still gets the window's first page plus the offset |

Tutorial 14 differs from tutorial 15 in three ways:

- It records the mapping inline (14_virtual_mem_part2_mmio_remap/src/memory/mmu.rs:95-97), with the same behaviour as `kernel_add_mapping_record`.
- It has `kernel_map_binary`.
- It has neither `TranslationError` nor `try_virt_to_phys`.

The shared parts (Display, granule, address space, guarded map, MMIO map, enable) are the same text in both files, so one model serves both.

## Left out

- The source files of the collaborators are not part of this model: the translation table, the mapping record, the address and page-slice types, the aarch64 MMU driver and the board layer. They appear as abstract classes and functions shaped by how the façade uses them.
- Their error strings are the model's own wording. The one error string the façade itself fixes, "Attempt to manually map into MMIO region", is the source's.
- The aarch64 table format and the hardware walk of `try_virt_to_phys` are abstracted as a map from virtual page to physical page and attributes.
- The MMU does not check that the programmed table base is the table's own, and `TryVirtToPhys` walks the table object it is passed.
- `kernel_add_mapping_record` prints a warning when the record is full. Console output is not modelled; the entry is simply dropped.
- `kernel_print_mappings` prints the record to the console and is not modelled.
- The kernel's translation table is shared behind a read-write lock. Concurrency is not modelled: each call is one exclusive step on objects passed in.
- The translation granule and address space are checked at compile time. Here a failing check is a `None` result.
- `arch_address_space_size_sanity_checks` is passed in as a predicate.
- The kernel granule size, 64 KiB, is chosen by the board layer and is a constant here.
- `kernel_map_binary` gets the board layer's segment list as a parameter. Each segment is mapped through `kernel_map_pages_at`, in order, stopping at the first error.
- The table's `map_pages_at` is modelled as all-or-nothing: it checks every page first, then installs.
- The bound of the physical address space is not checked when mapping.
- The record's duplicate search, on a match, appends a new entry for the new user that copies the matched entry's pages and attributes. When the record is full the new user is not recorded, so the entry found later is still the first one.
- Callers of `kernel_map_pages_at` are trusted not to alias physical pages, as the source says. The model neither checks nor requires that.
- The source files of the mapping record are not part of this model. Its duplicate search is modelled as matching device-memory entries only, since MMIO must be mapped device-typed.
- Mmu.KernelMapMmio: on the reuse path, the returned page is guaranteed only the device memory type. Its access permissions and execute-never bit are whatever the reused entry recorded.
