/**
 * Whole-kernel sequences of façade calls on a freshly created table, record
 * and MMU: what a driver, the boot code or a diagnostic sees when it calls
 * the façade several times in a row.
 */
module MmuScenarios {
  import opened Bits
  import opened Wrappers
  import opened MmuInterface
  import opened Types
  import opened TranslationTable
  import opened MappingRecord
  import opened ArchMmu
  import opened Mmu

  /**
   * Three drivers ask for the same device window: every one is handed the
   * address the first got, with the window's page offset. The record, with
   * room for two entries, lists the first two users; the third is not
   * recorded and still finds the first entry.
   */
  method SameWindowThreeTimes(layout: TableLayout, d: MMIODescriptor)
    returns (first: Result<Address<Virtual>, string>, second: Result<Address<Virtual>, string>,
             third: Result<Address<Virtual>, string>, users: nat)
    requires ValidLayout(layout) && ValidMmio(d) && MmioPageSlice(d).numPages <= layout.mmioNumPages
    ensures first.Success? && second == first && third == first
    ensures first.value.value % KernelGranuleSize == d.start.value % KernelGranuleSize
    ensures users == 2
  {
    var tables, record, mmu := NewKernel(layout, 2, true);
    tables.Init();
    ghost var m0 := tables.mappings;
    first := KernelMapMmio(tables, record, "first driver", d);
    MapMmioSucceedsWithRoom(layout, 2, "first driver", d, first, m0, 0, [],
                            tables.mappings, tables.mmioCursor, record.entries);
    MapMmioKeepsOffset(layout, true, 2, "first driver", d, first, m0, 0, [],
                       tables.mappings, tables.mmioCursor, record.entries);
    ghost var virt := FreshSlice(layout, 0, MmioPageSlice(d).numPages);
    ghost var e := MappingRecordEntry("first driver", virt, MmioPageSlice(d), MmioAttributes);
    assert record.entries == [e];
    assert FirstDeviceWithPhys(record.entries, MmioPageSlice(d)) == Some(0);
    second := KernelMapMmio(tables, record, "second driver", d);
    assert record.entries == [e] + [MappingRecordEntry("second driver", virt, MmioPageSlice(d), MmioAttributes)];
    FirstDeviceWithPhysAppend([e], MappingRecordEntry("second driver", virt, MmioPageSlice(d), MmioAttributes),
                              MmioPageSlice(d));
    third := KernelMapMmio(tables, record, "third driver", d);
    users := |record.entries|;
  }

  /**
   * The device's pages are first mapped by hand as normal memory, outside the
   * MMIO window. That mapping is not shared with a driver: the driver gets
   * the first pages of the window, mapped as device memory, and its address
   * still reaches the device's first register.
   */
  method NormalMemoryMappingNotReused(layout: TableLayout, virt: PageSlice<Virtual>, d: MMIODescriptor)
    returns (manual: Outcome<string>, device: Result<Address<Virtual>, string>, deviceAttr: AttributeFields)
    requires ValidLayout(layout) && ValidMmio(d) && MmioPageSlice(d).numPages <= layout.mmioNumPages
    requires ValidSlice(virt) && !SliceIntersectsWindow(layout, virt)
    requires virt.numPages == MmioPageSlice(d).numPages && FirstPage(virt) + virt.numPages <= layout.numPages
    ensures manual == Pass
    ensures device.Success?
            && device.value.value == layout.mmioFirstPage * KernelGranuleSize + d.start.value % KernelGranuleSize
    ensures deviceAttr == MmioAttributes
  {
    var tables, record, mmu := NewKernel(layout, 2, true);
    tables.Init();
    assert KernelInvariant(tables, record);
    manual := KernelMapPagesAt(tables, record, "kernel", virt, MmioPageSlice(d),
                               AttributeFields(CacheableDRAM, ReadWrite, false));
    assert record.entries == [MappingRecordEntry("kernel", virt, MmioPageSlice(d),
                                                 AttributeFields(CacheableDRAM, ReadWrite, false))];
    assert FirstDeviceWithPhys(record.entries, MmioPageSlice(d)).None?;
    ghost var m0, entries0 := tables.mappings, record.entries;
    device := KernelMapMmio(tables, record, "device", d);
    MapMmioSucceedsWithRoom(layout, 2, "device", d, device, m0, 0, entries0,
                            tables.mappings, tables.mmioCursor, record.entries);
    MapMmioIsDeviceMemory(layout, true, 2, "device", d, device, m0, 0, entries0,
                          tables.mappings, tables.mmioCursor, record.entries);
    deviceAttr := tables.mappings[PageOf(device.value)].attr;
  }

  /**
   * Once the MMIO window is used up, a new device cannot be mapped, but a
   * device that is already mapped is still handed its address.
   */
  method ExhaustedWindowStillReuses(layout: TableLayout, d: MMIODescriptor, other: MMIODescriptor)
    returns (first: Result<Address<Virtual>, string>, refused: Result<Address<Virtual>, string>,
             again: Result<Address<Virtual>, string>)
    requires ValidLayout(layout) && ValidMmio(d) && ValidMmio(other)
    requires MmioPageSlice(d).numPages == layout.mmioNumPages
    requires MmioPageSlice(other) != MmioPageSlice(d)
    ensures first.Success?
    ensures refused == Failure("Not enough MMIO space left")
    ensures again == first
  {
    var tables, record, mmu := NewKernel(layout, 4, true);
    tables.Init();
    ghost var m0 := tables.mappings;
    first := KernelMapMmio(tables, record, "device", d);
    MapMmioSucceedsWithRoom(layout, 4, "device", d, first, m0, 0, [],
                            tables.mappings, tables.mmioCursor, record.entries);
    ghost var virt := FreshSlice(layout, 0, MmioPageSlice(d).numPages);
    assert record.entries == [MappingRecordEntry("device", virt, MmioPageSlice(d), MmioAttributes)];
    assert tables.mmioCursor == layout.mmioNumPages;
    assert FirstDeviceWithPhys(record.entries, MmioPageSlice(other)) == None;
    refused := KernelMapMmio(tables, record, "other device", other);
    assert FirstDeviceWithPhys(record.entries, MmioPageSlice(d)) == Some(0);
    again := KernelMapMmio(tables, record, "device", d);
  }

  /**
   * A mapped device window is reachable through the MMU: before the MMU is
   * on every translation fails with MMUDisabled, afterwards the returned
   * address translates to the first byte of the device's registers.
   */
  method DeviceReachableAfterEnable(layout: TableLayout, d: MMIODescriptor)
    returns (before: Result<Address<Physical>, TranslationError>, after: Result<Address<Physical>, TranslationError>)
    requires ValidLayout(layout) && ValidMmio(d) && MmioPageSlice(d).numPages <= layout.mmioNumPages
    ensures before == Failure(MMUDisabled)
    ensures after == Success(d.start)
  {
    var tables, record, mmu := NewKernel(layout, 1, true);
    tables.Init();
    ghost var m0 := tables.mappings;
    var va := KernelMapMmio(tables, record, "device", d);
    MapMmioSucceedsWithRoom(layout, 1, "device", d, va, m0, 0, [],
                            tables.mappings, tables.mmioCursor, record.entries);
    MapMmioTranslatesBack(layout, true, 1, "device", d, va, m0, 0, [],
                          tables.mappings, tables.mmioCursor, record.entries);
    before := TryVirtToPhys(mmu, tables, va.value);
    var enabled := EnableMmuAndCaching(mmu, layout.physBaseAddr);
    after := TryVirtToPhys(mmu, tables, va.value);
  }

  /**
   * The MMU is switched on once: a second request is refused with
   * AlreadyEnabled, which reads as such, and the first table base stays.
   */
  method EnableTwice(base: Address<Physical>, otherBase: Address<Physical>)
    returns (first: Outcome<MMUEnableError>, second: Outcome<MMUEnableError>, programmed: Address<Physical>)
    ensures first == Pass
    ensures second == Fail(AlreadyEnabled) && Display(second.error) == "MMU is already enabled"
    ensures programmed == base
  {
    var tables, record, mmu := NewKernel(TableLayout(0, 0, 0, base), 0, true);
    first := EnableMmuAndCaching(mmu, base);
    second := EnableMmuAndCaching(mmu, otherBase);
    programmed := mmu.tablesBaseAddr;
  }

  /** Hardware without the kernel's granule refuses to switch on, and translation stays off. */
  method UnsupportedGranule(base: Address<Physical>, probe: Address<Virtual>)
    returns (enabled: Outcome<MMUEnableError>, translated: Result<Address<Physical>, TranslationError>)
    ensures enabled == Fail(Other(GranuleUnsupported))
    ensures translated == Failure(MMUDisabled)
  {
    var tables, record, mmu := NewKernel(TableLayout(0, 0, 0, base), 0, false);
    enabled := EnableMmuAndCaching(mmu, base);
    translated := TryVirtToPhys(mmu, tables, probe);
  }

  /**
   * Kernel code cannot map into the MMIO window by hand: the request is
   * refused and a later MMIO mapping still gets the window's first pages.
   */
  method ManualMapIntoWindowRefused(
    layout: TableLayout, virt: PageSlice<Virtual>, phys: PageSlice<Physical>, d: MMIODescriptor)
    returns (manual: Outcome<string>, device: Result<Address<Virtual>, string>)
    requires ValidLayout(layout) && ValidSlice(virt) && ValidSlice(phys) && SliceIntersectsWindow(layout, virt)
    requires ValidMmio(d) && MmioPageSlice(d).numPages <= layout.mmioNumPages
    ensures manual == Fail(ManualMmioMapError)
    ensures device.Success?
            && device.value.value == layout.mmioFirstPage * KernelGranuleSize + d.start.value % KernelGranuleSize
  {
    var tables, record, mmu := NewKernel(layout, 1, true);
    tables.Init();
    manual := KernelMapPagesAt(tables, record, "kernel", virt, phys, AttributeFields(CacheableDRAM, ReadWrite, false));
    ghost var m0 := tables.mappings;
    device := KernelMapMmio(tables, record, "device", d);
    MapMmioSucceedsWithRoom(layout, 1, "device", d, device, m0, 0, [],
                            tables.mappings, tables.mmioCursor, record.entries);
  }
}
