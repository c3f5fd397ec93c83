/**
 * The kernel's mapping façade over its one translation table, its one
 * mapping record and its one MMU: guarded raw mapping, MMIO mapping with
 * deduplication, mapping of the kernel binary, one-shot enabling of the MMU
 * and address translation. The global, lock-guarded instances of the kernel
 * become objects passed to every operation; each operation runs as one
 * exclusive call.
 */
module Mmu {
  import opened Bits
  import opened Wrappers
  import opened MmuInterface
  import opened Types
  import opened TranslationTable
  import opened MappingRecord
  import opened ArchMmu

  /** The error of a manual mapping that touches the MMIO window. */
  const ManualMmioMapError: string := "Attempt to manually map into MMIO region"

  /** MMIO is device memory, read-write and never executable. */
  const MmioAttributes: AttributeFields := AttributeFields(Device, ReadWrite, true)

  // ---------------------------------------------------------------------------
  // Invariants of the kernel address space
  // ---------------------------------------------------------------------------

  /** Every page of `virt` maps to the page of `phys` at the same position, with `attr`. */
  ghost predicate SliceMapped(
    m: map<PageIndex, PageEntry>, virt: PageSlice<Virtual>, phys: PageSlice<Physical>, attr: AttributeFields)
    requires ValidSlice(virt) && ValidSlice(phys)
  {
    virt.numPages == phys.numPages
    && forall v: PageIndex :: InSlice(virt, v) ==>
         v in m && m[v] == PageEntry(FirstPage(phys) + (v - FirstPage(virt)), attr)
  }

  /** The record shows no mapping that the table does not have. */
  ghost predicate RecordAgrees(m: map<PageIndex, PageEntry>, entries: seq<MappingRecordEntry>)
  {
    forall i :: 0 <= i < |entries| ==>
      ValidSlice(entries[i].virt) && ValidSlice(entries[i].phys)
      && SliceMapped(m, entries[i].virt, entries[i].phys, entries[i].attr)
  }

  /** The pages of the MMIO window not yet handed out are not mapped. */
  ghost predicate WindowTailUnmapped(l: TableLayout, m: map<PageIndex, PageEntry>, cursor: nat)
  {
    forall v :: v in m ==> !(l.mmioFirstPage + cursor <= v < l.mmioFirstPage + l.mmioNumPages)
  }

  /** The invariant every façade operation preserves. */
  ghost predicate KernelInvariant(tables: KernelTranslationTable, record: KernelMappingRecord)
    reads tables, record
  {
    tables.Valid() && record.Valid()
    && WindowTailUnmapped(tables.layout, tables.mappings, tables.mmioCursor)
    && RecordAgrees(tables.mappings, record.entries)
  }

  /**
   * The kernel's objects as boot creates them: an empty table with the given
   * layout, an empty record and the MMU switched off. The invariant holds from
   * the start, so every façade call keeps it from then on.
   */
  method NewKernel(layout: TableLayout, capacity: nat, granuleSupported: bool)
    returns (tables: KernelTranslationTable, record: KernelMappingRecord, mmu: MemoryManagementUnit)
    requires ValidLayout(layout)
    ensures fresh(tables) && fresh(record) && fresh(mmu)
    ensures tables.layout == layout && !tables.initialized && tables.mappings == map[] && tables.mmioCursor == 0
    ensures record.capacity == capacity && record.entries == []
    ensures mmu.granuleSupported == granuleSupported && !mmu.enabled
    ensures KernelInvariant(tables, record)
  {
    tables := new KernelTranslationTable(layout);
    record := new KernelMappingRecord(capacity);
    mmu := new MemoryManagementUnit(granuleSupported);
  }

  /** Installing a slice maps it. */
  lemma InstallMapsSlice(
    m: map<PageIndex, PageEntry>, virt: PageSlice<Virtual>, phys: PageSlice<Physical>, attr: AttributeFields)
    requires ValidSlice(virt) && ValidSlice(phys) && virt.numPages == phys.numPages
    ensures SliceMapped(Install(m, FirstPage(virt), FirstPage(phys), virt.numPages, attr), virt, phys, attr)
  {
  }

  /** Installing into unmapped pages leaves every existing mapping as it was. */
  lemma InstallKeepsSliceMapped(
    m: map<PageIndex, PageEntry>, virt: PageSlice<Virtual>, phys: PageSlice<Physical>, attr: AttributeFields,
    otherVirt: PageSlice<Virtual>, otherPhys: PageSlice<Physical>, otherAttr: AttributeFields)
    requires ValidSlice(virt) && ValidSlice(phys) && virt.numPages == phys.numPages
    requires forall v :: InSlice(virt, v) ==> v !in m
    requires ValidSlice(otherVirt) && ValidSlice(otherPhys) && SliceMapped(m, otherVirt, otherPhys, otherAttr)
    ensures SliceMapped(Install(m, FirstPage(virt), FirstPage(phys), virt.numPages, attr), otherVirt, otherPhys, otherAttr)
  {
    var m' := Install(m, FirstPage(virt), FirstPage(phys), virt.numPages, attr);
    forall v: PageIndex | InSlice(otherVirt, v)
      ensures v in m' && m'[v] == m[v]
    {
      assert v in m;
      assert !InSlice(virt, v);
    }
  }

  /**
   * A successful map followed by recording it keeps the record backed by the
   * table, whether or not the record had room.
   */
  lemma RecordAgreesAfterMap(
    m: map<PageIndex, PageEntry>, entries: seq<MappingRecordEntry>,
    name: string, virt: PageSlice<Virtual>, phys: PageSlice<Physical>, attr: AttributeFields)
    requires ValidSlice(virt) && ValidSlice(phys) && virt.numPages == phys.numPages
    requires forall v :: InSlice(virt, v) ==> v !in m
    requires RecordAgrees(m, entries)
    ensures RecordAgrees(Install(m, FirstPage(virt), FirstPage(phys), virt.numPages, attr), entries)
    ensures RecordAgrees(Install(m, FirstPage(virt), FirstPage(phys), virt.numPages, attr),
                         entries + [MappingRecordEntry(name, virt, phys, attr)])
  {
    var m' := Install(m, FirstPage(virt), FirstPage(phys), virt.numPages, attr);
    var entries' := entries + [MappingRecordEntry(name, virt, phys, attr)];
    forall i | 0 <= i < |entries'|
      ensures ValidSlice(entries'[i].virt) && ValidSlice(entries'[i].phys)
      ensures SliceMapped(m', entries'[i].virt, entries'[i].phys, entries'[i].attr)
    {
      if i < |entries| {
        assert entries'[i] == entries[i];
        InstallKeepsSliceMapped(m, virt, phys, attr, entries[i].virt, entries[i].phys, entries[i].attr);
      } else {
        InstallMapsSlice(m, virt, phys, attr);
      }
    }
  }

  /** A slice that misses the MMIO window has no page in it. */
  lemma OutsideWindowPages(l: TableLayout, virt: PageSlice<Virtual>, v: nat)
    requires ValidSlice(virt) && !SliceIntersectsWindow(l, virt) && InSlice(virt, v)
    ensures !InMmioWindow(l, v)
  {
    SliceIntersectsWindowIff(l, virt);
  }

  // ---------------------------------------------------------------------------
  // Raw mapping
  // ---------------------------------------------------------------------------

  /**
   * Records a mapping. A full record is not an error of the caller: the
   * failure is only reported as a warning (console output, not modelled).
   */
  method KernelAddMappingRecord(
    record: KernelMappingRecord,
    name: string, virt: PageSlice<Virtual>, phys: PageSlice<Physical>, attr: AttributeFields)
    requires record.Valid() && ValidSlice(virt) && ValidSlice(phys)
    modifies record
    ensures record.Valid()
    ensures record.entries == if |old(record.entries)| < record.capacity
                              then old(record.entries) + [MappingRecordEntry(name, virt, phys, attr)]
                              else old(record.entries)
  {
    var added := record.Add(name, virt, phys, attr);
    if added.Fail? {
      // The kernel prints the error as a warning on the console; output is not modelled.
    }
  }

  /**
   * Maps the pages in the table without any policy check and, once the table
   * accepted them, records the mapping. A table error is returned at once and
   * nothing is recorded.
   */
  method KernelMapPagesAtUnchecked(
    tables: KernelTranslationTable, record: KernelMappingRecord,
    name: string, virt: PageSlice<Virtual>, phys: PageSlice<Physical>, attr: AttributeFields)
    returns (r: Outcome<string>)
    requires tables.Valid() && record.Valid() && ValidSlice(virt) && ValidSlice(phys)
    modifies tables, record
    ensures tables.Valid() && record.Valid()
    ensures r == MapCheck(tables.layout, old(tables.initialized), old(tables.mappings), virt, phys)
    ensures tables.mappings == if r.Pass? then Install(old(tables.mappings), FirstPage(virt), FirstPage(phys), virt.numPages, attr)
                               else old(tables.mappings)
    ensures tables.initialized == old(tables.initialized) && tables.mmioCursor == old(tables.mmioCursor)
    ensures record.entries == if r.Pass? && |old(record.entries)| < record.capacity
                              then old(record.entries) + [MappingRecordEntry(name, virt, phys, attr)]
                              else old(record.entries)
    ensures old(RecordAgrees(tables.mappings, record.entries)) ==> RecordAgrees(tables.mappings, record.entries)
  {
    ghost var m, entries := tables.mappings, record.entries;
    r := tables.MapPagesAt(virt, phys, attr);
    if r.Fail? {
      return;
    }
    KernelAddMappingRecord(record, name, virt, phys, attr);
    if RecordAgrees(m, entries) {
      RecordAgreesAfterMap(m, entries, name, virt, phys, attr);
    }
  }

  /**
   * Raw mapping for the kernel's own use: refused, with nothing changed, when
   * the virtual slice touches the MMIO window; otherwise the unchecked
   * mapping. Aliasing of physical pages is not checked: callers are trusted.
   */
  method KernelMapPagesAt(
    tables: KernelTranslationTable, record: KernelMappingRecord,
    name: string, virt: PageSlice<Virtual>, phys: PageSlice<Physical>, attr: AttributeFields)
    returns (r: Outcome<string>)
    requires tables.Valid() && record.Valid() && ValidSlice(virt) && ValidSlice(phys)
    modifies tables, record
    ensures tables.Valid() && record.Valid()
    ensures SliceIntersectsWindow(tables.layout, virt) ==>
              r == Fail(ManualMmioMapError) && unchanged(tables) && unchanged(record)
    ensures !SliceIntersectsWindow(tables.layout, virt) ==>
              r == MapCheck(tables.layout, old(tables.initialized), old(tables.mappings), virt, phys)
              && tables.mappings == (if r.Pass? then Install(old(tables.mappings), FirstPage(virt), FirstPage(phys), virt.numPages, attr)
                                     else old(tables.mappings))
              && record.entries == (if r.Pass? && |old(record.entries)| < record.capacity
                                    then old(record.entries) + [MappingRecordEntry(name, virt, phys, attr)]
                                    else old(record.entries))
    ensures tables.initialized == old(tables.initialized) && tables.mmioCursor == old(tables.mmioCursor)
    ensures old(KernelInvariant(tables, record)) ==> KernelInvariant(tables, record)
  {
    var isMmio := tables.IsVirtPageSliceMmio(virt);
    if isMmio {
      return Fail(ManualMmioMapError);
    }
    ghost var m := tables.mappings;
    ghost var wasInvariant := KernelInvariant(tables, record);
    r := KernelMapPagesAtUnchecked(tables, record, name, virt, phys, attr);
    if r.Pass? && wasInvariant {
      forall v | v in tables.mappings
        ensures !(tables.layout.mmioFirstPage + tables.mmioCursor <= v < tables.layout.mmioFirstPage + tables.layout.mmioNumPages)
      {
        if v !in m {
          OutsideWindowPages(tables.layout, virt, v);
        }
      }
    }
  }

  // ---------------------------------------------------------------------------
  // MMIO mapping
  // ---------------------------------------------------------------------------

  /** Recording another user of an existing mapping keeps the record backed by the table. */
  lemma RecordAgreesAfterDuplicate(
    m: map<PageIndex, PageEntry>, entries: seq<MappingRecordEntry>, i: nat, name: string)
    requires RecordAgrees(m, entries) && i < |entries|
    ensures RecordAgrees(m, entries + [MappingRecordEntry(name, entries[i].virt, entries[i].phys, entries[i].attr)])
  {
    var entries' := entries + [MappingRecordEntry(name, entries[i].virt, entries[i].phys, entries[i].attr)];
    forall j | 0 <= j < |entries'|
      ensures ValidSlice(entries'[j].virt) && ValidSlice(entries'[j].phys)
      ensures SliceMapped(m, entries'[j].virt, entries'[j].phys, entries'[j].attr)
    {
      if j < |entries| {
        assert entries'[j] == entries[j];
      }
    }
  }

  /** A page start plus an offset below the page size keeps that offset. */
  lemma AlignedPlusOffset(base: nat, offset: nat)
    requires base % KernelGranuleSize == 0 && offset < KernelGranuleSize
    ensures (base + offset) % KernelGranuleSize == offset
  {
  }

  /**
   * At a page start plus an in-page offset, a mapped slice translates to the
   * same offset past the physical start.
   */
  lemma MappedSliceTranslates(
    m: map<PageIndex, PageEntry>, virt: PageSlice<Virtual>, phys: PageSlice<Physical>,
    attr: AttributeFields, offset: nat, va: Address<Virtual>)
    requires ValidSlice(virt) && ValidSlice(phys) && SliceMapped(m, virt, phys, attr) && offset < KernelGranuleSize
    requires va.value == virt.start.value + offset
    ensures Translate(m, va) == Some(Address(phys.start.value + offset))
    ensures PageOf(va) in m && m[PageOf(va)].attr == attr
  {
    var page := PageOf(va);
    assert page == FirstPage(virt);
    assert InSlice(virt, page);
  }

  /**
   * At a page start plus an in-page offset, a freshly installed slice
   * translates to the same offset past the physical start.
   */
  lemma InstalledSliceTranslates(
    m0: map<PageIndex, PageEntry>, m1: map<PageIndex, PageEntry>, virt: PageSlice<Virtual>,
    phys: PageSlice<Physical>, attr: AttributeFields, offset: nat, va: Address<Virtual>)
    requires ValidSlice(virt) && ValidSlice(phys) && virt.numPages == phys.numPages && offset < KernelGranuleSize
    requires m1 == Install(m0, FirstPage(virt), FirstPage(phys), virt.numPages, attr)
    requires va.value == virt.start.value + offset
    ensures Translate(m1, va) == Some(Address(phys.start.value + offset))
    ensures PageOf(va) in m1 && m1[PageOf(va)].attr == attr
  {
    TranslateAfterInstall(m0, virt, phys, attr, va);
  }

  /**
   * The effect of mapping an MMIO window whose physical pages are already
   * recorded at `entries0[i]`: the recorded virtual pages are reused, the
   * table does not change and the new user is recorded if there is room.
   */
  ghost predicate DedupEffect(
    entries0: seq<MappingRecordEntry>, capacity: nat, i: nat, name: string, offset: nat,
    r: Result<Address<Virtual>, string>,
    m0: map<PageIndex, PageEntry>, cursor0: nat, m1: map<PageIndex, PageEntry>, cursor1: nat,
    entries1: seq<MappingRecordEntry>)
    requires i < |entries0|
  {
    var dup := entries0[i];
    r.Success? && r.value.value == dup.virt.start.value + offset
    && m1 == m0 && cursor1 == cursor0
    && entries1 == if |entries0| < capacity
                   then entries0 + [MappingRecordEntry(name, dup.virt, dup.phys, dup.attr)]
                   else entries0
  }

  /**
   * The effect of mapping the physical pages `phys` at fresh pages of the
   * MMIO window: when the window has too few pages left, an error and no
   * change; otherwise the cursor advances over the pages handed out and the
   * table verdict decides whether they are mapped (as device memory,
   * read-write, never executable) and recorded.
   */
  ghost predicate FreshEffect(
    l: TableLayout, initialized: bool, capacity: nat, name: string, phys: PageSlice<Physical>, offset: nat,
    r: Result<Address<Virtual>, string>,
    m0: map<PageIndex, PageEntry>, cursor0: nat, entries0: seq<MappingRecordEntry>,
    m1: map<PageIndex, PageEntry>, cursor1: nat, entries1: seq<MappingRecordEntry>)
    requires ValidLayout(l) && cursor0 <= l.mmioNumPages && ValidSlice(phys)
  {
    if cursor0 + phys.numPages > l.mmioNumPages then
      r == Failure("Not enough MMIO space left") && m1 == m0 && cursor1 == cursor0 && entries1 == entries0
    else
      var virt := FreshSlice(l, cursor0, phys.numPages);
      var check := MapCheck(l, initialized, m0, virt, phys);
      cursor1 == cursor0 + phys.numPages
      && (check.Fail? ==> r == Failure(check.error) && m1 == m0 && entries1 == entries0)
      && (check.Pass? ==>
            r.Success? && r.value.value == virt.start.value + offset
            && m1 == Install(m0, FirstPage(virt), FirstPage(phys), virt.numPages, MmioAttributes)
            && entries1 == if |entries0| < capacity
                           then entries0 + [MappingRecordEntry(name, virt, phys, MmioAttributes)]
                           else entries0)
  }

  /**
   * The effect of `KernelMapMmio` for the window `d`: the first recorded
   * mapping of exactly the window's pages is reused; without one, fresh
   * pages are mapped. Either way the result carries the offset of the
   * window's start within its page.
   */
  ghost predicate MapMmioEffect(
    l: TableLayout, initialized: bool, capacity: nat, name: string, d: MMIODescriptor,
    r: Result<Address<Virtual>, string>,
    m0: map<PageIndex, PageEntry>, cursor0: nat, entries0: seq<MappingRecordEntry>,
    m1: map<PageIndex, PageEntry>, cursor1: nat, entries1: seq<MappingRecordEntry>)
    requires ValidLayout(l) && cursor0 <= l.mmioNumPages && ValidMmio(d)
  {
    var offset := d.start.value % KernelGranuleSize;
    match FirstDeviceWithPhys(entries0, MmioPageSlice(d))
    case Some(i) => DedupEffect(entries0, capacity, i, name, offset, r, m0, cursor0, m1, cursor1, entries1)
    case None => FreshEffect(l, initialized, capacity, name, MmioPageSlice(d), offset, r,
                             m0, cursor0, entries0, m1, cursor1, entries1)
  }

  /** The virtual slice the fresh path hands out when the window has room. */
  function FreshSlice(l: TableLayout, cursor: nat, numPages: usize): (r: PageSlice<Virtual>)
    requires ValidLayout(l) && numPages > 0 && cursor + numPages <= l.mmioNumPages
    ensures ValidSlice(r) && r.numPages == numPages && FirstPage(r) == l.mmioFirstPage + cursor
    ensures forall v :: InSlice(r, v) ==> InMmioWindow(l, v)
  {
    PageSlice(Address((l.mmioFirstPage + cursor) * KernelGranuleSize), numPages)
  }

  /**
   * The next pages of the MMIO window are unmapped, the table accepts them
   * once initialised, and mapping them keeps the rest of the window unmapped
   * once the cursor has moved past them.
   */
  lemma WindowTailAfterFresh(
    l: TableLayout, m: map<PageIndex, PageEntry>, cursor: nat,
    virt: PageSlice<Virtual>, phys: PageSlice<Physical>, attr: AttributeFields)
    requires ValidLayout(l) && WindowTailUnmapped(l, m, cursor)
    requires ValidSlice(virt) && ValidSlice(phys) && virt.numPages == phys.numPages
    requires FirstPage(virt) == l.mmioFirstPage + cursor && cursor + virt.numPages <= l.mmioNumPages
    ensures forall v :: InSlice(virt, v) ==> v !in m
    ensures MapCheck(l, true, m, virt, phys).Pass?
    ensures WindowTailUnmapped(l, Install(m, FirstPage(virt), FirstPage(phys), virt.numPages, attr), cursor + virt.numPages)
  {
  }

  /**
   * Allocating the pages at the cursor, asking the table to map them and
   * recording them when it agrees has the effect `FreshEffect` describes.
   */
  lemma FreshEffectOfSteps(
    l: TableLayout, initialized: bool, capacity: nat, name: string, phys: PageSlice<Physical>, offset: nat,
    r: Result<Address<Virtual>, string>, virt: PageSlice<Virtual>,
    m0: map<PageIndex, PageEntry>, cursor0: nat, entries0: seq<MappingRecordEntry>,
    m1: map<PageIndex, PageEntry>, cursor1: nat, entries1: seq<MappingRecordEntry>)
    requires ValidLayout(l) && ValidSlice(phys) && ValidSlice(virt)
    requires cursor0 + phys.numPages <= l.mmioNumPages && cursor1 == cursor0 + phys.numPages
    requires virt == FreshSlice(l, cursor0, phys.numPages)
    requires MapCheck(l, initialized, m0, virt, phys).Fail? ==>
               r == Failure(MapCheck(l, initialized, m0, virt, phys).error) && m1 == m0 && entries1 == entries0
    requires MapCheck(l, initialized, m0, virt, phys).Pass? ==>
               r.Success? && r.value.value == virt.start.value + offset
               && m1 == Install(m0, FirstPage(virt), FirstPage(phys), phys.numPages, MmioAttributes)
               && entries1 == if |entries0| < capacity
                              then entries0 + [MappingRecordEntry(name, virt, phys, MmioAttributes)]
                              else entries0
    ensures FreshEffect(l, initialized, capacity, name, phys, offset, r, m0, cursor0, entries0, m1, cursor1, entries1)
  {
  }

  /**
   * The address returned by `KernelMapMmio` lies at the same offset within
   * its page as the window's start.
   */
  lemma MapMmioKeepsOffset(
    l: TableLayout, initialized: bool, capacity: nat, name: string, d: MMIODescriptor,
    r: Result<Address<Virtual>, string>,
    m0: map<PageIndex, PageEntry>, cursor0: nat, entries0: seq<MappingRecordEntry>,
    m1: map<PageIndex, PageEntry>, cursor1: nat, entries1: seq<MappingRecordEntry>)
    requires ValidLayout(l) && cursor0 <= l.mmioNumPages && ValidMmio(d)
    requires forall k :: 0 <= k < |entries0| ==> ValidSlice(entries0[k].virt)
    requires MapMmioEffect(l, initialized, capacity, name, d, r, m0, cursor0, entries0, m1, cursor1, entries1)
    requires r.Success?
    ensures r.value.value % KernelGranuleSize == d.start.value % KernelGranuleSize
  {
    var offset := d.start.value % KernelGranuleSize;
    match FirstDeviceWithPhys(entries0, MmioPageSlice(d))
    case Some(i) =>
      assert ValidSlice(entries0[i].virt);
      AlignedPlusOffset(entries0[i].virt.start.value, offset);
    case None =>
      if cursor0 + MmioPageSlice(d).numPages <= l.mmioNumPages {
        AlignedPlusOffset((l.mmioFirstPage + cursor0) * KernelGranuleSize, offset);
      }
  }

  /**
   * The address returned by `KernelMapMmio` translates back to the first byte
   * of the device's window: on the fresh path because its pages were just
   * installed, on the reuse path because the table backs the record.
   */
  lemma MapMmioTranslatesBack(
    l: TableLayout, initialized: bool, capacity: nat, name: string, d: MMIODescriptor,
    r: Result<Address<Virtual>, string>,
    m0: map<PageIndex, PageEntry>, cursor0: nat, entries0: seq<MappingRecordEntry>,
    m1: map<PageIndex, PageEntry>, cursor1: nat, entries1: seq<MappingRecordEntry>)
    requires ValidLayout(l) && cursor0 <= l.mmioNumPages && ValidMmio(d)
    requires MapMmioEffect(l, initialized, capacity, name, d, r, m0, cursor0, entries0, m1, cursor1, entries1)
    requires r.Success? && (RecordAgrees(m0, entries0) || FirstDeviceWithPhys(entries0, MmioPageSlice(d)).None?)
    ensures Translate(m1, r.value) == Some(d.start)
  {
    var phys := MmioPageSlice(d);
    var offset := d.start.value % KernelGranuleSize;
    match FirstDeviceWithPhys(entries0, phys)
    case Some(i) =>
      var dup := entries0[i];
      assert dup.phys == phys && ValidSlice(dup.virt);
      assert m1 == m0 && r.value.value == dup.virt.start.value + offset;
      MappedSliceTranslates(m0, dup.virt, dup.phys, dup.attr, offset, r.value);
      assert Translate(m1, r.value) == Some(Address(phys.start.value + offset));
      assert phys.start.value + offset == d.start.value;
    case None =>
      FreshEffectInstalled(l, initialized, capacity, name, phys, offset, r,
                           m0, cursor0, entries0, m1, cursor1, entries1);
      InstalledSliceTranslates(m0, m1, FreshSlice(l, cursor0, phys.numPages), phys, MmioAttributes, offset, r.value);
      assert phys.start.value + offset == d.start.value;
  }

  /**
   * The page behind the address `KernelMapMmio` returns is device memory: on
   * the fresh path it carries exactly the MMIO attributes, on the reuse path
   * it belongs to a recorded device mapping.
   */
  lemma MapMmioIsDeviceMemory(
    l: TableLayout, initialized: bool, capacity: nat, name: string, d: MMIODescriptor,
    r: Result<Address<Virtual>, string>,
    m0: map<PageIndex, PageEntry>, cursor0: nat, entries0: seq<MappingRecordEntry>,
    m1: map<PageIndex, PageEntry>, cursor1: nat, entries1: seq<MappingRecordEntry>)
    requires ValidLayout(l) && cursor0 <= l.mmioNumPages && ValidMmio(d)
    requires MapMmioEffect(l, initialized, capacity, name, d, r, m0, cursor0, entries0, m1, cursor1, entries1)
    requires r.Success? && (RecordAgrees(m0, entries0) || FirstDeviceWithPhys(entries0, MmioPageSlice(d)).None?)
    ensures PageOf(r.value) in m1 && m1[PageOf(r.value)].attr.memAttributes == Device
    ensures FirstDeviceWithPhys(entries0, MmioPageSlice(d)).None? ==> m1[PageOf(r.value)].attr == MmioAttributes
  {
    var phys := MmioPageSlice(d);
    var offset := d.start.value % KernelGranuleSize;
    match FirstDeviceWithPhys(entries0, phys)
    case Some(i) =>
      var dup := entries0[i];
      assert IsDeviceMappingOf(dup, phys) && ValidSlice(dup.virt);
      assert m1 == m0 && r.value.value == dup.virt.start.value + offset;
      MappedSliceTranslates(m0, dup.virt, dup.phys, dup.attr, offset, r.value);
    case None =>
      FreshEffectInstalled(l, initialized, capacity, name, phys, offset, r,
                           m0, cursor0, entries0, m1, cursor1, entries1);
      InstalledSliceTranslates(m0, m1, FreshSlice(l, cursor0, phys.numPages), phys, MmioAttributes, offset, r.value);
  }

  /**
   * A success on the fresh path means the window had room and the table
   * installed the physical pages at the fresh slice, whose start plus the
   * offset is the returned address.
   */
  lemma FreshEffectInstalled(
    l: TableLayout, initialized: bool, capacity: nat, name: string, phys: PageSlice<Physical>, offset: nat,
    r: Result<Address<Virtual>, string>,
    m0: map<PageIndex, PageEntry>, cursor0: nat, entries0: seq<MappingRecordEntry>,
    m1: map<PageIndex, PageEntry>, cursor1: nat, entries1: seq<MappingRecordEntry>)
    requires ValidLayout(l) && cursor0 <= l.mmioNumPages && ValidSlice(phys)
    requires FreshEffect(l, initialized, capacity, name, phys, offset, r, m0, cursor0, entries0, m1, cursor1, entries1)
    requires r.Success?
    ensures cursor0 + phys.numPages <= l.mmioNumPages
    ensures var virt := FreshSlice(l, cursor0, phys.numPages);
            MapCheck(l, initialized, m0, virt, phys).Pass?
            && r.value.value == virt.start.value + offset
            && m1 == Install(m0, FirstPage(virt), FirstPage(phys), virt.numPages, MmioAttributes)
  {
    assert cursor0 + phys.numPages <= l.mmioNumPages;
    var virt := FreshSlice(l, cursor0, phys.numPages);
    assert MapCheck(l, initialized, m0, virt, phys).Pass?;
  }

  /** The fresh path keeps the invariant: its pages come from the unused tail of the window. */
  lemma FreshEffectKeepsInvariant(
    l: TableLayout, initialized: bool, capacity: nat, name: string, phys: PageSlice<Physical>, offset: nat,
    r: Result<Address<Virtual>, string>,
    m0: map<PageIndex, PageEntry>, cursor0: nat, entries0: seq<MappingRecordEntry>,
    m1: map<PageIndex, PageEntry>, cursor1: nat, entries1: seq<MappingRecordEntry>)
    requires ValidLayout(l) && cursor0 <= l.mmioNumPages && ValidSlice(phys)
    requires WindowTailUnmapped(l, m0, cursor0) && RecordAgrees(m0, entries0)
    requires FreshEffect(l, initialized, capacity, name, phys, offset, r, m0, cursor0, entries0, m1, cursor1, entries1)
    ensures WindowTailUnmapped(l, m1, cursor1) && RecordAgrees(m1, entries1)
  {
    if cursor0 + phys.numPages <= l.mmioNumPages {
      var virt := FreshSlice(l, cursor0, phys.numPages);
      WindowTailAfterFresh(l, m0, cursor0, virt, phys, MmioAttributes);
      if MapCheck(l, initialized, m0, virt, phys).Pass? {
        RecordAgreesAfterMap(m0, entries0, name, virt, phys, MmioAttributes);
        assert m1 == Install(m0, FirstPage(virt), FirstPage(phys), virt.numPages, MmioAttributes);
        assert entries1 == entries0 || entries1 == entries0 + [MappingRecordEntry(name, virt, phys, MmioAttributes)];
      } else {
        assert m1 == m0 && entries1 == entries0;
      }
    }
  }

  /**
   * `KernelMapMmio` keeps the invariant: fresh pages come from the unused
   * tail of the window, and a reused mapping is already in the table.
   */
  lemma MapMmioKeepsInvariant(
    l: TableLayout, initialized: bool, capacity: nat, name: string, d: MMIODescriptor,
    r: Result<Address<Virtual>, string>,
    m0: map<PageIndex, PageEntry>, cursor0: nat, entries0: seq<MappingRecordEntry>,
    m1: map<PageIndex, PageEntry>, cursor1: nat, entries1: seq<MappingRecordEntry>)
    requires ValidLayout(l) && cursor0 <= l.mmioNumPages && ValidMmio(d)
    requires WindowTailUnmapped(l, m0, cursor0) && RecordAgrees(m0, entries0)
    requires MapMmioEffect(l, initialized, capacity, name, d, r, m0, cursor0, entries0, m1, cursor1, entries1)
    ensures WindowTailUnmapped(l, m1, cursor1) && RecordAgrees(m1, entries1)
  {
    match FirstDeviceWithPhys(entries0, MmioPageSlice(d))
    case Some(i) =>
      RecordAgreesAfterDuplicate(m0, entries0, i, name);
    case None =>
      FreshEffectKeepsInvariant(l, initialized, capacity, name, MmioPageSlice(d), d.start.value % KernelGranuleSize,
                                r, m0, cursor0, entries0, m1, cursor1, entries1);
  }

  /**
   * Under the invariant, a window not mapped before is mapped whenever the
   * table is initialised and the MMIO window has room for its pages.
   */
  lemma MapMmioSucceedsWithRoom(
    l: TableLayout, capacity: nat, name: string, d: MMIODescriptor,
    r: Result<Address<Virtual>, string>,
    m0: map<PageIndex, PageEntry>, cursor0: nat, entries0: seq<MappingRecordEntry>,
    m1: map<PageIndex, PageEntry>, cursor1: nat, entries1: seq<MappingRecordEntry>)
    requires ValidLayout(l) && cursor0 <= l.mmioNumPages && ValidMmio(d)
    requires WindowTailUnmapped(l, m0, cursor0)
    requires MapMmioEffect(l, true, capacity, name, d, r, m0, cursor0, entries0, m1, cursor1, entries1)
    requires FirstDeviceWithPhys(entries0, MmioPageSlice(d)).None?
    requires cursor0 + MmioPageSlice(d).numPages <= l.mmioNumPages
    ensures r.Success? && cursor1 == cursor0 + MmioPageSlice(d).numPages
  {
    var phys := MmioPageSlice(d);
    WindowTailAfterFresh(l, m0, cursor0, FreshSlice(l, cursor0, phys.numPages), phys, MmioAttributes);
  }

  /**
   * The fresh path of `KernelMapMmio`: allocates the next pages of the MMIO
   * window for `phys`, maps them and returns their start plus `offset`. An
   * allocation failure is returned before anything is mapped.
   */
  method MapFreshMmio(
    tables: KernelTranslationTable, record: KernelMappingRecord, name: string, phys: PageSlice<Physical>,
    offset: nat)
    returns (r: Result<Address<Virtual>, string>)
    requires tables.Valid() && record.Valid() && ValidSlice(phys) && offset < KernelGranuleSize
    modifies tables, record
    ensures tables.Valid() && record.Valid()
    ensures tables.initialized == old(tables.initialized)
    ensures FreshEffect(tables.layout, old(tables.initialized), record.capacity, name, phys, offset, r,
                        old(tables.mappings), old(tables.mmioCursor), old(record.entries),
                        tables.mappings, tables.mmioCursor, record.entries)
  {
    ghost var l, initialized := tables.layout, tables.initialized;
    ghost var m, cursor, entries := tables.mappings, tables.mmioCursor, record.entries;
    var next := tables.NextMmioVirtPageSlice(phys.numPages);
    if next.Failure? {
      return Failure(next.error);
    }
    var virtPages := next.value;
    assert virtPages == FreshSlice(l, cursor, phys.numPages);
    var mapped := KernelMapPagesAtUnchecked(tables, record, name, virtPages, phys, MmioAttributes);
    if mapped.Fail? {
      r := Failure(mapped.error);
    } else {
      r := Success(Address(virtPages.start.value + offset));
    }
    FreshEffectOfSteps(l, initialized, record.capacity, name, phys, offset, r, virtPages,
                       m, cursor, entries, tables.mappings, tables.mmioCursor, record.entries);
  }

  /**
   * Maps a device's register window for the driver `name` and returns the
   * virtual address of the window's first byte. When the record already holds
   * a mapping of exactly the same physical pages, its virtual pages are
   * reused and the table is left alone; otherwise fresh pages of the MMIO
   * window are allocated and mapped.
   */
  method KernelMapMmio(
    tables: KernelTranslationTable, record: KernelMappingRecord, name: string, d: MMIODescriptor)
    returns (r: Result<Address<Virtual>, string>)
    requires tables.Valid() && record.Valid() && ValidMmio(d)
    modifies tables, record
    ensures tables.Valid() && record.Valid()
    ensures tables.initialized == old(tables.initialized)
    ensures MapMmioEffect(tables.layout, old(tables.initialized), record.capacity, name, d, r,
                          old(tables.mappings), old(tables.mmioCursor), old(record.entries),
                          tables.mappings, tables.mmioCursor, record.entries)
    ensures old(KernelInvariant(tables, record)) ==> KernelInvariant(tables, record)
  {
    var physPages := MmioPageSlice(d);
    var offsetIntoStartPage := BitAnd(d.start.value, KernelGranule.MASK);
    KernelPageOffset(d.start.value);
    ghost var wasInvariant := KernelInvariant(tables, record);
    ghost var l, initialized := tables.layout, tables.initialized;
    ghost var m, cursor, entries := tables.mappings, tables.mmioCursor, record.entries;

    var dup := record.FindAndInsertMmioDuplicate(d, name);
    if dup.Some? {
      assert ValidSlice(entries[FirstDeviceWithPhys(entries, physPages).value].virt);
      r := Success(Address(dup.value.value + offsetIntoStartPage));
    } else {
      r := MapFreshMmio(tables, record, name, physPages, offsetIntoStartPage);
    }
    if wasInvariant {
      MapMmioKeepsInvariant(l, initialized, record.capacity, name, d, r,
                            m, cursor, entries, tables.mappings, tables.mmioCursor, record.entries);
    }
  }

  // ---------------------------------------------------------------------------
  // Kernel binary, enabling and translation
  // ---------------------------------------------------------------------------

  /** One region of the kernel image, as the board layer lays it out. */
  datatype BinarySegment = BinarySegment(
    name: string, virt: PageSlice<Virtual>, phys: PageSlice<Physical>, attr: AttributeFields)

  /** Every segment's page slices are well formed. */
  predicate ValidSegments(segments: seq<BinarySegment>)
  {
    forall i :: 0 <= i < |segments| ==> ValidSlice(segments[i].virt) && ValidSlice(segments[i].phys)
  }

  /** Where mapping the kernel image got to: how it ended, the page map and the record. */
  datatype BinaryRun = BinaryRun(
    outcome: Outcome<string>, mappings: map<PageIndex, PageEntry>, entries: seq<MappingRecordEntry>)

  /**
   * One segment mapped through `KernelMapPagesAt` on an initialised table, as
   * a value: refused when it touches the MMIO window, otherwise the table
   * verdict, and on success the pages installed and recorded if there is room.
   */
  function MapSegment(
    l: TableLayout, capacity: nat, s: BinarySegment, m: map<PageIndex, PageEntry>, entries: seq<MappingRecordEntry>)
    : (r: BinaryRun)
    requires ValidSlice(s.virt) && ValidSlice(s.phys)
    ensures r.outcome.Fail? ==> r.mappings == m && r.entries == entries
    ensures r.outcome.Fail? ==> r.outcome.error == ManualMmioMapError || r.outcome.error in TableMapErrors
    ensures r.outcome.Pass? <==> !SliceIntersectsWindow(l, s.virt) && MapCheck(l, true, m, s.virt, s.phys).Pass?
  {
    if SliceIntersectsWindow(l, s.virt) then
      BinaryRun(Fail(ManualMmioMapError), m, entries)
    else
      var check := MapCheck(l, true, m, s.virt, s.phys);
      if check.Fail? then
        BinaryRun(check, m, entries)
      else
        BinaryRun(Pass, Install(m, FirstPage(s.virt), FirstPage(s.phys), s.virt.numPages, s.attr),
                  if |entries| < capacity then entries + [MappingRecordEntry(s.name, s.virt, s.phys, s.attr)]
                  else entries)
  }

  /** The segments mapped in order, stopping at the first one that fails. */
  function MapSegments(
    l: TableLayout, capacity: nat, segments: seq<BinarySegment>,
    m: map<PageIndex, PageEntry>, entries: seq<MappingRecordEntry>)
    : (r: BinaryRun)
    requires ValidSegments(segments)
    ensures r.outcome.Fail? ==> r.outcome.error == ManualMmioMapError || r.outcome.error in TableMapErrors
    decreases |segments|
  {
    if segments == [] then
      BinaryRun(Pass, m, entries)
    else
      var prev := MapSegments(l, capacity, segments[..|segments| - 1], m, entries);
      if prev.outcome.Fail? then prev
      else MapSegment(l, capacity, segments[|segments| - 1], prev.mappings, prev.entries)
  }

  /** Mapping one more segment after an accepted prefix maps that segment on the prefix's result. */
  lemma MapSegmentsStep(
    l: TableLayout, capacity: nat, segments: seq<BinarySegment>,
    m0: map<PageIndex, PageEntry>, entries0: seq<MappingRecordEntry>, i: nat,
    m: map<PageIndex, PageEntry>, entries: seq<MappingRecordEntry>)
    requires ValidSegments(segments) && i < |segments|
    requires MapSegments(l, capacity, segments[..i], m0, entries0) == BinaryRun(Pass, m, entries)
    ensures MapSegments(l, capacity, segments[..i + 1], m0, entries0) == MapSegment(l, capacity, segments[i], m, entries)
  {
    assert segments[..i + 1][..i] == segments[..i];
  }

  /** Once a segment has failed, the segments after it change nothing. */
  lemma {:induction false} MapSegmentsFailureSticks(
    l: TableLayout, capacity: nat, segments: seq<BinarySegment>,
    m: map<PageIndex, PageEntry>, entries: seq<MappingRecordEntry>, i: nat)
    requires ValidSegments(segments) && i <= |segments|
    requires MapSegments(l, capacity, segments[..i], m, entries).outcome.Fail?
    ensures MapSegments(l, capacity, segments, m, entries) == MapSegments(l, capacity, segments[..i], m, entries)
    decreases |segments|
  {
    if i == |segments| {
      assert segments[..i] == segments;
    } else {
      var init := segments[..|segments| - 1];
      assert init[..i] == segments[..i];
      MapSegmentsFailureSticks(l, capacity, init, m, entries, i);
    }
  }

  /** When every segment is accepted, every segment ends up mapped. */
  lemma {:induction false} MapSegmentsMapsAll(
    l: TableLayout, capacity: nat, segments: seq<BinarySegment>,
    m: map<PageIndex, PageEntry>, entries: seq<MappingRecordEntry>)
    requires ValidSegments(segments)
    requires MapSegments(l, capacity, segments, m, entries).outcome.Pass?
    ensures forall i :: 0 <= i < |segments| ==>
              SliceMapped(MapSegments(l, capacity, segments, m, entries).mappings,
                          segments[i].virt, segments[i].phys, segments[i].attr)
    decreases |segments|
  {
    if segments != [] {
      var n := |segments| - 1;
      var init := segments[..n];
      var prev := MapSegments(l, capacity, init, m, entries);
      MapSegmentsMapsAll(l, capacity, init, m, entries);
      var s := segments[n];
      var final := MapSegments(l, capacity, segments, m, entries);
      assert final.mappings == Install(prev.mappings, FirstPage(s.virt), FirstPage(s.phys), s.virt.numPages, s.attr);
      forall i | 0 <= i < |segments|
        ensures SliceMapped(final.mappings, segments[i].virt, segments[i].phys, segments[i].attr)
      {
        if i < n {
          assert init[i] == segments[i];
          InstallKeepsSliceMapped(prev.mappings, s.virt, s.phys, s.attr,
                                  segments[i].virt, segments[i].phys, segments[i].attr);
        } else {
          InstallMapsSlice(prev.mappings, s.virt, s.phys, s.attr);
        }
      }
    }
  }

  /** A segment that was mapped once cannot be mapped again: its pages are taken. */
  lemma RepeatedSegmentRefused(
    l: TableLayout, capacity: nat, s: BinarySegment, m: map<PageIndex, PageEntry>, entries: seq<MappingRecordEntry>)
    requires ValidSlice(s.virt) && ValidSlice(s.phys)
    requires MapSegments(l, capacity, [s], m, entries).outcome.Pass?
    ensures MapSegments(l, capacity, [s, s], m, entries).outcome == Fail("Virtual page is already mapped")
  {
    assert [s][..0] == [];
    assert [s, s][..1] == [s];
    var once := MapSegment(l, capacity, s, m, entries);
    assert once.mappings == Install(m, FirstPage(s.virt), FirstPage(s.phys), s.virt.numPages, s.attr);
    assert InSlice(s.virt, FirstPage(s.virt)) && FirstPage(s.virt) in once.mappings;
    assert AnyPageMapped(once.mappings, s.virt);
  }

  /**
   * Initialises the table, takes its physical base address and then has the
   * board layer map the kernel image, one segment after another through
   * `KernelMapPagesAt`. The first segment that fails stops the mapping and
   * its error is returned; otherwise the table's physical base is.
   */
  method KernelMapBinary(
    tables: KernelTranslationTable, record: KernelMappingRecord, segments: seq<BinarySegment>)
    returns (r: Result<Address<Physical>, string>)
    requires tables.Valid() && record.Valid() && ValidSegments(segments)
    modifies tables, record
    ensures tables.Valid() && record.Valid() && tables.initialized
    ensures tables.mmioCursor == old(tables.mmioCursor)
    ensures var run := MapSegments(tables.layout, record.capacity, segments, old(tables.mappings), old(record.entries));
            r == (if run.outcome.Pass? then Success(tables.layout.physBaseAddr) else Failure(run.outcome.error))
            && tables.mappings == run.mappings && record.entries == run.entries
    ensures r.Success? ==> forall i :: 0 <= i < |segments| ==>
              SliceMapped(tables.mappings, segments[i].virt, segments[i].phys, segments[i].attr)
    ensures old(KernelInvariant(tables, record)) ==> KernelInvariant(tables, record)
  {
    tables.Init();
    var physKernelTablesBaseAddr := tables.layout.physBaseAddr;
    ghost var m0, entries0 := tables.mappings, record.entries;
    var i := 0;
    assert segments[..0] == [];
    while i < |segments|
      invariant 0 <= i <= |segments|
      invariant tables.Valid() && record.Valid() && tables.initialized
      invariant tables.mmioCursor == old(tables.mmioCursor)
      invariant MapSegments(tables.layout, record.capacity, segments[..i], m0, entries0)
                == BinaryRun(Pass, tables.mappings, record.entries)
      invariant old(KernelInvariant(tables, record)) ==> KernelInvariant(tables, record)
    {
      var segment := segments[i];
      ghost var m, entries := tables.mappings, record.entries;
      var mapped := KernelMapPagesAt(tables, record, segment.name, segment.virt, segment.phys, segment.attr);
      MapSegmentsStep(tables.layout, record.capacity, segments, m0, entries0, i, m, entries);
      assert MapSegment(tables.layout, record.capacity, segment, m, entries)
             == BinaryRun(mapped, tables.mappings, record.entries);
      if mapped.Fail? {
        MapSegmentsFailureSticks(tables.layout, record.capacity, segments, m0, entries0, i + 1);
        return Failure(mapped.error);
      }
      i := i + 1;
    }
    assert segments[..i] == segments;
    MapSegmentsMapsAll(tables.layout, record.capacity, segments, m0, entries0);
    r := Success(physKernelTablesBaseAddr);
  }

  /** Switches the MMU and caching on, once. */
  method EnableMmuAndCaching(mmu: MemoryManagementUnit, physTablesBaseAddr: Address<Physical>)
    returns (r: Outcome<MMUEnableError>)
    modifies mmu
    ensures old(mmu.enabled) ==> r == Fail(AlreadyEnabled)
    ensures !old(mmu.enabled) && !mmu.granuleSupported ==> r == Fail(Other(GranuleUnsupported))
    ensures r.Pass? <==> !old(mmu.enabled) && mmu.granuleSupported
    ensures mmu.enabled == (old(mmu.enabled) || r.Pass?)
    ensures mmu.tablesBaseAddr == if r.Pass? then physTablesBaseAddr else old(mmu.tablesBaseAddr)
  {
    r := mmu.EnableMmuAndCaching(physTablesBaseAddr);
  }

  /** Translates a virtual address through the MMU. */
  method TryVirtToPhys(mmu: MemoryManagementUnit, tables: KernelTranslationTable, virt: Address<Virtual>)
    returns (r: Result<Address<Physical>, TranslationError>)
    ensures r == Failure(MMUDisabled) <==> !mmu.enabled
    ensures r == Failure(Aborted) <==> mmu.enabled && PageOf(virt) !in tables.mappings
    ensures r.Success? <==> mmu.enabled && PageOf(virt) in tables.mappings
    ensures r.Success? ==> Some(r.value) == Translate(tables.mappings, virt)
  {
    r := mmu.TryVirtToPhys(tables, virt);
  }
}
