/**
 * The mapping record: a bounded, insertion-ordered log of every mapping the
 * kernel created, searched by physical slice to deduplicate MMIO mappings.
 */
module MappingRecord {
  import opened Wrappers
  import opened Types

  /** One mapping: who asked for it, its virtual and physical pages, its attributes. */
  datatype MappingRecordEntry = MappingRecordEntry(
    name: string,
    virt: PageSlice<Virtual>,
    phys: PageSlice<Physical>,
    attr: AttributeFields)

  /**
   * Whether an entry is a device-memory mapping of exactly the pages `phys`.
   * Only such entries are shared between MMIO users: the same pages mapped as
   * normal memory are never handed to a driver.
   */
  predicate IsDeviceMappingOf(e: MappingRecordEntry, phys: PageSlice<Physical>)
  {
    e.phys == phys && e.attr.memAttributes == Device
  }

  /**
   * The index of the first device-memory entry whose physical slice is
   * exactly `phys`, or None when there is none.
   */
  function FirstDeviceWithPhys(entries: seq<MappingRecordEntry>, phys: PageSlice<Physical>): (r: Option<nat>)
    ensures r.Some? ==> r.value < |entries| && IsDeviceMappingOf(entries[r.value], phys)
    ensures r.Some? ==> forall j :: 0 <= j < r.value ==> !IsDeviceMappingOf(entries[j], phys)
    ensures r.None? <==> forall j :: 0 <= j < |entries| ==> !IsDeviceMappingOf(entries[j], phys)
  {
    if entries == [] then None
    else if IsDeviceMappingOf(entries[0], phys) then Some(0)
    else
      match FirstDeviceWithPhys(entries[1..], phys)
      case None => None
      case Some(i) => Some(i + 1)
  }

  /** Appending an entry does not change the first match found before it. */
  lemma {:induction false} FirstDeviceWithPhysAppend(
    entries: seq<MappingRecordEntry>, e: MappingRecordEntry, phys: PageSlice<Physical>)
    requires FirstDeviceWithPhys(entries, phys).Some?
    ensures FirstDeviceWithPhys(entries + [e], phys) == FirstDeviceWithPhys(entries, phys)
  {
    var longer := entries + [e];
    assert longer[0] == entries[0];
    if !IsDeviceMappingOf(entries[0], phys) {
      assert longer[1..] == entries[1..] + [e];
      FirstDeviceWithPhysAppend(entries[1..], e, phys);
    }
  }

  /** The kernel's mapping record. */
  class KernelMappingRecord {
    /** How many entries the backing store holds. */
    const capacity: nat
    var entries: seq<MappingRecordEntry>

    ghost predicate Valid()
      reads this
    {
      |entries| <= capacity
      && forall i :: 0 <= i < |entries| ==> ValidSlice(entries[i].virt) && ValidSlice(entries[i].phys)
    }

    constructor (capacity: nat)
      ensures Valid() && this.capacity == capacity && entries == []
    {
      this.capacity := capacity;
      entries := [];
    }

    /** Appends an entry, or fails when the backing store is full. */
    method Add(name: string, virt: PageSlice<Virtual>, phys: PageSlice<Physical>, attr: AttributeFields)
      returns (r: Outcome<string>)
      requires Valid() && ValidSlice(virt) && ValidSlice(phys)
      modifies this
      ensures Valid()
      ensures r.Pass? <==> |old(entries)| < capacity
      ensures r.Fail? ==> r.error == "Storage for mapping info exhausted"
      ensures entries == if r.Pass? then old(entries) + [MappingRecordEntry(name, virt, phys, attr)]
                         else old(entries)
    {
      if |entries| >= capacity {
        return Fail("Storage for mapping info exhausted");
      }
      entries := entries + [MappingRecordEntry(name, virt, phys, attr)];
      r := Pass;
    }

    /** Scans the entries in order for a device mapping of exactly the pages `phys`. */
    method FindDuplicate(phys: PageSlice<Physical>) returns (r: Option<nat>)
      ensures r == FirstDeviceWithPhys(entries, phys)
    {
      var i := 0;
      while i < |entries|
        invariant 0 <= i <= |entries|
        invariant forall j :: 0 <= j < i ==> !IsDeviceMappingOf(entries[j], phys)
      {
        if IsDeviceMappingOf(entries[i], phys) {
          return Some(i);
        }
        i := i + 1;
      }
      r := None;
    }

    /**
     * If some device-memory entry already maps exactly the pages of `d`, records `newName`
     * as another user of that virtual slice (when there is room) and returns
     * the slice's virtual start; otherwise changes nothing.
     */
    method FindAndInsertMmioDuplicate(d: MMIODescriptor, newName: string) returns (r: Option<Address<Virtual>>)
      requires Valid() && ValidMmio(d)
      modifies this
      ensures Valid()
      ensures FirstDeviceWithPhys(old(entries), MmioPageSlice(d)).None? ==> r.None? && entries == old(entries)
      ensures FirstDeviceWithPhys(old(entries), MmioPageSlice(d)).Some? ==>
                var dup := old(entries)[FirstDeviceWithPhys(old(entries), MmioPageSlice(d)).value];
                r == Some(dup.virt.start)
                && entries == if |old(entries)| < capacity
                              then old(entries) + [MappingRecordEntry(newName, dup.virt, dup.phys, dup.attr)]
                              else old(entries)
    {
      var physPages := MmioPageSlice(d);
      var found := FindDuplicate(physPages);
      if found.None? {
        return None;
      }
      var dup := entries[found.value];
      var added := Add(newName, dup.virt, dup.phys, dup.attr);
      if added.Fail? {
        // The extra user is not recorded; a warning is all that follows.
      }
      r := Some(dup.virt.start);
    }
  }
}
