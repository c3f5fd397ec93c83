/**
 * The MMU driver as the façade relies on it: translation is switched on at
 * most once, and once on, a virtual address translates by walking the
 * kernel's translation table.
 */
module ArchMmu {
  import opened Wrappers
  import opened MmuInterface
  import opened Types
  import opened TranslationTable

  /** The message of the `Other` error the driver reports for an unsupported granule. */
  const GranuleUnsupported: string := "Translation granule not supported in HW"

  /** The processor's memory management unit. */
  class MemoryManagementUnit {
    /** Whether the hardware supports the kernel's translation granule. */
    const granuleSupported: bool
    var enabled: bool
    /** The physical table base the MMU was programmed with. */
    var tablesBaseAddr: Address<Physical>

    constructor (granuleSupported: bool)
      ensures this.granuleSupported == granuleSupported && !enabled
    {
      this.granuleSupported := granuleSupported;
      enabled := false;
      tablesBaseAddr := Address(0);
    }

    /** Whether translation is switched on. */
    predicate IsEnabled()
      reads this
    {
      enabled
    }

    /**
     * Switches translation and caching on with the table at
     * `physTablesBaseAddr`. A second call fails before touching anything.
     */
    method EnableMmuAndCaching(physTablesBaseAddr: Address<Physical>) returns (r: Outcome<MMUEnableError>)
      modifies this
      ensures old(enabled) ==> r == Fail(AlreadyEnabled)
      ensures !old(enabled) && !granuleSupported ==> r == Fail(Other(GranuleUnsupported))
      ensures r.Pass? <==> !old(enabled) && granuleSupported
      ensures enabled == (old(enabled) || r.Pass?)
      ensures tablesBaseAddr == if r.Pass? then physTablesBaseAddr else old(tablesBaseAddr)
    {
      if enabled {
        return Fail(AlreadyEnabled);
      }
      if !granuleSupported {
        return Fail(Other(GranuleUnsupported));
      }
      tablesBaseAddr := physTablesBaseAddr;
      enabled := true;
      r := Pass;
    }

    /**
     * Translates `virt` by a walk of the table: fails with MMUDisabled while
     * translation is off and with Aborted when the address's page is not
     * mapped; otherwise the physical page plus the offset within the page.
     */
    method TryVirtToPhys(tables: KernelTranslationTable, virt: Address<Virtual>)
      returns (r: Result<Address<Physical>, TranslationError>)
      ensures r == Failure(MMUDisabled) <==> !enabled
      ensures r == Failure(Aborted) <==> enabled && PageOf(virt) !in tables.mappings
      ensures r.Success? <==> enabled && PageOf(virt) in tables.mappings
      ensures r.Success? ==> Some(r.value) == Translate(tables.mappings, virt)
    {
      if !enabled {
        return Failure(MMUDisabled);
      }
      var walked := Translate(tables.mappings, virt);
      if walked.None? {
        return Failure(Aborted);
      }
      r := Success(walked.value);
    }
  }
}
