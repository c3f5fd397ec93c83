/**
 * The kernel's translation table as the MMU façade sees it: a partial map
 * from virtual page to physical page and attributes, a reserved MMIO window
 * of virtual pages handed out by a cursor that only advances, and the
 * physical base address of the table.
 */
module TranslationTable {
  import opened Bits
  import opened Wrappers
  import opened MmuInterface
  import opened Types

  /** What a virtual page is mapped to. */
  datatype PageEntry = PageEntry(physPage: PageIndex, attr: AttributeFields)

  /**
   * The fixed geometry of the table: how many virtual pages it covers, where
   * its reserved MMIO window lies (in pages) and where the table itself lives
   * in physical memory.
   */
  datatype TableLayout = TableLayout(
    numPages: nat,
    mmioFirstPage: nat,
    mmioNumPages: nat,
    physBaseAddr: Address<Physical>)

  /** The MMIO window lies inside the table, and the table inside `usize`. */
  predicate ValidLayout(l: TableLayout)
  {
    l.mmioFirstPage + l.mmioNumPages <= l.numPages <= PageLimit
  }

  /** Whether a virtual page number lies in the MMIO window. */
  predicate InMmioWindow(l: TableLayout, page: nat)
  {
    l.mmioFirstPage <= page < l.mmioFirstPage + l.mmioNumPages
  }

  /** Whether page number v is one of the slice's pages. */
  predicate InSlice<K>(s: PageSlice<K>, v: nat)
    requires ValidSlice(s)
  {
    FirstPage(s) <= v < FirstPage(s) + s.numPages
  }

  /** Whether a virtual slice shares at least one page with the MMIO window. */
  predicate SliceIntersectsWindow(l: TableLayout, virt: PageSlice<Virtual>)
    requires ValidSlice(virt)
  {
    l.mmioNumPages > 0
    && FirstPage(virt) < l.mmioFirstPage + l.mmioNumPages
    && l.mmioFirstPage < FirstPage(virt) + virt.numPages
  }

  /** The interval test agrees with asking every page of the slice. */
  lemma SliceIntersectsWindowIff(l: TableLayout, virt: PageSlice<Virtual>)
    requires ValidSlice(virt)
    ensures SliceIntersectsWindow(l, virt)
            <==> exists v :: InSlice(virt, v) && InMmioWindow(l, v)
  {
    var first := FirstPage(virt);
    if SliceIntersectsWindow(l, virt) {
      var v := if first < l.mmioFirstPage then l.mmioFirstPage else first;
      assert InSlice(virt, v) && InMmioWindow(l, v);
    }
  }

  /**
   * The map after pairing virtual pages virtFirst .. virtFirst + n - 1 with
   * physical pages physFirst .. physFirst + n - 1, in order.
   */
  function Install(
    m: map<PageIndex, PageEntry>, virtFirst: PageIndex, physFirst: PageIndex, n: nat, attr: AttributeFields
  ): (r: map<PageIndex, PageEntry>)
    requires virtFirst + n <= PageLimit && physFirst + n <= PageLimit
    ensures forall v :: v in r <==> v in m || virtFirst <= v < virtFirst + n
    ensures forall v :: v in m && !(virtFirst <= v < virtFirst + n) ==> r[v] == m[v]
    ensures forall v :: virtFirst <= v < virtFirst + n ==> r[v] == PageEntry(physFirst + (v - virtFirst), attr)
  {
    if n == 0 then m
    else Install(m, virtFirst, physFirst, n - 1, attr)[virtFirst + n - 1 := PageEntry(physFirst + n - 1, attr)]
  }

  /** Whether any page of the slice is already mapped. */
  predicate AnyPageMapped(m: map<PageIndex, PageEntry>, virt: PageSlice<Virtual>)
    requires ValidSlice(virt)
  {
    exists v :: InSlice(virt, v) && v in m
  }

  /** The errors `map_pages_at` reports on an initialised table. */
  const TableMapErrors: set<string> := {
    "Tried to map page slices with unequal sizes",
    "Tried to map outside of the translation table",
    "Virtual page is already mapped"
  }

  /**
   * The verdict of `map_pages_at` on the table's state: the table must be
   * initialised, the slices must have equal length, the virtual slice must
   * lie in the table and none of its pages may be mapped yet.
   */
  function MapCheck(
    l: TableLayout, initialized: bool, m: map<PageIndex, PageEntry>,
    virt: PageSlice<Virtual>, phys: PageSlice<Physical>
  ): (r: Outcome<string>)
    requires ValidSlice(virt) && ValidSlice(phys)
    ensures r.Pass? <==> initialized && virt.numPages == phys.numPages
                         && FirstPage(virt) + virt.numPages <= l.numPages
                         && forall v :: InSlice(virt, v) ==> v !in m
    ensures !initialized ==> r == Fail("Translation tables not initialized")
    ensures initialized && r.Fail? ==> r.error in TableMapErrors
  {
    if !initialized then Fail("Translation tables not initialized")
    else if virt.numPages != phys.numPages then Fail("Tried to map page slices with unequal sizes")
    else if FirstPage(virt) + virt.numPages > l.numPages then Fail("Tried to map outside of the translation table")
    else if AnyPageMapped(m, virt) then Fail("Virtual page is already mapped")
    else Pass
  }

  /** Where the table sends a virtual address, if its page is mapped. */
  function Translate(m: map<PageIndex, PageEntry>, va: Address<Virtual>): (r: Option<Address<Physical>>)
    ensures r.Some? <==> PageOf(va) in m
    ensures r.Some? ==> r.value.value % KernelGranuleSize == va.value % KernelGranuleSize
  {
    var page := PageOf(va);
    if page in m then
      Some(Address(m[page].physPage * KernelGranuleSize + va.value % KernelGranuleSize))
    else
      None
  }

  /**
   * After a slice is installed, every address inside it translates to the
   * same offset from the start of the physical slice.
   */
  lemma TranslateAfterInstall(
    m: map<PageIndex, PageEntry>, virt: PageSlice<Virtual>, phys: PageSlice<Physical>,
    attr: AttributeFields, va: Address<Virtual>
  )
    requires ValidSlice(virt) && ValidSlice(phys) && virt.numPages == phys.numPages
    requires virt.start.value <= va.value < virt.start.value + virt.numPages * KernelGranuleSize
    ensures Translate(Install(m, FirstPage(virt), FirstPage(phys), virt.numPages, attr), va)
            == Some(Address(phys.start.value + (va.value - virt.start.value)))
    ensures var m' := Install(m, FirstPage(virt), FirstPage(phys), virt.numPages, attr);
            PageOf(va) in m' && m'[PageOf(va)].attr == attr
  {
    var page := PageOf(va);
    assert FirstPage(virt) <= page < FirstPage(virt) + virt.numPages;
  }

  /** The kernel's translation table. */
  class KernelTranslationTable {
    const layout: TableLayout
    var initialized: bool
    var mappings: map<PageIndex, PageEntry>
    /** The number of MMIO window pages handed out so far. */
    var mmioCursor: nat

    ghost predicate Valid()
      reads this
    {
      ValidLayout(layout) && mmioCursor <= layout.mmioNumPages
      && forall v :: v in mappings ==> v < layout.numPages
    }

    constructor (layout: TableLayout)
      requires ValidLayout(layout)
      ensures Valid() && this.layout == layout
      ensures !initialized && mappings == map[] && mmioCursor == 0
    {
      this.layout := layout;
      initialized := false;
      mappings := map[];
      mmioCursor := 0;
    }

    /** Prepares the table for mapping; calling it again changes nothing. */
    method Init()
      requires Valid()
      modifies this
      ensures Valid() && initialized
      ensures mappings == old(mappings) && mmioCursor == old(mmioCursor)
    {
      initialized := true;
    }

    /** Whether the virtual slice touches the reserved MMIO window. */
    predicate IsVirtPageSliceMmio(virt: PageSlice<Virtual>)
      requires ValidSlice(virt)
      reads this
    {
      SliceIntersectsWindow(layout, virt)
    }

    /** Maps the virtual pages to the physical pages, all of them or none. */
    method MapPagesAt(virt: PageSlice<Virtual>, phys: PageSlice<Physical>, attr: AttributeFields)
      returns (r: Outcome<string>)
      requires Valid() && ValidSlice(virt) && ValidSlice(phys)
      modifies this
      ensures Valid()
      ensures r == MapCheck(layout, initialized, old(mappings), virt, phys)
      ensures mappings == if r.Pass? then Install(old(mappings), FirstPage(virt), FirstPage(phys), virt.numPages, attr)
                          else old(mappings)
      ensures initialized == old(initialized) && mmioCursor == old(mmioCursor)
    {
      r := MapCheck(layout, initialized, mappings, virt, phys);
      if r.Pass? {
        mappings := Install(mappings, FirstPage(virt), FirstPage(phys), virt.numPages, attr);
      }
    }

    /**
     * Hands out the next `numPages` unused pages of the MMIO window, or fails
     * when none are asked for or too few are left.
     */
    method NextMmioVirtPageSlice(numPages: usize) returns (r: Result<PageSlice<Virtual>, string>)
      requires Valid()
      modifies this
      ensures Valid()
      ensures numPages == 0 ==> r == Failure("num_pages == 0")
      ensures numPages > 0 && old(mmioCursor) + numPages > layout.mmioNumPages
              ==> r == Failure("Not enough MMIO space left")
      ensures numPages > 0 && old(mmioCursor) + numPages <= layout.mmioNumPages
              ==> r.Success? && ValidSlice(r.value) && r.value.numPages == numPages
                  && FirstPage(r.value) == layout.mmioFirstPage + old(mmioCursor)
      ensures mmioCursor == if r.Success? then old(mmioCursor) + numPages else old(mmioCursor)
      ensures initialized == old(initialized) && mappings == old(mappings)
    {
      if numPages == 0 {
        return Failure("num_pages == 0");
      }
      if mmioCursor + numPages > layout.mmioNumPages {
        return Failure("Not enough MMIO space left");
      }
      var start: usize := (layout.mmioFirstPage + mmioCursor) * KernelGranuleSize;
      r := Success(PageSlice(Address(start), numPages));
      mmioCursor := mmioCursor + numPages;
    }
  }
}
