/**
 * Addresses tagged with their kind, runs of whole pages, MMIO register
 * windows and mapping attributes.
 */
module Types {
  import opened Bits
  import opened MmuInterface

  /** Tag of a physical address. */
  datatype Physical = Physical

  /** Tag of a virtual address. */
  datatype Virtual = Virtual

  /**
   * An address of a given kind. `Address<Physical>` and `Address<Virtual>`
   * are different types, so one never passes for the other.
   */
  datatype Address<Kind> = Address(value: usize)

  /** The number of kernel pages in the `usize` range. */
  const PageLimit: nat := 0x1_0000_0000_0000

  /** A page number within the `usize` range. */
  type PageIndex = n: nat | n < PageLimit

  /** The number of the page an address falls in. */
  function PageOf<K>(a: Address<K>): (r: PageIndex)
    ensures r * KernelGranuleSize <= a.value < r * KernelGranuleSize + KernelGranuleSize
  {
    a.value / KernelGranuleSize
  }

  /** A run of whole pages starting at `start`. */
  datatype PageSlice<Kind> = PageSlice(start: Address<Kind>, numPages: usize)

  /** A page slice starts on a page boundary, is not empty and fits in `usize`. */
  predicate ValidSlice<K>(s: PageSlice<K>)
  {
    s.start.value % KernelGranuleSize == 0 && s.numPages > 0
    && s.start.value + s.numPages * KernelGranuleSize <= UsizeLimit
  }

  /** The page number of a slice's first page. */
  function FirstPage<K>(s: PageSlice<K>): (r: PageIndex)
    requires ValidSlice(s)
    ensures r * KernelGranuleSize == s.start.value
    ensures r + s.numPages <= PageLimit
  {
    PageOf(s.start)
  }

  /** A device's register window: a physical start and a size in bytes. */
  datatype MMIODescriptor = MMIODescriptor(start: Address<Physical>, size: usize)

  /** A register window is not empty and ends inside `usize`. */
  predicate ValidMmio(d: MMIODescriptor)
  {
    d.size > 0 && d.start.value + d.size <= UsizeLimit
  }

  /** The last byte of a register window. */
  function EndAddrInclusive(d: MMIODescriptor): (r: usize)
    requires ValidMmio(d)
    ensures d.start.value <= r < d.start.value + d.size
  {
    d.start.value + (d.size - 1)
  }

  /**
   * The window rounded out to whole pages: the start rounded down to its page
   * and the end rounded up to the end of its page.
   */
  function MmioPageSlice(d: MMIODescriptor): (r: PageSlice<Physical>)
    requires ValidMmio(d)
    ensures ValidSlice(r)
    ensures r.start.value <= d.start.value < r.start.value + KernelGranuleSize
    ensures d.start.value - r.start.value == d.start.value % KernelGranuleSize
    ensures r.start.value + (r.numPages - 1) * KernelGranuleSize <= EndAddrInclusive(d)
    ensures EndAddrInclusive(d) < r.start.value + r.numPages * KernelGranuleSize
  {
    var startPageAddr := d.start.value - d.start.value % KernelGranuleSize;
    var numPages := (EndAddrInclusive(d) - startPageAddr) / KernelGranuleSize + 1;
    PageSlice(Address(startPageAddr), numPages)
  }

  /** Normal cacheable memory or device memory. */
  datatype MemAttributes = CacheableDRAM | Device

  /** Read-only or read-write access. */
  datatype AccessPermissions = ReadOnly | ReadWrite

  /** The attributes every mapping is installed with. */
  datatype AttributeFields = AttributeFields(
    memAttributes: MemAttributes,
    accPerms: AccessPermissions,
    executeNever: bool)
}
