/**
 * The architecture-neutral definitions of the MMU subsystem: the error types
 * of enabling and of translating, how an enable error is displayed, and the
 * translation-granule and address-space size descriptors whose sizes must be
 * powers of two.
 */
module MmuInterface {
  import opened Bits
  import opened Wrappers

  /** Why enabling the MMU failed. */
  datatype MMUEnableError = AlreadyEnabled | Other(message: string)

  /** Why a virtual address could not be translated. */
  datatype TranslationError = MMUDisabled | Aborted

  /** The text an enable error is displayed as. */
  function Display(e: MMUEnableError): (s: string)
    ensures e.AlreadyEnabled? ==> s == "MMU is already enabled"
    ensures e.Other? ==> s == e.message
  {
    match e
    case AlreadyEnabled => "MMU is already enabled"
    case Other(x) => x
  }

  /** The constants a translation granule derives from its size. */
  datatype TranslationGranule = TranslationGranule(SIZE: usize, MASK: usize, SHIFT: usize)

  /**
   * The granule described by `granuleSize`, or None when the size is not a
   * power of two (the program would not compile).
   */
  function NewTranslationGranule(granuleSize: usize): (r: Option<TranslationGranule>)
    ensures r.Some? <==> IsPowerOfTwo(granuleSize)
    ensures r.Some? ==> r.value.SIZE == granuleSize && r.value.MASK == granuleSize - 1
    ensures r.Some? ==> Pow2(r.value.SHIFT) == granuleSize
  {
    if IsPowerOfTwo(granuleSize) then
      PowerOfTwoShift(granuleSize);
      Some(TranslationGranule(granuleSize, granuleSize - 1, TrailingZeros(granuleSize)))
    else
      None
  }

  /** The granule's MASK selects the offset of an address within its page. */
  lemma GranuleMaskIsPageOffset(granuleSize: usize, addr: nat)
    requires NewTranslationGranule(granuleSize).Some?
    ensures BitAnd(addr, NewTranslationGranule(granuleSize).value.MASK) == addr % granuleSize
  {
    var g := NewTranslationGranule(granuleSize).value;
    MaskIsModulo(addr, g.SHIFT);
  }

  /** The constants an address space derives from its size. */
  datatype AddressSpace = AddressSpace(SIZE: usize, SIZE_SHIFT: usize)

  /**
   * The address space of `asSize` bytes, or None when the size is not a power
   * of two or fails the architecture's own restrictions `archSanityCheck`.
   */
  function NewAddressSpace(asSize: usize, archSanityCheck: usize -> bool): (r: Option<AddressSpace>)
    ensures r.Some? <==> IsPowerOfTwo(asSize) && archSanityCheck(asSize)
    ensures r.Some? ==> r.value.SIZE == asSize && Pow2(r.value.SIZE_SHIFT) == asSize
  {
    if !IsPowerOfTwo(asSize) then
      None
    else if !archSanityCheck(asSize) then
      None
    else
      PowerOfTwoShift(asSize);
      Some(AddressSpace(asSize, TrailingZeros(asSize)))
  }

  /** The kernel's translation granule size, 64 KiB, fixed by the board layer. */
  const KernelGranuleSize: usize := 0x1_0000

  /** The kernel's translation granule. */
  const KernelGranule: TranslationGranule := TranslationGranule(0x1_0000, 0xFFFF, 16)

  /** The kernel granule is the one its size derives. */
  lemma KernelGranuleIsChecked()
    ensures NewTranslationGranule(KernelGranuleSize) == Some(KernelGranule)
  {
    Pow2Literal();
    Pow2IsPowerOfTwo(16);
  }

  /** Masking with the kernel granule's MASK is the offset within a 64 KiB page. */
  lemma KernelPageOffset(addr: nat)
    ensures BitAnd(addr, KernelGranule.MASK) == addr % KernelGranuleSize
  {
    KernelGranuleIsChecked();
    GranuleMaskIsPageOffset(KernelGranuleSize, addr);
  }
}
