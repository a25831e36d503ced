/** What the Limine boot protocol hands the kernel, reduced to the fields the kernel reads:
    memory-map entries and framebuffer descriptions. */
module Boot {
  import opened Bits

  // Memory-map entry types of the Limine boot protocol.
  const MEMMAP_USABLE: u64 := 0
  const MEMMAP_RESERVED: u64 := 1
  const MEMMAP_ACPI_RECLAIMABLE: u64 := 2
  const MEMMAP_ACPI_NVS: u64 := 3
  const MEMMAP_BAD_MEMORY: u64 := 4
  const MEMMAP_BOOTLOADER_RECLAIMABLE: u64 := 5
  const MEMMAP_KERNEL_AND_MODULES: u64 := 6
  const MEMMAP_FRAMEBUFFER: u64 := 7

  /** One `limine_memmap_entry`: a physical range and its type. */
  datatype MemmapEntry = MemmapEntry(base: u64, length: u64, kind: u64)

  /** One `limine_framebuffer`: the physical `address` of the pixels, the size in pixels, the
      bytes per row and the bits per pixel. */
  datatype Framebuffer = Framebuffer(address: u64, width: u64, height: u64, pitch: u64, bpp: u16)
}
