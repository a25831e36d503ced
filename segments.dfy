/** The packed structures of the global descriptor table shared by both GDT revisions
    (src/arch/gdt.h, src/arch/x86_64/gdt.h): the 8-byte segment descriptor, the `lgdt` operand
    and the 64-bit task-state segment, with the field packing of `setEntry` and the decoding a
    processor applies to it (section 3.4.5 of the Intel SDM, Volume 3A). */
module Segments {
  import opened Bits

  // Table slots, from the `enum` in src/arch/gdt.h.
  const GDT_NULL: nat := 0
  const GDT_CODE: nat := 1
  const GDT_DATA: nat := 2
  const GDT_TSS: nat := 3
  const GDT_ENTRIES: nat := 5
  const ENTRY_SIZE: nat := 8

  /** `sizeof(TSS)` for the packed layout: a 32-bit reserved word, rsp[3], a reserved quad,
      ist[7], a reserved quad and two 16-bit fields. */
  const TSS_SIZE: nat := 4 + 3 * 8 + 8 + 7 * 8 + 8 + 2 + 2
  const TSS_LIMIT: u32 := 103

  /** `GDTEntry`, packed: the bytes in memory order are limitLow (2), baseLow (2), baseMid,
      access, flagsLimitHigh, baseHigh. */
  datatype GdtEntry = GdtEntry(limitLow: u16, baseLow: u16, baseMid: u8, access: u8,
                               flagsLimitHigh: u8, baseHigh: u8)

  /** `GDTPointer`, the operand of `lgdt`. */
  datatype GdtPointer = GdtPointer(limit: u16, base: u64)

  /** `TSS`, field by field. */
  datatype Tss = Tss(reserved0: u32, rsp: seq<u64>, reserved1: u64, ist: seq<u64>,
                     reserved2: u64, reserved3: u16, ioMapBase: u16)

  const ZERO_ENTRY: GdtEntry := GdtEntry(0, 0, 0, 0, 0, 0)

  /** `memset(&kernelTSS, 0, sizeof(kernelTSS))`. */
  const ZERO_TSS: Tss := Tss(0, [0, 0, 0], 0, [0, 0, 0, 0, 0, 0, 0], 0, 0, 0)

  predicate WellFormedTss(t: Tss)
  {
    |t.rsp| == 3 && |t.ist| == 7
  }

  /** The base address a processor reads from a descriptor: the three base fields side by
      side (they occupy disjoint bits, so `|` is `+`). */
  function SegmentBase(e: GdtEntry): nat
  {
    e.baseLow + e.baseMid * 0x1_0000 + e.baseHigh * 0x100_0000
  }

  /** The 20-bit limit: limitLow and the low nibble of flagsLimitHigh. */
  function SegmentLimit(e: GdtEntry): nat
  {
    e.limitLow + (e.flagsLimitHigh % 16) * 0x1_0000
  }

  /** The flags nibble (G, D/B, L, AVL) in place, i.e. `flagsLimitHigh & 0xF0`. */
  function SegmentFlags(e: GdtEntry): nat
  {
    e.flagsLimitHigh - e.flagsLimitHigh % 16
  }

  lemma BaseFields(base: u32)
    ensures base % 0x1_0000 + ((base / 0x1_0000) % 256) * 0x1_0000 + ((base / 0x100_0000) % 256) * 0x100_0000 == base
  {
    var hi := base / 0x1_0000;
    assert base == hi * 0x1_0000 + base % 0x1_0000;
    assert hi == (hi / 256) * 256 + hi % 256;
    assert hi / 256 == base / 0x100_0000;
    assert hi / 256 < 256;
  }

  lemma LimitFields(limit: nat)
    ensures limit % 0x1_0000 + ((limit / 0x1_0000) % 16) * 0x1_0000 == limit % 0x10_0000
  {
    var r := limit % 0x10_0000;
    var q := limit / 0x10_0000;
    assert limit == q * 0x10_0000 + r;
    assert limit / 0x1_0000 == q * 16 + r / 0x1_0000;
    assert (limit / 0x1_0000) % 16 == r / 0x1_0000;
    assert limit % 0x1_0000 == r % 0x1_0000;
  }

  lemma NibbleFields(low: nat, flags: u8)
    requires low < 16
    ensures (flags / 16 * 16 + low) % 16 == low
    ensures flags / 16 * 16 + low - low == flags - flags % 16
    ensures flags / 16 * 16 + low < 256
  {
  }

  /** gdt.cpp:80-89 (both revisions): the descriptor `setEntry` writes. The two nibbles of
      flagsLimitHigh occupy disjoint bits, so the `|` of the source is the sum written here
      (`DescriptorFields` proves it). */
  function SegmentDescriptor(base: u32, limit: u32, access: u8, flags: u8): GdtEntry
  {
    GdtEntry(limit % 0x1_0000, base % 0x1_0000, (base / 0x1_0000) % 256, access,
             (limit / 0x1_0000) % 16 + (flags - flags % 16), (base / 0x100_0000) % 256)
  }

  /** What a processor decodes from the descriptor `setEntry` writes: the base whole, the
      limit up to its 20 bits, the flags up to their high nibble and the access byte
      verbatim; and flagsLimitHigh is the source's `|` of the two nibbles. */
  lemma DescriptorFields(base: u32, limit: u32, access: u8, flags: u8)
    ensures SegmentBase(SegmentDescriptor(base, limit, access, flags)) == base
    ensures SegmentLimit(SegmentDescriptor(base, limit, access, flags)) == limit % 0x10_0000
    ensures SegmentFlags(SegmentDescriptor(base, limit, access, flags)) == flags - flags % 16
    ensures SegmentDescriptor(base, limit, access, flags).access == access
    ensures SegmentDescriptor(base, limit, access, flags).flagsLimitHigh ==
            Or((limit / 0x1_0000) % 16, flags - flags % 16)
  {
    var lowNibble := (limit / 0x1_0000) % 16;
    OrNibble(lowNibble, flags / 16);
    NibbleFields(lowNibble, flags);
    LimitFields(limit);
    BaseFields(base);
  }

  /** Every descriptor is the one `setEntry` writes for its own decoded fields, so the
      encoding loses nothing beyond the limit's top 12 bits and the flags' low nibble. */
  lemma DescriptorFromFields(e: GdtEntry)
    ensures SegmentBase(e) < TWO_32 && SegmentLimit(e) < TWO_32 && SegmentFlags(e) < 256
    ensures e == SegmentDescriptor(SegmentBase(e), SegmentLimit(e), e.access, SegmentFlags(e))
  {
    var base := SegmentBase(e);
    var limit := SegmentLimit(e);
    var flags := SegmentFlags(e);
    assert base % 0x1_0000 == e.baseLow && base / 0x1_0000 == e.baseMid + e.baseHigh * 256;
    assert base / 0x100_0000 == e.baseHigh;
    assert limit % 0x1_0000 == e.limitLow && limit / 0x1_0000 == e.flagsLimitHigh % 16;
    assert flags % 16 == 0 && flags / 16 == e.flagsLimitHigh / 16;
    assert (base / 0x1_0000) % 256 == e.baseMid by {
      assert base / 0x1_0000 == e.baseHigh * 256 + e.baseMid;
    }
    assert (base / 0x100_0000) % 256 == e.baseHigh;
    assert (limit / 0x1_0000) % 16 == e.flagsLimitHigh % 16;
    assert (limit / 0x1_0000) % 16 + (flags - flags % 16) == e.flagsLimitHigh;
  }

  /** `GDT_INDEX << 3` as a 16-bit selector: table indicator 0 (GDT), privilege level 0. */
  function Selector(index: nat): (r: u16)
    requires index < 0x2000
    ensures r % 8 == 0 && r / 8 == index
  {
    index * 8
  }

  /** The first and second little-endian 32-bit words of a descriptor. */
  function FirstDword(e: GdtEntry): nat
  {
    e.limitLow + e.baseLow * 0x1_0000
  }

  function SecondDword(e: GdtEntry): nat
  {
    e.baseMid + e.access * 0x100 + e.flagsLimitHigh * 0x1_0000 + e.baseHigh * 0x100_0000
  }

  /** The 64-bit base of a 16-byte system descriptor spread over two slots (section 7.2.3 of
      the Intel SDM, Volume 3A): bits 0..31 in the low slot, bits 32..63 in the first word of
      the high slot. */
  function SystemBase(low: GdtEntry, high: GdtEntry): nat
  {
    SegmentBase(low) + FirstDword(high) * TWO_32
  }
}
