/** The global descriptor table of both kernel revisions: src/arch/gdt.cpp and
    src/arch/x86_64/gdt.cpp share `setEntry` and the five-slot table of `init` / the x86_64
    constructor, and differ in how `setTSS` fills the task-state segment and its 16-byte
    descriptor. The `lgdt`, segment reloads, far return and `ltr` are not modelled. */
module Gdt {
  import opened Bits
  import opened Segments

  const IST_STACK_SIZE: nat := 8192

  /** `GDT_INDEX << 3` for the two selectors of `load` (gdt.cpp:32). */
  method Selectors() returns (dataSel: u16, codeSel: u16)
    ensures dataSel == Selector(GDT_DATA) && codeSel == Selector(GDT_CODE)
    ensures dataSel == 0x10 && codeSel == 0x08
  {
    dataSel, codeSel := GDT_DATA * 8, GDT_CODE * 8;
  }

  /** src/arch/gdt.cpp:70-75: the upper TSS slot, assigned field by field with the
      truncations of the field types. */
  function UpperTssSlot(base: u64): GdtEntry
  {
    GdtEntry(TSS_LIMIT / 0x1_0000, base / 0x1_0000_0000_0000, (base / 0x1_0000_0000) % 256, 0, 0,
             base / 0x100_0000_0000_0000)
  }

  /** The processor reads bits 32..63 of a TSS base from the first word of the upper slot.
      The slot of src/arch/gdt.cpp puts base bits 48..63 there above a zero half, so the
      descriptor carries the base exactly when base bits 32..47 are zero. */
  lemma UpperTssSlotBase(low: GdtEntry, base: u64)
    requires SegmentBase(low) == base % TWO_32
    ensures FirstDword(UpperTssSlot(base)) == (base / 0x1_0000_0000_0000) * 0x1_0000
    ensures SystemBase(low, UpperTssSlot(base)) == base <==> (base / TWO_32) % 0x1_0000 == 0
  {
    var q := base / TWO_32;
    assert base == q * TWO_32 + base % TWO_32;
    assert q == (q / 0x1_0000) * 0x1_0000 + q % 0x1_0000;
    assert q / 0x1_0000 == base / 0x1_0000_0000_0000;
    assert FirstDword(UpperTssSlot(base)) * TWO_32 == (q / 0x1_0000) * 0x1_0000 * TWO_32;
  }

  /** A kernel `.bss` in the higher half (0xFFFFFFFF8xxxxxxx) has base bits 32..47 set: the
      descriptor of src/arch/gdt.cpp then names the non-canonical base 0xFFFF00008xxxxxxx. */
  lemma HigherHalfTssBaseLost(low: GdtEntry)
    requires SegmentBase(low) == 0x8010_0000
    ensures SystemBase(low, UpperTssSlot(0xFFFF_FFFF_8010_0000)) == 0xFFFF_0000_8010_0000
  {
    var base := 0xFFFF_FFFF_8010_0000;
    assert base % TWO_32 == 0x8010_0000;
    UpperTssSlotBase(low, base);
    assert base / 0x1_0000_0000_0000 == 0xFFFF;
  }

  /** `&istStacks[i][8192]` for i in 0..6: the tops of the x86_64 revision's seven interrupt
      stacks at `base`. */
  function IstTops(base: u64): (r: seq<u64>)
    requires base + 7 * IST_STACK_SIZE < TWO_64
    ensures |r| == 7 && forall i :: 0 <= i < 7 ==> r[i] == base + (i + 1) * IST_STACK_SIZE
  {
    seq(7, i requires 0 <= i < 7 => base + (i + 1) * IST_STACK_SIZE)
  }

  /** A descriptor pair whose low slot is `setEntry`'s encoding of base bits 0..31 and whose
      upper slot's first word holds bits 32..63 carries the whole base. */
  lemma WholeSystemBase(low: GdtEntry, high: GdtEntry, base: u64)
    requires SegmentBase(low) == base % TWO_32 && FirstDword(high) == base / TWO_32
    ensures SystemBase(low, high) == base
  {
    assert base == (base / TWO_32) * TWO_32 + base % TWO_32;
  }

  /** The base fields of a descriptor depend only on the low 32 bits of the base. */
  lemma LowWordFields(base: u64)
    ensures base % TWO_32 % 0x1_0000 == base % 0x1_0000
    ensures (base % TWO_32 / 0x1_0000) % 256 == (base / 0x1_0000) % 256
    ensures (base % TWO_32 / 0x100_0000) % 256 == (base / 0x100_0000) % 256
  {
    var q := base / TWO_32;
    var r := base % TWO_32;
    assert base == q * TWO_32 + r;
    var a := r / 0x1_0000;
    var b := r / 0x100_0000;
    assert base / 0x1_0000 == (q * 0x100) * 0x100 + a;
    assert base / 0x100_0000 == q * 0x100 + b;
    ModMultiple(q * 0x100, a);
    ModMultiple(q, b);
    assert base % 0x1_0000 == r % 0x1_0000;
  }

  lemma ModMultiple(n: nat, x: nat)
    ensures (n * 0x100 + x) % 0x100 == x % 0x100
  {
    var k := x / 0x100;
    assert x == k * 0x100 + x % 0x100;
    assert n * 0x100 + x == (n + k) * 0x100 + x % 0x100;
  }

  class DescriptorTable {
    /** `gdt[GDT_ENTRIES]`, `gdtPointer` and `kernelTSS`. */
    const gdt: array<GdtEntry>
    var gdtPointer: GdtPointer
    var kernelTSS: Tss
    /** Link-time addresses: of `gdt`, of `kernelTSS`, `ist1StackTop` (src/arch/gdt.cpp) and
        of `istStacks` (src/arch/x86_64/gdt.cpp). */
    const gdtAddr: u64
    const tssAddr: u64
    const ist1StackTop: u64
    const istStacksBase: u64

    ghost predicate Valid()
      reads this
    {
      gdt.Length == GDT_ENTRIES && WellFormedTss(kernelTSS)
      && istStacksBase + 7 * IST_STACK_SIZE < TWO_64
    }

    /** The statics before any code runs: all zero. */
    constructor (gdtAddr: u64, tssAddr: u64, ist1StackTop: u64, istStacksBase: u64)
      requires istStacksBase + 7 * IST_STACK_SIZE < TWO_64
      ensures Valid() && fresh(gdt)
      ensures forall k :: 0 <= k < GDT_ENTRIES ==> gdt[k] == ZERO_ENTRY
      ensures gdtPointer == GdtPointer(0, 0) && kernelTSS == ZERO_TSS
      ensures this.gdtAddr == gdtAddr && this.tssAddr == tssAddr
      ensures this.ist1StackTop == ist1StackTop && this.istStacksBase == istStacksBase
    {
      gdt := new GdtEntry[GDT_ENTRIES](_ => ZERO_ENTRY);
      gdtPointer := GdtPointer(0, 0);
      kernelTSS := ZERO_TSS;
      this.gdtAddr, this.tssAddr := gdtAddr, tssAddr;
      this.ist1StackTop, this.istStacksBase := ist1StackTop, istStacksBase;
    }

    /** gdt.cpp:80-89 of both revisions: only slot `index` changes, to the descriptor of the
        arguments. */
    method SetEntry(index: nat, base: u32, limit: u32, access: u8, flags: u8)
      requires Valid() && index < GDT_ENTRIES
      modifies gdt
      ensures gdt[..] == old(gdt[..])[index := SegmentDescriptor(base, limit, access, flags)]
    {
      DescriptorFields(base, limit, access, flags);
      OrNibble((limit / 0x1_0000) % 16, flags / 16);
      gdt[index] := gdt[index].(limitLow := limit % 0x1_0000, baseLow := base % 0x1_0000,
                                baseMid := (base / 0x1_0000) % 256, access := access,
                                flagsLimitHigh := Or((limit / 0x1_0000) % 16, flags - flags % 16),
                                baseHigh := (base / 0x100_0000) % 256);
    }

    /** gdt.cpp:18-28 of both revisions (`GDTManager::init`, and the x86_64 constructor, which
        writes the same globals): null, 64-bit code, data, TSS placeholder and zero upper slot,
        and a pointer covering the five slots. */
    method Init()
      requires Valid()
      modifies gdt, this`gdtPointer
      ensures Valid()
      ensures gdt[GDT_NULL] == SegmentDescriptor(0, 0, 0, 0)
      ensures gdt[GDT_CODE] == SegmentDescriptor(0, 0, 0x9A, 0x20)
      ensures gdt[GDT_DATA] == SegmentDescriptor(0, 0, 0x92, 0)
      ensures gdt[GDT_TSS] == SegmentDescriptor(0, 0, 0x89, 0)
      ensures gdt[GDT_TSS + 1] == SegmentDescriptor(0, 0, 0, 0)
      ensures gdtPointer == GdtPointer(GDT_ENTRIES * ENTRY_SIZE - 1, gdtAddr)
    {
      SetEntry(GDT_NULL, 0, 0, 0, 0);
      SetEntry(GDT_CODE, 0, 0, 0x9A, 0x20);
      SetEntry(GDT_DATA, 0, 0, 0x92, 0x00);
      InitTss();
      gdtPointer := GdtPointer(GDT_ENTRIES * ENTRY_SIZE - 1, gdtAddr);
    }

    /** gdt.cpp:23-24: the two TSS slots of `init`. */
    method InitTss()
      requires Valid()
      modifies gdt
      ensures gdt[..] == old(gdt[..])[GDT_TSS := SegmentDescriptor(0, 0, 0x89, 0)]
                                     [GDT_TSS + 1 := SegmentDescriptor(0, 0, 0, 0)]
    {
      SetEntry(GDT_TSS, 0, 0, 0x89, 0x00);
      SetEntry(GDT_TSS + 1, 0, 0, 0x00, 0x00);
    }

    /** src/arch/gdt.cpp:57-78: a zeroed TSS with rsp0, the I/O map past the end and IST1 on
        `ist1StackTop`; the low slot is `setEntry` with the truncated base, and the upper slot
        is written field by field (`UpperTssSlot`). No other slot changes. */
    method SetTss(rsp0: u64)
      requires Valid()
      modifies gdt, this`kernelTSS
      ensures Valid()
      ensures kernelTSS == ZERO_TSS.(rsp := [rsp0, 0, 0], ist := [ist1StackTop, 0, 0, 0, 0, 0, 0],
                                     ioMapBase := TSS_SIZE)
      ensures gdt[..] == old(gdt[..])[GDT_TSS := SegmentDescriptor(tssAddr % TWO_32, TSS_LIMIT, 0x89, 0)]
                                     [GDT_TSS + 1 := UpperTssSlot(tssAddr)]
    {
      kernelTSS := ZERO_TSS;
      kernelTSS := kernelTSS.(rsp := kernelTSS.rsp[0 := rsp0]);
      kernelTSS := kernelTSS.(ioMapBase := TSS_SIZE);
      kernelTSS := kernelTSS.(ist := kernelTSS.ist[0 := ist1StackTop]);
      var base := tssAddr;
      var limit: u32 := TSS_SIZE - 1;
      SetEntry(GDT_TSS, base % TWO_32, limit, 0x89, 0x00);
      gdt[GDT_TSS + 1] := gdt[GDT_TSS + 1].(limitLow := limit / 0x1_0000, baseLow := base / 0x1_0000_0000_0000,
                                           baseMid := (base / 0x1_0000_0000) % 256, access := 0,
                                           flagsLimitHigh := 0, baseHigh := base / 0x100_0000_0000_0000);
    }

    /** src/arch/x86_64/gdt.cpp:57-78: a zeroed TSS with rsp0, the I/O map past the end and
        IST1..IST7 on the tops of the seven distinct stacks; the low slot holds base bits 0..31,
        limit 103, access 0x89 and no flags, which is what `setEntry` would write, and the two
        raw 32-bit stores make the upper slot carry base bits 32..63 over a zero word, so the
        16-byte descriptor holds the whole base. No other slot changes. */
    method SetTssX64(rsp0: u64)
      requires Valid()
      modifies gdt, this`kernelTSS
      ensures Valid()
      ensures kernelTSS == ZERO_TSS.(rsp := [rsp0, 0, 0], ist := IstTops(istStacksBase),
                                     ioMapBase := TSS_SIZE)
      ensures gdt[GDT_TSS] == SegmentDescriptor(tssAddr % TWO_32, TSS_LIMIT, 0x89, 0)
      ensures SystemBase(gdt[GDT_TSS], gdt[GDT_TSS + 1]) == tssAddr
      ensures SecondDword(gdt[GDT_TSS + 1]) == 0
      ensures forall k :: 0 <= k < GDT_TSS ==> gdt[k] == old(gdt[k])
    {
      FillTssX64(rsp0);
      var base := tssAddr;
      WriteLowTssSlot(base);
      StoreUpperWords(base);
      DescriptorFields(base % TWO_32, TSS_LIMIT, 0x89, 0);
      WholeSystemBase(gdt[GDT_TSS], gdt[GDT_TSS + 1], base);
    }

    /** src/arch/x86_64/gdt.cpp:65-72: the low TSS slot, field by field; it is `setEntry`'s
        descriptor for the low 32 bits of the base. */
    method WriteLowTssSlot(base: u64)
      requires Valid()
      modifies gdt
      ensures gdt[..] == old(gdt[..])[GDT_TSS := SegmentDescriptor(base % TWO_32, TSS_LIMIT, 0x89, 0)]
    {
      var limit: u32 := TSS_SIZE - 1;
      gdt[GDT_TSS] := gdt[GDT_TSS].(limitLow := limit % 0x1_0000, baseLow := base % 0x1_0000,
                                   baseMid := (base / 0x1_0000) % 256, access := 0x89,
                                   flagsLimitHigh := (limit / 0x1_0000) % 16,
                                   baseHigh := (base / 0x100_0000) % 256);
      LowWordFields(base);
    }

    /** src/arch/x86_64/gdt.cpp:74-75: the two little-endian 32-bit stores into the upper slot,
        `base >> 32` over limitLow/baseLow and 0 over the remaining four bytes. */
    method StoreUpperWords(base: u64)
      requires Valid()
      modifies gdt
      ensures FirstDword(gdt[GDT_TSS + 1]) == base / TWO_32 && SecondDword(gdt[GDT_TSS + 1]) == 0
      ensures forall k :: 0 <= k < GDT_ENTRIES && k != GDT_TSS + 1 ==> gdt[k] == old(gdt[k])
    {
      var d := base / TWO_32;
      gdt[GDT_TSS + 1] := gdt[GDT_TSS + 1].(limitLow := d % 0x1_0000, baseLow := d / 0x1_0000);
      gdt[GDT_TSS + 1] := gdt[GDT_TSS + 1].(baseMid := 0, access := 0, flagsLimitHigh := 0, baseHigh := 0);
    }

    /** src/arch/x86_64/gdt.cpp:59-62: the TSS contents, with the loop over the seven IST
        entries. */
    method FillTssX64(rsp0: u64)
      requires Valid()
      modifies this`kernelTSS
      ensures Valid()
      ensures kernelTSS == ZERO_TSS.(rsp := [rsp0, 0, 0], ist := IstTops(istStacksBase),
                                     ioMapBase := TSS_SIZE)
    {
      kernelTSS := ZERO_TSS;
      kernelTSS := kernelTSS.(rsp := kernelTSS.rsp[0 := rsp0]);
      kernelTSS := kernelTSS.(ioMapBase := TSS_SIZE);
      for i := 0 to 7
        invariant kernelTSS.rsp == [rsp0, 0, 0] && kernelTSS.ioMapBase == TSS_SIZE && |kernelTSS.ist| == 7
        invariant kernelTSS == ZERO_TSS.(rsp := [rsp0, 0, 0], ist := kernelTSS.ist, ioMapBase := TSS_SIZE)
        invariant forall k :: 0 <= k < i ==> kernelTSS.ist[k] == IstTops(istStacksBase)[k]
        invariant forall k :: i <= k < 7 ==> kernelTSS.ist[k] == 0
      {
        kernelTSS := kernelTSS.(ist := kernelTSS.ist[i := IstTops(istStacksBase)[i]]);
      }
    }
  }

  /** The seven IST stacks of src/arch/x86_64/gdt.cpp are disjoint: each top lies at or below
      the bottom of the next. */
  lemma IstStacksDisjoint(base: u64, i: nat, j: nat)
    requires base + 7 * IST_STACK_SIZE < TWO_64 && i < j < 7
    ensures IstTops(base)[i] <= IstTops(base)[j] - IST_STACK_SIZE
  {
    assert (i + 1) * IST_STACK_SIZE <= j * IST_STACK_SIZE;
  }
}
