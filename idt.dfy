/** The interrupt descriptor table of both kernel revisions (src/arch/idt.cpp and
    src/arch/x86_64/idt.cpp): 256 16-byte gate descriptors (section 6.14.1 of the Intel SDM,
    Volume 3A) and the `lidt` operand. Handler addresses are plain numbers, 0 being a null
    function pointer; the `lidt` instruction itself is not modelled. */
module Idt {
  import opened Bits

  const VECTORS: nat := 256
  const GATE_SIZE: nat := 16
  const KERNEL_CODE_SELECTOR: u16 := 0x08
  /** Present, ring 0, 64-bit interrupt gate. */
  const INTERRUPT_GATE: u8 := 0x8E
  const EXCEPTIONS: nat := 32

  /** `IDTEntry`, packed. */
  datatype IdtEntry = IdtEntry(offsetLow: u16, selector: u16, ist: u8, typeAttr: u8,
                               offsetMid: u16, offsetHigh: u32, zero: u32)

  /** `IDTPointer`, the operand of `lidt`. */
  datatype IdtPointer = IdtPointer(limit: u16, base: u64)

  /** `idt[vector] = {}`. */
  const ZERO_GATE: IdtEntry := IdtEntry(0, 0, 0, 0, 0, 0, 0)

  /** The handler address a processor reads from a gate: the three offset fields side by
      side. */
  function GateOffset(e: IdtEntry): nat
  {
    e.offsetLow + e.offsetMid * 0x1_0000 + e.offsetHigh * 0x1_0000_0000
  }

  /** A gate to `addr` through the kernel code segment, with the given type byte and IST
      index: the address split of both `setEntry`s. */
  function Gate(addr: u64, typeAttr: u8, ist: u8): IdtEntry
  {
    IdtEntry(addr % 0x1_0000, KERNEL_CODE_SELECTOR, ist, typeAttr, (addr / 0x1_0000) % 0x1_0000,
             (addr / 0x1_0000_0000) % 0x1_0000_0000, 0)
  }

  /** The gate's offset is the handler address, the selector 0x08, the type byte and IST
      index as given, and the reserved word zero. */
  lemma GateFields(addr: u64, typeAttr: u8, ist: u8)
    ensures GateOffset(Gate(addr, typeAttr, ist)) == addr
    ensures Gate(addr, typeAttr, ist).selector == KERNEL_CODE_SELECTOR
    ensures Gate(addr, typeAttr, ist).typeAttr == typeAttr && Gate(addr, typeAttr, ist).ist == ist
    ensures Gate(addr, typeAttr, ist).zero == 0
  {
    var hi := addr / 0x1_0000;
    assert addr == hi * 0x1_0000 + addr % 0x1_0000;
    assert hi == (hi / 0x1_0000) * 0x1_0000 + hi % 0x1_0000;
    assert hi / 0x1_0000 == addr / 0x1_0000_0000;
  }

  /** Every gate through selector 0x08 with a zero reserved word is `Gate` of its own
      fields: the split loses nothing. */
  lemma GateFromFields(e: IdtEntry)
    requires e.selector == KERNEL_CODE_SELECTOR && e.zero == 0
    ensures GateOffset(e) < TWO_64
    ensures e == Gate(GateOffset(e), e.typeAttr, e.ist)
  {
    var addr := GateOffset(e);
    assert addr % 0x1_0000 == e.offsetLow;
    assert addr / 0x1_0000 == e.offsetMid + e.offsetHigh * 0x1_0000;
    assert addr / 0x1_0000_0000 == e.offsetHigh;
  }

  /** What `setEntry` stores for a handler: nothing for a null pointer, else the gate. */
  function HandlerGate(isr: u64, typeAttr: u8, ist: u8): IdtEntry
  {
    if isr == 0 then ZERO_GATE else Gate(isr, typeAttr, ist)
  }

  /** The IST index src/arch/x86_64/idt.cpp:17 picks: 1 for the double fault, 2 for the page
      fault, 0 (the current stack) otherwise. */
  function IstFor(vector: nat): u8
  {
    if vector == 8 then 1 else if vector == 14 then 2 else 0
  }

  /** The table src/arch/idt.cpp:10-21 leaves: gates for vectors 0, 8 (on IST1) and 14, all
      other vectors zero. */
  function LegacyGate(vector: nat, isr0: u64, isr8: u64, isr14: u64): IdtEntry
  {
    if vector == 0 then HandlerGate(isr0, INTERRUPT_GATE, 0)
    else if vector == 8 then HandlerGate(isr8, INTERRUPT_GATE, 1)
    else if vector == 14 then HandlerGate(isr14, INTERRUPT_GATE, 0)
    else ZERO_GATE
  }

  class InterruptTable {
    /** `idt[256]`. */
    const idt: array<IdtEntry>
    /** src/arch/idt.cpp's `idtPtr`, set by `init`. */
    var idtPtr: IdtPointer
    /** The address of `idt`, and the handler addresses: `isr0`, `isr8` and `isr14`
        (src/arch/idt.cpp) and `isrList` (src/arch/x86_64/idt.cpp). */
    const idtAddr: u64
    const isr0: u64
    const isr8: u64
    const isr14: u64
    const isrList: seq<u64>

    ghost predicate Valid()
      reads this
    {
      idt.Length == VECTORS && |isrList| == EXCEPTIONS
    }

    /** The statics before any code runs: `idt` all zero. */
    constructor (idtAddr: u64, isr0: u64, isr8: u64, isr14: u64, isrList: seq<u64>)
      requires |isrList| == EXCEPTIONS
      ensures Valid() && fresh(idt) && idtPtr == IdtPointer(0, 0)
      ensures forall v :: 0 <= v < VECTORS ==> idt[v] == ZERO_GATE
      ensures this.idtAddr == idtAddr && this.isrList == isrList
      ensures this.isr0 == isr0 && this.isr8 == isr8 && this.isr14 == isr14
    {
      idt := new IdtEntry[VECTORS](_ => ZERO_GATE);
      idtPtr := IdtPointer(0, 0);
      this.idtAddr, this.isr0, this.isr8, this.isr14, this.isrList := idtAddr, isr0, isr8, isr14, isrList;
    }

    /** src/arch/x86_64/idt.cpp:5: the statically initialised `idtPointer`, covering all 256
        gates. */
    function IdtPointerX64(): (p: IdtPointer)
      reads this
      ensures p.limit + 1 == VECTORS * GATE_SIZE && p.base == idtAddr
    {
      IdtPointer(VECTORS * GATE_SIZE - 1, idtAddr)
    }

    /** src/arch/idt.cpp:25-41: a null handler clears the gate; otherwise the gate gets the
        handler, selector 0x08, the fixed type 0x8E and `ist & 0x7`. Only `vector` changes. */
    method SetEntry(vector: u8, isr: u64, ist: u8)
      requires Valid()
      modifies idt
      ensures idt[..] == old(idt[..])[vector := HandlerGate(isr, INTERRUPT_GATE, ist % 8)]
      ensures isr != 0 ==> idt[vector].ist <= 7 && GateOffset(idt[vector]) == isr
    {
      if isr == 0 {
        idt[vector] := ZERO_GATE;
        return;
      }
      var addr := isr;
      idt[vector] := idt[vector].(offsetLow := addr % 0x1_0000, selector := KERNEL_CODE_SELECTOR,
                                  ist := ist % 8, typeAttr := INTERRUPT_GATE,
                                  offsetMid := (addr / 0x1_0000) % 0x1_0000,
                                  offsetHigh := (addr / 0x1_0000_0000) % 0x1_0000_0000, zero := 0);
      GateFields(addr, INTERRUPT_GATE, ist % 8);
    }

    /** src/arch/x86_64/idt.cpp:21-39: as above, with the caller's type byte and the IST
        index stored as given. Only `vector` changes. */
    method SetEntryX64(vector: u8, isr: u64, flags: u8, ist: u8)
      requires Valid()
      modifies idt
      ensures idt[..] == old(idt[..])[vector := HandlerGate(isr, flags, ist)]
    {
      if isr == 0 {
        idt[vector] := ZERO_GATE;
        return;
      }
      var addr := isr;
      idt[vector] := IdtEntry(addr % 0x1_0000, KERNEL_CODE_SELECTOR, ist, flags,
                              (addr / 0x1_0000) % 0x1_0000, (addr / 0x1_0000_0000) % 0x1_0000_0000, 0);
    }

    /** src/arch/idt.cpp:12: `memset(idt, 0, sizeof(idt))`. */
    method ClearAll()
      requires Valid()
      modifies idt
      ensures forall v :: 0 <= v < VECTORS ==> idt[v] == ZERO_GATE
    {
      for v := 0 to VECTORS
        invariant forall u :: 0 <= u < v ==> idt[u] == ZERO_GATE
      {
        idt[v] := ZERO_GATE;
      }
    }

    /** src/arch/idt.cpp:10-21: afterwards exactly vectors 0, 8 and 14 hold gates (8 on
        IST1), every other vector is zero, and `idtPtr` covers the whole table. */
    method Init()
      requires Valid()
      modifies idt, this`idtPtr
      ensures forall v :: 0 <= v < VECTORS ==> idt[v] == LegacyGate(v, isr0, isr8, isr14)
      ensures idtPtr == IdtPointer(VECTORS * GATE_SIZE - 1, idtAddr)
    {
      ClearAll();
      SetEntry(0, isr0, 0);
      SetEntry(8, isr8, 1);
      SetEntry(14, isr14, 0);
      idtPtr := IdtPointer(VECTORS * GATE_SIZE - 1, idtAddr);
    }

    /** src/arch/x86_64/idt.cpp:14-19: vectors 0..31 get interrupt gates to `isrList`, with
        IST1 for the double fault and IST2 for the page fault; vectors 32..255 keep what they
        held (zero, in a fresh table). */
    method InitX64()
      requires Valid()
      modifies idt
      ensures forall v :: 0 <= v < EXCEPTIONS ==> idt[v] == HandlerGate(isrList[v], INTERRUPT_GATE, IstFor(v))
      ensures forall v :: EXCEPTIONS <= v < VECTORS ==> idt[v] == old(idt[v])
    {
      for i := 0 to EXCEPTIONS
        invariant forall v :: 0 <= v < i ==> idt[v] == HandlerGate(isrList[v], INTERRUPT_GATE, IstFor(v))
        invariant forall v :: i <= v < VECTORS ==> idt[v] == old(idt[v])
      {
        SetEntryX64(i, isrList[i], INTERRUPT_GATE, if i == 8 then 1 else if i == 14 then 2 else 0);
      }
    }
  }

  /** The table of src/arch/idt.cpp: only vectors 0, 8 and 14 can be non-zero, their gates
      lead to their handlers through selector 0x08, and only the double fault runs on IST1. */
  lemma LegacyTableShape(vector: nat, isr0: u64, isr8: u64, isr14: u64)
    ensures LegacyGate(vector, isr0, isr8, isr14) != ZERO_GATE ==> vector == 0 || vector == 8 || vector == 14
    ensures LegacyGate(vector, isr0, isr8, isr14) != ZERO_GATE ==>
      GateOffset(LegacyGate(vector, isr0, isr8, isr14)) == (if vector == 0 then isr0 else if vector == 8 then isr8 else isr14)
      && LegacyGate(vector, isr0, isr8, isr14).selector == KERNEL_CODE_SELECTOR
      && LegacyGate(vector, isr0, isr8, isr14).ist == (if vector == 8 then 1 else 0)
  {
    if vector == 0 {
      GateFields(isr0, INTERRUPT_GATE, 0);
    } else if vector == 8 {
      GateFields(isr8, INTERRUPT_GATE, 1);
    } else if vector == 14 {
      GateFields(isr14, INTERRUPT_GATE, 0);
    }
  }

  /** The exception gates of src/arch/x86_64/idt.cpp: each non-null handler is reached
      through selector 0x08 as an interrupt gate, and exactly the double fault and the page
      fault switch stacks, to IST1 and IST2. */
  lemma X64GateShape(vector: nat, isr: u64)
    requires vector < EXCEPTIONS && isr != 0
    ensures GateOffset(HandlerGate(isr, INTERRUPT_GATE, IstFor(vector))) == isr
    ensures HandlerGate(isr, INTERRUPT_GATE, IstFor(vector)).selector == KERNEL_CODE_SELECTOR
    ensures HandlerGate(isr, INTERRUPT_GATE, IstFor(vector)).typeAttr == INTERRUPT_GATE
    ensures HandlerGate(isr, INTERRUPT_GATE, IstFor(vector)).ist != 0 <==> vector == 8 || vector == 14
    ensures HandlerGate(isr, INTERRUPT_GATE, IstFor(vector)).ist <= 2
  {
    GateFields(isr, INTERRUPT_GATE, IstFor(vector));
  }
}
