/** The SMP bookkeeping of src/memory/smp.cpp: recording each core's local APIC ID and
    handing every application processor its own stack and the trampoline entry point. The
    boot protocol's CPU records are objects whose two output fields the kernel writes. */
module Smp {
  import opened Bits
  import opened Wrappers

  const MAX_CPUS: nat := 256
  const STACK_SIZE: nat := 8192
  const NO_CPU: u32 := 0xFFFF_FFFF

  /** One `limine_smp_info`: the core's local APIC ID, and the two fields the kernel fills for
      the core to start at `goto_address` with `extra_argument` as its argument. */
  class CpuInfo {
    const lapicId: u32
    var extraArgument: u64
    var gotoAddress: u64

    constructor (lapicId: u32)
      ensures this.lapicId == lapicId && extraArgument == 0 && gotoAddress == 0
    {
      this.lapicId := lapicId;
      extraArgument, gotoAddress := 0, 0;
    }
  }

  /** `limine_smp_response`: the reported core count, the bootstrap core's APIC ID and one
      record pointer per core (null pointers allowed). */
  datatype SmpResponse = SmpResponse(cpuCount: u64, bspLapicId: u32, cpus: seq<CpuInfo?>)

  /** The records of a response, for the frame of `init`. */
  function Records(cpus: seq<CpuInfo?>): set<CpuInfo?>
  {
    set k | 0 <= k < |cpus| :: cpus[k]
  }

  /** No record is listed twice. */
  predicate DistinctRecords(cpus: seq<CpuInfo?>)
  {
    forall j, k :: 0 <= j < k < |cpus| && cpus[j] != null ==> cpus[j] != cpus[k]
  }

  /** `&apStacks[i][8192]`: the end of core i's slot in the stack array at `stacksBase`. */
  function StackTop(stacksBase: u64, i: nat): int
  {
    stacksBase + (i + 1) * STACK_SIZE
  }

  /** Distinct cores get disjoint stacks: the 8192 bytes below the two tops do not overlap. */
  lemma StacksDisjoint(stacksBase: u64, i: nat, j: nat)
    requires i < j
    ensures StackTop(stacksBase, i) <= StackTop(stacksBase, j) - STACK_SIZE
  {
    assert (i + 1) * STACK_SIZE <= j * STACK_SIZE;
  }

  /** smp.cpp:61-67: `(ebx >> 24) & 0xFF` on CPUID leaf 1's EBX, the initial APIC ID. */
  function CurrentID(ebx: u32): (r: u32)
    ensures r < 256
    ensures r * 0x100_0000 + ebx % 0x100_0000 == ebx
  {
    (ebx / 0x100_0000) % 256
  }

  /** The ID in bits 31..24 comes back out whatever the low 24 bits hold. */
  lemma CurrentIDOfField(id: nat, low: nat)
    requires id < 256 && low < 0x100_0000
    ensures CurrentID(id * 0x100_0000 + low) == id
  {
    var ebx := id * 0x100_0000 + low;
    assert ebx / 0x100_0000 == id;
  }

  class Cores {
    /** `lapicIDs[MAX_CPUS]`, zero-initialised. */
    const lapicIDs: array<u32>
    /** `cpuCount`: the reported core count, truncated to 32 bits. */
    var cpuCount: u32
    /** The address of `apStacks` and of `trampoline`, fixed at link time. */
    const stacksBase: u64
    const trampoline: u64

    ghost predicate Valid()
      reads this
    {
      lapicIDs.Length == MAX_CPUS && stacksBase + MAX_CPUS * STACK_SIZE < TWO_64
    }

    constructor (stacksBase: u64, trampoline: u64)
      requires stacksBase + MAX_CPUS * STACK_SIZE < TWO_64
      ensures Valid() && cpuCount == 0 && fresh(lapicIDs)
      ensures this.stacksBase == stacksBase && this.trampoline == trampoline
      ensures forall k :: 0 <= k < MAX_CPUS ==> lapicIDs[k] == 0
    {
      lapicIDs := new u32[MAX_CPUS](_ => 0);
      cpuCount := 0;
      this.stacksBase, this.trampoline := stacksBase, trampoline;
    }

    /** smp.cpp:71-75 as written: the guard is `index >= cpuCount` alone, so an index of
        `MAX_CPUS` or more passes it whenever more cores were reported than fit. `None` is that
        out-of-bounds read of `lapicIDs`. */
    function GetLapicIDAsWritten(index: u32): (r: Option<u32>)
      reads this, lapicIDs
      requires Valid()
      ensures r.None? <==> MAX_CPUS <= index < cpuCount
      ensures r.Some? && index < cpuCount ==> r.value == lapicIDs[index]
      ensures index >= cpuCount ==> r == Some(NO_CPU)
    {
      if index >= cpuCount then Some(NO_CPU)
      else if index < MAX_CPUS then Some(lapicIDs[index])
      else None
    }

    /** With 257 cores reported, index 256 gets past the guard and reads past the table. */
    lemma OutOfBoundsLookup()
      requires Valid() && cpuCount == 257
      ensures GetLapicIDAsWritten(256).None?
    {
    }

    /** `getLapicID` with the bound it evidently intends: any index without a recorded entry
        answers `0xFFFFFFFF`. */
    function GetLapicID(index: u32): (r: u32)
      reads this, lapicIDs
      requires Valid()
      ensures GetLapicIDAsWritten(index).Some? ==> r == GetLapicIDAsWritten(index).value
      ensures index >= MAX_CPUS || index >= cpuCount ==> r == NO_CPU
      ensures index < MAX_CPUS && index < cpuCount ==> r == lapicIDs[index]
    {
      if index >= cpuCount || index >= MAX_CPUS then NO_CPU else lapicIDs[index]
    }

    /** smp.cpp:29-59. Nothing happens without a response or with a zero count. Otherwise
        `cpuCount` takes the reported count; every non-null record below `MAX_CPUS` has its APIC
        ID recorded, and those other than the bootstrap core are given the top of their own
        stack and the trampoline. Records at `MAX_CPUS` or above and null records are skipped. */
    method Init(response: Option<SmpResponse>)
      requires Valid()
      requires response.Some? ==> |response.value.cpus| == response.value.cpuCount
                                  && DistinctRecords(response.value.cpus)
      modifies this`cpuCount, lapicIDs, if response.Some? then Records(response.value.cpus) else {}
      ensures Valid()
      ensures response.None? || response.value.cpuCount == 0 ==>
              cpuCount == old(cpuCount) && lapicIDs[..] == old(lapicIDs[..])
      ensures response.Some? && response.value.cpuCount != 0 ==>
              cpuCount == Trunc32(response.value.cpuCount)
              && Recorded(response.value, old(lapicIDs[..]))
              && Started(response.value, cpuCount)
      ensures response.Some? && response.value.cpuCount != 0 ==>
              forall k: u32 :: k < cpuCount && k < MAX_CPUS && response.value.cpus[k] != null ==>
                GetLapicID(k) == response.value.cpus[k].lapicId
    {
      if response.None? || response.value.cpuCount == 0 {
        return;
      }
      cpuCount := Trunc32(response.value.cpuCount);
      FillRecords(response.value);
    }

    /** The table after the loop: entry k holds the APIC ID of record k when that record was
        visited and non-null, and its earlier value otherwise. */
    ghost predicate Recorded(r: SmpResponse, before: seq<u32>)
      reads this, lapicIDs, Records(r.cpus)
      requires Valid() && |before| == MAX_CPUS && cpuCount <= |r.cpus|
    {
      forall k :: 0 <= k < MAX_CPUS ==>
        lapicIDs[k] == if k < cpuCount && r.cpus[k] != null then r.cpus[k].lapicId else before[k]
    }

    /** The records after the loop: each visited non-null record below `MAX_CPUS` whose ID is
        not the bootstrap core's points at its own stack top and the trampoline. */
    twostate predicate Started(r: SmpResponse, n: nat)
      reads this, Records(r.cpus)
      requires n <= |r.cpus|
    {
      forall k :: 0 <= k < |r.cpus| && r.cpus[k] != null ==>
        if k < n && k < MAX_CPUS && r.cpus[k].lapicId != r.bspLapicId then
          r.cpus[k].extraArgument == StackTop(stacksBase, k) && r.cpus[k].gotoAddress == trampoline
        else
          r.cpus[k].extraArgument == old(r.cpus[k].extraArgument)
          && r.cpus[k].gotoAddress == old(r.cpus[k].gotoAddress)
    }

    /** smp.cpp:37-58: the loop over `i < cpuCount`. */
    method FillRecords(r: SmpResponse)
      requires Valid() && cpuCount <= |r.cpus| && DistinctRecords(r.cpus)
      modifies lapicIDs, Records(r.cpus)
      ensures Recorded(r, old(lapicIDs[..])) && Started(r, cpuCount)
    {
      var i: nat := 0;
      while i < cpuCount
        invariant i <= cpuCount
        invariant forall k :: 0 <= k < MAX_CPUS ==>
          lapicIDs[k] == if k < i && r.cpus[k] != null then r.cpus[k].lapicId else old(lapicIDs[k])
        invariant Started(r, i)
      {
        if i >= MAX_CPUS {
          i := i + 1;
          continue;
        }
        var cpu := r.cpus[i];
        if cpu == null {
          i := i + 1;
          continue;
        }
        lapicIDs[i] := cpu.lapicId;
        if cpu.lapicId == r.bspLapicId {
          i := i + 1;
          continue;
        }
        cpu.extraArgument := StackTop(stacksBase, i);
        cpu.gotoAddress := trampoline;
        i := i + 1;
      }
    }
  }
}
