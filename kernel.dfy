/** The memory-region choice of `initPaging` (kernel.cpp:90-118): the largest usable region at
    or above 1 MiB, rounded up to a frame boundary, becomes the frame allocator's pool; when no
    region qualifies the kernel halts. All arithmetic is on `uint64_t` and wraps. */
module Kernel {
  import opened Bits
  import opened Boot
  import FrameAllocator

  const LOW_MEMORY: u64 := 0x10_0000
  const FRAME_SIZE: u64 := 4096

  /** kernel.cpp:98: only usable entries at or above 1 MiB are looked at. */
  predicate Candidate(e: MemmapEntry)
  {
    e.kind == MEMMAP_USABLE && e.base >= LOW_MEMORY
  }

  /** `(base + 0xFFF) & ~0xFFFULL`, with the addition wrapping. */
  function AlignUp(b: u64): (r: u64)
    ensures r % FRAME_SIZE == 0
    ensures b <= TWO_64 - FRAME_SIZE ==> b <= r < b + FRAME_SIZE
    ensures b > TWO_64 - FRAME_SIZE ==> r == 0
  {
    Wrap64(b + 0xFFF) - Wrap64(b + 0xFFF) % FRAME_SIZE
  }

  /** `length - (alignedBase - base)`, both subtractions unsigned. */
  function AlignedSize(e: MemmapEntry): u64
  {
    Wrap64(e.length - Wrap64(AlignUp(e.base) - e.base))
  }

  /** The entry passes both tests of kernel.cpp:98-102 other than the comparison with the
      best size so far. */
  predicate Qualifies(e: MemmapEntry)
  {
    Candidate(e) && AlignedSize(e) >= FRAME_SIZE
  }

  /** One iteration of the loop: the entry replaces the choice so far when it qualifies and is
      strictly larger. */
  function Step(choice: (u64, u64), e: MemmapEntry): (u64, u64)
  {
    if Qualifies(e) && AlignedSize(e) > choice.1 then (AlignUp(e.base), AlignedSize(e)) else choice
  }

  /** `(base, size)` after the loop has looked at all of `es`, starting from (0, 0). */
  function Selected(es: seq<MemmapEntry>): (u64, u64)
  {
    if es == [] then (0, 0) else Step(Selected(es[..|es| - 1]), es[|es| - 1])
  }

  /** Every qualifying entry before index j is strictly smaller than `size`. */
  ghost predicate EarlierSmaller(es: seq<MemmapEntry>, j: nat, size: u64)
    requires j <= |es|
  {
    forall k :: 0 <= k < j && Qualifies(es[k]) ==> AlignedSize(es[k]) < size
  }

  /** Entry j is the one the loop kept: it qualifies, the choice is its rounded range, and
      every qualifying entry before it was strictly smaller (ties go to the earliest). */
  ghost predicate Winner(es: seq<MemmapEntry>, j: nat)
  {
    j < |es| && Qualifies(es[j]) && Selected(es) == (AlignUp(es[j].base), AlignedSize(es[j]))
    && EarlierSmaller(es, j, AlignedSize(es[j]))
  }

  /** No qualifying entry leaves the choice at (0, 0). */
  lemma {:induction false} SelectedNone(es: seq<MemmapEntry>)
    requires forall k :: 0 <= k < |es| ==> !Qualifies(es[k])
    ensures Selected(es) == (0, 0)
    decreases |es|
  {
    if es != [] {
      var init := es[..|es| - 1];
      assert forall k :: 0 <= k < |init| ==> init[k] == es[k];
      SelectedNone(init);
    }
  }

  /** The chosen size is at least the aligned size of every qualifying entry. */
  lemma {:induction false} SelectedLargest(es: seq<MemmapEntry>)
    ensures forall k :: 0 <= k < |es| && Qualifies(es[k]) ==> AlignedSize(es[k]) <= Selected(es).1
    decreases |es|
  {
    if es != [] {
      var init := es[..|es| - 1];
      assert forall k :: 0 <= k < |init| ==> init[k] == es[k];
      SelectedLargest(init);
      assert Selected(init).1 <= Selected(es).1;
    }
  }

  /** Unless it is (0, 0), the choice comes from the earliest of the largest qualifying
      entries. */
  lemma {:induction false} SelectedHasWinner(es: seq<MemmapEntry>)
    ensures Selected(es) == (0, 0) || exists j :: Winner(es, j)
    decreases |es|
  {
    if es != [] {
      var init := es[..|es| - 1];
      var e := es[|es| - 1];
      assert forall k :: 0 <= k < |init| ==> init[k] == es[k];
      SelectedHasWinner(init);
      if Qualifies(e) && AlignedSize(e) > Selected(init).1 {
        SelectedLargest(init);
        assert Winner(es, |es| - 1);
      } else if Selected(init) != (0, 0) {
        var j :| Winner(init, j);
        assert Winner(es, j);
      }
    }
  }

  /** The loop outcome in one statement: either no entry qualifies and the choice is (0, 0),
      or the choice is the rounded range of the earliest largest qualifying entry. */
  lemma SelectedIsEarliestLargest(es: seq<MemmapEntry>)
    ensures (forall k :: 0 <= k < |es| ==> !Qualifies(es[k])) <==> Selected(es) == (0, 0)
    ensures Selected(es) != (0, 0) ==>
      (exists j :: Winner(es, j))
      && forall k :: 0 <= k < |es| && Qualifies(es[k]) ==> AlignedSize(es[k]) <= Selected(es).1
  {
    SelectedLargest(es);
    SelectedHasWinner(es);
    if forall k :: 0 <= k < |es| ==> !Qualifies(es[k]) {
      SelectedNone(es);
    }
  }

  /** The chosen base is frame-aligned, and it is nonzero whenever some entry qualifies and no
      qualifying entry sits in the last frame below 2^64 (where the rounding wraps to 0). */
  lemma {:induction false} SelectedBase(es: seq<MemmapEntry>)
    ensures Selected(es).0 % FRAME_SIZE == 0
    ensures (exists k :: 0 <= k < |es| && Qualifies(es[k]))
            && (forall k :: 0 <= k < |es| ==> es[k].base <= TWO_64 - FRAME_SIZE) ==>
            Selected(es).0 >= LOW_MEMORY
    decreases |es|
  {
    if es != [] {
      var init := es[..|es| - 1];
      SelectedBase(init);
      SelectedIsEarliestLargest(es);
      assert forall k :: 0 <= k < |init| ==> init[k] == es[k];
    }
  }

  /** When the chosen entry was long enough to cover its own rounding, the pool lies inside
      that entry: it starts at or after the entry and ends where the entry ends. */
  lemma SelectedInsideEntry(es: seq<MemmapEntry>, j: nat)
    requires j < |es| && Qualifies(es[j])
    requires Selected(es) == (AlignUp(es[j].base), AlignedSize(es[j]))
    requires es[j].base <= TWO_64 - FRAME_SIZE && es[j].length >= AlignUp(es[j].base) - es[j].base
    ensures es[j].base <= Selected(es).0
    ensures Selected(es).0 + Selected(es).1 == es[j].base + es[j].length
  {
  }

  /** kernel.cpp:93-107: the scan over the memory map. */
  method SelectRegion(entries: seq<MemmapEntry>) returns (base: u64, size: u64)
    ensures (base, size) == Selected(entries)
  {
    base, size := 0, 0;
    for i := 0 to |entries|
      invariant (base, size) == Selected(entries[..i])
    {
      var entry := entries[i];
      assert entries[..i + 1][..i] == entries[..i];
      if entry.kind != MEMMAP_USABLE || entry.base < LOW_MEMORY {
        continue;
      }
      var alignedBase: u64 := AlignUp(entry.base);
      var alignedSize: u64 := Wrap64(entry.length - Wrap64(alignedBase - entry.base));
      if alignedSize >= FRAME_SIZE && alignedSize > size {
        base := alignedBase;
        size := alignedSize;
      }
    }
    assert entries[..|entries|] == entries;
  }

  /** kernel.cpp:90-118 up to `Paging::init`: halt when the chosen base is 0, otherwise hand
      the region to `FrameAllocator::init`. */
  method InitPaging(entries: seq<MemmapEntry>, alloc: FrameAllocator.Allocator) returns (halted: bool)
    modifies alloc
    ensures halted <==> Selected(entries).0 == 0
    ensures halted ==> unchanged(alloc) && alloc.bitmap == old(alloc.bitmap)
    ensures !halted ==> alloc.Valid() && alloc.memoryBase == Selected(entries).0
                        && alloc.memorySize == Selected(entries).1 && alloc.usedFrames == 0
                        && alloc.bits == seq(alloc.totalFrames, _ => false)
  {
    var base, size := SelectRegion(entries);
    if base == 0 {
      return true;
    }
    alloc.Init(base, size);
    return false;
  }
}
