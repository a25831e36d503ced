/** The physical frame allocator of src/memory/paging.cpp: a first-fit bitmap over
    `totalFrames` frames of 4 KiB starting at `memoryBase`, with a usage counter.

    This revision hands out PHYSICAL addresses from `Alloc`, but `Free`, `Reserve` and `Used`
    take the HHDM (higher-half direct map) virtual alias of a frame and subtract the HHDM offset
    first. The counter is adjusted unconditionally and there is no upper bound check. */
module FrameAllocator {
  import opened Bits

  const FRAME_SIZE: nat := 4096

  /** Physical address of frame i of a pool at `base` (a `uint64_t` sum). */
  function FrameAddr(base: u64, i: nat): u64
  {
    Wrap64(base + i * FRAME_SIZE)
  }

  /** The lower-bound and alignment test `free`/`reserve`/`used` apply to an HHDM address. */
  predicate Accepts(hhdm: u64, base: u64, addr: u64)
  {
    var phys := Wrap64(addr - hhdm);
    phys >= base && (phys - base) % FRAME_SIZE == 0
  }

  /** The bitmap index `free`/`reserve`/`used` compute for an accepted address. */
  function IndexOf(hhdm: u64, base: u64, addr: u64): nat
    requires Accepts(hhdm, base, addr)
  {
    (Wrap64(addr - hhdm) - base) / FRAME_SIZE
  }

  /** When a pool fits below 2^64, distinct frames have distinct addresses. */
  lemma FrameAddrInjective(base: u64, total: nat, i: nat, j: nat)
    requires base + total * FRAME_SIZE <= TWO_64
    requires i < total && j < total && i != j
    ensures FrameAddr(base, i) != FrameAddr(base, j)
  {
  }

  /** The HHDM alias of frame i's physical address passes the checks and indexes frame i:
      `free(hhdm + alloc())` releases exactly the frame that was allocated. */
  lemma {:induction false} AliasIndexesFrame(hhdm: u64, base: u64, total: nat, i: nat)
    requires base + total * FRAME_SIZE <= TWO_64
    requires i < total
    ensures Accepts(hhdm, base, Wrap64(hhdm + FrameAddr(base, i)))
    ensures IndexOf(hhdm, base, Wrap64(hhdm + FrameAddr(base, i))) == i
  {
    var p := FrameAddr(base, i);
    assert p == base + i * FRAME_SIZE;
    var v := Wrap64(hhdm + p);
    assert Wrap64(v - hhdm) == p by {
      if hhdm + p < TWO_64 {
        assert v == hhdm + p;
      } else {
        assert v == hhdm + p - TWO_64;
        assert v - hhdm == p - TWO_64;
      }
    }
    assert (p - base) / FRAME_SIZE == i;
  }

  predicate AllSet(s: seq<bool>)
  {
    forall i :: 0 <= i < |s| ==> s[i]
  }

  /** The lowest clear entry: the frame a first-fit scan picks. */
  function FirstClear(s: seq<bool>): (r: nat)
    requires !AllSet(s)
    ensures r < |s| && !s[r]
    ensures forall j :: 0 <= j < r ==> s[j]
  {
    if !s[0] then 0 else 1 + FirstClear(s[1..])
  }

  /** Number of set entries: the popcount of a bitmap view. */
  function Count(s: seq<bool>): (n: nat)
    ensures n <= |s|
  {
    if s == [] then 0 else Count(s[..|s| - 1]) + (if s[|s| - 1] then 1 else 0)
  }

  lemma {:induction false} CountUpdate(s: seq<bool>, i: nat, b: bool)
    requires i < |s|
    ensures Count(s[i := b]) == Count(s) - (if s[i] then 1 else 0) + (if b then 1 else 0)
    decreases |s|
  {
    var t := s[i := b];
    var n := |s|;
    assert t[..n - 1] == if i < n - 1 then s[..n - 1][i := b] else s[..n - 1];
    if i < n - 1 {
      CountUpdate(s[..n - 1], i, b);
    }
  }

  /** The popcount equals the length exactly when every entry is set. */
  lemma {:induction false} CountFull(s: seq<bool>)
    ensures Count(s) == |s| <==> AllSet(s)
    decreases |s|
  {
    if s != [] {
      var n := |s|;
      CountFull(s[..n - 1]);
      assert forall i :: 0 <= i < n - 1 ==> s[..n - 1][i] == s[i];
    }
  }

  lemma {:induction false} CountNone(s: seq<bool>)
    requires forall i :: 0 <= i < |s| ==> !s[i]
    ensures Count(s) == 0
    decreases |s|
  {
    if s != [] {
      CountNone(s[..|s| - 1]);
    }
  }

  /** The bitmap after k first-fit allocations from an empty pool of n frames: frames
      0 .. k-1 set. */
  function Prefix(n: nat, k: nat): seq<bool>
  {
    seq(n, i => i < k)
  }

  /** From an empty pool, allocation k gets frame k and leaves frames 0 .. k set. */
  lemma {:induction false} FirstFitPrefix(n: nat, k: nat)
    requires k < n
    ensures !AllSet(Prefix(n, k)) && FirstClear(Prefix(n, k)) == k
    ensures Prefix(n, k)[k := true] == Prefix(n, k + 1)
  {
    assert !Prefix(n, k)[k];
    FirstClearBelow(Prefix(n, k), k);
  }

  /** A clear entry with every entry below it set is the lowest clear one. */
  lemma {:induction false} FirstClearBelow(s: seq<bool>, j: nat)
    requires j < |s| && !s[j] && forall i :: 0 <= i < j ==> s[i]
    ensures !AllSet(s) && FirstClear(s) == j
    decreases j
  {
    assert !AllSet(s) by { assert !s[j]; }
    if j > 0 {
      assert s[0];
      FirstClearBelow(s[1..], j - 1);
    }
  }

  /** Clearing a frame with every frame below it in use makes it the next first-fit choice. */
  lemma ReleasedIsNext(s: seq<bool>, j: nat)
    requires j < |s| && forall i :: 0 <= i < j ==> s[i]
    ensures !AllSet(s[j := false]) && FirstClear(s[j := false]) == j
  {
    FirstClearBelow(s[j := false], j);
  }

  /** The bytes `init` clears for the bitmap: `(totalFrames + 63) / 64 * sizeof(uint64_t)`. */
  function BitmapBytes(total: nat): nat
  {
    (total + 63) / 64 * 8
  }

  /** The number of whole frames at the start of the pool that the bitmap occupies: the
      fewest frames that hold all of its bytes. */
  function BitmapFrames(total: nat): (r: nat)
    ensures r * FRAME_SIZE >= BitmapBytes(total)
    ensures r > 0 ==> (r - 1) * FRAME_SIZE < BitmapBytes(total)
  {
    (BitmapBytes(total) + FRAME_SIZE - 1) / FRAME_SIZE
  }

  /** As written, `init` places the bitmap at the HHDM alias of the pool's base but leaves its
      frames free: the first allocation from a new pool is frame 0, one of the bitmap's own
      frames, and its HHDM alias is the bitmap's address. */
  lemma FirstAllocIsBitmap(hhdm: u64, base: u64, total: nat)
    requires total >= 1
    ensures !AllSet(seq(total, _ => false))
    ensures var i := FirstClear(seq(total, _ => false));
            i < BitmapFrames(total) && Wrap64(hhdm + FrameAddr(base, i)) == Wrap64(hhdm + base)
  {
    FirstClearBelow(seq(total, _ => false), 0);
  }

  /** With the bitmap's frames marked allocated, first fit never picks one of them: the frame it
      returns lies past the bitmap's bytes. */
  lemma AllocSkipsBitmap(s: seq<bool>, base: u64)
    requires base + |s| * FRAME_SIZE <= TWO_64
    requires forall i :: 0 <= i < BitmapFrames(|s|) && i < |s| ==> s[i]
    requires !AllSet(s)
    ensures FirstClear(s) >= BitmapFrames(|s|)
    ensures FrameAddr(base, FirstClear(s)) >= base + BitmapBytes(|s|)
  {
    var r := FirstClear(s);
    var k := BitmapFrames(|s|);
    assert r >= k;
    assert r * FRAME_SIZE >= k * FRAME_SIZE;
    assert FrameAddr(base, r) == base + r * FRAME_SIZE;
  }

  /** `w & (1ULL << b)` is non-zero: bit b of a bitmap word. */
  predicate WordBit(w: u64, b: nat)
    requires b < 64
  {
    TestBit(w, b)
  }

  /** `w |= 1ULL << b`. */
  function SetBit(w: u64, b: nat): (r: u64)
    requires b < 64
    ensures WordBit(r, b)
    ensures forall c :: 0 <= c < 64 && c != b ==> WordBit(r, c) == WordBit(w, c)
  {
    Pow2Below64(b);
    SetBitEffect(w, b);
    Or64(w, Pow2(b))
  }

  /** `w &= ~(1ULL << b)`. */
  function ClearBit(w: u64, b: nat): (r: u64)
    requires b < 64
    ensures !WordBit(r, b)
    ensures forall c :: 0 <= c < 64 && c != b ==> WordBit(r, c) == WordBit(w, c)
  {
    AndNotBound(w, Pow2(b));
    ClearBitEffect(w, b);
    AndNot(w, Pow2(b))
  }

  lemma SetBitEffect(w: nat, b: nat)
    ensures forall c :: TestBit(Or(w, Pow2(b)), c) == (c == b || TestBit(w, c))
  {
    forall c
      ensures TestBit(Or(w, Pow2(b)), c) == (c == b || TestBit(w, c))
    {
      OrTestBit(w, Pow2(b), c);
      Pow2TestBit(b, c);
    }
  }

  lemma ClearBitEffect(w: nat, b: nat)
    ensures forall c :: TestBit(AndNot(w, Pow2(b)), c) == (c != b && TestBit(w, c))
  {
    forall c
      ensures TestBit(AndNot(w, Pow2(b)), c) == (c != b && TestBit(w, c))
    {
      AndNotTestBit(w, Pow2(b), c);
      Pow2TestBit(b, c);
    }
  }

  /** Frame i's bit in the bitmap: bit i % 64 of word i / 64. */
  ghost predicate FrameBit(words: seq<u64>, i: nat)
  {
    i / 64 < |words| && WordBit(words[i / 64], i % 64)
  }

  /** The bitmap words record `bits`. Only a `FrameBit` term brings a frame's bit into play. */
  ghost predicate Agrees(words: seq<u64>, bits: seq<bool>)
  {
    |words| == (|bits| + 63) / 64
    && forall i {:trigger FrameBit(words, i)} :: 0 <= i < |bits| ==> bits[i] == FrameBit(words, i)
  }

  /** Setting (or clearing) bit i % 64 of word i / 64 records the change of frame i alone. */
  lemma WordUpdate(words: seq<u64>, bits: seq<bool>, i: nat, value: bool)
    requires Agrees(words, bits) && i < |bits|
    ensures Agrees(words[i / 64 := if value then SetBit(words[i / 64], i % 64)
                                   else ClearBit(words[i / 64], i % 64)], bits[i := value])
  {
    var w := words[i / 64 := if value then SetBit(words[i / 64], i % 64) else ClearBit(words[i / 64], i % 64)];
    forall j | 0 <= j < |bits|
      ensures bits[i := value][j] == FrameBit(w, j)
    {
      assert bits[j] == FrameBit(words, j);
      if j / 64 == i / 64 && j != i {
        assert j % 64 != i % 64;
      }
    }
  }

  lemma AgreesZero(words: seq<u64>, n: nat)
    requires |words| == (n + 63) / 64 && forall w :: 0 <= w < |words| ==> words[w] == 0
    ensures Agrees(words, seq(n, _ => false))
  {
    forall i | 0 <= i < n
      ensures !FrameBit(words, i)
    {
      ZeroHasNoBits(i % 64);
    }
  }

  class Allocator {
    /** The bootloader's HHDM offset, read by free/reserve/used. */
    const hhdm: u64
    var memoryBase: u64
    var memorySize: u64
    var totalFrames: u64
    var usedFrames: u64
    /** The bitmap words; bit i % 64 of word i / 64 is set when frame i is allocated. */
    var bitmap: array<u64>
    /** The allocation state of frames 0 .. totalFrames-1, as the bitmap records it. */
    ghost var bits: seq<bool>

    ghost predicate Valid()
      reads this, bitmap
    {
      totalFrames == memorySize / FRAME_SIZE && |bits| == totalFrames && Agrees(bitmap[..], bits)
    }

    ghost predicate Full()
      reads this
    {
      AllSet(bits)
    }

    /** `usedFrames` agrees with the popcount of the bitmap. */
    ghost predicate CounterExact()
      reads this
    {
      usedFrames == Count(bits)
    }

    ghost function FreeFrames(): int
      reads this
    {
      totalFrames - Count(bits)
    }

    /** The pool lies frame-aligned above address 0 and below 2^64. The kernel's region
        selection always produces such a pool. */
    ghost predicate PoolFits()
      reads this
    {
      0 < memoryBase && memoryBase % FRAME_SIZE == 0 && memoryBase + memorySize <= TWO_64
    }

    /** The state before `init`: all statics zero, no bitmap. */
    constructor (hhdm: u64)
      ensures this.hhdm == hhdm && Valid()
      ensures memoryBase == 0 && memorySize == 0 && totalFrames == 0 && usedFrames == 0
    {
      this.hhdm := hhdm;
      memoryBase, memorySize, totalFrames, usedFrames := 0, 0, 0, 0;
      bitmap := new u64[0];
      bits := [];
    }

    /** paging.cpp:139-147. The bitmap words covering the pool are cleared; the bitmap itself
        sits at the start of the pool but is NOT reserved. */
    method Init(base: u64, size: u64)
      modifies this
      ensures Valid() && fresh(bitmap)
      ensures memoryBase == base && memorySize == size && usedFrames == 0
      ensures totalFrames == size / FRAME_SIZE
      ensures forall w :: 0 <= w < bitmap.Length ==> bitmap[w] == 0
      ensures bits == seq(totalFrames, _ => false)
      ensures CounterExact()
    {
      var words := new u64[(size / FRAME_SIZE + 63) / 64];
      for w := 0 to words.Length
        invariant forall v :: 0 <= v < w ==> words[v] == 0
      {
        words[w] := 0;
      }
      memoryBase, memorySize, totalFrames, usedFrames := base, size, size / FRAME_SIZE, 0;
      bitmap := words;
      bits := seq(totalFrames, _ => false);
      AgreesZero(words[..], totalFrames);
      CountNone(bits);
    }

    /** Corrected `init`: as `Init`, and then the frames the bitmap occupies are marked
        allocated and counted, so that no allocation can hand them out. */
    method InitReserved(base: u64, size: u64)
      modifies this
      ensures Valid() && fresh(bitmap)
      ensures memoryBase == base && memorySize == size && totalFrames == size / FRAME_SIZE
      ensures bits == seq(size / FRAME_SIZE, i => i < BitmapFrames(size / FRAME_SIZE))
      ensures CounterExact()
    {
      Init(base, size);
      var k: nat := 0;
      while k < totalFrames && k < BitmapFrames(totalFrames)
        invariant Valid() && fresh(bitmap) && k <= totalFrames && k <= BitmapFrames(size / FRAME_SIZE)
        invariant memoryBase == base && memorySize == size && totalFrames == size / FRAME_SIZE
        invariant forall i :: 0 <= i < totalFrames ==> bits[i] == (i < k)
        invariant usedFrames == k && CounterExact()
      {
        CountUpdate(bits, k, true);
        usedFrames := Wrap64(usedFrames + 1);
        WriteBit(k, true);
        k := k + 1;
      }
      var target := seq(size / FRAME_SIZE, i => i < BitmapFrames(size / FRAME_SIZE));
      forall i | 0 <= i < totalFrames
        ensures bits[i] == target[i]
      {
      }
      assert bits == target;
    }

    /** `bitmap[i / 64] |= 1ULL << (i % 64)` when `value`, else `bitmap[i / 64] &= ~(…)`:
        the one statement through which the allocator changes the bitmap. */
    method WriteBit(i: nat, value: bool)
      requires Valid() && i < totalFrames
      modifies bitmap, this`bits
      ensures Valid() && bits == old(bits)[i := value]
    {
      WordUpdate(bitmap[..], bits, i, value);
      bitmap[i / 64] := if value then SetBit(bitmap[i / 64], i % 64) else ClearBit(bitmap[i / 64], i % 64);
      bits := bits[i := value];
    }

    /** paging.cpp:149-160. First fit: the lowest clear bit is set and its physical address
        returned; 0 (null) when every bit is set. */
    method Alloc() returns (frame: u64)
      requires Valid()
      modifies bitmap, this`usedFrames, this`bits
      ensures Valid()
      ensures old(Full()) ==> frame == 0 && bits == old(bits) && usedFrames == old(usedFrames)
      ensures !old(Full()) ==>
        frame == FrameAddr(memoryBase, old(FirstClear(bits)))
        && bits == old(bits)[old(FirstClear(bits)) := true]
        && usedFrames == Wrap64(old(usedFrames) + 1)
      ensures old(CounterExact()) ==> CounterExact()
      ensures FreeFrames() == if old(Full()) then 0 else old(FreeFrames()) - 1
    {
      for i := 0 to totalFrames
        invariant forall k :: 0 <= k < i ==> bits[k]
        invariant bits == old(bits) && usedFrames == old(usedFrames) && bitmap[..] == old(bitmap[..])
      {
        assert bits[i] == FrameBit(bitmap[..], i);
        if !WordBit(bitmap[i / 64], i % 64) {
          assert FirstClear(bits) == i;
          ghost var before := bits;
          usedFrames := Wrap64(usedFrames + 1);
          WriteBit(i, true);
          CountUpdate(before, i, true);
          CountFull(before);
          return FrameAddr(memoryBase, i);
        }
      }
      CountFull(bits);
      frame := 0;
    }

    /** free/reserve/used accept an HHDM address whose physical frame passes the checks. */
    ghost predicate Accepted(addr: u64)
      reads this
    {
      Accepts(hhdm, memoryBase, addr)
    }

    /** What free/reserve/used demand and do not check: an accepted address's index is in
        the pool. */
    ghost predicate InRange(addr: u64)
      reads this
    {
      Accepts(hhdm, memoryBase, addr) ==> IndexOf(hhdm, memoryBase, addr) < totalFrames
    }

    /** paging.cpp:162-171. Clears the frame's bit and decrements the counter, even when the
        bit was already clear. */
    method Free(addr: u64)
      requires Valid() && InRange(addr)
      modifies bitmap, this`usedFrames, this`bits
      ensures Valid()
      ensures !Accepted(addr) ==> bits == old(bits) && usedFrames == old(usedFrames)
      ensures Accepted(addr) ==>
        bits == old(bits)[IndexOf(hhdm, memoryBase, addr) := false]
        && usedFrames == Wrap64(old(usedFrames) - 1)
      ensures old(CounterExact()) && Accepted(addr) ==>
        (CounterExact() <==> old(bits)[IndexOf(hhdm, memoryBase, addr)])
    {
      if !Accepts(hhdm, memoryBase, addr) {
        return;
      }
      var index := IndexOf(hhdm, memoryBase, addr);
      CountUpdate(bits, index, false);
      usedFrames := Wrap64(usedFrames - 1);
      WriteBit(index, false);
    }

    /** paging.cpp:173-182. Sets the frame's bit and increments the counter, even when the
        bit was already set. */
    method Reserve(addr: u64)
      requires Valid() && InRange(addr)
      modifies bitmap, this`usedFrames, this`bits
      ensures Valid()
      ensures !Accepted(addr) ==> bits == old(bits) && usedFrames == old(usedFrames)
      ensures Accepted(addr) ==>
        bits == old(bits)[IndexOf(hhdm, memoryBase, addr) := true]
        && usedFrames == Wrap64(old(usedFrames) + 1)
      ensures old(CounterExact()) && Accepted(addr) ==>
        (CounterExact() <==> !old(bits)[IndexOf(hhdm, memoryBase, addr)])
    {
      if !Accepts(hhdm, memoryBase, addr) {
        return;
      }
      var index := IndexOf(hhdm, memoryBase, addr);
      CountUpdate(bits, index, true);
      usedFrames := Wrap64(usedFrames + 1);
      WriteBit(index, true);
    }

    /** paging.cpp:184-192. False for a rejected address, else the frame's bit. */
    function Used(addr: u64): (r: bool)
      reads this, bitmap
      requires Valid() && InRange(addr)
      ensures r == (Accepted(addr) && bits[IndexOf(hhdm, memoryBase, addr)])
    {
      if !Accepts(hhdm, memoryBase, addr) then false
      else
        var index := IndexOf(hhdm, memoryBase, addr);
        assert bits[index] == FrameBit(bitmap[..], index);
        WordBit(bitmap[index / 64], index % 64)
    }

    /** paging.cpp:194. */
    function UsedCount(): (r: u64)
      reads this
      ensures CounterExact() ==> r == Count(bits)
    {
      usedFrames
    }

    /** paging.cpp:195. */
    function TotalCount(): (r: u64)
      reads this
      ensures Valid() ==> r == |bits| && r * FRAME_SIZE <= memorySize
    {
      totalFrames
    }

    /** From a freshly initialised pool, `totalCount()` allocations return the frames in
        address order, all distinct, and the next one returns null. */
    method ExhaustFromEmpty() returns (frames: seq<u64>, next: u64)
      requires Valid() && PoolFits() && bits == seq(totalFrames, _ => false)
      modifies bitmap, this`usedFrames, this`bits
      ensures |frames| == totalFrames
      ensures forall k :: 0 <= k < |frames| ==> frames[k] == FrameAddr(memoryBase, k)
      ensures forall j, k :: 0 <= j < k < |frames| ==> frames[j] != frames[k]
      ensures next == 0 && Full()
    {
      frames := [];
      assert bits == Prefix(totalFrames, 0);
      while |frames| < totalFrames
        invariant Valid() && |frames| <= totalFrames && bits == Prefix(totalFrames, |frames|)
        invariant forall k :: 0 <= k < |frames| ==> frames[k] == FrameAddr(memoryBase, k)
      {
        FirstFitPrefix(totalFrames, |frames|);
        var f := Alloc();
        frames := frames + [f];
      }
      next := Alloc();
      forall j, k | 0 <= j < k < |frames|
        ensures frames[j] != frames[k]
      {
        FrameAddrInjective(memoryBase, totalFrames, j, k);
      }
    }

    /** Freeing the HHDM alias of an allocated frame with every lower frame in use makes the
        next allocation return that frame's physical address again. */
    method FreeThenAlloc(i: nat) returns (frame: u64)
      requires Valid() && PoolFits() && i < totalFrames && forall k :: 0 <= k <= i ==> bits[k]
      modifies bitmap, this`usedFrames, this`bits
      ensures frame == FrameAddr(memoryBase, i)
      ensures bits == old(bits)
    {
      AliasIndexesFrame(hhdm, memoryBase, totalFrames, i);
      Free(Wrap64(hhdm + FrameAddr(memoryBase, i)));
      ReleasedIsNext(old(bits), i);
      frame := Alloc();
      assert old(bits)[i := false][i := true] == old(bits);
    }
  }
}
