/** The four-level x86-64 page tables built by src/memory/paging.cpp (Intel SDM Vol. 3A
    section 4.5, 4 KiB pages only). Tables are 512 64-bit entries; bit 0 of an entry is PRESENT,
    bits 12 and up of a present entry hold the physical frame of the next table or page. The
    kernel reaches a table through its HHDM alias, physical address + `hhdm`. */
module Paging {
  import opened Bits
  import opened Wrappers
  import opened FrameAllocator
  import opened Boot

  // PageFlags (paging.h)
  const PRESENT: u64 := 1
  const RW: u64 := 2
  const USER: u64 := 4
  const WRITE_THROUGH: u64 := 8
  const CACHE_DISABLE: u64 := 16
  const ACCESSED: u64 := 32
  const DIRTY: u64 := 64
  const HUGE: u64 := 128
  const GLOBAL: u64 := 256
  const NO_EXECUTE: u64 := 0x8000_0000_0000_0000

  const ENTRIES: nat := 512

  /** A page table: its 512 entries. */
  type Table = s: seq<u64> | |s| == ENTRIES witness seq(ENTRIES, _ => 0)

  /** A table fresh from `createPageTable`: zeroed by `memset`. */
  function Zeros(): Table
  {
    seq(ENTRIES, _ => 0)
  }

  /** `entry & PRESENT`. */
  predicate IsPresent(e: u64)
  {
    e % 2 == 1
  }

  /** `1 << (12 + 9 * (level - 1))`: the span of one entry of a table at `level`
      (4 = PML4, 3 = PDPT, 2 = PD, 1 = PT). */
  function Span(level: nat): nat
    requires 1 <= level <= 4
  {
    if level == 1 then 0x1000
    else if level == 2 then 0x20_0000
    else if level == 3 then 0x4000_0000
    else 0x80_0000_0000
  }

  /** `(virt >> shift) & 0x1FF`: the slot of `virt` in the table at `level`. */
  function Index(virt: u64, level: nat): (r: nat)
    requires 1 <= level <= 4
    ensures r < ENTRIES
  {
    (virt / Span(level)) % ENTRIES
  }

  /** The four slots a walk of `virt` visits, PML4 slot first: the 36-bit page number. */
  function PageIndices(virt: u64): seq<nat>
  {
    [Index(virt, 4), Index(virt, 3), Index(virt, 2), Index(virt, 1)]
  }

  /** `hhdm + (entry & ~0xFFF)`: the HHDM address of the table an entry points to. */
  function Child(hhdm: u64, e: u64): u64
  {
    Wrap64(hhdm + ClearLow12(e))
  }

  /** `phys | PRESENT | RW`: the entry `ensureTable` installs for a new table. */
  function TableEntry(phys: u64): u64
  {
    Or64(phys, 3)
  }

  /** `(phys & ~0xFFF) | flags`: the leaf entry `map` writes. */
  function LeafEntry(phys: u64, flags: u64): u64
  {
    Or64(ClearLow12(phys), flags)
  }

  lemma {:induction false} ClearLow12AsMultiple(x: nat)
    ensures ClearLow12(x) == (x / 4096) * Pow2(12)
  {
    Pow2Values();
  }

  /** A leaf entry is present exactly when the flags ask for PRESENT. */
  lemma LeafEntryPresent(phys: u64, flags: u64)
    ensures IsPresent(LeafEntry(phys, flags)) <==> flags % 2 == 1
  {
    ClearLow12AsMultiple(phys);
    AlignedLowBits(phys / 4096, 12, 0);
    assert TestBit(LeafEntry(phys, flags), 0) == (TestBit(ClearLow12(phys), 0) || TestBit(flags, 0));
  }

  /** With flags in the low 12 bits, the leaf entry is the frame plus the flags: the frame field
      of the entry is the frame of `phys`, and its low bits are the flags. */
  lemma LeafEntryFields(phys: u64, flags: u64)
    requires flags < 4096
    ensures LeafEntry(phys, flags) == ClearLow12(phys) + flags
    ensures ClearLow12(LeafEntry(phys, flags)) == ClearLow12(phys)
    ensures LeafEntry(phys, flags) % 4096 == flags
  {
    var q := phys / 4096;
    assert ClearLow12(phys) == q * 4096;
    OrFrame(q, flags);
    SplitFrame(q, flags);
  }

  lemma SplitFrame(q: nat, r: nat)
    requires r < 4096
    ensures (q * 4096 + r) % 4096 == r && (q * 4096 + r) / 4096 == q
    ensures (q * 4096 + r) % 2 == r % 2
  {
  }

  /** The entry installed for a frame-aligned table points back to that table and is present. */
  lemma TableEntryFields(hhdm: u64, phys: u64)
    requires phys % 4096 == 0 && hhdm + phys < TWO_64
    ensures TableEntry(phys) == phys + 3
    ensures IsPresent(TableEntry(phys)) && Child(hhdm, TableEntry(phys)) == hhdm + phys
  {
    var q := phys / 4096;
    assert phys == q * 4096;
    OrFrame(q, 3);
    SplitFrame(q, 3);
    assert ClearLow12(TableEntry(phys)) == phys;
  }

  /** The software walk `unmap` performs, from the table at `t` of the given level: the leaf
      entry of `virt` when every entry on the way, the leaf included, is present. */
  function Lookup(mem: map<u64, Table>, hhdm: u64, t: u64, level: nat, virt: u64): Option<u64>
    requires 1 <= level <= 4
    decreases level
  {
    if t !in mem then None
    else
      var e := mem[t][Index(virt, level)];
      if !IsPresent(e) then None
      else if level == 1 then Some(e)
      else Lookup(mem, hhdm, Child(hhdm, e), level - 1, virt)
  }

  /** The shape of the tables: `path[t]` is the sequence of slots leading from the PML4 to `t`,
      and every present entry of a non-leaf table points to a table one level down. */
  ghost predicate Tree(mem: map<u64, Table>, path: map<u64, seq<nat>>, hhdm: u64)
  {
    (forall t :: t in mem ==> t in path && |path[t]| <= 3)
    && (forall t, k {:trigger mem[t][k], path[t]} ::
          t in mem && |path[t]| <= 2 && 0 <= k < ENTRIES && IsPresent(mem[t][k]) ==>
          Child(hhdm, mem[t][k]) in mem
          && path[Child(hhdm, mem[t][k])] == path[t] + [k])
  }

  /** Adding a table nothing points to changes no walk. */
  lemma {:induction false} AddTable(mem: map<u64, Table>, path: map<u64, seq<nat>>, hhdm: u64,
                                    c: u64, t: u64, level: nat, virt: u64)
    requires Tree(mem, path, hhdm) && c !in mem
    requires t in mem && level == 4 - |path[t]| && 1 <= level
    ensures Lookup(mem[c := Zeros()], hhdm, t, level, virt) == Lookup(mem, hhdm, t, level, virt)
    decreases level
  {
    var e := mem[t][Index(virt, level)];
    if IsPresent(e) && level > 1 {
      assert Child(hhdm, e) in mem && path[Child(hhdm, e)] == path[t] + [Index(virt, level)];
      AddTable(mem, path, hhdm, c, Child(hhdm, e), level - 1, virt);
    }
  }

  /** Pointing an absent entry of a non-leaf table at a zeroed table changes no walk: the walks
      through that entry stop at the zeroed table instead of at the entry. */
  lemma {:induction false} Install(mem: map<u64, Table>, path: map<u64, seq<nat>>, hhdm: u64,
                                   p: u64, k: nat, x: u64, t: u64, level: nat, virt: u64)
    requires Tree(mem, path, hhdm)
    requires p in mem && |path[p]| <= 2 && k < ENTRIES && !IsPresent(mem[p][k])
    requires Child(hhdm, x) in mem && Child(hhdm, x) != p && mem[Child(hhdm, x)] == Zeros()
    requires t in mem && level == 4 - |path[t]| && 1 <= level
    ensures Lookup(mem[p := mem[p][k := x]], hhdm, t, level, virt) == Lookup(mem, hhdm, t, level, virt)
    decreases level
  {
    var m := mem[p := mem[p][k := x]];
    var e := mem[t][Index(virt, level)];
    if t == p && Index(virt, level) == k {
      if IsPresent(x) {
        assert m[Child(hhdm, x)] == Zeros();
        assert Lookup(m, hhdm, Child(hhdm, x), level - 1, virt) == None;
      }
    } else if IsPresent(e) && level > 1 {
      assert Child(hhdm, e) in mem && path[Child(hhdm, e)] == path[t] + [Index(virt, level)];
      Install(mem, path, hhdm, p, k, x, Child(hhdm, e), level - 1, virt);
    }
  }

  /** Writing a slot of a leaf table changes the walks of other pages not at all: by the paths,
      a walk reaching that slot is a walk of the same page. */
  lemma {:induction false} WriteLeaf(mem: map<u64, Table>, path: map<u64, seq<nat>>, hhdm: u64,
                                     p: u64, k: nat, x: u64, t: u64, level: nat, virt: u64)
    requires Tree(mem, path, hhdm)
    requires p in mem && |path[p]| == 3 && k < ENTRIES && path[p] + [k] != PageIndices(virt)
    requires t in mem && level == 4 - |path[t]| && 1 <= level && path[t] == PageIndices(virt)[..4 - level]
    ensures Lookup(mem[p := mem[p][k := x]], hhdm, t, level, virt) == Lookup(mem, hhdm, t, level, virt)
    decreases level
  {
    var e := mem[t][Index(virt, level)];
    assert PageIndices(virt)[..4 - level] + [Index(virt, level)] == PageIndices(virt)[..5 - level];
    if IsPresent(e) && level > 1 {
      var c := Child(hhdm, e);
      assert c in mem && path[c] == path[t] + [Index(virt, level)];
      WriteLeaf(mem, path, hhdm, p, k, x, c, level - 1, virt);
    }
  }

  lemma TreeAddTable(mem: map<u64, Table>, path: map<u64, seq<nat>>, hhdm: u64, c: u64, at: seq<nat>)
    requires Tree(mem, path, hhdm) && c !in mem && |at| <= 3
    ensures Tree(mem[c := Zeros()], path[c := at], hhdm)
  {
    var m, q := mem[c := Zeros()], path[c := at];
    forall t, k | t in m && |q[t]| <= 2 && 0 <= k < ENTRIES && IsPresent(m[t][k])
      ensures Child(hhdm, m[t][k]) in m && q[Child(hhdm, m[t][k])] == q[t] + [k]
    {
      assert t != c;
    }
  }

  lemma TreeInstall(mem: map<u64, Table>, path: map<u64, seq<nat>>, hhdm: u64, p: u64, k: nat, x: u64)
    requires Tree(mem, path, hhdm)
    requires p in mem && |path[p]| <= 2 && k < ENTRIES
    requires IsPresent(x) && Child(hhdm, x) in mem && path[Child(hhdm, x)] == path[p] + [k]
    ensures Tree(mem[p := mem[p][k := x]], path, hhdm)
  {
  }

  lemma TreeWriteLeaf(mem: map<u64, Table>, path: map<u64, seq<nat>>, hhdm: u64, p: u64, k: nat, x: u64)
    requires Tree(mem, path, hhdm)
    requires p in mem && |path[p]| == 3 && k < ENTRIES
    ensures Tree(mem[p := mem[p][k := x]], path, hhdm)
  {
  }

  /** Every table is the HHDM alias of an allocated frame of the pool at `base`: table t sits
      on frame `frameOf[t]`. */
  ghost predicate InPool(frameOf: map<u64, nat>, keys: set<u64>, hhdm: u64, base: u64, bits: seq<bool>)
  {
    (forall t :: t in keys ==> t in frameOf)
    && forall t {:trigger frameOf[t]} :: t in frameOf ==>
         frameOf[t] < |bits| && bits[frameOf[t]] && t == hhdm + base + frameOf[t] * FRAME_SIZE
  }

  /** Allocating a free frame gives a table address that is new and keeps the invariant. */
  lemma InPoolAlloc(frameOf: map<u64, nat>, keys: set<u64>, hhdm: u64, base: u64, bits: seq<bool>,
                    i: nat, c: u64)
    requires InPool(frameOf, keys, hhdm, base, bits) && i < |bits| && !bits[i]
    requires c == hhdm + base + i * FRAME_SIZE
    ensures c !in keys
    ensures InPool(frameOf[c := i], keys + {c}, hhdm, base, bits[i := true])
  {
    forall t | t in frameOf
      ensures t == c ==> frameOf[t] == i
    {
      assert frameOf[t] < |bits| && bits[frameOf[t]];
    }
  }

  /** A table of the pool is frame aligned in the HHDM window. */
  lemma TableAligned(frameOf: map<u64, nat>, keys: set<u64>, hhdm: u64, base: u64, bits: seq<bool>, t: u64)
    requires InPool(frameOf, keys, hhdm, base, bits) && 0 < base && base % FRAME_SIZE == 0 && t in keys
    ensures t >= hhdm && (t - hhdm) % FRAME_SIZE == 0 && t > hhdm
  {
    assert (t - hhdm) == base + frameOf[t] * FRAME_SIZE;
  }

  /** Adding a zeroed table on a frame just allocated keeps the shape and the pool invariant,
      and changes no walk. */
  lemma AddNewTable(mem: map<u64, Table>, path: map<u64, seq<nat>>, frameOf: map<u64, nat>, hhdm: u64,
                    base: u64, bits: seq<bool>, i: nat, c: u64, at: seq<nat>, root: u64)
    requires Tree(mem, path, hhdm) && InPool(frameOf, mem.Keys, hhdm, base, bits)
    requires i < |bits| && !bits[i] && c == hhdm + base + i * FRAME_SIZE && |at| <= 3
    ensures c !in mem
    ensures Tree(mem[c := Zeros()], path[c := at], hhdm)
    ensures InPool(frameOf[c := i], mem[c := Zeros()].Keys, hhdm, base, bits[i := true])
    ensures root in mem && path[root] == [] ==>
      forall v :: Lookup(mem[c := Zeros()], hhdm, root, 4, v) == Lookup(mem, hhdm, root, 4, v)
  {
    InPoolAlloc(frameOf, mem.Keys, hhdm, base, bits, i, c);
    assert mem[c := Zeros()].Keys == mem.Keys + {c};
    TreeAddTable(mem, path, hhdm, c, at);
    forall v | root in mem && path[root] == []
      ensures Lookup(mem[c := Zeros()], hhdm, root, 4, v) == Lookup(mem, hhdm, root, 4, v)
    {
      AddTable(mem, path, hhdm, c, root, 4, v);
    }
  }

  /** Linking a zeroed table below an absent slot of a non-leaf table keeps the shape, makes
      the slot present and pointing at it, and changes no walk. */
  lemma LinkTable(mem: map<u64, Table>, path: map<u64, seq<nat>>, hhdm: u64, root: u64,
                  p: u64, k: nat, c: u64)
    requires Tree(mem, path, hhdm)
    requires p in mem && |path[p]| <= 2 && k < ENTRIES && !IsPresent(mem[p][k])
    requires c in mem && c != p && mem[c] == Zeros() && path[c] == path[p] + [k]
    requires c >= hhdm && (c - hhdm) % FRAME_SIZE == 0
    ensures IsPresent(TableEntry(c - hhdm)) && Child(hhdm, TableEntry(c - hhdm)) == c
    ensures Tree(mem[p := mem[p][k := TableEntry(c - hhdm)]], path, hhdm)
    ensures mem[p := mem[p][k := TableEntry(c - hhdm)]].Keys == mem.Keys
    ensures root in mem && path[root] == [] ==> forall v ::
      Lookup(mem[p := mem[p][k := TableEntry(c - hhdm)]], hhdm, root, 4, v) == Lookup(mem, hhdm, root, 4, v)
  {
    var phys: u64 := c - hhdm;
    TableEntryFields(hhdm, phys);
    var x := TableEntry(phys);
    forall v | root in mem && path[root] == []
      ensures Lookup(mem[p := mem[p][k := x]], hhdm, root, 4, v) == Lookup(mem, hhdm, root, 4, v)
    {
      Install(mem, path, hhdm, p, k, x, root, 4, v);
    }
    TreeInstall(mem, path, hhdm, p, k, x);
  }

  /** The walk of `virt` goes root -> t3 -> t2 -> t1 through present entries. */
  ghost predicate Links(mem: map<u64, Table>, hhdm: u64, root: u64, t3: u64, t2: u64, t1: u64, virt: u64)
  {
    root in mem && t3 in mem && t2 in mem && t1 in mem
    && IsPresent(mem[root][Index(virt, 4)]) && Child(hhdm, mem[root][Index(virt, 4)]) == t3
    && IsPresent(mem[t3][Index(virt, 3)]) && Child(hhdm, mem[t3][Index(virt, 3)]) == t2
    && IsPresent(mem[t2][Index(virt, 2)]) && Child(hhdm, mem[t2][Index(virt, 2)]) == t1
  }

  /** A walk along such links ends at the leaf slot of `t1`. */
  lemma WalkChain(mem: map<u64, Table>, hhdm: u64, root: u64, t3: u64, t2: u64, t1: u64, virt: u64)
    requires Links(mem, hhdm, root, t3, t2, t1, virt)
    ensures Lookup(mem, hhdm, root, 4, virt) ==
      if IsPresent(mem[t1][Index(virt, 1)]) then Some(mem[t1][Index(virt, 1)]) else None
  {
    assert Lookup(mem, hhdm, root, 4, virt) == Lookup(mem, hhdm, t3, 3, virt);
    assert Lookup(mem, hhdm, t3, 3, virt) == Lookup(mem, hhdm, t2, 2, virt);
    assert Lookup(mem, hhdm, t2, 2, virt) == Lookup(mem, hhdm, t1, 1, virt);
  }

  /** The leaf table `unmap` reaches for `virt` from `root`: None when the PML4, PDPT or PD
      entry on the way is not present. */
  function LeafTable(mem: map<u64, Table>, hhdm: u64, root: u64, virt: u64): Option<u64>
  {
    if root !in mem || !IsPresent(mem[root][Index(virt, 4)]) then None
    else
      var t3 := Child(hhdm, mem[root][Index(virt, 4)]);
      if t3 !in mem || !IsPresent(mem[t3][Index(virt, 3)]) then None
      else
        var t2 := Child(hhdm, mem[t3][Index(virt, 3)]);
        if t2 !in mem || !IsPresent(mem[t2][Index(virt, 2)]) then None
        else Some(Child(hhdm, mem[t2][Index(virt, 2)]))
  }

  /** The walk to the leaf table and then the leaf slot is the whole walk: `virt` translates
      exactly when the leaf table is reached and its slot is present. */
  lemma LeafTableLookup(mem: map<u64, Table>, hhdm: u64, root: u64, virt: u64)
    ensures Lookup(mem, hhdm, root, 4, virt) ==
      match LeafTable(mem, hhdm, root, virt)
      case None => None
      case Some(t1) =>
        if t1 in mem && IsPresent(mem[t1][Index(virt, 1)]) then Some(mem[t1][Index(virt, 1)]) else None
  {
  }

  /** In a tree, the tables linked on the walk of `virt` sit at the prefixes of its indices. */
  lemma LinksPaths(mem: map<u64, Table>, path: map<u64, seq<nat>>, hhdm: u64,
                   root: u64, t3: u64, t2: u64, t1: u64, virt: u64)
    requires Tree(mem, path, hhdm) && Links(mem, hhdm, root, t3, t2, t1, virt) && path[root] == []
    ensures |path[t3]| == 1 && |path[t2]| == 2 && path[t1] + [Index(virt, 1)] == PageIndices(virt)
  {
    assert path[t3] == [Index(virt, 4)];
    assert path[t2] == path[t3] + [Index(virt, 3)];
    assert path[t1] == path[t2] + [Index(virt, 2)];
  }

  /** The memory-map types `Paging::init` covers with the HHDM direct map. */
  predicate InDirectMap(e: MemmapEntry)
  {
    e.kind == MEMMAP_USABLE || e.kind == MEMMAP_BOOTLOADER_RECLAIMABLE
    || e.kind == MEMMAP_ACPI_RECLAIMABLE || e.kind == MEMMAP_FRAMEBUFFER
  }

  /** `entry->base + entry->length` in `uint64_t`. */
  function EntryEnd(e: MemmapEntry): u64
  {
    Wrap64(e.base + e.length)
  }

  /** The `maxPhys` fold of `Paging::init` over the given entries, taken in order. */
  function MaxPhys(es: seq<MemmapEntry>): u64
  {
    if |es| == 0 then 0
    else
      var m := MaxPhys(es[..|es| - 1]);
      var e := es[|es| - 1];
      if InDirectMap(e) && EntryEnd(e) > m then EntryEnd(e) else m
  }

  /** `maxPhys` is at least the end of every covered entry. */
  lemma {:induction false} MaxPhysBound(es: seq<MemmapEntry>)
    ensures forall i :: 0 <= i < |es| && InDirectMap(es[i]) ==> EntryEnd(es[i]) <= MaxPhys(es)
  {
    if |es| > 0 {
      var init := es[..|es| - 1];
      MaxPhysBound(init);
      forall i | 0 <= i < |es| - 1 && InDirectMap(es[i])
        ensures EntryEnd(es[i]) <= MaxPhys(es)
      {
        assert es[i] == init[i];
      }
    }
  }

  /** `maxPhys` is 0 or the end of some covered entry: it is the largest such end. */
  lemma {:induction false} MaxPhysAttained(es: seq<MemmapEntry>)
    ensures MaxPhys(es) == 0
      || exists i :: 0 <= i < |es| && InDirectMap(es[i]) && EntryEnd(es[i]) == MaxPhys(es)
  {
    if |es| > 0 {
      var init := es[..|es| - 1];
      MaxPhysAttained(init);
      if MaxPhys(es) != 0 && MaxPhys(es) == MaxPhys(init) {
        var i :| 0 <= i < |init| && InDirectMap(init[i]) && EntryEnd(init[i]) == MaxPhys(init);
        assert es[i] == init[i];
      }
    }
  }

  /** paging.cpp:74-79: the end of the highest covered memory-map range. */
  method ComputeMaxPhys(entries: seq<MemmapEntry>) returns (maxPhys: u64)
    ensures maxPhys == MaxPhys(entries)
  {
    maxPhys := 0;
    for i := 0 to |entries|
      invariant maxPhys == MaxPhys(entries[..i])
    {
      assert entries[..i + 1][..i] == entries[..i];
      var e := entries[i];
      if InDirectMap(e) {
        var end := Wrap64(e.base + e.length);
        if end > maxPhys {
          maxPhys := end;
        }
      }
    }
    assert entries[..|entries|] == entries;
  }

  /** The address `k` steps of `FRAME_SIZE` after `start`, in `uint64_t`. */
  function PageAt(start: u64, k: nat): u64
  {
    Wrap64(start + k * FRAME_SIZE)
  }

  /** The loops step a 64-bit offset by a page: after n steps it is page n of the run. */
  lemma PageAtOffset(start: u64, offset: u64, n: nat)
    requires offset == n * FRAME_SIZE
    ensures PageAt(start, n) == Wrap64(start + offset) && PageAt(0, n) == offset
  {
  }

  /** How many times a loop `for (x = start; x < limit; x += FRAME_SIZE)` runs. */
  function Steps(start: u64, limit: u64): nat
  {
    if start < limit then (limit - start + FRAME_SIZE - 1) / FRAME_SIZE else 0
  }

  /** No page `PageAt(start, k)` with k < n occupies the page slots of `v`. */
  ghost predicate Untouched(v: u64, start: u64, n: nat)
  {
    forall k {:trigger PageAt(start, k)} :: 0 <= k < n ==> PageIndices(v) != PageIndices(PageAt(start, k))
  }

  /** `PageFlags::PRESENT | PageFlags::RW`: the flags every page `Paging::init` maps gets. */
  const BOOT_FLAGS: u64 := 3

  /** How many pages the four slots can tell apart: 2^36, a 48-bit space of 4 KiB pages. */
  const PAGE_NUMBERS: nat := 0x10_0000_0000

  /** Bits 12..47 of `virt`, the number its four slots encode. */
  function PageNumber(virt: u64): nat
  {
    (virt / FRAME_SIZE) % PAGE_NUMBERS
  }

  /** The four slots are the base-512 digits of the page number. */
  lemma PageNumberDigits(virt: u64)
    ensures PageNumber(virt) == Index(virt, 1) + 512 * (Index(virt, 2) + 512 * (Index(virt, 3) + 512 * Index(virt, 4)))
  {
    var x := virt / FRAME_SIZE;
    DivModSplit(virt, 0x1000, 512);
    DivModSplit(virt, 0x20_0000, 512);
    DivModSplit(virt, 0x4000_0000, 512);
    DivModSplit(x, 512, 0x800_0000);
    DivModSplit(x / 512, 512, 0x4_0000);
    DivModSplit(x / 512 / 512, 512, 512);
  }

  /** Two addresses with the same slots have the same page number. */
  lemma SlotsDetermineNumber(v: u64, w: u64)
    ensures PageIndices(v) == PageIndices(w) ==> PageNumber(v) == PageNumber(w)
  {
    PageNumberDigits(v);
    PageNumberDigits(w);
    if PageIndices(v) == PageIndices(w) {
      assert PageIndices(v)[0] == PageIndices(w)[0] && PageIndices(v)[1] == PageIndices(w)[1];
      assert PageIndices(v)[2] == PageIndices(w)[2] && PageIndices(v)[3] == PageIndices(w)[3];
    }
  }

  /** Conversely, the page number fixes the slots: they are its base-512 digits. */
  lemma NumberDeterminesSlots(v: u64, w: u64)
    ensures PageNumber(v) == PageNumber(w) ==> PageIndices(v) == PageIndices(w)
  {
    PageNumberDigits(v);
    PageNumberDigits(w);
    var p := PageNumber(v);
    if p == PageNumber(w) {
      var qv, qw := Index(v, 2) + 512 * (Index(v, 3) + 512 * Index(v, 4)), Index(w, 2) + 512 * (Index(w, 3) + 512 * Index(w, 4));
      DivModUnique(p, 512, qv, Index(v, 1));
      DivModUnique(p, 512, qw, Index(w, 1));
      var rv, rw := Index(v, 3) + 512 * Index(v, 4), Index(w, 3) + 512 * Index(w, 4);
      DivModUnique(qv, 512, rv, Index(v, 2));
      DivModUnique(qv, 512, rw, Index(w, 2));
      DivModUnique(rv, 512, Index(v, 4), Index(v, 3));
      DivModUnique(rv, 512, Index(w, 4), Index(w, 3));
    }
  }

  /** The window of `Current` is as wide as it can be: page k + 2^36 of a run takes the slots
      of page k, so a loop of more than 2^36 pages remaps its earliest pages. */
  lemma PagesCollide(start: u64, k: nat)
    ensures PageIndices(PageAt(start, k + PAGE_NUMBERS)) == PageIndices(PageAt(start, k))
  {
    PageNumberAt(start, k);
    PageNumberAt(start, k + PAGE_NUMBERS);
    var x := start / FRAME_SIZE + k;
    DivModUnique(x + PAGE_NUMBERS, PAGE_NUMBERS, x / PAGE_NUMBERS + 1, x % PAGE_NUMBERS);
    NumberDeterminesSlots(PageAt(start, k + PAGE_NUMBERS), PageAt(start, k));
  }

  /** Stepping k pages from `start` in `uint64_t` advances the page number by k, modulo 2^36. */
  lemma PageNumberAt(start: u64, k: nat)
    ensures PageNumber(PageAt(start, k)) == (start / FRAME_SIZE + k) % PAGE_NUMBERS
  {
    var y := start + k * FRAME_SIZE;
    var z := start / FRAME_SIZE + k;
    DivModUnique(y, FRAME_SIZE, z, start % FRAME_SIZE);
    DivModSplit(y, FRAME_SIZE, 0x10_0000_0000_0000);
    DivModUnique(y % TWO_64, FRAME_SIZE, z % 0x10_0000_0000_0000, start % FRAME_SIZE);
    DivModSplit(z, PAGE_NUMBERS, 0x1_0000);
    DivModUnique(z % 0x10_0000_0000_0000, PAGE_NUMBERS, (z / PAGE_NUMBERS) % 0x1_0000, z % PAGE_NUMBERS);
  }

  lemma NumbersApart(x: nat, j: nat, k: nat)
    requires j < k < j + PAGE_NUMBERS
    ensures (x + j) % PAGE_NUMBERS != (x + k) % PAGE_NUMBERS
  {
    var d := (x + k) / PAGE_NUMBERS - (x + j) / PAGE_NUMBERS;
    assert k - j == d * PAGE_NUMBERS + ((x + k) % PAGE_NUMBERS - (x + j) % PAGE_NUMBERS);
  }

  /** Two pages of a run fewer than 2^36 pages apart never share their slots. */
  lemma PagesApart(start: u64, j: nat, k: nat)
    requires j < k < j + PAGE_NUMBERS
    ensures PageIndices(PageAt(start, j)) != PageIndices(PageAt(start, k))
  {
    PageNumberAt(start, j);
    PageNumberAt(start, k);
    NumbersApart(start / FRAME_SIZE, j, k);
    SlotsDetermineNumber(PageAt(start, j), PageAt(start, k));
  }

  /** Page k is among the last 2^36 pages of a run of n: no later page of the run shares its
      slots (`PagesApart`), so a loop over the run leaves it mapped where step k put it. */
  predicate Current(k: nat, n: nat)
  {
    n - PAGE_NUMBERS <= k < n
  }

  /** The framebuffer range `Paging::init` identity-maps: from the first framebuffer's address
      to `address + pitch * height` in `uint64_t`; empty without a framebuffer. */
  function FramebufferRange(fbs: Option<seq<Framebuffer>>): (u64, u64)
  {
    if fbs.Some? && |fbs.value| > 0 then
      var fb := fbs.value[0];
      (fb.address, Wrap64(fb.address + Wrap64(fb.pitch as int * fb.height as int)))
    else (0, 0)
  }

  /** `v` shares its page slots with no page the loops of `Paging::init` map. */
  ghost predicate OutsideBootRanges(v: u64, hhdm: u64, kernelPhys: u64, kernelVirt: u64, kernelSize: u64,
                                    fbs: Option<seq<Framebuffer>>, entries: seq<MemmapEntry>)
  {
    var (fbBase, fbLimit) := FramebufferRange(fbs);
    Untouched(v, kernelPhys, Steps(0, kernelSize)) && Untouched(v, kernelVirt, Steps(0, kernelSize))
    && Untouched(v, fbBase, Steps(fbBase, fbLimit))
    && Untouched(v, hhdm, Steps(0, MaxPhys(entries)))
  }

  /** The number of `map` calls `Paging::init` makes after creating the root. */
  function BootPages(kernelSize: u64, fbs: Option<seq<Framebuffer>>, entries: seq<MemmapEntry>): nat
  {
    var (fbBase, fbLimit) := FramebufferRange(fbs);
    2 * Steps(0, kernelSize) + Steps(fbBase, fbLimit) + Steps(0, MaxPhys(entries))
  }

  /** `v` shares its slots with none of the pages the framebuffer and HHDM loops map. */
  ghost predicate MissesLaterLoops(v: u64, hhdm: u64, fbs: Option<seq<Framebuffer>>, entries: seq<MemmapEntry>)
  {
    var (fbBase, fbLimit) := FramebufferRange(fbs);
    Untouched(v, fbBase, Steps(fbBase, fbLimit)) && Untouched(v, hhdm, Steps(0, MaxPhys(entries)))
  }

  /** The translation of `virt` by the tables `mem` under the root `root` (none while 0). */
  ghost function TranslateIn(mem: map<u64, Table>, hhdm: u64, root: u64, virt: u64): Option<u64>
  {
    if root != 0 && root in mem then Lookup(mem, hhdm, root, 4, virt) else None
  }

  /** The tables `m1` translate every address outside the slots of `x` as `m0` does. */
  ghost predicate SameExcept(m1: map<u64, Table>, m0: map<u64, Table>, hhdm: u64, root: u64, x: u64)
  {
    forall v :: PageIndices(v) != PageIndices(x) ==> TranslateIn(m1, hhdm, root, v) == TranslateIn(m0, hhdm, root, v)
  }

  /** Addresses clear of the first `na` pages from `a` and the first `no` from `o` translate
      under `m1` as under `m0`. */
  ghost predicate SameOutside(m1: map<u64, Table>, m0: map<u64, Table>, hhdm: u64, root: u64,
                              a: u64, na: nat, o: u64, no: nat)
  {
    forall v :: Untouched(v, a, na) && Untouched(v, o, no) ==>
                TranslateIn(m1, hhdm, root, v) == TranslateIn(m0, hhdm, root, v)
  }

  /** Every current page k of the run of n pages from `a` that is clear of the first `no`
      pages from `o` reaches the frame `PageAt(f, k)` with the boot flags. */
  ghost predicate Reaches(m: map<u64, Table>, hhdm: u64, root: u64, a: u64, f: u64, n: nat, o: u64, no: nat)
  {
    forall k: nat {:trigger PageAt(a, k)} :: Current(k, n) && Untouched(PageAt(a, k), o, no) ==>
      TranslateIn(m, hhdm, root, PageAt(a, k)) == Some(LeafEntry(PageAt(f, k), BOOT_FLAGS))
  }

  /** Mapping page n of a run to its frame extends the pages that reach their frames by one:
      the earlier current pages are fewer than 2^36 pages away and keep their slots. */
  lemma ExtendRun(m1: map<u64, Table>, m0: map<u64, Table>, hhdm: u64, root: u64,
                  a: u64, f: u64, n: nat, o: u64, no: nat)
    requires SameExcept(m1, m0, hhdm, root, PageAt(a, n))
    requires TranslateIn(m1, hhdm, root, PageAt(a, n)) == Some(LeafEntry(PageAt(f, n), BOOT_FLAGS))
    requires Reaches(m0, hhdm, root, a, f, n, o, no)
    ensures Reaches(m1, hhdm, root, a, f, n + 1, o, no)
  {
    forall k: nat | Current(k, n + 1) && Untouched(PageAt(a, k), o, no)
      ensures TranslateIn(m1, hhdm, root, PageAt(a, k)) == Some(LeafEntry(PageAt(f, k), BOOT_FLAGS))
    {
      if k < n {
        PagesApart(a, k, n);
        assert Current(k, n);
      }
    }
  }

  /** Mapping page `no` of the other run keeps the pages of this run that are clear of it. */
  lemma KeepRun(m1: map<u64, Table>, m0: map<u64, Table>, hhdm: u64, root: u64,
                a: u64, f: u64, n: nat, o: u64, no: nat)
    requires SameExcept(m1, m0, hhdm, root, PageAt(o, no))
    requires Reaches(m0, hhdm, root, a, f, n, o, no)
    ensures Reaches(m1, hhdm, root, a, f, n, o, no + 1)
  {
    forall k: nat | Current(k, n) && Untouched(PageAt(a, k), o, no + 1)
      ensures TranslateIn(m1, hhdm, root, PageAt(a, k)) == Some(LeafEntry(PageAt(f, k), BOOT_FLAGS))
    {
      assert PageIndices(PageAt(a, k)) != PageIndices(PageAt(o, no));
      assert Untouched(PageAt(a, k), o, no);
    }
  }

  /** Mapping the next page from `a` moves the untouched region of the tables by that page. */
  lemma OutsideStep(m1: map<u64, Table>, mb: map<u64, Table>, m0: map<u64, Table>, hhdm: u64, root: u64,
                    a: u64, na: nat, o: u64, no: nat)
    requires SameExcept(m1, mb, hhdm, root, PageAt(a, na))
    requires SameOutside(mb, m0, hhdm, root, a, na, o, no)
    ensures SameOutside(m1, m0, hhdm, root, a, na + 1, o, no)
  {
    forall v | Untouched(v, a, na + 1) && Untouched(v, o, no)
      ensures TranslateIn(m1, hhdm, root, v) == TranslateIn(m0, hhdm, root, v)
    {
      assert PageIndices(v) != PageIndices(PageAt(a, na));
      assert Untouched(v, a, na);
    }
  }

  /** The same for the next page from `o`. */
  lemma OutsideStepOther(m1: map<u64, Table>, mb: map<u64, Table>, m0: map<u64, Table>, hhdm: u64, root: u64,
                         a: u64, na: nat, o: u64, no: nat)
    requires SameExcept(m1, mb, hhdm, root, PageAt(o, no))
    requires SameOutside(mb, m0, hhdm, root, a, na, o, no)
    ensures SameOutside(m1, m0, hhdm, root, a, na, o, no + 1)
  {
    forall v | Untouched(v, a, na) && Untouched(v, o, no + 1)
      ensures TranslateIn(m1, hhdm, root, v) == TranslateIn(m0, hhdm, root, v)
    {
      assert PageIndices(v) != PageIndices(PageAt(o, no));
      assert Untouched(v, o, no);
    }
  }

  /** The walk reads `virt` only through its four slots. */
  lemma {:induction false} LookupSlots(mem: map<u64, Table>, hhdm: u64, t: u64, level: nat, v: u64, w: u64)
    requires 1 <= level <= 4 && PageIndices(v) == PageIndices(w)
    ensures Lookup(mem, hhdm, t, level, v) == Lookup(mem, hhdm, t, level, w)
    decreases level
  {
    assert Index(v, level) == Index(w, level) by {
      assert PageIndices(v)[4 - level] == PageIndices(w)[4 - level];
    }
    if level > 1 && t in mem {
      LookupSlots(mem, hhdm, Child(hhdm, mem[t][Index(v, level)]), level - 1, v, w);
    }
  }

  /** The paging state: the frame allocator the tables come from, the tables by HHDM address,
      and `pml4`, the HHDM address of the root table (0 while there is none). */
  class AddressSpace {
    const hhdm: u64
    const alloc: Allocator
    var pml4: u64
    var mem: map<u64, Table>
    ghost var path: map<u64, seq<nat>>
    ghost var frameOf: map<u64, nat>

    ghost predicate Valid()
      reads this, alloc, alloc.bitmap
    {
      alloc.Valid() && alloc.PoolFits() && alloc.hhdm == hhdm
      && hhdm + alloc.memoryBase + alloc.memorySize <= TWO_64
      && Tree(mem, path, hhdm)
      && InPool(frameOf, mem.Keys, hhdm, alloc.memoryBase, alloc.bits)
      && (pml4 != 0 ==> pml4 in mem && path[pml4] == [])
    }

    /** What the hardware would translate `virt` through: the present leaf entry, if any. */
    ghost function Translate(virt: u64): Option<u64>
      reads this
    {
      TranslateIn(mem, hhdm, pml4, virt)
    }

    /** The state of a loop that has mapped the first n pages of the run `PageAt(virtStart, k)`
        to `PageAt(physStart, k)`, started with the tables `m0` and `free0` free frames: pages
        not reached translate as under `m0`; if no walk ran out of frames (`whole`), every
        current page of the run translates to its frame; at most three frames per page went. */
    ghost predicate LinearRun(virtStart: u64, physStart: u64, n: nat, m0: map<u64, Table>, free0: int, whole: bool)
      reads this, alloc, alloc.bitmap
    {
      Valid() && pml4 != 0
      && SameOutside(mem, m0, hhdm, pml4, virtStart, n, virtStart, 0)
      && (whole ==> Reaches(mem, hhdm, pml4, virtStart, physStart, n, virtStart, 0))
      && alloc.FreeFrames() >= free0 - 3 * n && (!whole ==> free0 < 3 * n)
    }

    /** The same for the kernel loop, which maps page k at both its physical and its virtual
        address: after `np` physical and `nv` virtual pages, a current page of either run that
        no mapped page of the other run shares slots with reaches its frame. */
    ghost predicate KernelRun(physStart: u64, virtStart: u64, np: nat, nv: nat, m0: map<u64, Table>, free0: int,
                              whole: bool)
      reads this, alloc, alloc.bitmap
    {
      Valid() && pml4 != 0
      && SameOutside(mem, m0, hhdm, pml4, physStart, np, virtStart, nv)
      && (whole ==> Reaches(mem, hhdm, pml4, virtStart, physStart, nv, physStart, np))
      && (whole ==> Reaches(mem, hhdm, pml4, physStart, physStart, np, virtStart, nv))
      && alloc.FreeFrames() >= free0 - 3 * (np + nv) && (!whole ==> free0 < 3 * (np + nv))
    }

    /** Before `Paging::init`: no tables. */
    constructor (alloc: Allocator)
      requires alloc.Valid() && alloc.PoolFits()
      requires alloc.hhdm + alloc.memoryBase + alloc.memorySize <= TWO_64
      ensures Valid() && this.alloc == alloc && hhdm == alloc.hhdm
      ensures pml4 == 0 && mem == map[]
    {
      this.hhdm := alloc.hhdm;
      this.alloc := alloc;
      pml4 := 0;
      mem := map[];
      path := map[];
      frameOf := map[];
    }

    /** A new frame of the pool lies inside the HHDM window. */
    lemma NewFrame(i: nat)
      requires Valid() && i < alloc.totalFrames
      ensures FrameAddr(alloc.memoryBase, i) == alloc.memoryBase + i * FRAME_SIZE
      ensures FrameAddr(alloc.memoryBase, i) % 4096 == 0 && FrameAddr(alloc.memoryBase, i) > 0
      ensures hhdm + FrameAddr(alloc.memoryBase, i) + FRAME_SIZE <= TWO_64
    {
      assert i * FRAME_SIZE + FRAME_SIZE <= alloc.memorySize;
    }

    /** paging.cpp:22-31. A frame from the allocator, zeroed and seen through the HHDM;
        0 when the allocator is out of frames. `at` is where the caller will link it. */
    method CreatePageTable(ghost at: seq<nat>) returns (table: u64)
      requires Valid() && |at| <= 3
      modifies this`mem, this`path, this`frameOf, alloc.bitmap, alloc`usedFrames, alloc`bits
      ensures Valid()
      ensures table == 0 <==> old(alloc.Full())
      ensures table == 0 ==> mem == old(mem) && path == old(path) && alloc.bits == old(alloc.bits)
      ensures table != 0 ==>
        table == hhdm + FrameAddr(alloc.memoryBase, old(FirstClear(alloc.bits)))
        && table !in old(mem)
        && mem == old(mem)[table := Zeros()] && path == old(path)[table := at]
        && alloc.bits == old(alloc.bits)[old(FirstClear(alloc.bits)) := true]
      ensures alloc.FreeFrames() == if table == 0 then 0 else old(alloc.FreeFrames()) - 1
      ensures forall v :: Translate(v) == old(Translate(v))
    {
      ghost var i := if alloc.Full() then 0 else FirstClear(alloc.bits);
      ghost var bits := alloc.bits;
      if !alloc.Full() {
        NewFrame(i);
      }
      var frame := alloc.Alloc();
      if frame == 0 {
        return 0;
      }
      table := Wrap64(frame + hhdm);
      assert table == hhdm + alloc.memoryBase + i * FRAME_SIZE;
      ZeroTable(table, i, bits, at);
    }

    /** `memset(table, 0, FRAME_SIZE)` on the frame just allocated, which becomes a table. */
    method ZeroTable(table: u64, ghost i: nat, ghost bits: seq<bool>, ghost at: seq<nat>)
      requires alloc.Valid() && alloc.PoolFits() && alloc.hhdm == hhdm
      requires hhdm + alloc.memoryBase + alloc.memorySize <= TWO_64
      requires Tree(mem, path, hhdm) && InPool(frameOf, mem.Keys, hhdm, alloc.memoryBase, bits)
      requires pml4 != 0 ==> pml4 in mem && path[pml4] == []
      requires i < |bits| && !bits[i] && alloc.bits == bits[i := true]
      requires table == hhdm + alloc.memoryBase + i * FRAME_SIZE && |at| <= 3
      modifies this`mem, this`path, this`frameOf
      ensures Valid()
      ensures table !in old(mem) && mem == old(mem)[table := Zeros()] && path == old(path)[table := at]
      ensures forall v :: Translate(v) == old(Translate(v))
    {
      AddNewTable(mem, path, frameOf, hhdm, alloc.memoryBase, bits, i, table, at, pml4);
      mem := mem[table := Zeros()];
      path := path[table := at];
      frameOf := frameOf[table := i];
    }
  
    /** `parent[index] = phys | PRESENT | RW` for a zeroed table `child` reached by no entry yet:
        lines 40-41 of `ensureTable`. */
    method Link(parent: u64, index: nat, child: u64)
      requires Valid() && parent in mem && |path[parent]| <= 2 && index < ENTRIES
      requires !IsPresent(mem[parent][index])
      requires child in mem && child != parent && mem[child] == Zeros()
      requires path[child] == path[parent] + [index]
      modifies this`mem
      ensures Valid()
      ensures mem == old(mem)[parent := old(mem[parent])[index := TableEntry(child - hhdm)]]
      ensures IsPresent(mem[parent][index]) && Child(hhdm, mem[parent][index]) == child
      ensures forall v :: Translate(v) == old(Translate(v))
    {
      TableAligned(frameOf, mem.Keys, hhdm, alloc.memoryBase, alloc.bits, child);
      var phys := Wrap64(child - hhdm);
      assert phys == child - hhdm;
      LinkTable(mem, path, hhdm, pml4, parent, index, child);
      mem := mem[parent := mem[parent][index := TableEntry(phys)]];
    }

    /** Lines 38-41 of `ensureTable`: a new zeroed table linked below the absent slot `index` of
        `parent`; 0, with nothing changed, when the allocator has no frame left. */
    method Grow(parent: u64, index: nat) returns (table: u64)
      requires Valid() && parent in mem && |path[parent]| <= 2 && index < ENTRIES
      requires !IsPresent(mem[parent][index])
      modifies this`mem, this`path, this`frameOf, alloc.bitmap, alloc`usedFrames, alloc`bits
      ensures Valid() && parent in mem && path[parent] == old(path[parent])
      ensures forall v :: Translate(v) == old(Translate(v))
      ensures table == 0 <==> old(alloc.FreeFrames()) == 0
      ensures table == 0 ==> mem == old(mem) && path == old(path)
      ensures table != 0 ==>
        table !in old(mem) && table in mem && path[table] == path[parent] + [index]
        && table >= hhdm && mem[parent][index] == TableEntry(table - hhdm)
        && IsPresent(mem[parent][index]) && Child(hhdm, mem[parent][index]) == table
        && mem == old(mem)[table := Zeros()][parent := old(mem[parent])[index := mem[parent][index]]]
        && path == old(path)[table := old(path[parent]) + [index]]
        && alloc.FreeFrames() == old(alloc.FreeFrames()) - 1
      ensures forall u :: u in old(mem) ==> u in mem && path[u] == old(path[u])
      ensures forall u :: u in old(mem) && u != parent ==> mem[u] == old(mem[u])
    {
      ghost var m0, free0 := mem, alloc.FreeFrames();
      ghost var f0 := alloc.FreeFrames();
      CountFull(alloc.bits);
      table := CreatePageTable(path[parent] + [index]);
      ghost var f1 := alloc.FreeFrames();
      assert f1 == if table == 0 then 0 else f0 - 1;
      if table != 0 {
        ghost var m1 := mem;
        assert parent != table && m1[parent] == m0[parent];
        Link(parent, index, table);
        assert mem == m1[parent := m0[parent][index := mem[parent][index]]];
      }
      assert alloc.FreeFrames() == f1;
    }

    /** paging.cpp:33-44. The table below slot `index` of `parent`, created and linked when the
        slot is not present; 0 when a table is needed and the allocator has no frame left. */
    method EnsureTable(parent: u64, index: nat) returns (table: u64)
      requires Valid() && parent in mem && |path[parent]| <= 2 && index < ENTRIES
      modifies this`mem, this`path, this`frameOf, alloc.bitmap, alloc`usedFrames, alloc`bits
      ensures Valid() && parent in mem && path[parent] == old(path[parent])
      ensures forall v :: Translate(v) == old(Translate(v))
      ensures old(IsPresent(mem[parent][index])) ==>
        table == Child(hhdm, old(mem[parent][index])) && mem == old(mem) && path == old(path)
        && alloc.bits == old(alloc.bits)
      ensures table != 0 ==>
        table in mem && path[table] == path[parent] + [index]
        && IsPresent(mem[parent][index]) && Child(hhdm, mem[parent][index]) == table
      ensures table == 0 ==> mem == old(mem) && path == old(path) && old(alloc.FreeFrames()) == 0
      ensures !old(IsPresent(mem[parent][index])) ==> (table == 0 <==> old(alloc.FreeFrames()) == 0)
      ensures forall u :: u in old(mem) ==> u in mem && path[u] == old(path[u])
      ensures forall u :: u in old(mem) && u != parent ==> mem[u] == old(mem[u])
      ensures alloc.FreeFrames() >= old(alloc.FreeFrames()) - 1
      ensures !old(IsPresent(mem[parent][index])) && table != 0 ==>
        table !in old(mem) && table >= hhdm && mem[parent][index] == TableEntry(table - hhdm)
        && mem == old(mem)[table := Zeros()][parent := old(mem[parent])[index := mem[parent][index]]]
    {
      if IsPresent(mem[parent][index]) {
        table := Child(hhdm, mem[parent][index]);
        TableAligned(frameOf, mem.Keys, hhdm, alloc.memoryBase, alloc.bits, table);
      } else {
        table := Grow(parent, index);
      }
    }

    /** A store into slot `k` of the leaf table `pt` on the walk of `virt`: `pt[ptIndex] = …` in
        `map` and `unmap`. */
    method SetLeaf(pt: u64, k: nat, x: u64, ghost virt: u64)
      requires Valid() && pt in mem && |path[pt]| == 3 && k < ENTRIES && path[pt] + [k] == PageIndices(virt)
      modifies this`mem
      ensures Valid() && mem == old(mem)[pt := old(mem[pt])[k := x]]
      ensures forall v :: PageIndices(v) != PageIndices(virt) ==> Translate(v) == old(Translate(v))
    {
      forall v | PageIndices(v) != PageIndices(virt) && pml4 != 0
        ensures Lookup(mem[pt := mem[pt][k := x]], hhdm, pml4, 4, v) == Lookup(mem, hhdm, pml4, 4, v)
      {
        WriteLeaf(mem, path, hhdm, pt, k, x, pml4, 4, v);
      }
      TreeWriteLeaf(mem, path, hhdm, pt, k, x);
      assert mem[pt := mem[pt][k := x]].Keys == mem.Keys;
      mem := mem[pt := mem[pt][k := x]];
    }

    /** The leaf store at the end of a walk pml4 -> pdpt -> pd -> pt: `virt` now translates
        through `x`, every other page as before. */
    method SetMapping(ghost pdpt: u64, ghost pd: u64, pt: u64, x: u64, virt: u64)
      requires Valid() && pml4 != 0 && Links(mem, hhdm, pml4, pdpt, pd, pt, virt)
      modifies this`mem
      ensures Valid() && mem == old(mem)[pt := old(mem[pt])[Index(virt, 1) := x]]
      ensures forall v :: PageIndices(v) != PageIndices(virt) ==> Translate(v) == old(Translate(v))
      ensures Translate(virt) == if IsPresent(x) then Some(x) else None
    {
      LinksPaths(mem, path, hhdm, pml4, pdpt, pd, pt, virt);
      SetLeaf(pt, Index(virt, 1), x, virt);
      assert pml4 != pt && pdpt != pt && pd != pt;
      WalkChain(mem, hhdm, pml4, pdpt, pd, pt, virt);
    }

    /** paging.cpp:121-137. Clears the leaf entry of `virt` when its PML4, PDPT and PD entries
        are present, and changes nothing otherwise; no table is freed. */
    method Unmap(virt: u64)
      requires Valid() && pml4 != 0
      modifies this`mem
      ensures Valid()
      ensures LeafTable(old(mem), hhdm, pml4, virt).None? ==> mem == old(mem)
      ensures LeafTable(old(mem), hhdm, pml4, virt).Some? ==>
        var pt := LeafTable(old(mem), hhdm, pml4, virt).value;
        pt in old(mem) && mem == old(mem)[pt := old(mem[pt])[Index(virt, 1) := 0]]
      ensures Translate(virt) == None
      ensures forall v :: PageIndices(v) != PageIndices(virt) ==> Translate(v) == old(Translate(v))
    {
      LeafTableLookup(mem, hhdm, pml4, virt);
      var e4 := mem[pml4][Index(virt, 4)];
      if !IsPresent(e4) {
        return;
      }
      var pdpt := Child(hhdm, e4);
      assert pdpt in mem && path[pdpt] == path[pml4] + [Index(virt, 4)];
      var e3 := mem[pdpt][Index(virt, 3)];
      if !IsPresent(e3) {
        return;
      }
      var pd := Child(hhdm, e3);
      assert pd in mem && path[pd] == path[pdpt] + [Index(virt, 3)];
      var e2 := mem[pd][Index(virt, 2)];
      if !IsPresent(e2) {
        return;
      }
      var pt := Child(hhdm, e2);
      assert pt in mem && path[pt] == path[pd] + [Index(virt, 2)];
      SetMapping(pdpt, pd, pt, 0, virt);
    }

    /** Lines 112-113 of `map`: the PDPT and the PD on the walk of `virt`, created where missing;
        `pd` is 0 when a table could not be allocated. */
    method EnsureDirectories(virt: u64) returns (pdpt: u64, pd: u64)
      requires Valid() && pml4 != 0
      modifies this`mem, this`path, this`frameOf, alloc.bitmap, alloc`usedFrames, alloc`bits
      ensures Valid()
      ensures forall v :: Translate(v) == old(Translate(v))
      ensures pd != 0 ==>
        pdpt in mem && pd in mem && |path[pdpt]| == 1 && |path[pd]| == 2
        && IsPresent(mem[pml4][Index(virt, 4)]) && Child(hhdm, mem[pml4][Index(virt, 4)]) == pdpt
        && IsPresent(mem[pdpt][Index(virt, 3)]) && Child(hhdm, mem[pdpt][Index(virt, 3)]) == pd
      ensures pd == 0 ==> old(alloc.FreeFrames()) <= 1
      ensures alloc.FreeFrames() >= old(alloc.FreeFrames()) - 2
    {
      pdpt := EnsureTable(pml4, Index(virt, 4));
      if pdpt == 0 {
        return 0, 0;
      }
      ghost var m1 := mem;
      assert path[pml4] == [] && |path[pdpt]| == 1;
      pd := EnsureTable(pdpt, Index(virt, 3));
      assert pml4 in m1 && pml4 != pdpt;
      assert mem[pml4] == m1[pml4];
    }

    /** paging.cpp:106-119. Makes sure the PDPT, PD and PT of `virt` exist and writes the leaf
        entry; no other page's translation changes. `mapped` is false when a table could not be
        allocated, where the walk ends (the source would store through a null pointer). */
    method Map(virt: u64, phys: u64, flags: u64) returns (ghost mapped: bool)
      requires Valid() && pml4 != 0
      modifies this`mem, this`path, this`frameOf, alloc.bitmap, alloc`usedFrames, alloc`bits
      ensures Valid()
      ensures forall v :: PageIndices(v) != PageIndices(virt) ==> Translate(v) == old(Translate(v))
      ensures mapped ==>
        Translate(virt) == if IsPresent(LeafEntry(phys, flags)) then Some(LeafEntry(phys, flags)) else None
      ensures mapped ==> forall v :: PageIndices(v) == PageIndices(virt) ==> Translate(v) == Translate(virt)
      ensures !mapped ==> Translate(virt) == old(Translate(virt))
      ensures old(alloc.FreeFrames()) >= 3 ==> mapped
      ensures alloc.FreeFrames() >= old(alloc.FreeFrames()) - 3
    {
      var pdpt, pd := EnsureDirectories(virt);
      if pd == 0 {
        return false;
      }
      ghost var m2 := mem;
      var pt := EnsureTable(pd, Index(virt, 2));
      if pt == 0 {
        return false;
      }
      assert pml4 in m2 && pml4 != pd && pdpt in m2 && pdpt != pd;
      SetMapping(pdpt, pd, pt, LeafEntry(phys, flags), virt);
      mapped := true;
      forall v | PageIndices(v) == PageIndices(virt) ensures Translate(v) == Translate(virt) {
        LookupSlots(mem, hhdm, pml4, 4, v, virt);
      }
    }

    /** `map(virt, phys, PRESENT | RW)` as page n of a loop mapping `PageAt(virtStart, k)` to
        `PageAt(physStart, k)`, started with the tables `m0` and `free0` free frames. Pages the
        loop has not reached still translate as under `m0`; if the loop has mapped its first n
        pages (`whole`), it now has mapped n + 1, unless `ok` is false because a walk ran out of
        frames, which takes fewer than three free frames. */
    method MapRunPage(virt: u64, phys: u64, ghost virtStart: u64, ghost physStart: u64, ghost n: nat,
                      ghost m0: map<u64, Table>, ghost free0: int, ghost whole: bool) returns (ghost ok: bool)
      requires virt == PageAt(virtStart, n) && phys == PageAt(physStart, n)
      requires LinearRun(virtStart, physStart, n, m0, free0, whole)
      modifies this`mem, this`path, this`frameOf, alloc.bitmap, alloc`usedFrames, alloc`bits
      ensures LinearRun(virtStart, physStart, n + 1, m0, free0, whole && ok)
    {
      ghost var mb := mem;
      ok := MapBootPage(virt, phys);
      OutsideStep(mem, mb, m0, hhdm, pml4, virtStart, n, virtStart, 0);
      if whole && ok {
        ExtendRun(mem, mb, hhdm, pml4, virtStart, physStart, n, virtStart, 0);
      }
    }

    /** `map(virt, phys, PRESENT | RW)` as the boot loops call it, stated on the tables. */
    method MapBootPage(virt: u64, phys: u64) returns (ghost ok: bool)
      requires Valid() && pml4 != 0
      modifies this`mem, this`path, this`frameOf, alloc.bitmap, alloc`usedFrames, alloc`bits
      ensures Valid() && pml4 != 0
      ensures SameExcept(mem, old(mem), hhdm, pml4, virt)
      ensures ok ==> TranslateIn(mem, hhdm, pml4, virt) == Some(LeafEntry(phys, BOOT_FLAGS))
      ensures old(alloc.FreeFrames()) >= 3 ==> ok
      ensures alloc.FreeFrames() >= old(alloc.FreeFrames()) - 3
    {
      LeafEntryPresent(phys, BOOT_FLAGS);
      ok := Map(virt, phys, BOOT_FLAGS);
    }

    /** Page n of the kernel loop, at `offset` into the image: `map(phys, phys, PRESENT | RW)`,
        then `map(virt, phys, …)` for `phys = physStart + offset`, `virt = virtStart + offset`. */
    method MapKernelPage(physStart: u64, virtStart: u64, offset: u64, ghost n: nat,
                         ghost m0: map<u64, Table>, ghost free0: int, ghost whole: bool) returns (ghost ok: bool)
      requires offset == n * FRAME_SIZE
      requires KernelRun(physStart, virtStart, n, n, m0, free0, whole)
      modifies this`mem, this`path, this`frameOf, alloc.bitmap, alloc`usedFrames, alloc`bits
      ensures KernelRun(physStart, virtStart, n + 1, n + 1, m0, free0, whole && ok)
    {
      var phys := Wrap64(physStart + offset);
      var virt := Wrap64(virtStart + offset);
      PageAtOffset(physStart, offset, n);
      PageAtOffset(virtStart, offset, n);
      var ok1 := MapKernelPhysPage(phys, physStart, virtStart, n, m0, free0, whole);
      var ok2 := MapKernelVirtPage(virt, phys, physStart, virtStart, n, m0, free0, whole && ok1);
      ok := ok1 && ok2;
    }

    /** The first half of page n of the kernel loop, `map(phys, phys, PRESENT | RW)`: as for
        `MapRunPage`, with the kernel's virtual pages mapped so far left as they were unless
        they share slots with the new page. */
    method MapKernelPhysPage(phys: u64, ghost physStart: u64, ghost virtStart: u64, ghost n: nat,
                             ghost m0: map<u64, Table>, ghost free0: int, ghost whole: bool) returns (ghost ok: bool)
      requires phys == PageAt(physStart, n)
      requires KernelRun(physStart, virtStart, n, n, m0, free0, whole)
      modifies this`mem, this`path, this`frameOf, alloc.bitmap, alloc`usedFrames, alloc`bits
      ensures KernelRun(physStart, virtStart, n + 1, n, m0, free0, whole && ok)
    {
      ghost var mb := mem;
      ok := MapBootPage(phys, phys);
      OutsideStep(mem, mb, m0, hhdm, pml4, physStart, n, virtStart, n);
      if whole && ok {
        KeepRun(mem, mb, hhdm, pml4, virtStart, physStart, n, physStart, n);
        ExtendRun(mem, mb, hhdm, pml4, physStart, physStart, n, virtStart, n);
      }
    }

    /** The second half, `map(virt, phys, PRESENT | RW)`, with the physical pages mapped so far,
        this one included, left as they were unless they share slots with the new page. */
    method MapKernelVirtPage(virt: u64, phys: u64, ghost physStart: u64, ghost virtStart: u64, ghost n: nat,
                             ghost m0: map<u64, Table>, ghost free0: int, ghost whole: bool) returns (ghost ok: bool)
      requires virt == PageAt(virtStart, n) && phys == PageAt(physStart, n)
      requires KernelRun(physStart, virtStart, n + 1, n, m0, free0, whole)
      modifies this`mem, this`path, this`frameOf, alloc.bitmap, alloc`usedFrames, alloc`bits
      ensures KernelRun(physStart, virtStart, n + 1, n + 1, m0, free0, whole && ok)
    {
      ghost var mb := mem;
      ok := MapBootPage(virt, phys);
      OutsideStepOther(mem, mb, m0, hhdm, pml4, physStart, n + 1, virtStart, n);
      if whole && ok {
        ExtendRun(mem, mb, hhdm, pml4, virtStart, physStart, n, physStart, n + 1);
        KeepRun(mem, mb, hhdm, pml4, physStart, physStart, n + 1, virtStart, n);
      }
    }

    /** paging.cpp:55-62: maps each page of the kernel image both at its physical address and
        at its virtual address, both to its physical frame; pages outside those two ranges keep
        their translation. `complete` is false when some walk ran out of frames; six free frames
        per page are enough. Completed, a current page of either run reaches its physical frame
        unless a page of the other run shares its slots and may have overwritten it. */
    method MapKernel(physStart: u64, virtStart: u64, size: u64) returns (ghost complete: bool)
      requires Valid() && pml4 != 0 && size <= TWO_64 - FRAME_SIZE
      modifies this`mem, this`path, this`frameOf, alloc.bitmap, alloc`usedFrames, alloc`bits
      ensures Valid()
      ensures forall v ::
                Untouched(v, physStart, Steps(0, size)) && Untouched(v, virtStart, Steps(0, size)) ==>
                Translate(v) == old(Translate(v))
      ensures complete ==>
                forall k: nat :: Current(k, Steps(0, size)) && Untouched(PageAt(virtStart, k), physStart, Steps(0, size)) ==>
                  Translate(PageAt(virtStart, k)) == Some(LeafEntry(PageAt(physStart, k), BOOT_FLAGS))
      ensures complete ==>
                forall k: nat :: Current(k, Steps(0, size)) && Untouched(PageAt(physStart, k), virtStart, Steps(0, size)) ==>
                  Translate(PageAt(physStart, k)) == Some(LeafEntry(PageAt(physStart, k), BOOT_FLAGS))
      ensures old(alloc.FreeFrames()) >= 6 * Steps(0, size) ==> complete
      ensures alloc.FreeFrames() >= old(alloc.FreeFrames()) - 6 * Steps(0, size)
    {
      var offset: u64 := 0;
      ghost var n: nat := 0;
      complete := true;
      ghost var m0, free0 := mem, alloc.FreeFrames();
      while offset < size
        invariant offset == n * FRAME_SIZE && offset <= size + FRAME_SIZE - 1
        invariant KernelRun(physStart, virtStart, n, n, m0, free0, complete)
        decreases size - offset
      {
        ghost var ok := MapKernelPage(physStart, virtStart, offset, n, m0, free0, complete);
        complete := complete && ok;
        offset := offset + FRAME_SIZE;
        n := n + 1;
      }
      assert n == Steps(0, size);
    }

    /** paging.cpp:64-72: identity-maps the pages from the framebuffer's address up to
        `address + pitch * height`, both computed in `uint64_t`. `complete` as for `MapDirect`. */
    method MapFramebuffer(base: u64, limit: u64) returns (ghost complete: bool)
      requires Valid() && pml4 != 0 && limit <= TWO_64 - FRAME_SIZE
      modifies this`mem, this`path, this`frameOf, alloc.bitmap, alloc`usedFrames, alloc`bits
      ensures Valid()
      ensures forall v :: Untouched(v, base, Steps(base, limit)) ==> Translate(v) == old(Translate(v))
      ensures complete ==> forall k: nat :: Current(k, Steps(base, limit)) ==>
                             Translate(PageAt(base, k)) == Some(LeafEntry(PageAt(base, k), BOOT_FLAGS))
      ensures old(alloc.FreeFrames()) >= 3 * Steps(base, limit) ==> complete
      ensures alloc.FreeFrames() >= old(alloc.FreeFrames()) - 3 * Steps(base, limit)
    {
      var addr: u64 := base;
      ghost var n: nat := 0;
      complete := true;
      ghost var m0, free0 := mem, alloc.FreeFrames();
      while addr < limit
        invariant addr == base + n * FRAME_SIZE
        invariant addr <= base || addr <= limit + FRAME_SIZE - 1
        invariant LinearRun(base, base, n, m0, free0, complete)
        decreases limit - addr
      {
        assert addr == PageAt(base, n);
        ghost var ok := MapRunPage(addr, addr, base, base, n, m0, free0, complete);
        complete := complete && ok;
        addr := addr + FRAME_SIZE;
        n := n + 1;
      }
      assert n == Steps(base, limit);
    }

    /** paging.cpp:81-82: maps physical memory below `maxPhys` at `hhdm + phys`, page by page.
        `complete` is false when some walk ran out of frames; three free frames per page are
        enough. Completed, every current HHDM page below `maxPhys` translates to its frame. */
    method MapDirect(maxPhys: u64) returns (ghost complete: bool)
      requires Valid() && pml4 != 0 && maxPhys <= TWO_64 - FRAME_SIZE
      modifies this`mem, this`path, this`frameOf, alloc.bitmap, alloc`usedFrames, alloc`bits
      ensures Valid()
      ensures forall v :: Untouched(v, hhdm, Steps(0, maxPhys)) ==> Translate(v) == old(Translate(v))
      ensures complete ==> forall k: nat :: Current(k, Steps(0, maxPhys)) ==>
                             Translate(PageAt(hhdm, k)) == Some(LeafEntry(PageAt(0, k), BOOT_FLAGS))
      ensures old(alloc.FreeFrames()) >= 3 * Steps(0, maxPhys) ==> complete
      ensures alloc.FreeFrames() >= old(alloc.FreeFrames()) - 3 * Steps(0, maxPhys)
    {
      var phys: u64 := 0;
      ghost var n: nat := 0;
      complete := true;
      ghost var m0, free0 := mem, alloc.FreeFrames();
      while phys < maxPhys
        invariant phys == n * 4096 && phys <= maxPhys + 4095
        invariant LinearRun(hhdm, 0, n, m0, free0, complete)
        decreases maxPhys - phys
      {
        ghost var ok := MapDirectPage(phys, n, m0, free0, complete);
        complete := complete && ok;
        phys := phys + FRAME_SIZE;
        n := n + 1;
      }
      assert n == Steps(0, maxPhys);
    }

    /** Page n of the HHDM loop: `map(hhdm + phys, phys, PRESENT | RW)`. */
    method MapDirectPage(phys: u64, ghost n: nat, ghost m0: map<u64, Table>, ghost free0: int, ghost whole: bool)
      returns (ghost ok: bool)
      requires phys == n * FRAME_SIZE
      requires LinearRun(hhdm, 0, n, m0, free0, whole)
      modifies this`mem, this`path, this`frameOf, alloc.bitmap, alloc`usedFrames, alloc`bits
      ensures LinearRun(hhdm, 0, n + 1, m0, free0, whole && ok)
    {
      var virt := Wrap64(hhdm + phys);
      PageAtOffset(hhdm, phys, n);
      ok := MapRunPage(virt, phys, hhdm, 0, n, m0, free0, whole);
    }

    /** paging.cpp:46-104 with the register writes left out: a fresh root table, then the
        kernel image, the framebuffer and the HHDM window over the memory map are mapped. When
        no frame is left for the root, `pml4` is null and nothing else happens. Afterwards only
        pages of those ranges translate. `complete` says that the root exists and no walk ran
        out of frames, which three free frames per mapped page and one for the root ensure;
        then the pages of each range reach their frames as `MapBootRanges` states. */
    method Init(kernelPhys: u64, kernelVirt: u64, kernelSize: u64, fbs: Option<seq<Framebuffer>>,
                entries: seq<MemmapEntry>) returns (ghost complete: bool)
      requires Valid()
      requires kernelSize <= TWO_64 - FRAME_SIZE && FramebufferRange(fbs).1 <= TWO_64 - FRAME_SIZE
      requires MaxPhys(entries) <= TWO_64 - FRAME_SIZE
      modifies this`pml4, this`mem, this`path, this`frameOf, alloc.bitmap, alloc`usedFrames, alloc`bits
      ensures Valid()
      ensures pml4 == 0 <==> old(alloc.Full())
      ensures pml4 == 0 ==> mem == old(mem)
      ensures pml4 != 0 ==> pml4 !in old(mem)
      ensures forall v :: OutsideBootRanges(v, hhdm, kernelPhys, kernelVirt, kernelSize, fbs, entries) ==>
                          Translate(v) == None
      ensures old(alloc.FreeFrames()) > 3 * BootPages(kernelSize, fbs, entries) ==> complete
      ensures complete ==> pml4 != 0
      ensures complete ==> forall k: nat :: Current(k, Steps(0, MaxPhys(entries))) ==>
                Translate(PageAt(hhdm, k)) == Some(LeafEntry(PageAt(0, k), BOOT_FLAGS))
      ensures var (fbBase, fbLimit) := FramebufferRange(fbs);
              complete ==> forall k: nat :: (Current(k, Steps(fbBase, fbLimit))
                                        && Untouched(PageAt(fbBase, k), hhdm, Steps(0, MaxPhys(entries)))) ==>
                Translate(PageAt(fbBase, k)) == Some(LeafEntry(PageAt(fbBase, k), BOOT_FLAGS))
      ensures complete ==> forall k: nat :: (Current(k, Steps(0, kernelSize))
                                        && Untouched(PageAt(kernelVirt, k), kernelPhys, Steps(0, kernelSize))
                                        && MissesLaterLoops(PageAt(kernelVirt, k), hhdm, fbs, entries)) ==>
                Translate(PageAt(kernelVirt, k)) == Some(LeafEntry(PageAt(kernelPhys, k), BOOT_FLAGS))
      ensures complete ==> forall k: nat :: (Current(k, Steps(0, kernelSize))
                                        && Untouched(PageAt(kernelPhys, k), kernelVirt, Steps(0, kernelSize))
                                        && MissesLaterLoops(PageAt(kernelPhys, k), hhdm, fbs, entries)) ==>
                Translate(PageAt(kernelPhys, k)) == Some(LeafEntry(PageAt(kernelPhys, k), BOOT_FLAGS))
    {
      complete := false;
      CountFull(alloc.bits);
      pml4 := CreatePageTable([]);
      if pml4 == 0 {
        return;
      }
      assert forall v :: Translate(v) == None;
      complete := MapBootRanges(kernelPhys, kernelVirt, kernelSize, fbs, entries);
    }

    /** Lines 51-82 of `Paging::init`: the three mapping loops, after the root exists. When no
        walk ran out of frames, every current HHDM page reaches its frame, and so do framebuffer
        and kernel pages that no page mapped after them shares its slots with. */
    method MapBootRanges(kernelPhys: u64, kernelVirt: u64, kernelSize: u64, fbs: Option<seq<Framebuffer>>,
                         entries: seq<MemmapEntry>) returns (ghost complete: bool)
      requires Valid() && pml4 != 0
      requires kernelSize <= TWO_64 - FRAME_SIZE && FramebufferRange(fbs).1 <= TWO_64 - FRAME_SIZE
      requires MaxPhys(entries) <= TWO_64 - FRAME_SIZE
      modifies this`mem, this`path, this`frameOf, alloc.bitmap, alloc`usedFrames, alloc`bits
      ensures Valid()
      ensures forall v :: OutsideBootRanges(v, hhdm, kernelPhys, kernelVirt, kernelSize, fbs, entries) ==>
                          Translate(v) == old(Translate(v))
      ensures complete ==> forall k: nat :: Current(k, Steps(0, MaxPhys(entries))) ==>
                Translate(PageAt(hhdm, k)) == Some(LeafEntry(PageAt(0, k), BOOT_FLAGS))
      ensures var (fbBase, fbLimit) := FramebufferRange(fbs);
              complete ==> forall k: nat :: (Current(k, Steps(fbBase, fbLimit))
                                        && Untouched(PageAt(fbBase, k), hhdm, Steps(0, MaxPhys(entries)))) ==>
                Translate(PageAt(fbBase, k)) == Some(LeafEntry(PageAt(fbBase, k), BOOT_FLAGS))
      ensures complete ==> forall k: nat :: (Current(k, Steps(0, kernelSize))
                                        && Untouched(PageAt(kernelVirt, k), kernelPhys, Steps(0, kernelSize))
                                        && MissesLaterLoops(PageAt(kernelVirt, k), hhdm, fbs, entries)) ==>
                Translate(PageAt(kernelVirt, k)) == Some(LeafEntry(PageAt(kernelPhys, k), BOOT_FLAGS))
      ensures complete ==> forall k: nat :: (Current(k, Steps(0, kernelSize))
                                        && Untouched(PageAt(kernelPhys, k), kernelVirt, Steps(0, kernelSize))
                                        && MissesLaterLoops(PageAt(kernelPhys, k), hhdm, fbs, entries)) ==>
                Translate(PageAt(kernelPhys, k)) == Some(LeafEntry(PageAt(kernelPhys, k), BOOT_FLAGS))
      ensures old(alloc.FreeFrames()) >= 3 * BootPages(kernelSize, fbs, entries) ==> complete
    {
      var (fbBase, fbLimit) := FramebufferRange(fbs);
      ghost var sk, sf, sd := Steps(0, kernelSize), Steps(fbBase, fbLimit), Steps(0, MaxPhys(entries));
      ghost var c1 := MapKernel(kernelPhys, kernelVirt, kernelSize);
      label Kernel:
      ghost var c2 := MapFirstFramebuffer(fbs);
      label Framebuffer:
      var maxPhys := ComputeMaxPhys(entries);
      ghost var c3 := MapDirect(maxPhys);
      complete := c1 && c2 && c3;
      forall v | MissesLaterLoops(v, hhdm, fbs, entries)
        ensures Translate(v) == old@Kernel(Translate(v))
      {
        assert Untouched(v, fbBase, sf) && Untouched(v, hhdm, sd);
      }
      forall v | Untouched(v, hhdm, sd) ensures Translate(v) == old@Framebuffer(Translate(v)) { }
    }

    /** paging.cpp:64-72: the framebuffer loop runs only when the bootloader reported one. */
    method MapFirstFramebuffer(fbs: Option<seq<Framebuffer>>) returns (ghost complete: bool)
      requires Valid() && pml4 != 0 && FramebufferRange(fbs).1 <= TWO_64 - FRAME_SIZE
      modifies this`mem, this`path, this`frameOf, alloc.bitmap, alloc`usedFrames, alloc`bits
      ensures Valid()
      ensures var (fbBase, fbLimit) := FramebufferRange(fbs);
              forall v :: Untouched(v, fbBase, Steps(fbBase, fbLimit)) ==> Translate(v) == old(Translate(v))
      ensures var (fbBase, fbLimit) := FramebufferRange(fbs);
              complete ==> forall k: nat :: Current(k, Steps(fbBase, fbLimit)) ==>
                             Translate(PageAt(fbBase, k)) == Some(LeafEntry(PageAt(fbBase, k), BOOT_FLAGS))
      ensures var (fbBase, fbLimit) := FramebufferRange(fbs);
              old(alloc.FreeFrames()) >= 3 * Steps(fbBase, fbLimit) ==> complete
      ensures var (fbBase, fbLimit) := FramebufferRange(fbs);
              alloc.FreeFrames() >= old(alloc.FreeFrames()) - 3 * Steps(fbBase, fbLimit)
    {
      complete := true;
      if fbs.Some? && |fbs.value| > 0 {
        var fb := fbs.value[0];
        var fbBase := fb.address;
        var fbSize := Wrap64(fb.pitch as int * fb.height as int);
        var fbLimit := Wrap64(fbBase as int + fbSize);
        assert FramebufferRange(fbs) == (fbBase, fbLimit);
        complete := MapFramebuffer(fbBase, fbLimit);
      }
    }
}
}
