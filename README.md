# Mesh kernel core in Dafny

A model of the sequential core of the Mesh x86-64 hobby kernel, with proofs of what its
routines promise:

- **Physical frame allocator** (`FrameAllocator`). A first-fit bitmap over the 4 KiB frames
  of one memory pool, held in `uint64_t` words, with a counter of used frames. It hands out
  physical addresses and takes back HHDM (higher-half direct map) addresses.
- **Four-level page tables** (`Paging`). `createPageTable`, `ensureTable`, `map` and `unmap`
  work on a map from HHDM table addresses to 512-entry tables. The mapping loops of
  `Paging::init` include the `maxPhys` fold over the memory map.
- **C-string routines** (`CStrings`): `atoi` with saturation, `utoa` for bases 2 to 36,
  `strchr` and `strtok_r`.
- **Memory routines** (`Memory`): `memcpy` with its 4-byte fast path, `memset`, and the
  overlap-safe `memmove`.
- **Text console** (`Console`, `Ansi`).
  - The renderer's cursor works over a character grid of an `array2` framebuffer.
  - It checks the PSF1 font header and draws glyphs.
  - `print` runs a state machine over escape sequences. `escapeAnsi` parses the SGR
    parameters (section 8.3.117 of ECMA-48).
- **Boot-time region choice** (`Kernel`). This is the memory-region choice of `initPaging`,
  and its halt decision.
- **SMP bookkeeping** (`Smp`). `SMP::init` records the local APIC IDs, gives each
  application processor its own stack and entry point, and provides `getLapicID` and
  `currentID`.
- **Descriptor tables** (`Segments`, `Gdt`, `Idt`). These are the GDT and TSS encoders of
  both kernel revisions (section 3.4.5 and section 7.2.3 of the Intel SDM, Volume 3A), and
  the IDT gate encoders of both (section 6.14.1 of the Intel SDM, Volume 3A).

**Fixed-width integers.** They are `int` subset types (`u8` to `u64`, module `Bits`).

- Wrap-around is written out where the source can wrap (`Wrap64`, `Trunc32`).
- Bitwise `|`, `& ~m` and bit tests are functions on naturals with per-bit lemmas.

**Console output.** It is a ghost log of calls (`Glyph(c, fg, bg)` and `Clear(color)`).
`print` is specified by a pure function `Run` of its input bytes, and so is `escapeAnsi`, by
`Escape`.

**Inputs from outside.** The bootloader's responses, the link-time addresses and the font
file are passed in as inputs.

## Model

| member | source | states |
|---|---|---|
| FrameAllocator.FrameAddrInjective | src/memory/paging.cpp:157 | when the pool fits below 2^64, distinct frame indices give distinct returned addresses |
| FrameAllocator.AliasIndexesFrame | src/memory/paging.cpp:162-168 | the HHDM alias of frame i's physical address passes the lower-bound and alignment test and indexes frame i |
| FrameAllocator.FirstClear | src/memory/paging.cpp:151-152 | the first-fit choice is a clear entry and every entry below it is set |
| FrameAllocator.CountUpdate | src/memory/paging.cpp:154-155 | setting or clearing one entry changes the popcount by exactly that entry's change |
| FrameAllocator.CountFull | src/memory/paging.cpp:151-159 | the popcount equals the number of frames iff every frame is in use |
| FrameAllocator.CountNone | src/memory/paging.cpp:144-146 | a bitmap with no entry set has popcount 0 |
| FrameAllocator.FirstFitPrefix | src/memory/paging.cpp:151-157 | from an empty pool, allocation k picks frame k and leaves frames 0..k in use |
| FrameAllocator.FirstClearBelow | src/memory/paging.cpp:151-152 | a clear entry with every lower entry set is the first-fit choice |
| FrameAllocator.ReleasedIsNext | src/memory/paging.cpp:151-152 | clearing a frame whose lower frames are all in use makes it the next first-fit choice |
| FrameAllocator.BitmapFrames | src/memory/paging.cpp:145-146 | the fewest whole frames that hold the `(totalFrames + 63) / 64` bitmap words `init` clears |
| FrameAllocator.FirstAllocIsBitmap | src/memory/paging.cpp:145-157 | as written, the first allocation from a new pool is frame 0, one of the bitmap's own frames, whose HHDM alias is the bitmap's address |
| FrameAllocator.AllocSkipsBitmap | src/memory/paging.cpp:151-157 | corrected: with the bitmap's frames marked, first fit returns a frame past the bitmap's bytes |
| FrameAllocator.SetBit | src/memory/paging.cpp:154 | `w \|= 1ULL << b` sets bit b and keeps every other bit of the word |
| FrameAllocator.ClearBit | src/memory/paging.cpp:169 | `w &= ~(1ULL << b)` clears bit b and keeps every other bit of the word |
| FrameAllocator.WordUpdate | src/memory/paging.cpp:152-154 | writing bit i % 64 of word i / 64 changes frame i's recorded state alone |
| FrameAllocator.AgreesZero | src/memory/paging.cpp:146 | zeroed bitmap words record every frame as free |
| FrameAllocator.Allocator.constructor | src/memory/paging.cpp:15-19 | before `init` the pool is empty: base, size, frame count and counter are 0 |
| FrameAllocator.Allocator.Init | src/memory/paging.cpp:139-147 | records base and size, gives size / 4096 frames, zeroes the counter and the covering bitmap words (all frames free, counter exact) |
| FrameAllocator.Allocator.InitReserved | src/memory/paging.cpp:139-147 | corrected `init`: as `Init`, and exactly the frames the bitmap occupies are marked allocated, with the counter exact |
| FrameAllocator.Allocator.Alloc | src/memory/paging.cpp:149-160 | full pool: returns null and changes nothing; otherwise sets exactly the lowest clear bit, increments the counter (wrapping) and returns `memoryBase + i*4096`; keeps the counter exact; frees one frame fewer |
| FrameAllocator.Allocator.Free | src/memory/paging.cpp:162-171 | a rejected address changes nothing; an accepted one clears its frame's bit alone and decrements the counter unconditionally, so the counter stays exact iff the bit was set |
| FrameAllocator.Allocator.Reserve | src/memory/paging.cpp:173-182 | a rejected address changes nothing; an accepted one sets its frame's bit alone and increments the counter unconditionally, so the counter stays exact iff the bit was clear |
| FrameAllocator.Allocator.Used | src/memory/paging.cpp:184-192 | false for a rejected address, else the bit of the frame it indexes |
| FrameAllocator.Allocator.UsedCount | src/memory/paging.cpp:194 | `usedCount()` is the counter, which is the number of frames in use while the counter is exact |
| FrameAllocator.Allocator.TotalCount | src/memory/paging.cpp:195 | `totalCount()` is the number of frames of the pool, all of which fit in its size |
| FrameAllocator.Allocator.ExhaustFromEmpty | src/memory/paging.cpp:149-160 | from a fresh pool, `totalCount()` allocations return frames 0, 1, … in order, pairwise distinct, and the next returns null with the pool full |
| FrameAllocator.Allocator.FreeThenAlloc | src/memory/paging.cpp:157-170 | freeing the HHDM alias of frame i, with frames 0..i in use, makes the next allocation return frame i's physical address and restores the bitmap |
| Bits.Wrap64 | src/memory/paging.cpp:155 | `uint64_t` arithmetic: the value itself when in range, and always congruent to it modulo 2^64 |
| Bits.Trunc32 | src/memory/smp.cpp:34 | a conversion to `uint32_t`: the value itself when in range, and always congruent to it modulo 2^32 |
| Bits.Or64 | src/memory/paging.cpp:41 | each bit of `a \| b` is set iff it is set in a or in b |
| Bits.AndNotTestBit | src/memory/paging.cpp:169 | each bit of `a & ~m` is set iff it is set in a and clear in m |
| Bits.ClearLow12 | src/memory/paging.cpp:43 | `x & ~0xFFF` is the 4096-aligned value at most 4095 below x |
| Bits.Pow2TestBit | src/memory/paging.cpp:152 | `1ULL << b` has bit b alone |
| Bits.OrBound | src/memory/paging.cpp:41 | OR of two k-bit numbers is a k-bit number |
| Bits.OrAligned | src/memory/paging.cpp:117 | OR of a value with k clear low bits and a value below 2^k is their sum |
| Bits.OrNibble | src/arch/gdt.cpp:87 | `low \| (flags & 0xF0)` for a low nibble is addition |
| Paging.Index | src/memory/paging.cpp:108-111 | `(virt >> shift) & 0x1FF` is a slot below 512 |
| Paging.LeafEntryPresent | src/memory/paging.cpp:117 | the leaf `(phys & ~0xFFF) \| flags` is present iff the flags ask for PRESENT |
| Paging.LeafEntryFields | src/memory/paging.cpp:117 | with flags below 4096 the leaf is the frame plus the flags; frame and flags can be read back |
| Paging.TableEntryFields | src/memory/paging.cpp:40-43 | the entry `phys \| PRESENT \| RW` installed for a frame-aligned table is present and leads back to that table |
| Paging.AddTable | src/memory/paging.cpp:22-31 | adding a table that nothing points to changes no walk |
| Paging.Install | src/memory/paging.cpp:41 | pointing an absent non-leaf slot at a zeroed table changes no translation |
| Paging.WriteLeaf | src/memory/paging.cpp:117 | a store into a leaf slot changes no other page's walk |
| Paging.TreeAddTable | src/memory/paging.cpp:22-31 | a new table keeps the page tables a tree |
| Paging.TreeInstall | src/memory/paging.cpp:41 | linking a table at its path keeps the tree |
| Paging.TreeWriteLeaf | src/memory/paging.cpp:117 | leaf stores keep the tree |
| Paging.InPoolAlloc | src/memory/paging.cpp:24-27 | a table on a newly allocated frame gets a new address, and every table stays on an allocated frame of the pool |
| Paging.TableAligned | src/memory/paging.cpp:27 | every table address is a frame-aligned HHDM address |
| Paging.AddNewTable | src/memory/paging.cpp:22-31 | a zeroed table on a new frame keeps the tree and the pool invariant, and changes no translation |
| Paging.LinkTable | src/memory/paging.cpp:40-41 | linking a zeroed table below an absent slot keeps the tree and the table set, and changes no translation |
| Paging.WalkChain | src/memory/paging.cpp:113-117 | the walk through linked PML4, PDPT, PD and PT ends at the PT slot of `virt` |
| Paging.LeafTableLookup | src/memory/paging.cpp:128-135 | `unmap`'s walk to the leaf table, followed by the leaf slot, is the full translation |
| Paging.LinksPaths | src/memory/paging.cpp:108-117 | in a tree, the tables on the walk of `virt` sit at the prefixes of its four indices |
| Paging.MaxPhysBound | src/memory/paging.cpp:74-79 | `maxPhys` is at least the end of every covered memory-map entry |
| Paging.MaxPhysAttained | src/memory/paging.cpp:74-79 | `maxPhys` is 0 or the end of some covered entry |
| Paging.ComputeMaxPhys | src/memory/paging.cpp:74-79 | the loop computes the fold `MaxPhys` |
| Paging.AddressSpace.constructor | src/memory/paging.cpp:20 | before `init` there is no root table and no table at all |
| Paging.AddressSpace.NewFrame | src/memory/paging.cpp:27 | a frame of the pool is aligned, non-zero and inside the HHDM window |
| Paging.AddressSpace.CreatePageTable | src/memory/paging.cpp:22-31 | null iff the allocator is full, with nothing changed; otherwise a new zeroed table on the allocated frame; no translation changes |
| Paging.AddressSpace.ZeroTable | src/memory/paging.cpp:28 | the frame just allocated becomes an all-zero table |
| Paging.AddressSpace.Link | src/memory/paging.cpp:40-41 | only slot `index` of the parent changes, to a present entry leading to the child |
| Paging.AddressSpace.Grow | src/memory/paging.cpp:37-41 | null iff no frame is free, and then nothing changes; otherwise a zeroed table on a new frame, the slot set to `(table - hhdm) \| PRESENT \| RW`, one frame fewer free, no other table changed and no translation changed |
| Paging.AddressSpace.EnsureTable | src/memory/paging.cpp:33-44 | a present slot is kept and the table it points to returned; an absent one returns null iff no frame is free (nothing changed), else a new zeroed table with the slot set to `(table - hhdm) \| PRESENT \| RW`; no translation changes |
| Paging.AddressSpace.SetLeaf | src/memory/paging.cpp:117 | one leaf slot changes; every page with other indices keeps its translation |
| Paging.AddressSpace.SetMapping | src/memory/paging.cpp:117 | after the leaf store, `virt` translates to the entry if it is present, else to nothing; other pages are unchanged |
| Paging.AddressSpace.Unmap | src/memory/paging.cpp:121-137 | nothing changes when an upper entry is absent; otherwise only the leaf is zeroed; `virt` then has no translation and other pages keep theirs; no table is freed |
| Paging.AddressSpace.EnsureDirectories | src/memory/paging.cpp:113-114 | the PDPT and PD of `virt` exist unless frames run out; no translation changes |
| Paging.AddressSpace.Map | src/memory/paging.cpp:106-119 | if the walk completes, `virt` translates to `(phys & ~0xFFF) \| flags` (when present); other pages are unchanged; with 3 free frames the walk always completes |
| Paging.AddressSpace.MapKernel | src/memory/paging.cpp:55-62 | only the kernel pages, at their physical and virtual addresses, can change their translation; completed, each current page k of either run that no page of the other run shares slots with translates to the leaf of frame `physStart + 4096 k` with PRESENT \| RW; six free frames per page complete it |
| Paging.AddressSpace.MapFramebuffer | src/memory/paging.cpp:70-71 | only the framebuffer pages can change their translation; completed, each current page `base + 4096 k` translates to the leaf of itself with PRESENT \| RW; three free frames per page complete it |
| Paging.AddressSpace.MapDirect | src/memory/paging.cpp:81-82 | only the HHDM pages below `maxPhys` can change their translation; completed, each current page `hhdm + 4096 k` translates to the leaf of frame `4096 k` with PRESENT \| RW; three free frames per page complete it |
| Paging.AddressSpace.Init | src/memory/paging.cpp:46-82 | no root iff the allocator is full, with no table changed; otherwise a new root under which pages outside the boot ranges have no translation; completed (guaranteed by 3 free frames per `map` call and one for the root), the HHDM, framebuffer and kernel pages reach their frames as `MapBootRanges` states, for an allocator whose bitmap frames are never handed out (as `InitReserved` builds; see Left out) |
| Paging.AddressSpace.MapBootRanges | src/memory/paging.cpp:51-82 | pages outside the boot ranges keep their translation; completed, every current HHDM page reaches its frame, and so do the framebuffer pages clear of the HHDM run and the kernel pages clear of the other kernel run and of the two later loops; frames are as the model's separate bitmap gives them, which the source's `init` does not (see Left out) |
| Paging.AddressSpace.MapFirstFramebuffer | src/memory/paging.cpp:64-72 | only the pages of the first reported framebuffer can change their translation, none without a framebuffer; completed, those pages translate to themselves |
| Paging.AddressSpace.MapBootPage | src/memory/paging.cpp:106-119 | `map(virt, phys, PRESENT \| RW)` stated on the tables: only the slots of `virt` change, and a completed walk leaves the leaf of `phys` there |
| Paging.AddressSpace.MapRunPage | src/memory/paging.cpp:70-71 | one turn of a linear loop extends the mapped run by a page, or clears `complete` only when fewer than three frames were free |
| Paging.AddressSpace.MapDirectPage | src/memory/paging.cpp:81-82 | one turn of the HHDM loop maps page n at `hhdm + phys` |
| Paging.AddressSpace.MapKernelPage | src/memory/paging.cpp:57-61 | one turn of the kernel loop extends both runs by page n |
| Paging.AddressSpace.MapKernelPhysPage | src/memory/paging.cpp:60 | `map(phys, phys, …)` extends the physical run and keeps the virtual pages clear of it |
| Paging.AddressSpace.MapKernelVirtPage | src/memory/paging.cpp:61 | `map(virt, phys, …)` extends the virtual run and keeps the physical pages clear of it |
| Paging.PageAtOffset | src/memory/paging.cpp:55-58 | after n steps the 64-bit offset is `4096 n` and `start + offset` is page n of the run |
| Paging.PageNumberDigits | src/memory/paging.cpp:108-111 | the four slots are the base-512 digits of the page number `(virt >> 12) mod 2^36` |
| Paging.SlotsDetermineNumber | src/memory/paging.cpp:108-111 | addresses with the same four slots have the same page number |
| Paging.NumberDeterminesSlots | src/memory/paging.cpp:108-111 | addresses with the same page number have the same four slots |
| Paging.PageNumberAt | src/memory/paging.cpp:55-58 | k page steps in `uint64_t` advance the page number by k modulo 2^36 |
| Paging.NumbersApart | src/memory/paging.cpp:108-111 | numbers fewer than 2^36 apart differ modulo 2^36 |
| Paging.PagesApart | src/memory/paging.cpp:108-111 | two pages of a run fewer than 2^36 pages apart never share their slots |
| Paging.PagesCollide | src/memory/paging.cpp:108-111 | page k + 2^36 of a run has the slots of page k, so no loop keeps more than its last 2^36 pages |
| Paging.LookupSlots | src/memory/paging.cpp:106-117 | two addresses with the same slots have the same translation |
| Paging.ExtendRun | src/memory/paging.cpp:55-82 | mapping page n of a run to its frame keeps the earlier current pages and adds page n |
| Paging.KeepRun | src/memory/paging.cpp:60-61 | mapping a page of the other kernel run keeps the pages of this run that are clear of it |
| Paging.OutsideStep | src/memory/paging.cpp:55-82 | mapping the next page of a run keeps every address clear of the run so far and of it |
| Paging.OutsideStepOther | src/memory/paging.cpp:60-61 | the same for the next page of the other kernel run |
| CStrings.SignedChar | src/core/utils.cpp:65 | a `char` read as an `int` is the byte sign-extended, zero iff the byte is NUL; used for `strchr`'s `*str == c` test, which `strtok_r` reaches by passing `**savePtr` at src/core/utils.cpp:78 and 82 |
| CStrings.StrEnd | src/core/utils.cpp:57 | the first NUL at or after i |
| CStrings.SkipBlanks | src/core/utils.cpp:8 | the first position holding neither space nor tab; all before it are blanks |
| CStrings.DigitsEnd | src/core/utils.cpp:16 | the first non-digit; all before it are digits |
| CStrings.Atoi | src/core/utils.cpp:3-25 | the result is `AtoiValue`: blanks, one optional sign, the digits, saturated to INT_MAX or INT_MIN on overflow |
| CStrings.AccumulateDigits | src/core/utils.cpp:16-23 | None exactly when the digits' value exceeds INT_MAX, else that value |
| CStrings.ParsePrefix | src/core/utils.cpp:16-23 | a prefix of a digit string denotes no more than the whole |
| CStrings.ParseStep | src/core/utils.cpp:21 | one more digit multiplies by ten and adds it |
| CStrings.Guard | src/core/utils.cpp:19 | the test `result > (INT_MAX - digit) / 10` holds iff the next step would exceed INT_MAX |
| CStrings.DigitChar | src/core/utils.cpp:31-33 | the digit character of d reads back as d in either case |
| CStrings.ToDigits | src/core/utils.cpp:38-49 | the digits of v in the base, never empty |
| CStrings.ParseToDigits | src/core/utils.cpp:38-49 | reading the digits back yields v |
| CStrings.EmitDigits | src/core/utils.cpp:45-49 | the loop stores the low-order k digits of v, all of them when they fit |
| CStrings.UtoaShowsDigits | src/core/utils.cpp:35-52 | with room for every digit, utoa shows exactly the digits of v, and they parse back to v |
| CStrings.Utoa | src/core/utils.cpp:27-53 | null iff the buffer is null, too small or the base is outside 2..36; otherwise a NUL in the last byte, the shown digits before it, and nothing else written |
| CStrings.StoreDigits | src/core/utils.cpp:45-49 | the buffer holds the emitted digits right-aligned before the NUL slot; other bytes are unchanged |
| CStrings.AtoiOfUtoa | src/core/utils.cpp:3-53 | atoi reads back what utoa writes in base 10 |
| CStrings.AtoiReadsToNul | src/core/utils.cpp:3-25 | atoi reads nothing past the first NUL |
| CStrings.Strchr | src/core/utils.cpp:55-69 | the first position holding `(unsigned char)c`, or the terminator for c == 0; null iff c != 0 is absent |
| CStrings.SkipDelims | src/core/utils.cpp:78 | the first position holding the NUL or a non-delimiter; all before it are delimiters |
| CStrings.TokenEnd | src/core/utils.cpp:82 | the first position holding the NUL or a delimiter; all before it are token bytes |
| CStrings.IsDelim | src/core/utils.cpp:78-82 | `strchr(delim, b) != null` exactly when b is one of the delimiters |
| CStrings.Strtok | src/core/utils.cpp:71-91 | no start: null; only delimiters left: null, the save pointer at the NUL; otherwise the token start, with the first delimiter after it NUL-ed and the save pointer past it |
| Memory.Memcpy | src/core/utils.cpp:93-112 | returns dest; null pointers or n == 0 write nothing; otherwise `dest[0..n)` equals `src[0..n)`, on either copy path, and the rest is kept |
| Memory.Memset | src/core/utils.cpp:114-121 | returns dest; exactly the first n bytes become `(char)c` |
| Memory.Memmove | src/core/utils.cpp:123-140 | `dest[0..n)` ends up as the original `src[0..n)` even when the ranges overlap; nothing else changes |
| Memory.CopyForward | src/core/utils.cpp:130 | the forward copy is correct when dest does not lie inside (src, src+n) |
| Memory.CopyBackward | src/core/utils.cpp:132-136 | the backward copy is correct when dest lies above src |
| Kernel.AlignUp | src/core/kernel.cpp:100 | `(base + 0xFFF) & ~0xFFF` is frame-aligned and within one frame above base, or 0 after wrapping |
| Kernel.SelectedNone | src/core/kernel.cpp:93-107 | with no qualifying entry, the choice stays (0, 0) |
| Kernel.SelectedLargest | src/core/kernel.cpp:101-106 | the chosen size is at least every qualifying entry's aligned size |
| Kernel.SelectedHasWinner | src/core/kernel.cpp:101-106 | unless (0, 0), the choice is the rounded range of an entry that beat all earlier ones |
| Kernel.SelectedIsEarliestLargest | src/core/kernel.cpp:95-107 | (0, 0) iff nothing qualifies; otherwise the earliest of the largest qualifying entries (the comparison is strict) |
| Kernel.SelectedBase | src/core/kernel.cpp:98-105 | the chosen base is frame-aligned, and at least 1 MiB when some entry qualifies and no base is within a frame of 2^64 |
| Kernel.SelectedInsideEntry | src/core/kernel.cpp:100-101 | when the entry covers its rounding, the pool ends where the entry ends |
| Kernel.SelectRegion | src/core/kernel.cpp:93-107 | the loop computes `Selected` |
| Kernel.InitPaging | src/core/kernel.cpp:90-116 | halts iff the chosen base is 0, with the allocator untouched; otherwise initialises the allocator on the chosen region |
| Smp.StacksDisjoint | src/memory/smp.cpp:55 | distinct cores get disjoint 8192-byte stacks |
| Smp.CurrentID | src/memory/smp.cpp:61-67 | `(ebx >> 24) & 0xFF` is below 256 and is EBX's top byte |
| Smp.CurrentIDOfField | src/memory/smp.cpp:66 | the ID in bits 31..24 comes back out whatever the low bits hold |
| Smp.Cores.constructor | src/memory/smp.cpp:11-12 | before `init` no core is counted and every recorded ID is 0 |
| Smp.Cores.GetLapicIDAsWritten | src/memory/smp.cpp:71-75 | as written: 0xFFFFFFFF for every index at or above cpuCount, the table entry for index < cpuCount, and no defined value for MAX_CPUS <= index < cpuCount (a read past the table) |
| Smp.Cores.OutOfBoundsLookup | src/memory/smp.cpp:71-75 | with 257 cores reported, index 256 passes the guard and reads past the table |
| Smp.Cores.GetLapicID | src/memory/smp.cpp:71-75 | corrected: the table entry for index below both MAX_CPUS and cpuCount, and 0xFFFFFFFF for every index at or above either |
| Smp.Cores.Init | src/memory/smp.cpp:29-59 | nothing without a response or with count 0; otherwise cpuCount is the (truncated) count, each non-null record below MAX_CPUS has its ID recorded, and each non-bootstrap one gets its own stack top and the trampoline |
| Smp.Cores.FillRecords | src/memory/smp.cpp:37-58 | the loop's table and records are as `Recorded` and `Started` say |
| Segments.DescriptorFields | src/arch/gdt.cpp:80-89 | `setEntry`'s descriptor decodes to the whole base, the limit's low 20 bits, the flags' high nibble and the access byte |
| Segments.DescriptorFromFields | src/arch/gdt.cpp:80-89 | every descriptor is `setEntry`'s encoding of its own decoded fields |
| Segments.Selector | src/arch/gdt.cpp:32 | `index << 3` has table indicator and RPL 0 and reads back the index |
| Gdt.Selectors | src/arch/gdt.cpp:32 | the data selector is 0x10 and the code selector 0x08 |
| Gdt.UpperTssSlotBase | src/arch/gdt.cpp:70-75 | the upper slot as written carries `base >> 48` in bits 16..31 of its first word, so the full base is recovered iff bits 32..47 are zero |
| Gdt.HigherHalfTssBaseLost | src/arch/gdt.cpp:66-75 | a TSS at 0xFFFFFFFF80100000 is read back as 0xFFFF000080100000 |
| Gdt.IstTops | src/arch/x86_64/gdt.cpp:62 | the seven IST tops are the ends of consecutive 8192-byte stacks |
| Gdt.IstStacksDisjoint | src/arch/x86_64/gdt.cpp:62 | the seven IST stacks are disjoint |
| Gdt.WholeSystemBase | src/arch/x86_64/gdt.cpp:67-75 | a low slot holding base bits 0..31 and an upper first word of `base >> 32` carry the whole base |
| Gdt.LowWordFields | src/arch/gdt.cpp:68 | the descriptor fields depend only on the low 32 bits of the base |
| Gdt.DescriptorTable.constructor | src/arch/gdt.cpp:5-10 | the table starts zeroed, as a static array does, with a zero pointer and TSS |
| Gdt.DescriptorTable.SetEntry | src/arch/gdt.cpp:80-89 | only slot `index` changes, to `SegmentDescriptor(base, limit, access, flags)` |
| Gdt.DescriptorTable.Init | src/arch/gdt.cpp:18-28 | the five descriptors (null, code 0x9A/0x20, data 0x92, TSS 0x89, zero) and the pointer `(5*8-1, gdt)` |
| Gdt.DescriptorTable.InitTss | src/arch/gdt.cpp:23-24 | the TSS slot gets access 0x89 and the slot above it the zero descriptor; no other slot changes |
| Gdt.DescriptorTable.SetTss | src/arch/gdt.cpp:57-78 | a zeroed TSS with rsp0, IST1 and the I/O map at 104; the low slot is `setEntry(base mod 2^32, 103, 0x89, 0)`; the upper slot is as `UpperTssSlot` |
| Gdt.DescriptorTable.SetTssX64 | src/arch/x86_64/gdt.cpp:57-78 | a TSS with rsp0, seven IST tops and the I/O map at 104; the two slots carry the whole 64-bit base (section 7.2.3 of the Intel SDM, Volume 3A) and the upper second word is 0 |
| Gdt.DescriptorTable.WriteLowTssSlot | src/arch/x86_64/gdt.cpp:64-72 | the field-by-field low slot equals `setEntry(base mod 2^32, 103, 0x89, 0)` |
| Gdt.DescriptorTable.StoreUpperWords | src/arch/x86_64/gdt.cpp:74-75 | the upper slot's first word is `base >> 32` and its second word 0; no other slot changes |
| Gdt.DescriptorTable.FillTssX64 | src/arch/x86_64/gdt.cpp:59-62 | the zeroed TSS gets rsp0, the I/O map base 104 and the seven IST tops |
| Idt.GateFields | src/arch/x86_64/idt.cpp:29-38 | the gate decodes to the handler address, selector 0x08, the type byte and IST given, and a zero reserved word |
| Idt.GateFromFields | src/arch/x86_64/idt.cpp:29-38 | every gate through selector 0x08 with a zero reserved word is the gate of its own fields |
| Idt.InterruptTable.constructor | src/arch/idt.cpp:7 | the 256 gates start zeroed, as a static array does |
| Idt.InterruptTable.IdtPointerX64 | src/arch/x86_64/idt.cpp:5 | limit + 1 is 256 * 16 and the base is `idt` |
| Idt.InterruptTable.SetEntry | src/arch/idt.cpp:25-41 | only slot `vector` changes: zero for a null handler, else the gate with type 0x8E and IST `ist & 7` (so at most 7) |
| Idt.InterruptTable.SetEntryX64 | src/arch/x86_64/idt.cpp:21-39 | only slot `vector` changes: zero for a null handler, else the gate with the given flags and IST |
| Idt.InterruptTable.ClearAll | src/arch/idt.cpp:12 | every gate becomes zero |
| Idt.InterruptTable.Init | src/arch/idt.cpp:10-21 | every vector holds its legacy gate: gates for 0, 8 (IST 1) and 14, zero elsewhere; the pointer is `(256*16-1, &idt)` |
| Idt.InterruptTable.InitX64 | src/arch/x86_64/idt.cpp:14-19 | vectors 0..31 get gates to `isrList` with 0x8E and IST 1 for 8, 2 for 14, 0 otherwise; vectors 32..255 keep their value |
| Idt.LegacyTableShape | src/arch/idt.cpp:12-16 | only vectors 0, 8 and 14 can be non-zero, with IST 1 only on vector 8 |
| Idt.X64GateShape | src/arch/x86_64/idt.cpp:16-17 | every non-null exception handler is reached through 0x08 with 0x8E, and its IST is non-zero iff the vector is 8 or 14 |
| Console.GlyphCount | src/drivers/renderer.cpp:28 | 512 glyphs iff mode bit 0 is set, else 256 |
| Console.LoadFont | src/drivers/renderer.cpp:18-28 | a font iff the magic is 0x36 0x04, with width 8, height `charSize`, the glyph count of the mode, and the glyphs after the header |
| Console.LoadedFontUsable | src/drivers/renderer.cpp:25-28 | a loaded font from a well-sized file has non-zero width and height and room for every glyph |
| Console.Clamp | src/drivers/renderer.cpp:33-34 | on a non-empty axis the coordinate is kept if it fits and clamped to the last cell otherwise; an empty axis wraps to 2^32-1 |
| Console.WrapCell | src/drivers/renderer.cpp:61-70 | the cell the next glyph goes to lies on the grid, except for the wrap-arounds of an empty grid |
| Console.PutCharOnGrid | src/drivers/renderer.cpp:45-74 | `\n` starts the next line and `\r` the current one without drawing; other bytes are drawn on the grid and move the cursor one cell right |
| Console.PutCharsInLine | src/drivers/renderer.cpp:45-74 | text without `\n`, `\r` that fits on the line advances the cursor by its length |
| Console.LastClear | src/drivers/renderer.cpp:157 | the last `clear` colour in a list of calls, None iff there is none |
| Console.ApplyOneMore | src/drivers/renderer.cpp:147-258 | applying the fields so far and one more is applying all of them |
| Console.GlyphRowsFit | src/drivers/renderer.cpp:72 | a glyph row at a cursor on the grid fits the framebuffer and the 32-bit product does not wrap |
| Console.GlyphColumnsFit | src/drivers/renderer.cpp:72 | a glyph column at a cursor on the grid lies inside the framebuffer |
| Console.GlyphIndex | src/drivers/renderer.cpp:130 | a glyph row of a glyph below the count lies inside the glyph buffer |
| Console.Renderer.constructor | src/drivers/renderer.h:32-35 | before `init` there is no framebuffer and no font, and the cursor is at the origin |
| Console.Renderer.Init | src/drivers/renderer.cpp:8-29 | no framebuffer: nothing changes; otherwise the first framebuffer's geometry and HHDM address; a wrong magic nulls the address and keeps the font |
| Console.Renderer.SetCursor | src/drivers/renderer.cpp:31-35 | each coordinate clamped to the grid |
| Console.Renderer.Clear | src/drivers/renderer.cpp:37-43 | no framebuffer: no change; otherwise every visible pixel becomes `color` and the cursor goes home (a `Clear` call in the log) |
| Console.Renderer.FillRow | src/drivers/renderer.cpp:41 | exactly the visible pixels of row y become `color` |
| Console.Renderer.DrawGlyph | src/drivers/renderer.cpp:125-134 | glyphs at or above the count draw nothing; otherwise pixel (x, y) of the cell is fg iff bit 7-x of glyph row y is set, clipped to the framebuffer, and nothing else changes |
| Console.Renderer.DrawRow | src/drivers/renderer.cpp:132-133 | on one row of the cell, a column is fg iff its glyph bit (bit 7 leftmost) is set; clipped to the framebuffer, nothing else changes |
| Console.Renderer.PrintChar | src/drivers/renderer.cpp:45-74 | the cursor moves as `PutChar` says, and the glyph is drawn at the cell it names; no framebuffer: no change |
| Console.Renderer.WrapCursor | src/drivers/renderer.cpp:61-70 | the cursor moves to `WrapCell` of the old cursor |
| Console.Renderer.DrawAtCursor | src/drivers/renderer.cpp:72-73 | the glyph is drawn at the cursor's cell and the cursor moves one cell right |
| Console.Renderer.PrintCharAt | src/drivers/renderer.cpp:76-82 | the glyph at cell (x, y) for a drawable byte on the grid, nothing otherwise; the cursor never moves |
| Console.Renderer.EscapeAnsi | src/drivers/renderer.cpp:136-260 | the colours and the `clear` calls are those of `Escape` on the sequence: nothing unless it starts with '[', else each `;` parameter applied in order |
| Console.Renderer.CopyParams | src/drivers/renderer.cpp:141-144 | the copy holds the bytes after '[' up to the NUL, at most 15 of them, then a NUL |
| Console.Renderer.ApplyFields | src/drivers/renderer.cpp:146-259 | the strtok loop applies exactly the `;`-separated fields of the copy, in order |
| Console.Renderer.FirstToken | src/drivers/renderer.cpp:146 | the first `strtok` starts the scan over all the fields |
| Console.Renderer.ApplyNext | src/drivers/renderer.cpp:149-258 | one turn applies the current field and moves the scan on to the next one |
| Console.Renderer.ApplyToken | src/drivers/renderer.cpp:149 | a token is applied by its `atoi` value |
| Console.Renderer.ApplyParameter | src/drivers/renderer.cpp:149-257 | the colours become `ApplyCode` of the code (0 defaults, 30-37/90-97 fg, 40-47/100-107 bg, else unchanged); code 2 clears with the current bg |
| Console.Renderer.NextToken | src/drivers/renderer.cpp:258 | `strtok(nullptr, ";")` yields the next field, or none when none is left |
| Console.Renderer.Print | src/drivers/renderer.cpp:84-116 | the calls made are those of `Run` from the default colours over the string up to its NUL |
| Console.Renderer.PrintByte | src/drivers/renderer.cpp:91-115 | one turn of the loop is one `Step` of the state machine |
| Console.Renderer.EscapeByte | src/drivers/renderer.cpp:96-103 | a byte inside a sequence is collected, and a final byte or 15 held bytes hands the sequence to `escapeAnsi` |
| Console.Renderer.PrintAt | src/drivers/renderer.cpp:118-123 | `setCursor` then `print` |
| Console.StrtokField | src/drivers/renderer.cpp:146-258 | a `strtok` call from the save position yields the next field of the parameters and leaves the rest after the new save position |
| Console.ScanningStep | src/drivers/renderer.cpp:147-259 | the scan invariant holds again after one field |
| Ansi.ApplyCode | src/drivers/renderer.cpp:149-257 | code 0 restores the defaults; 30-37, 90-97 set fg and 40-47, 100-107 set bg to the colours of src/core/utils.h; other codes keep the pen |
| Ansi.ApplySgrAppend | src/drivers/renderer.cpp:147-259 | parameters apply left to right: a list acts as its first part and then the rest |
| Ansi.ApplySgrLast | src/drivers/renderer.cpp:147-259 | later parameters override earlier ones: the last is applied to what the others leave |
| Ansi.ApplySgrOne | src/drivers/renderer.cpp:149-257 | one parameter is `ApplyCode` of it, with the `clear` call code 2 makes |
| Ansi.ApplySgrNoClear | src/drivers/renderer.cpp:156-158 | without code 2 no `clear` call is made |
| Ansi.SemicolonDelims | src/drivers/renderer.cpp:146 | the delimiter string ";" makes ';' the only delimiter |
| Ansi.FieldsShape | src/drivers/renderer.cpp:146-258 | every field strtok yields is non-empty and holds no ';' |
| Ansi.FieldsJoin | src/drivers/renderer.cpp:146-258 | the fields of `a;b` are the fields of a and then those of b |
| Ansi.FieldsSkip | src/core/utils.cpp:78 | leading ';' bytes yield no field |
| Ansi.FieldsOfOne | src/core/utils.cpp:82 | a string without ';' is one field |
| Ansi.SkipToField | src/core/utils.cpp:78-79 | skipping delimiters reaches the next field, or the NUL when none is left |
| Ansi.TokenToFieldEnd | src/core/utils.cpp:81-82 | from a field's first byte, the token ends where the field ends |
| Ansi.TokenCut | src/core/utils.cpp:84-88 | the NUL written at the token's end leaves the rest of the parameters intact after it |
| Ansi.Escape | src/drivers/renderer.cpp:139 | a sequence not starting with '[' changes nothing and makes no call |
| Ansi.RunAppend | src/drivers/renderer.cpp:91-115 | running over a + b is running over a, then over b |
| Ansi.RunSane | src/drivers/renderer.cpp:96-103 | inside a sequence fewer than 15 bytes are held; outside, none |
| Ansi.RunPlain | src/drivers/renderer.cpp:114 | text without ESC is drawn byte for byte in the current colours |
| Ansi.RunSnoc | src/drivers/renderer.cpp:91-115 | the state after a prefix and one byte is one more step |
| Ansi.EndsEscape | src/drivers/renderer.cpp:97 | as written: a byte in '@'..'~' or the 15th collected byte ends the sequence, so '[' always does and parameter bytes '0'..'?' never do before the limit |
| Ansi.EndsCsi | src/drivers/renderer.cpp:97 | corrected: the introducing '[' alone never ends the sequence; after it, termination is as written |
| Ansi.IntroducerEndsEscape | src/drivers/renderer.cpp:97 | as written, ESC '[' is a complete sequence, so the parameter bytes after it are drawn as text |
| Ansi.CsiApplied | src/drivers/renderer.cpp:96-103 | corrected: ESC '[' with parameter bytes and a final byte applies its parameters and draws none of them |
| Ansi.CollectParams | src/drivers/renderer.cpp:96 | corrected: parameter bytes are collected without ending the sequence |
| Ansi.BannerAsWritten | src/core/kernel.cpp:18 | as written, the boot banner draws "32m" before its text, in the default colours |
| Ansi.BannerCorrected | src/core/kernel.cpp:18 | corrected, the banner's text is drawn in green and nothing else is drawn |
| Ansi.BannerCodeRun | src/core/kernel.cpp:18 | corrected, the banner's escape sequence leaves the state idle with fg green and draws nothing |
| Ansi.EscapeGreen | src/drivers/renderer.cpp:165-166 | `escapeAnsi("[32m")` sets fg to green and makes no call |

## Left out

- Control-register, MSR and TLB instructions are not modelled, and neither are the
  descriptor-table loads: the CR3/CR4/EFER/CR0 writes and `invlpg` (paging.cpp:84-103, 118,
  136), `lgdt`, the far return, `ltr` and `lidt`. `cpuid` becomes the EBX input of
  `Smp.CurrentID`.
- Linker and bootloader symbols are inputs. These are the kernel's physical and virtual base
  and size, the framebuffer list, the HHDM offset, the memory map, the table addresses, the
  stack addresses and the font file.
- Concurrency and AP start-up are out of scope: `apMain`, the trampoline, `Atomic` and
  `Spinlock`. `waitForAPs` and `apReadyCount` have no definition, so they are not in this
  model.
- Port I/O, the serial driver, the exception printers, `printf` and the boot progress
  messages are out of scope. `Renderer::scroll` is declared but has no definition.
- `SMP::getCpuCount` only returns `cpuCount`: the model keeps that field and adds no separate
  member for it.
- `FrameAllocator.Allocator.Free`, `FrameAllocator.Allocator.Reserve` and
  `FrameAllocator.Allocator.Used` require an accepted address's index to be below
  `totalFrames`. The source has no upper check there, and an index beyond the pool writes
  outside the bitmap.
- FrameAllocator.Allocator.Init: the bitmap is kept as a separate array, so the model does not
  show the bitmap being overwritten through a frame allocated from under it. That frame is
  stated as an address instead (see Findings). The same gap bounds what the paging rows
  promise (see the `Paging.AddressSpace.Init` line below).
- paging.cpp reserves none of the bitmap's own frames at `init` (see Findings), and no
  allocator routine takes a lock. `FrameAllocator.Allocator.Init` and `Kernel.InitPaging`
  follow the code. The lock, like all concurrency, is outside this model.
- `Paging.AddressSpace.Map`: when `ensureTable` returns null the source dereferences it. The
  model stops the walk there and says nothing about that write.
- `Paging.AddressSpace.MapKernel`, `Paging.AddressSpace.MapBootRanges` and
  `Paging.AddressSpace.Init` say which frame a page reaches only for pages that no other
  run's page shares slots with. Where the kernel's physical and virtual runs, the
  framebuffer or the HHDM window overlap, the later `map` call wins, and the model promises
  only that such a page's translation may change.
- `Paging.AddressSpace.MapDirect`, `Paging.AddressSpace.MapFramebuffer` and
  `Paging.AddressSpace.MapKernel` state the completed mapping for the last 2^36 pages of each
  run (`Current`). This is not a weakening: `Paging.PagesCollide` shows that page k + 2^36
  takes the slots of page k, so a longer run remaps its first pages.
- The mapping loops report through a ghost `complete` flag whether every walk found its
  tables. The source's `map` returns nothing and, out of frames, writes through a null
  pointer; completion is guaranteed from three free frames per `map` call.
- Paging's invariant assumes the pool is 4096-aligned, non-zero and inside the HHDM window
  below 2^64. `Paging.AddressSpace.Init` leaves the mapping loops' 64-bit wrap-around out
  through its bounds on the sizes.
- `Kernel.InitPaging` models `initPaging` only as far as `FrameAllocator::init` and does not
  chain into `Paging::init`. `Paging.AddressSpace.Init` is the model of `Paging::init` on its
  own.
- `Paging.AddressSpace.Init` and `Paging.AddressSpace.MapBootRanges`: their promises about
  the frames the boot ranges reach hold only for an allocator whose bitmap frames are never
  handed out as tables, such as `FrameAllocator.Allocator.InitReserved` builds. They fail as
  written. `FrameAllocator::init` leaves the bitmap's frames free (paging.cpp:145-146, see
  Findings), so the first `createPageTable` gets frame 0 and zeroes the bitmap. Frame 0 is
  then free again, later `ensureTable` calls hand it out as a lower table, and the PML4 ends
  up pointing at itself. The model keeps the bitmap in a separate array, so it cannot show
  this.
- `Memory.Memcpy` requires distinct arrays. `Memory.Memmove` is modelled on two ranges of one
  buffer. Pointer identity beyond that (aliasing between unrelated objects) is not modelled.
- `CStrings.Utoa` requires `bufferSize` to be at most the buffer length and to fit an `int`.
  Without that the source indexes outside the buffer or truncates the size.
- `CStrings.Strtok` models `strtok_r` with the save pointer as an explicit index. The
  non-reentrant `strtok` that `escapeAnsi` calls has no definition in this repository. It is
  taken to behave like `strtok_r` with a private save pointer.
- `ESCAPE_SIZE` has no definition in this repository. It is taken as 16, which matches the
  cap of 15 collected bytes.
- `Console.Renderer.SetCursor` requires a loaded font: before `init` the source divides by a
  zero glyph size.
- `Console.Renderer.Init` requires the first framebuffer to fit the `pixels` array and its
  width and height to fit 32 bits. It also requires the font file to hold the header and
  every glyph it announces.
- `Console.Renderer.EscapeAnsi`, `Console.Renderer.ApplyFields` and `Console.Renderer.Print`
  state their effect on the screen through the call log only. They do not restate the
  pixels each call leaves. `Console.Renderer.Clear` and `Console.Renderer.PrintChar` state
  those pixels themselves.
- Smp.Cores.Init requires the response's records to be distinct and to number `cpu_count`.
  The model does not cover a response that lists one record twice or reports a wrong count.
- Headers from other revisions disagree with the `.cpp` files, for example at
  src/arch/idt.h:23 and src/arch/x86_64/gdt.h:29. The model follows the `.cpp` bodies.
- Characters are bytes 0..255. The signed `char` view (`CStrings.SignedChar`) enters only
  through `strchr`'s `*str == c` test (utils.cpp:65), which `strtok_r` reaches by passing
  `**savePtr` (utils.cpp:78, 82). That test runs only on the terminating NUL. `atoi`'s
  `*str - '0'` runs only on '0'..'9', where the sign makes no difference.

## Findings

| source | as written | input that shows it | evidently intended | confidence | as-written member | corrected member |
|---|---|---|---|---|---|---|
| src/memory/smp.cpp:71-75 | `getLapicID` checks only `index >= cpuCount`, while `cpuCount` keeps counts above `MAX_CPUS` (256) | 257 cores reported, `getLapicID(256)`: the guard passes and `lapicIDs[256]` is read past the table | also reject indices at or above `MAX_CPUS` | not executed | Smp.Cores.GetLapicIDAsWritten, Smp.Cores.OutOfBoundsLookup | Smp.Cores.GetLapicID |
| src/memory/paging.cpp:145-146 | `init` places the bitmap inside the pool at `hhdm + base` but leaves its frames free | `initPaging` runs `Paging::init` right after `FrameAllocator::init`; its first `createPageTable` (paging.cpp:48) gets frame 0 at `base` and zeroes 4 KiB at `hhdm + base`, which is the bitmap | mark the bitmap's frames allocated, so that no allocation hands out the memory the bitmap lives in | not executed | FrameAllocator.FirstAllocIsBitmap | FrameAllocator.Allocator.InitReserved, FrameAllocator.AllocSkipsBitmap |
| src/arch/gdt.cpp:70-75 | the upper TSS slot gets `baseLow = base >> 48`, `baseMid = (base >> 32) & 0xFF`, `baseHigh = base >> 56` | a TSS at 0xFFFFFFFF80100000 is read by the processor as 0xFFFF000080100000 | the first word of the upper slot holds base bits 32..63 (section 7.2.3 of the Intel SDM, Volume 3A), as src/arch/x86_64/gdt.cpp:74-75 does | not executed | Gdt.UpperTssSlotBase, Gdt.HigherHalfTssBaseLost | Gdt.DescriptorTable.SetTssX64, Gdt.WholeSystemBase |
| src/drivers/renderer.cpp:97 | a sequence ends at the first byte in '@'..'~', and the introducing '[' (0x5B) is in that range | the banner ESC "[32mMesh Booted Successfully!" of src/core/kernel.cpp:18 draws "32mMesh…" in the default colours | '[' introduces a control sequence, which ends at the next final byte (section 5.4 of ECMA-48) | not executed | Ansi.EndsEscape, Ansi.IntroducerEndsEscape, Ansi.BannerAsWritten | Ansi.EndsCsi, Ansi.CsiApplied, Ansi.BannerCorrected |
