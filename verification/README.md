# The kernel's memory, proved

A Dafny model of the memory subsystem of the Cardinal kernel and of four small
algorithms beside it. Code that writes memory in place is written as methods over
arrays and fields; read-only recursions and macros are functions. Every method is
proved against a specification, and the lemmas say what the specification means.

* **Page tables** (`PageTables`, `MapSpec`, `MapSteps`, `MapLoop`, `MapTheorems`,
  `Crossings`, `TopTable`, `Unmapping`, `Vmem`). Memory is a map from tables to entries. A
  ghost map gives every table its place: which part of which address space it spans and
  the one slot that points to it. `Find` is the walk; `Translate` is the flat partial
  function from addresses to frames and rights. Mapping refines an update of that function
  for every request, walking refines reading it, unmapping undoes it.
* **The processor** (`Processor`, `PteWord`, `Rights`) walks the same tables (sections 4.5 and 4.6 of
  the Intel SDM, Volume 3A) but reads the address of a large page otherwise. It agrees
  exactly where that address is aligned to the page's size. `PteWord` ties entries to
  64-bit words, `Rights` the caller's flags to what the processor grants and caches.
* **Copies of the top table** (`ContextSwitch`) and the **windows onto physical
  memory** (`PhysMap`, `DirectMap`), from the empty tables of start-up on.
* **Page allocator** (`Ring`, `PageWords`, `RingSort`, `Compaction`, `FreeList`,
  `PageAlloc`, `PageTheorems`, `Fragments`, `PageWitnesses`). The free list is a ring of packed words,
  sorted by an in-place Hoare quicksort over positions that wrap, coalesced in place, and
  searched by rotation. The reference is how often each page number is free. `Frames`
  derives from it what the page tables assume of the frames they are given.
* **Vectors**, **Digits**, **Strings**, **Bootstrap**: interrupt vectors, number
  printing, `strstr`, and the bootstrap allocator under its spinlock, the last as a
  state machine over every interleaving of any number of cores.

## Where the code and what it is meant to do differ

The model follows the code. Each point names an exact condition or a lemma with a
concrete case.

* The page size of a map depends on `size` alone (vmem.c:228), and the step over a
  boundary (vmem.c:296-301) keeps the offset below the child's level, jumps over as many
  bytes and takes them off the size. `WellAligned` is the exact condition for
  `vmem_virttophys` (`MapRightIff`). A boundary crossed with such an offset leaves a hole
  (`HoleUnmapped`), even where success is reported (`MappedWithHole`).
* When the range ends among the bytes jumped over, the size wraps below 0. The call never
  returns 0 then, and in a free half it maps on past the range to the end of the half
  unless tables run out (`PastEndIff`, `OverrunsMeans`). Two pages across a gigabyte are
  the smallest case (`TwoPagesAcrossGigabyte`, `TwoPagesRunOn`).
* The physical address of a large page is masked to 4 KiB (vmem.c:262). To the processor
  bit 12 of it is the attribute bit and bits 13 up to the page's size are reserved. A map
  is right for the processor exactly when its physical address is aligned to the page's
  size as well (`SeenRightIff`). Two megabytes at physical 0x2000 fault
  (`ReservedBitFaults`); at 0x1000 the processor reads physical 0 where
  `vmem_virttophys` answers 0x1000 (`AttributeBitMoves`).
* An entry counts as empty when its address is 0 (vmem.c:277), so a large page at
  physical 0 is overwritten without an error (`LargePageAtZeroLost`, `OutsideKeptIff`).
* Tables are reached through `vmem_phystovirt` (vmem.c:283, :290), which panics for a frame
  outside the windows: one that does not end below 2 GiB during the first map of start-up,
  when `phys_map_sz` is still 0 (vmem.c:154-158), and below 256 GiB afterwards. `OpenSlot`
  has that outcome, and `Boot` fails only when frames run out or one reaches 2 GiB.
* A map on the active process does not reach the processor's copy (vmem.c:385-392). The
  copies stay current exactly when every top-level entry the mapped bytes pass had an
  address before the call (`RemapCoherentIff`); one page under an empty entry is gone
  after the next switch (`OnePageIsLost`).
* Unmapping looks every entry's address up in the windows before it looks at the entry
  (vmem.c:322), so a page beyond 256 GiB cannot be unmapped (`UnmapFarFails`,
  `FarPageStays`). Otherwise it undoes a map exactly when the range is smaller than one
  leaf table and ends inside it (`UnmapRightIff`). A larger range never succeeds
  (`UnmapFailsOver`): it meets the same entry again and again and every round frees the
  same table's frame once more (vmem.c:332-341); equal words never merge with one another,
  so the ring fills and the push panics. A smaller range that reaches into the next table
  is reported as done, but the index wraps: its end stays mapped and the start of the first
  table goes (`TwoPagesAcrossTable`).
* `vmem_unmap` sets the size to 0 before it unmaps (vmem.c:399), so it changes nothing:
  `Vmem.Unmap`.
* Compaction moves the head on by one for every merge, wherever it happened
  (pagealloc.c:104-109). `CompactionRightIff` gives the exact condition, called clean,
  and `CleanIffPrefix` the order of merges it means. A step of a run keeps every page free
  once or held exactly when it is sound, which its compactions being clean is part of
  (`StepRightIff`). Four frees of held pages and one allocation lose page 1 and make
  page 0 free (`HeadEntryLost`, `LoseHeadEntry`).
* The last pair of the sorted list is never tried (pagealloc.c:97), so compaction leaves it
  apart (`MergesNothingIff`). After clean compactions a request of up to 2^19 pages can fail
  over a long enough run of free pages only if that run reaches into the last entry
  (`FailedMeansFragmented`).
* An empty ring is compacted whole (pagealloc.c:90-93), so words an unclean compaction left
  behind may merge, and the count falls below 0: `CompactQueue`, `Alloc`.
* The ring has room for half as many entries as pages, which the comment at
  pagealloc.c:258 calls the worst case. It is not enough: with every odd page free
  and every even one held, freeing page 0 panics (`HalfIsTooFew`, `FreeOddPages`,
  `PageZeroRefused`).
* The page count of an allocation is 32 bits wide (pagealloc.c:184): `TakesRightIff`.
* Initialisation rounds a region's base up without shortening it
  (pagealloc.c:272-275): `RegionRightIff`.
* The vector search looks one vector past the end of a block, so it never grants one
  that ends with vector 255 (idt.c:157-169): `LastVectorNotFound`.
* `itoa` has characters for 36 digits only (stdlib.c:71-74): `TextMeansIff`.
* `atoi` in base 16 loses the top four bits (stdlib.c:168-173): `RoundTripIff`.
* A huge request overflows the position of the bootstrap allocator
  (bootstrap_alloc.c:32): `MallocRightIff`, `StepSafeIff`.

One comment is wrong without consequence for what is proved: pagealloc.c:78 says the
smaller side is recursed into; the code recurses into the larger, and so does the model,
which claims no depth.

## Model

| member | source | states |
|---|---|---|
| Vmem.Vmem.MapSt | kernel/src/vmem.c:220-310 | for any forest and any request at any level: the forest stays a forest, only tables under this one change, and the translation function is the old one with exactly the bytes up to the place reached added, less those jumped over, all leaves at one level; every walk that ended on a page those bytes do not touch ends at the same entry still; it stops at the end, at a page that was taken, or at the end of the table with bytes left, and passes the end of the range only when that lies among bytes jumped over; the frames it takes are those of its new tables; when it gives up, for want of frames or at a frame no window holds, no other address has gained anything |
| Vmem.Vmem.FillLeaves | kernel/src/vmem.c:228-270 | the leaf loop meets the same contract at its own level and asks to continue only past slot 511 |
| Vmem.Vmem.FillBelow | kernel/src/vmem.c:271-309 | the recursive loop meets the same contract, over every answer from below and every request |
| Vmem.Vmem.OpenSlot | kernel/src/vmem.c:275-285 | the slot leads to a table: the one it pointed to, and then no frame is taken, or a fresh zeroed frame that no other slot holds; without a frame, or at one that `vmem_phystovirt` does not reach, no table is changed |
| Vmem.Vmem.MapEntry | kernel/src/vmem.c:287-305 | one turn ends the call with its contract or stands at the next entry with the bytes the child did accounted for |
| Vmem.Vmem.Map | kernel/src/vmem.c:367-394 | the sign of the address picks the space; it is a map step of the run model, in which kernel maps reach the processor's copy and process maps leave it as it was |
| Vmem.Vmem.UnmapSt | kernel/src/vmem.c:312-365 | for any forest, range and level: the forest stays a forest and only tables under the one the call works in change; a run of leaves of one table is unmapped exactly, if and only if all its pages can be reached; over a pointer whose table the range covers the call never succeeds; in a last-level table whose pages can be reached it succeeds, and empties exactly the entries whose index, wrapped, the range passes; where the first entry stops it, it ends with the error or the panic of that case |
| Vmem.Vmem.UnmapBelow | kernel/src/vmem.c:332-346 | handing the rest of the range to the table below meets that contract, and over a range that covers the table it never reports success |
| Vmem.Vmem.MapAndUnmap | kernel/src/vmem.c:220-365 | mapping a well aligned free range and unmapping it reports success and restores the whole translation function if and only if the range is smaller than one leaf table and ends inside it and the last of its pages can be reached |
| Vmem.Vmem.Unmap | kernel/src/vmem.c:396-425 | reports success and changes no table, whatever the range, and is an unmap step of the run model |
| Vmem.Vmem.constructor | kernel/src/vmem.c:129-147 | the empty kernel half is a forest and its copy is current |
| Vmem.Vmem.AddProcess | kernel/src/vmem.c:427-441 | a new empty half table, in which nothing is mapped, keeps the forest and the copies, and is a step of the run model |
| Vmem.Vmem.VirtToPhys | kernel/src/vmem.c:545-560 | returns 0 and the translation's address, -1 exactly where there is none, -2 exactly without a process |
| Vmem.Vmem.SetActive | kernel/src/vmem.c:471-486 | afterwards the process is active, each of its addresses, walked from the processor's top table, is what its own tables say, and the kernel's half is as before; the copies are current, and no table changed when they were before |
| Vmem.Vmem.GetActive | kernel/src/vmem.c:488-493 | returns the active process, leaves the copies current, and changes no table if and only if they were current before |
| Vmem.Vmem.SaveState | kernel/src/vmem.c:450-469 | the copies are current afterwards, and no table changed if and only if they were before |
| Vmem.Vmem.MapWindow | kernel/src/vmem.c:154-161 | one start-up map into a range below empty top-level entries fails only when frames run out or one lies beyond the windows; it gives every address of its window its own physical address, for the processor too, changes no other, and leaves what lies below other top-level entries as it was |
| Vmem.Vmem.InitWindows | kernel/src/vmem.c:154-161 | the three maps into an empty kernel half, the first with no window in place and the others with 256 GiB, fail only when frames run out or one does not end below 2 GiB; afterwards walking the address `vmem_phystovirt` gives for any block below 256 GiB leads back to the block, for software and processor, and code runs from the window of the first 2 GiB only |
| Vmem.Vmem.Boot | kernel/src/vmem.c:95-167 | the same from the first state of `vmem_init` on, top table included, with the copy current |
| MapTheorems.MapRightIff | kernel/src/vmem.c:220-310 | as `vmem_virttophys` reads it, a map over a free range gives every address phys + (v - virt), and the rights and caching its flags ask for, if and only if the request is well aligned |
| MapTheorems.MapRight | kernel/src/vmem.c:220-310 | of a well aligned request every byte done is right, also when the call stopped early |
| MapTheorems.MapOutcome | kernel/src/vmem.c:254-260 | a soundly crossed call returns mapped if and only if no page of the range was taken before it, else it stops at the first taken page after a clean prefix |
| MapTheorems.OutsideKeptIff | kernel/src/vmem.c:277 | for any request, an address outside the bytes done keeps its translation if and only if it was not in a large page at physical 0 that they touch |
| MapTheorems.OutsideKept | kernel/src/vmem.c:220-310 | for any request with no such page among its bytes, every address outside them translates as before |
| MapTheorems.OtherSpaces | kernel/src/vmem.c:367-394 | no map changes a translation of another address space |
| MapTheorems.HoleUnmapped | kernel/src/vmem.c:296-305 | every unsoundly crossed request jumps over an address of its range, which gains no translation whatever the call ends with |
| MapTheorems.DoneOrKept | kernel/src/vmem.c:220-310 | for any request and any end of the call, giving up included, the bytes done have what was asked for and no other address gains a translation |
| MapTheorems.DoneGrants | kernel/src/vmem.c:230-252 | for any request and any end of the call, every byte done is writable, for the user, and executable exactly when flag 0x1, 0x800 and 0x2 is set, and cached by the first set of flags 0x4, 0x20 and 0x10 |
| MapTheorems.LargestPages | kernel/src/vmem.c:228 | a well aligned range is mapped in the largest pages that divide its size |
| Rights.GrantsIff | kernel/src/vmem.c:230-252 | the leaf bits the code computes are the only ones that, with the page attribute table of start-up, grant what the flags ask for |
| Crossings.OverrunsMeans | kernel/src/vmem.c:296-301 | the range ends among bytes jumped over if and only if it ends between a boundary it crosses and that boundary plus the offset kept |
| Crossings.EndNotPassed | kernel/src/vmem.c:296-305 | unless it does, no page past the range gains anything, whatever the tables and the end of the call |
| Crossings.OverrunNeverMapped | kernel/src/vmem.c:271-309 | if it does, the call never returns success |
| Crossings.OverrunRunsOn | kernel/src/vmem.c:296-305 | and in a free half it maps every page up to the end of the half but those jumped over |
| Crossings.PastEndIff | kernel/src/vmem.c:296-305 | so in a free half a request leaves every page past its end alone if and only if its range does not end among bytes jumped over |
| Crossings.TwoPagesAcrossGigabyte | kernel/src/vmem.c:296-301 | the second of two pages across a gigabyte is never mapped and success never reported, whatever the call ends with |
| Crossings.TwoPagesRunOn | kernel/src/vmem.c:296-301 | instead, in a free half, the page two megabytes on is, and the call goes on from there |
| Crossings.MappedWithHole | kernel/src/vmem.c:296-305 | 0x401000 bytes across a gigabyte are reported as mapped, and the page at the gigabyte is not |
| MapTheorems.LargePageAtZeroMapped | kernel/src/vmem.c:277-288 | mapping a page inside a large page at physical 0 is no error |
| MapTheorems.LargePageAtZeroLost | kernel/src/vmem.c:277-288 | and every other address of that large page loses its translation |
| MapTheorems.VirtToPhysIsWalk | kernel/src/vmem.c:515-543 | in a well-formed forest the software walk finds the translation function's address |
| MapTheorems.VirtToPhysIsTranslate | kernel/src/vmem.c:545-560 | and so does `vmem_virttophys` from the root of a space |
| Processor.SeesTranslationIff | kernel/src/vmem.c:230-284 | the processor finds the same address, rights and caching if and only if the leaf reached has an address aligned to its page |
| Processor.SeenRightIff | kernel/src/vmem.c:220-310 | a map over a free range is right for the processor, address by address, if and only if it is well aligned and its physical address is aligned to the size of its pages |
| Processor.RightsGiven | kernel/src/vmem.c:122-127 | whatever the request and its end, the processor grants a mapped address exactly the rights of the flags, and caches it as they ask, or not at all where the attribute bit is set |
| Processor.OutsideSeen | kernel/src/vmem.c:220-310 | no map changes what the processor makes of an address on a page its bytes do not touch |
| Processor.ReservedBitFaults | kernel/src/vmem.c:262 | 2 MiB mapped to physical 0x2000 fault, where the software answers 0x2000 |
| Processor.AttributeBitMoves | kernel/src/vmem.c:262 | mapped to physical 0x1000 the processor reads physical 0 with the attribute bit set, where the software answers 0x1000 |
| Unmapping.MappedIsOneTable | kernel/src/vmem.c:220-270 | what a well aligned call mapped inside one table is a run of leaves that unmapping accepts |
| Unmapping.UnmapRightIff | kernel/src/vmem.c:312-365 | mapping a free range and unmapping it succeeds and restores the whole translation function if and only if the range is smaller than one leaf table and ends inside it and the last of its pages can be reached |
| Unmapping.UnmapFarFails | kernel/src/vmem.c:322-324 | of a range that fits its table the call succeeds if and only if the last page can be reached |
| Unmapping.FarPageStays | kernel/src/vmem.c:322-324 | one page at physical 256 GiB can be mapped and not unmapped |
| Unmapping.UnmapFailsOver | kernel/src/vmem.c:332-341 | a mapped range that covers a whole leaf table is never unmapped |
| Unmapping.UnmapMissesLast | kernel/src/vmem.c:320-328 | a mapped range that reaches into the next leaf table keeps its last page |
| Unmapping.UnmapTakesFirst | kernel/src/vmem.c:320-328 | and of small pages it takes the first page of the table it started in instead |
| Unmapping.TwoPagesAcrossTable | kernel/src/vmem.c:320-328 | two pages across 2 MiB: where success is reported, as it is when the pages of the table can be reached, the second page stays and the page at 0 goes |
| Unmapping.ClearingNext | kernel/src/vmem.c:326-331 | a turn of unmapping that goes on keeps the loop's invariant: what is passed is gone, the rest as it was |
| Unmapping.ClearingFails | kernel/src/vmem.c:332-361 | a turn that cannot go on proves that the range was no run of leaves of one table |
| Unmapping.EndsNow | kernel/src/vmem.c:318-361 | a turn that stops the call ends beyond the table, at an address out of reach, in part of a large page, or with no mapping, exactly as the entry there says |
| TopTable.TopEntriesAdded | kernel/src/vmem.c:277-285 | any call that does not give up changes a top-level entry if and only if it had no address before and the bytes done pass it |
| TopTable.TopTableStaysIff | kernel/src/vmem.c:277-285 | so the half table is unchanged if and only if every entry those bytes pass was in use |
| PageTables.OneParent | kernel/src/vmem.c:277-285 | every table frame is held by exactly one slot |
| PageTables.HardwareAgreesIff | kernel/src/vmem.c:515-543 | under the invariant the processor's walk is the model's at every level if and only if the leaf's address is aligned to its page |
| PageTables.FindFrame | kernel/src/vmem.c:220-310 | rewriting tables under one slot changes no walk to an address outside it |
| Paging.IndicesAre | kernel/src/vmem.c:48-66 | the four indices and the offset make up the address |
| MapSpec.LeafStep | kernel/src/vmem.c:254-268 | one written leaf extends the translation function by exactly one page |
| MapLoop.PassRefines | kernel/src/vmem.c:290-294 | what the call below did to the rest of the request is what the table has done of the whole |
| MapSteps.HangWf | kernel/src/vmem.c:277-285 | hanging a zeroed frame in an empty slot keeps the forest |
| MapLoop.StrideLands | kernel/src/vmem.c:296-303 | the step leads to the next entry and keeps the offset below the child's level |
| MapLoop.SkipsAt | kernel/src/vmem.c:296-303 | inside an entry the table jumps over what the call below does, and over what lies before the place the loop stands at |
| MapLoop.DoesJump | kernel/src/vmem.c:296-303 | the offset kept over a boundary moves the loop on without a byte done |
| MapLoop.Settle | kernel/src/vmem.c:287-305 | any answer from below ends the loop with the contract or restores its invariant at the next entry |
| PteWord.LeafReadsBack | kernel/src/vmem.c:230-262 | every field of a leaf word reads back as written |
| PteWord.TableReadsBack | kernel/src/vmem.c:284 | a table word reads as a present, open entry that is no leaf |
| PteWord.WordsAreEntries | kernel/src/vmem.c:230-284 | the words the code writes stand for the entries of the model, masked address included |
| PteWord.LeafBits | kernel/src/vmem.c:17-28 | the word of a leaf for any flags, bit by bit, each at its place in section 4.5 of the Intel SDM, Volume 3A |
| PteWord.TableBits | kernel/src/vmem.c:284 | the word of a table is its address and the three lowest bits |
| PteWord.ReadsWord | kernel/src/vmem.c:230-262 | of a large leaf bit 12 is the attribute bit, a bit from 13 up to the page's size is reserved, and the rest is the page's address: the processor's reading of the word is that of the entry |
| DirectMap.WindowsAgree | kernel/src/vmem.c:562-577 | every byte of a block below 256 GiB, reached through the address `vmem_phystovirt` gives, is that byte of physical memory, cached as asked |
| DirectMap.WindowsDirect | kernel/src/vmem.c:545-577 | so walking that address from the processor's top table finds that byte, as `vmem_virttophys` walks and as the processor does |
| DirectMap.WindowsAreFor | kernel/src/vmem.c:154-161 | to the processor the first 2 GiB of memory lie at the top, where code runs, and the first 256 GiB twice below, cached and uncached, where none does, all for the kernel alone |
| PhysMap.NearIff | kernel/src/vmem.c:562-577 | a frame can be reached exactly if it ends below 2 GiB or below what the windows hold |
| DirectMap.WindowMapped | kernel/src/vmem.c:154-161 | a successful start-up map into a bare range is a window and changes nothing else |
| DirectMap.WindowFree | kernel/src/vmem.c:154-161 | over a range below empty top-level entries only want of a frame that can be reached stops it |
| DirectMap.BesideStays | kernel/src/vmem.c:154-161 | and what lies below other top-level entries stays bare, or a window |
| DirectMap.TablesReached | kernel/src/vmem.c:562-577 | with the windows in place each byte of every table is, to the processor, where `vmem_phystovirt` says |
| DirectMap.WindowsStay | kernel/src/vmem.c:367-394 | no later map whose bytes touch no page of the windows changes them |
| ContextSwitch.SaveLosesNothingIff | kernel/src/vmem.c:450-469 | a save changes no table if and only if the copies are current |
| ContextSwitch.SaveWritesBack | kernel/src/vmem.c:450-469 | a save writes the two halves of the top table to the half tables of the kernel and the active process, and nothing else |
| ContextSwitch.RemapCoherentIff | kernel/src/vmem.c:384-392 | a map that does not give up keeps the copies current if and only if it is of another space or every top-level entry its bytes pass had an address before the call |
| ContextSwitch.SwitchCoherent | kernel/src/vmem.c:471-486 | after a switch the copies are current |
| ContextSwitch.SwitchShows | kernel/src/vmem.c:471-486 | after a switch the process is active, its addresses are what the processor finds from the top table, and the kernel's are what they were |
| ContextSwitch.CoherentAnswers | kernel/src/vmem.c:545-560 | with current copies the software walk from the top table answers the translations of the kernel and the active process |
| ContextSwitch.RunLosesNothing | kernel/src/vmem.c:450-493 | over every run of maps, unmaps, new processes, switches and saves whose maps on the active process meet no empty top-level entry, the copies stay current, the tables a forest, and no save, switch or unmap changes any table |
| ContextSwitch.RunActive | kernel/src/vmem.c:450-493 | from a switch to a process until the next one, over every such run, that process is active and its addresses are what the top table holds |
| ContextSwitch.StaleMapIsLost | kernel/src/vmem.c:385-392 | every byte a map puts below an empty top-level entry of the active process translates until the next switch and not after it |
| ContextSwitch.OnePageIsLost | kernel/src/vmem.c:385-392 | in particular one page |
| Ring.Ring.constructor | kernel/src/containers/queue.c:11-31 | an empty deque, all slots zero |
| Ring.Ring.TryEnqueue | kernel/src/containers/queue.c:64-78 | pushes at the back of a deque of capacity size - 1 and fails exactly when it is full |
| Ring.Ring.TryEnqueueFront | kernel/src/containers/queue.c:80-100 | pushes at the front, likewise |
| Ring.Ring.TryDequeue | kernel/src/containers/queue.c:102-118 | pops the front, fails exactly when it is empty, and leaves the slot zero |
| Ring.Ring.Peek | kernel/src/containers/queue.c:120-131 | reads the front, fails exactly when it is empty |
| PageWords.BuildReadsIff | kernel/src/pagealloc.c:34-39 | packing an address and a count is lossless if and only if the address is aligned and below 2^56 and the count is 1 to 2^20 |
| PageWords.Rebuild | kernel/src/pagealloc.c:34-39 | every 64-bit word is the packing of what it reads as |
| PageWords.OverlapCounts | kernel/src/pagealloc.c:38-39 | two entries over one page make it free twice |
| RingSort.XorSwap | kernel/src/pagealloc.c:69-71 | the three exclusive-ors exchange two slots of an array of words in place; on one slot they would leave zero |
| RingSort.Swap | kernel/src/pagealloc.c:69-71 | two positions less than a round apart are different slots, and only they are exchanged |
| RingSort.ScanDown | kernel/src/pagealloc.c:59-61 | stops at the last entry not above the pivot, at the sentinel at the latest |
| RingSort.ScanUp | kernel/src/pagealloc.c:62-64 | stops at the first entry not below the pivot, at the sentinel at the latest |
| RingSort.Partition | kernel/src/pagealloc.c:52-73 | reorders the stretch only, splits it at the pivot and returns lo <= p < hi |
| RingSort.Quicksort | kernel/src/pagealloc.c:74-87 | terminates, sorts the stretch by address, keeps the multiset of whole words, leaves every other slot alone |
| RingSort.SortedPart | kernel/src/pagealloc.c:79-85 | sorting either side of a partition leaves only the other side to sort |
| Compaction.CompactionRightIff | kernel/src/pagealloc.c:97-111 | compaction keeps how often every page is free, and the page total, if and only if every slot the head moves past was emptied by a merge |
| Compaction.UncleanLoses | kernel/src/pagealloc.c:97-111 | any other compaction loses a page that is not page 0 |
| Compaction.CleanIffPrefix | kernel/src/pagealloc.c:104-109 | with no zero word in the sorted list that is so if and only if the merges that fire come before every pair that does not |
| Compaction.MergesNothingIff | kernel/src/pagealloc.c:97-104 | compaction merges nothing if and only if no two neighbours before the last pair make one block of fewer than 2^20 pages |
| Compaction.CleanLeavesNone | kernel/src/pagealloc.c:97-111 | so a clean compaction leaves no two such neighbours |
| Compaction.PrefixSettles | kernel/src/pagealloc.c:97-111 | after such merges a second compaction finds nothing to merge |
| Compaction.SweepFrees | kernel/src/pagealloc.c:104-107 | the slots after the loop free what the list did, and page 0 once more for every merge |
| Compaction.JoinedCovers | kernel/src/pagealloc.c:98-106 | a merged word covers exactly the pages of the two and stays below 2^20 pages |
| Compaction.HalfIsNotEnough | kernel/src/pagealloc.c:97-111 | entries for odd pages are never merged |
| PageAlloc.Allocator.CompactQueue | kernel/src/pagealloc.c:89-112 | the new list is the compaction of a sorted reordering of the old one, shorter by the number of merges; empty slots stay zero when the compaction is clean; of an empty ring it compacts the slots without an entry, and the count falls by their merges |
| PageAlloc.Allocator.MergeLoop | kernel/src/pagealloc.c:97-111 | the loop on wrapping slots does what the compaction function says and moves head and count by its merges |
| PageAlloc.Allocator.InsertQueue | kernel/src/pagealloc.c:114-121 | appends, compacting only a full ring; it fails exactly when the compacted list is still full |
| PageAlloc.Allocator.InsertQueueFront | kernel/src/pagealloc.c:123-130 | the same at the front |
| PageAlloc.Allocator.Pass | kernel/src/pagealloc.c:188-229 | takes the first entry large enough, leaving remainder, then the entries after it, then those before; or leaves the list as it was; no push meets a full ring and no pop an empty one |
| PageAlloc.Allocator.Search | kernel/src/pagealloc.c:186-233 | first fit on the list, else on the compacted list, else none; an empty ring whose stale words merge is left with a count below 0 and nothing found |
| PageAlloc.Allocator.Alloc | kernel/src/pagealloc.c:167-234 | is an allocation step of the run model: list, returned block, pages held, and the byte counter, which falls by the rounded size; or the ring was empty, its stale words merged, and the request fails |
| PageAlloc.Allocator.PushChunks | kernel/src/pagealloc.c:146-164 | pushes the words of the range one by one, compacting a full ring; it fails exactly as the pushes do |
| PageAlloc.Allocator.Free | kernel/src/pagealloc.c:132-165 | refuses misaligned input and changes nothing then; else it is a free step of the run model, also through compactions that are not clean, or stops where a push finds no room |
| PageAlloc.Allocator.AddRegions | kernel/src/pagealloc.c:262-295 | pushes the words of all available regions in order and counts their bytes |
| PageAlloc.Allocator.constructor | kernel/src/pagealloc.c:241-259 | an empty list with room for half as many entries as pages |
| FreeList.FirstFitAt | kernel/src/pagealloc.c:208 | entries before the first fit are too small and the first fit is not |
| FreeList.PushesConserve | kernel/src/pagealloc.c:114-121 | pushes whose compactions are clean free exactly what the list and the words do |
| FreeList.PushesRightIff | kernel/src/pagealloc.c:114-121 | a run of pushes frees exactly what the list and the words do if and only if its compactions are clean |
| FreeList.PushedOn | kernel/src/pagealloc.c:114-121 | two runs of pushes in a row are one |
| FreeList.RefusedIsFull | kernel/src/pagealloc.c:114-121 | a run of pushes fails only where list and words do not fit the ring |
| PageTheorems.RegionsFree | kernel/src/pagealloc.c:262-295 | with disjoint regions below 2^56 the words of start-up free each page of them once and no other page |
| PageTheorems.InitPages | kernel/src/pagealloc.c:236-296 | so start-up whose compactions are clean leaves memory conserved, with nothing held |
| PageTheorems.RunConserves | kernel/src/pagealloc.c:132-234 | over every run of allocations, met ones below 2^31 pages, and frees of held pages, with clean compactions, every page of memory is free once or held, never both and never neither, and the byte counter is 4096 times the free pages |
| PageTheorems.StepRightIff | kernel/src/pagealloc.c:132-234 | a step keeps that if and only if it is one of those: a request of 2^31 pages or more that is met, a free of pages not held, and an unclean compaction each break it |
| PageTheorems.RunRightIff | kernel/src/pagealloc.c:132-234 | so any run keeps it throughout if and only if every step is |
| PageTheorems.RunDisjoint | kernel/src/pagealloc.c:132-234 | so queued blocks are disjoint from each other and from every held page |
| PageTheorems.AllocConserves | kernel/src/pagealloc.c:167-234 | a clean allocation takes exactly the block it returns out of the list, and fails only when no entry of the coalesced list is large enough |
| Fragments.FailedMeansFragmented | kernel/src/pagealloc.c:167-234 | a clean request of at most 2^19 pages that is not met leaves no run of as many free pages but one that reaches into the last entry |
| Fragments.SecondFollowsFirst | kernel/src/pagealloc.c:208-213 | of two allocations in a row that one entry has room for the second gets the pages after the first |
| PageTheorems.NeedIsLeast | kernel/src/pagealloc.c:183-184 | the pages of a request are the fewest that hold its bytes |
| PageTheorems.RoundsUp | kernel/src/pagealloc.c:49-51 | rounding goes up to the next page, or to 0 past 2^64 |
| PageTheorems.TakesRightIff | kernel/src/pagealloc.c:183-213 | block and remainder make up the entry if and only if the request is for fewer than 2^31 pages |
| PageTheorems.ChunksReadIff | kernel/src/pagealloc.c:154-164 | the words of a freed range read back as its consecutive pieces if and only if the last one starts below 2^56 |
| PageTheorems.ChunksAreFew | kernel/src/pagealloc.c:154-164 | a freed range becomes as few words as 20-bit counts allow |
| PageTheorems.ReadsTile | kernel/src/pagealloc.c:154-164 | words that read back cover each page of the range once and no other |
| PageWitnesses.HalfIsTooFew | kernel/src/pagealloc.c:255-259 | a full list of single odd pages takes no further word |
| PageWitnesses.TakeAll | kernel/src/pagealloc.c:167-296 | from start-up every page of a memory of 2n pages can be taken, one by one |
| PageWitnesses.FreeOddPages | kernel/src/pagealloc.c:255-259 | in every memory of 2n pages, taking every page and freeing the odd ones makes such a list |
| PageWitnesses.PageZeroRefused | kernel/src/pagealloc.c:114-121 | and freeing page 0, still held, then panics |
| PageWitnesses.HeadEntryLost | kernel/src/pagealloc.c:97-111 | with pages 1, 3, 4 and 6 free, compaction loses page 1 and makes page 0 free |
| PageWitnesses.LoseHeadEntry | kernel/src/pagealloc.c:132-234 | four frees of held pages and an allocation of three pages bring that about |
| Frames.AllocTakesFrame | kernel/src/vmem.c:279 | with the tables in held pages, and clean compactions, allocating one page takes a free frame that is no table and leaves all others; it fails only when no frame is free |
| Frames.FreeFramesFit | kernel/src/vmem.c:279-284 | free frames are not 0, hold no table and fit an entry |
| PageTheorems.RegionRightIff | kernel/src/pagealloc.c:269-275 | what is freed of a region lies inside it if and only if the base is aligned, or the bytes dropped at the end make up for the rounding, or less than a page is left |
| Vectors.Interrupts.Allocate | kernel/src/interrupts/idt.c:116-184 | a free fixed block is granted and a taken one refused; the search grants the lowest free block at or above 32 that ends below 255 and fails only when there is none; afterwards a vector is blocked exactly if it was before or lies in a block granted exclusively |
| Vectors.BlockedIff | kernel/src/interrupts/idt.c:116-184 | over every run a vector is blocked if and only if it was at the start or lies in an exclusive grant |
| Vectors.FirstGrant | kernel/src/interrupts/idt.c:153-171 | in a fresh table the search grants the block from vector 32, if it has at most 223 vectors |
| Vectors.ExclusiveGrantsDisjoint | kernel/src/interrupts/idt.c:116-184 | over every run exclusive grants are pairwise disjoint |
| Vectors.LastVectorNotFound | kernel/src/interrupts/idt.c:157-169 | with only vector 255 free the search grants nothing |
| Digits.Itoa | kernel/src/stdlib.c:47-99 | for 32 and 64 bits and every base above 1 the buffer holds the text of the number and a terminator; base 0 is refused |
| Digits.PutDigits | kernel/src/stdlib.c:67-81 | the digit loop writes the digits in reverse |
| Digits.Reverse | kernel/src/stdlib.c:89-96 | the in-place loop reverses the text and leaves the rest of the buffer |
| Digits.TextMeans | kernel/src/stdlib.c:47-153 | read from the left, the text is the signed number in base 10 and the bit pattern in every other base from 2 to 36 |
| Digits.TextMeansIff | kernel/src/stdlib.c:68-76 | that holds for every number if and only if the base is at most 36 |
| Digits.TextIff | kernel/src/stdlib.c:47-153 | up to base 36 the text is the one numeral of its value in lower case without leading zeros, with a sign for negative numbers in base 10 |
| Digits.PrintsDigit | kernel/src/stdlib.c:71-74 | digits are printed as 0 to 9 and then a to z |
| Digits.ReadsDigitIff | kernel/src/stdlib.c:161-166 | and read so, or as capitals, and no other character is a digit |
| Digits.DigitsMean | kernel/src/stdlib.c:67-81 | Horner's rule undoes the digit loop in every base |
| Digits.Atoi | kernel/src/stdlib.c:155-177 | reads the longest hexadecimal prefix, in 32 bits; -1 in any other base |
| Digits.HexIsLongest | kernel/src/stdlib.c:157-170 | what is read is the longest prefix of hexadecimal digits |
| Digits.ReadHexMeans | kernel/src/stdlib.c:155-177 | and its value's lowest 28 bits, signed |
| Digits.RoundTripIff | kernel/src/stdlib.c:155-177 | `atoi` undoes `itoa` in base 16 if and only if the number fits 28 bits |
| Strings.StrStr | kernel/src/memory.c:171-203 | the first occurrence, missing only when there is none; every read is in bounds |
| Strings.StrNCmp | kernel/src/memory.c:96-101 | zero exactly when n characters agree, else the difference of the first two that differ; it reads no further, so the buffers need only reach that far |
| Strings.StrLen | kernel/src/memory.c:74-83 | the position of the terminator, 0 for no string |
| Bootstrap.Stack.Malloc | kernel/src/bootstrap_alloc.c:20-40 | a fresh block, rounded to 16 bytes and inside the area, or nothing changed, if and only if position plus rounded size does not overflow |
| Bootstrap.Stack.Free | kernel/src/bootstrap_alloc.c:42-60 | the position goes back to the block's start exactly when the block is the last one and does not start the area, else it stays |
| Bootstrap.MallocRightIff | kernel/src/bootstrap_alloc.c:28-36 | the block is fresh, its size the next multiple of 16, and inside the area, or nothing changed, if and only if position plus rounded size does not overflow |
| Bootstrap.FreeUndoesIff | kernel/src/bootstrap_alloc.c:51-57 | freeing the last block restores the position if and only if that is not 0 |
| Bootstrap.StepSafeIff | kernel/src/bootstrap_alloc.c:28-36 | a step of any core keeps the invariant if and only if its sum does not overflow |
| Bootstrap.RunSafe | kernel/inc/local_spinlock.h:11-24 | over every interleaving of any number of cores, access by access, in which no sum overflows, the invariant holds |
| Bootstrap.RunExclusive | kernel/src/bootstrap_alloc.c:20-60 | so one core at most is between lock and unlock, and the blocks clients hold are 16-byte aligned, inside the area and apart |
| Bootstrap.MallocIsAtomic | kernel/src/bootstrap_alloc.c:20-40 | over every interleaving a call of `bootstrap_malloc` does to position and blocks what it does alone |
| Bootstrap.FreeIsAtomic | kernel/src/bootstrap_alloc.c:42-60 | and so does a call of `bootstrap_free` |
| Bootstrap.Progress | kernel/inc/local_spinlock.h:11-24 | each step of the core inside brings it nearer to giving the lock back, no other core's step takes it further away, and a core waiting for a free lock gets it by its next step |
| Bootstrap.StepKeepsHolder | kernel/inc/local_spinlock.h:11-24 | the lock word is set exactly while some core is inside |

## Left out

- Vmem.Vmem.MapSt: when the call gives up, an address it has not mapped is promised to gain nothing, not to keep what it had: a large page at physical 0 may be gone. The source panics when the allocator returns 0, which it does when page 0 is the one it finds, and uses its -1 as an address; the model gives up in both cases.
- Vmem.Vmem.Map: covers canonical ranges that stay in their half. Other ranges are cut to 48 bits by the index masks or run into the neighbouring memory.
- Vmem.Vmem.UnmapSt: `Stuck` stands for the arm that never advances and so never returns, `Unimplemented` for the panic on part of a large page, `Unreached` for the panic of `vmem_phystovirt`. That the table below is also returned to the allocator in the first is not modelled.
- Vmem.Vmem.VirtToPhys: kernel addresses are walked from the processor's copy, whose upper half must be current; every step of a run keeps it so.
- Vmem.Vmem.AllocTable: a set of free frames. `Frames.AllocTakesFrame` derives what is assumed of it from the allocator, for memory that leaves out page 0 and ends below 2^52, and allocations whose compactions are clean.
- Vmem.Vmem.Boot: what is written before the last step, loading cr3, goes through the boot loader's tables; that these hold the windows is not part of this model.
- PageTables.HardwareWalk: physical addresses have 52 bits, so bits above a smaller MAXPHYADDR are not reserved; the access itself, its rights and the TLB are left out.
- PageAlloc.Allocator.Alloc: the cache colour and flag arguments, which the code zeroes, are dropped. Once the count is below 0 no further call is covered.
- PageAlloc.Allocator.Free: after the panic on a full ring only the list is stated.
- PageAlloc.Allocator.MergeLoop: positions are unbounded integers. They stay below twice the ring's size and the sum of two below three times, so `int32_t` agrees for rings below 2^31 / 3 slots.
- RingSort.Swap: writes both slots at once; `XorSwap` shows that the three exclusive-ors do the same to two distinct slots.
- Digits.Itoa: base 1 never ends and is left out; a negative base is the unsigned number it converts to.
- Vectors.Interrupts.Allocate: a fixed or suggested block must lie inside the 256 vectors or meet a blocked one there; else the code reads past the table.
- Bootstrap.RunExclusive: clients free a block they hold, once.
- Locks, TLB flushes, control registers and the PAT: hardware effects. Huge page support is a boolean.
- Several cores using the allocator, the queue or the kernel's half table at once: no lock guards them in the source.
- `vmem_mp_init`, `vmem_destroy`, `vmem_flush`, `vmem_vmalloc`: field copies and a bump counter, nothing harder than what is here.
- `bootinfo.c`: regions reach the allocator as an arbitrary list.
- `memset`, `memcpy` and `memmove` appear as the assignments they make.
- `strrchr`, `strncpy`, `memcmp` and the rest of `memory.c`; `mp.c`, the APIC, ACPI, GDT and console code: easy or hardware.
