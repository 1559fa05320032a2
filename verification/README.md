# Verified models of QEMU's memory, block, event loop and dump code

This project models parts of the QEMU 2.1.1 tree in `qemu_stm32/` in Dafny and proves what
they promise, for all inputs and all runs of the model.

* **Physical memory dispatch** (`Geometry`, `Sections`, `PhysMap`, `FlatView`, `Dispatch`):
  sections are cut into page and sub-page pieces, stored in a radix table, and the table is
  path-compressed. The main result is `Dispatch.BuildDispatch`: after any list of disjoint
  ranges has been added and committed, every byte address resolves as the flat list says.
* **RAM migration** (`Xbzrle`, `RamStream`, `RamBitmap`, `RamMigration`): the source with its
  dirty log, bitmap, scan cursor and page cache, the stream, and the destination. The guest
  may write between any two steps and between the reads inside one. The main result is
  `RamMigration.LiveMigration`: for every schedule of the steps the destination ends with the
  memory of the source, or a scan has lost a page, and `Migration.FindAndSaveBlock` and
  `Migration.Complete` state exactly when one does.
* **Block requests** (`TrackedRequests`, `BlockDevice`, `BlockRuns`): coroutines that interleave
  at their yields, wait for overlapping requests, and write unaligned bytes by
  read-modify-write, while the driver brings each write to the disk in pieces of any kind. The
  main results are `BlockDriverState.Drain`, that no request waits for ever, and
  `BlockRuns.Serve` with `ReadSeesWrite`, that over every run from a new device a read sees
  each write that was answered with success before.
* **Software TLB** (`SoftTlb`, `DirtyTracking`): large pages and their flush region, and the
  promise that a store on the fast path goes to a page that is dirty already, on any number
  of CPUs. The main results are `Cpu.FlushPage` and `Machine.Run`, with `RunFromReset`.
* **Event loop** (`AioWakeup`, `AioHandlers`): bottom halves scheduled by any number of
  threads while an iothread goes to sleep, and lists that callbacks change while nested walks
  are suspended in them. The main results are `AioWakeup.NoLostWakeup` and
  `AioHandlers.AnyProgram`: whatever a program and its callbacks do, nested polls included,
  nothing is called after its deletion, no report is answered twice and no walk meets a freed
  node.
* **Guest memory dumps** (`ElfFormat`, `ElfDump`, `Kdump`): the bytes of ELF headers and the
  file ranges they name, and the bitmaps, descriptors and data of the compressed form. The
  main results are `ElfDump.DumpGuestMemory`, a round trip from guest memory through the
  bytes of the file, and `KdumpState.CreateKdump`.

`Arithmetic` and `Options` hold what several of these share.

## How the code is modelled

* Objects with fields that the code updates are classes; loops and in-place recursion are
  methods proved against functions of the old state. Linked lists are sequences, records in
  a list are values in a map.
* Concurrency is a machine of atomic steps. For coroutines a step is the code between two
  yields. For the event loop a step is one load or store, in sequentially consistent order,
  which the barriers in `async.c` provide.
* Shifts and masks by powers of two are division, remainder and rounding. Wrap-around is
  written out where the code relies on it (`SoftTlb.Reset`).
* Page size, radix node size, number of CPUs, MMU modes, blocks, requests and threads are
  arbitrary. Addresses have 64 bits.
* I/O errors, memory allocation, compression results, the order in which coroutines are
  entered, what the guest writes and what callbacks do are arbitrary: parameters, or values
  left open. A callback is a script of the calls it makes; scripts nest as polls do.
* Words are read in little-endian order where the order matters (`Xbzrle.Word`).

## Where the code departs from what one would expect

* *A migrated page can be lost.* In the bulk stage the scan starts after the cursor, and it
  clears a bit before it notices that it has come round. If the last page of the last block
  is marked again before the first wrap, and is then the only marked page, its mark is taken
  and it is not sent. `RamMigration.LostPage` is a run from setup that reaches this state and
  leaves the destination with another page. `Migration.FindAndSaveBlock` proves for one scan,
  and `Migration.Complete` for the last stage, that nothing is lost if and only if the state
  is another one or the page is up to date or logged.
* *The flags of a bottom half do not always say whether a wakeup is due.* If the `idle` flag
  of a qemu_bh_schedule_idle is reset by a concurrent run or schedule before `scheduled` is
  stored, the bottom half looks urgent and nobody notifies. `AioWakeup.CrossedSleeps` shows
  it. The guarantee holds for every schedule made by qemu_bh_schedule (`NoLostWakeup`), and
  for the flags unless the present mark was crossed (`NoLostFlag`, `CrossingEnds`), in
  particular for bottom halves that are never scheduled as idle (`NeverIdle`).
* *Resetting dirty bits of an unaligned range can miss an entry.* The bitmap is cleared for
  the range rounded outwards, but only the start is rounded for the TLB.
  `DirtyTracking.UnalignedReset` shows it. `TightExact` states exactly for which ranges the
  two agree, and `ResetExact` exactly which entries are missed in the others. Aligned ranges
  always agree.
* *Setting entries dirty acts on all MMU modes at once.* tlb_set_dirty goes by the virtual
  page, so `Cpu.SetDirty` is sound if and only if no entry of any mode for that page is left
  storing at once to a page of RAM that is clean. Modes that map the virtual page alike meet
  this; `DirtyTracking.DisagreeingModes` is a run of two that do not.
* *The length that a translation leaves can run past the end of a region.* It is counted from
  the start of the section instead of the region, so `TranslateInternal` keeps an access in
  its region if and only if the two starts are the same or no cut was needed.
  `Dispatch.PastTheEnd` shows it.
* *A core with 65533 mappings or more has no section header.* write_elf_section hands
  fd_write_vmcore the address of its pointer, so the pointer and what lies behind it on the
  stack stand where the header is meant to be. These bytes are a parameter.
  `DumpState.CountExact`: a reader gets the number of program headers for all such bytes if
  and only if there are fewer than 65533 mappings. `ElfDump.ManyMappings` is a dump in which a
  reader finds nothing.
* *A 32-bit core cannot name memory beyond 4 GiB of file.* Guest addresses always fit, since the
  class depends on them (`ElfDump.GetDumpInfo`), but headers and notes come before the memory
  and offsets are cut to 32 bits. `DumpGuestMemory` proves that the headers are right if and
  only if every kept block begins below the limit (`OffsetsFit`). `ElfDump.CutOffset` is a
  dump for which they are not.
* *A woken request still has `waiting_for` set until it runs.* "Not waiting" is therefore read
  as: not parked in the queue of another request (`TrackedRequests.SomeRunnable`).

## Model

| member | source | states |
|---|---|---|
| Geometry.TableSpansAddressSpace | qemu_stm32/exec.c:102-110 | the radix levels cover the whole 64-bit address space, and every page number below 2^(64 - page bits) is an index of the table |
| PhysMap.WalkFrame | qemu_stm32/exec.c:176-209 | a walk below one slot depends only on the nodes labelled with ranges under that slot, so stores elsewhere cannot change it |
| PhysMap.HeightFrame | qemu_stm32/exec.c:176-209 | the same for how far above the pages the leaf of a page is |
| PhysMap.WalkCompacted | qemu_stm32/exec.c:224-272 | following `skip` levels at a time in a compacted table reaches the leaf of the uncompacted table, or else that leaf was unassigned and the one reached belongs to another page below the same entry |
| FlatView.CompactionKeepsLookups | qemu_stm32/exec.c:224-305 | path compression changes the section found, and the region and offset resolved, at no 64-bit address, although skipped index digits are never compared |
| FlatView.StrayLeafFailsCheck | qemu_stm32/exec.c:298-304 | a leaf reached by skipping, on a page it was not set for, fails the final range check, so the lookup still says unassigned |
| FlatView.AddPages | qemu_stm32/exec.c:967-977 | setting whole unmapped pages to a new section sends exactly the bytes of the section to it and leaves every other byte where it was |
| FlatView.AddBytesFresh | qemu_stm32/exec.c:936-965 | a first sub-page piece turns an unassigned page into a subpage in which exactly its bytes are assigned |
| FlatView.AddBytesAgain | qemu_stm32/exec.c:936-965 | a later piece in the same page adds exactly its bytes and keeps the earlier pieces |
| Dispatch.AddressSpaceDispatch.NodeReserve | qemu_stm32/exec.c:152-159 | after a reservation the array has room for the nodes asked for and has not shrunk |
| Dispatch.AddressSpaceDispatch.OpenNode | qemu_stm32/exec.c:161-190 | the entry gets a node for its own range, at the cost of at most one allocation, no other entry changes and every lookup stays as it was |
| Dispatch.AddressSpaceDispatch.SetLevel | qemu_stm32/exec.c:176-209 | exactly the requested pages below the entry become the leaf, whatever they were before, as long as no leaf for many pages lies across an end of the range; all others keep theirs, the remaining range is returned, nothing outside the entry changes and the node budget is kept |
| Dispatch.AddressSpaceDispatch.PageSet | qemu_stm32/exec.c:211-219 | a flat array update: the requested pages get the leaf, whatever they had before, all others are unchanged, with fewer than 2 * P_L2_LEVELS new nodes of the 3 * P_L2_LEVELS reserved |
| Dispatch.AddressSpaceDispatch.Compact | qemu_stm32/exec.c:224-272 | in-place recursion leaves each entry in the form that merging only children gives it, and touches nothing outside its subtree |
| Dispatch.AddressSpaceDispatch.PageFind | qemu_stm32/exec.c:283-305 | the skipping loop returns the checked leaf of the table |
| Dispatch.AddressSpaceDispatch.TranslateInternal | qemu_stm32/exec.c:313-345 | the section and the offset in its region are those the tables resolve the address to, with or without subpages; the length it leaves stays in the region if and only if the section begins where the region does or no cut was needed |
| Dispatch.AddressSpaceDispatch.MemBegin | qemu_stm32/exec.c:1816-1865 | a new dispatch holds the dummy sections and sends every address to unassigned |
| Dispatch.AddressSpaceDispatch.SubpageRegister | qemu_stm32/exec.c:1776-1796 | the byte range gets the section number, or -1 is returned and nothing changes |
| Dispatch.AddressSpaceDispatch.RegisterMultipage | qemu_stm32/exec.c:967-977 | adds exactly the bytes of a page-aligned section |
| Dispatch.AddressSpaceDispatch.RegisterSubpage | qemu_stm32/exec.c:936-965 | adds exactly the bytes of a section inside one page, on an empty page or beside earlier pieces |
| Dispatch.AddressSpaceDispatch.MemAdd | qemu_stm32/exec.c:979-1010 | cutting a section at page boundaries and registering the pieces adds exactly its bytes; it fails if and only if fewer section numbers are left than the pieces take, one or two for each |
| Dispatch.AddressSpaceDispatch.MemCommit | qemu_stm32/exec.c:274-281 | after commit the table is readable and resolves every address as before |
| Dispatch.BuildDispatch | qemu_stm32/exec.c:979-1010 | over a whole run of begin, adds and commit on any disjoint ranges, every byte address resolves to the region and offset of the range that contains it, and to unassigned elsewhere |
| Dispatch.PastTheEnd | qemu_stm32/exec.c:328-345 | a range that maps the second page of a region of two pages: an access of two pages to it is not cut |
| Xbzrle.UlebRoundTrip | qemu_stm32/util/cutils.c:490-517 | decoding an encoded run length gives it back with its size, whatever follows |
| Xbzrle.ZeroRun | qemu_stm32/xbzrle.c:43-64 | the byte-then-word scan ends exactly where the run of equal bytes ends |
| Xbzrle.ChangedRun | qemu_stm32/xbzrle.c:85-113 | the scan, which applies the bit trick to the xor of two words, ends exactly where the run of changed bytes ends |
| Xbzrle.SwarFindsZeroByte | qemu_stm32/xbzrle.c:94-101 | the bit trick on a word is nonzero exactly when one of its eight bytes is zero |
| Xbzrle.WordTestExact | qemu_stm32/xbzrle.c:94-101 | on the xor of the words at one place of two buffers the trick finds exactly whether some byte is the same in both |
| Xbzrle.EncodeBuffer | qemu_stm32/xbzrle.c:26-126 | the output is the alternating runs and fits the buffer, equal pages are reported as such, and overflow is reported only when fewer than two bytes would be left |
| Xbzrle.DecodeBuffer | qemu_stm32/xbzrle.c:128-175 | decoding applies the parsed turns to the page, with every error exit |
| Xbzrle.RunsRoundTrip | qemu_stm32/xbzrle.c:26-175 | applying the runs from any position on restores the rest of the new page |
| Xbzrle.CodecRoundTrip | qemu_stm32/xbzrle.c:26-175 | decoding an encoded delta onto the old page gives the new page |
| RamStream.AppendMsg | qemu_stm32/arch_init.c:1039-1144 | what a destination page holds after one more message is the effect of that message on what it held before |
| RamStream.OutcomeFirmer | qemu_stm32/arch_init.c:1039-1144 | fixing the contents of a page that was still to be read fixes what the rest of the stream leaves, and changes nothing else |
| RamStream.FlushMsg | qemu_stm32/arch_init.c:567-640 | reading a queued page when the buffer is flushed fixes what its destination page will hold and changes no other |
| RamBitmap.NewDirtyIsGrowth | qemu_stm32/arch_init.c:461-470 | the population count that the word path adds is the number of pages of blocks that become marked |
| RamBitmap.FullBitmapCount | qemu_stm32/arch_init.c:811-828 | with all bits set, the pages marked inside blocks are the sum of the block lengths, gaps left out |
| RamBitmap.ClearMark | qemu_stm32/arch_init.c:427-433 | taking a marked page of a block lowers the number of marked pages by one |
| RamBitmap.FoundAdvances | qemu_stm32/arch_init.c:643-683 | a search of a block extends the stretch of clear pages the scan has passed, over the whole block if it finds nothing |
| RamBitmap.SweptNow | qemu_stm32/arch_init.c:643-683 | a scan that stops at the page it has taken has cleared exactly the marks on its way there, round the end or not |
| RamMigration.Migration.Setup | qemu_stm32/arch_init.c:767-847 | setup marks every page, counts exactly the pages of blocks, and establishes the migration invariant |
| RamMigration.Migration.GuestRun | qemu_stm32/arch_init.c:450-483 | after any sequence of guest stores memory holds the last store to each page, and the dirty log has gained exactly the pages stored to |
| RamMigration.Migration.SyncWord | qemu_stm32/arch_init.c:456-471 | the word path merges 64 log bits into the bitmap, clears them and counts the new ones exactly |
| RamMigration.Migration.SyncPage | qemu_stm32/arch_init.c:437-448 | the page path merges one log bit and counts it if it was new |
| RamMigration.Migration.SyncRange | qemu_stm32/arch_init.c:450-483 | either path merges and clears the log of a block, also when blocks share a word, and keeps the counter exact |
| RamMigration.Migration.Sync | qemu_stm32/arch_init.c:488-535 | afterwards no page of a block is in the log and no page has been lost |
| RamMigration.Migration.FindAndResetDirty | qemu_stm32/arch_init.c:413-435 | outside the bulk stage the first marked page is taken and none before it is skipped; in it the next page is taken; the counter follows |
| RamMigration.Migration.CacheInsert | qemu_stm32/page_cache.c:154-181 | the page is found with its new copy, a page that shared the slot is found no more, all others as before; it fails only for a slot without a buffer, and then no copy of the page was or is there |
| RamMigration.Migration.SaveXbzrlePage | qemu_stm32/arch_init.c:352-411 | through miss, hit, overflow and unmodified the cached copy equals what the destination will hold, while the guest writes between the reads |
| RamMigration.Migration.SaveZeroPage | qemu_stm32/arch_init.c:599-608 | a zero page leaves the cache with a zero copy or none, never an older one |
| RamMigration.Migration.SavePage | qemu_stm32/arch_init.c:567-640 | after any outcome no page is lost and the cache is coherent; the result is the number of bytes of the one message sent, or 0 for none, and that only if a cached copy was current |
| RamMigration.Migration.FindAndSaveBlock | qemu_stm32/arch_init.c:643-683 | the scan ends; exactly the marks on its way to the page it sends are gone, one page in the bulk stage; it returns 0 only when no page of any block is marked; it keeps the invariant if and only if it does not, in the one state in which it takes a mark and sends nothing, take a mark that is needed |
| RamMigration.Migration.GuestStep | qemu_stm32/arch_init.c:849-916 | guest stores between two steps keep the invariant |
| RamMigration.Migration.SyncStep | qemu_stm32/arch_init.c:488-535 | a sync between two steps keeps the invariant and empties the log |
| RamMigration.Migration.Flush | qemu_stm32/arch_init.c:619-631 | reading a queued page late keeps the invariant and every page that was up to date |
| RamMigration.Migration.LoadMsg | qemu_stm32/arch_init.c:963-1144 | a message loads if and only if its block exists and its delta is no longer than a page and applies, and then has exactly its effect on memory |
| RamMigration.Migration.LoadStep | qemu_stm32/arch_init.c:1039-1144 | on a stream of this source no load fails, and what will arrive is unchanged |
| RamMigration.Migration.Complete | qemu_stm32/arch_init.c:918-946 | with the guest stopped, every page is brought up to date if and only if the last page is not the only one left while the bulk stage ends on it, or is up to date already |
| RamMigration.Migration.Drain | qemu_stm32/arch_init.c:1039-1144 | when the stream has been loaded nothing is left on it, and if every page was up to date, destination memory equals source memory |
| RamMigration.Migration.Migrate | qemu_stm32/arch_init.c:849-946 | for every schedule of guest stores, syncs, scans, flushes and loads before the guest stops, destination memory equals source memory in the end, or some scan has lost a page |
| RamMigration.LiveMigration | qemu_stm32/arch_init.c:767-946 | the same from setup to the end |
| RamMigration.LostPage | qemu_stm32/arch_init.c:413-435 | a run from setup, two scans, a guest store and a sync, after which the next scan takes the last mark, sends nothing, and the destination keeps another content |
| TrackedRequests.MarkSpans | qemu_stm32/block.c:2379-2392 | marking rounds the region outwards to the alignment, and marking again changes nothing |
| TrackedRequests.PassedExclusive | qemu_stm32/block.c:2442-2484 | a request that finds nothing to wait for is, from then on, the only one past its waits among those it conflicts with |
| TrackedRequests.NeverBlocksAgain | qemu_stm32/block.c:2442-2484 | a request past its wait finds nothing to wait for again |
| TrackedRequests.ParkOk | qemu_stm32/block.c:2472-2474 | waiting keeps every waiter parked with a request that does not wait |
| TrackedRequests.EndOk | qemu_stm32/block.c:2345-2353 | ending a request wakes all who wait for it and keeps the queues and the exclusion |
| TrackedRequests.WakeOk | qemu_stm32/qemu-coroutine-lock.c:50-60 | a woken request had no waiters of its own, and clearing its wait keeps the queues |
| TrackedRequests.WaitsAreShort | qemu_stm32/block.c:2442-2484 | the graph of waits is acyclic: no path in it is longer than one wait |
| TrackedRequests.SomeRunnable | qemu_stm32/block.c:2442-2484 | whenever requests are tracked, one of them is not waiting |
| BlockDevice.Rounded | qemu_stm32/block.c:3379-3408 | rounding a range to blocks stays on the device, and says where its first and last block lie |
| BlockDevice.PaddedWrite | qemu_stm32/block.c:3379-3450 | whatever part of the padded vector reaches the rounded range, only bytes asked for change, also with both ends in one block |
| BlockDevice.BuffersKept | qemu_stm32/block.c:3379-3450 | a write that does not conflict leaves the kept parts of the blocks read for another write equal to the disk |
| BlockDevice.WriteKeeps | qemu_stm32/block.c:3344-3461 | nothing that a write in the driver can change is relied on by any other request past its waits, nor by the write itself |
| BlockDevice.Asserted | qemu_stm32/block.c:3298-3301 | only a first wait can have blocked, so the assertions on `waited` and on the region hold |
| BlockDevice.BlockDriverState.WaitSerialising | qemu_stm32/block.c:2442-2484 | the loop finds a conflicting request that does not wait and parks with it, or there is none |
| BlockDevice.BlockDriverState.WaitStep | qemu_stm32/block.c:2442-2484 | in any interleaving a wait ends with the request parked or past it, all invariants kept |
| BlockDevice.BlockDriverState.Pass | qemu_stm32/block.c:3404-3419 | past the first wait no later wait blocks and the assertions of the code hold |
| BlockDevice.BlockDriverState.TrackedRequestBegin | qemu_stm32/block.c:2358-2377 | the new request heads the list and disturbs no other |
| BlockDevice.BlockDriverState.MarkRequestSerialising | qemu_stm32/block.c:2379-2392 | marks the request and keeps the count of serialising requests exact |
| BlockDevice.BlockDriverState.TrackedRequestEnd | qemu_stm32/block.c:2345-2353 | removes the request, keeps the count, and wakes its waiters |
| BlockDevice.BlockDriverState.Pwritev | qemu_stm32/block.c:3344-3376 | a request outside the device is refused and changes nothing; another runs up to its first yield with all invariants kept |
| BlockDevice.BlockDriverState.TailPhase | qemu_stm32/block.c:3404-3417 | an unaligned end marks the request, again or for the first time, before the wait |
| BlockDevice.BlockDriverState.Preadv | qemu_stm32/block.c:3105-3174 | reads are rounded before they are tracked, and copy-on-read reads mark whole clusters |
| BlockDevice.BlockDriverState.ReadDone | qemu_stm32/block.c:3014-3100 | a read is answered with exactly the bytes asked for, a failed driver call always with an error; a block read for a write is kept and the request goes on |
| BlockDevice.BlockDriverState.Land | qemu_stm32/block.c:3283-3339 | while the driver writes, bytes reach the disk in any order and any pieces; each piece changes only bytes of the write and keeps all invariants |
| BlockDevice.BlockDriverState.WriteDone | qemu_stm32/block.c:3283-3339 | when the driver succeeds every byte of the write has landed, the missing ones now, and none twice; when it fails some have and some have not; no other byte changes |
| BlockDevice.BlockDriverState.Resume | qemu_stm32/qemu-coroutine-lock.c:50-60 | a woken coroutine looks again and makes progress or parks again |
| BlockDevice.BlockDriverState.Turn | qemu_stm32/block.c:2442-2484 | a request ends exactly as its last driver call does: a write after every byte has landed, a read with the bytes on the disk, a failed call with an error; the others are not disturbed |
| BlockDevice.BlockDriverState.Drain | qemu_stm32/block.c:2442-2484 | whichever runnable coroutine is entered, in whatever pieces the driver writes, all requests complete, and without an error unless a driver call of theirs fails; the disk holds the pieces in the order they landed, and of each completed write every byte has landed |
| BlockDevice.LastWriteStands | qemu_stm32/block.c:3344-3461 | each byte holds what landed on it last; what lands on other bytes, of the same block or not, never undoes it |
| BlockRuns.Opens | qemu_stm32/block.c:3344-3376 | an accepted call becomes a request that is asked exactly what the call says, with nothing landed |
| BlockRuns.Puts | qemu_stm32/block.c:3283-3339 | a piece that lands is recorded for the call it belongs to, and with the last piece all bytes of the call have landed |
| BlockRuns.Serve | qemu_stm32/block.c:3105-3461 | any run from a new device over any schedule of calls, pieces and driver results: calls are accepted exactly if they are in range, every write answered with success has landed whole, every read is answered with what had landed by then, errors come from driver failures, and the calls not answered are the requests in flight |
| BlockRuns.WrittenStays | qemu_stm32/block.c:3344-3461 | in every such run a byte of a write answered with success is on the disk as long as no other write has landed on it since the call |
| BlockRuns.ReadSeesWrite | qemu_stm32/block.c:3105-3174 | a read answered after that write returns the byte |
| SoftTlb.MaskedAgain | qemu_stm32/cputlb.c:202-221 | masking with fewer ones forgets an earlier mask |
| SoftTlb.CoversAll | qemu_stm32/cputlb.c:92-101 | every address of a covered large page passes the test of the flush region |
| SoftTlb.Survivor | qemu_stm32/cputlb.c:70-112 | an entry that a page flush leaves alone is from no page, small or large, around the address |
| SoftTlb.Cpu.Flush | qemu_stm32/cputlb.c:51-68 | no entry survives and the flush region is empty |
| SoftTlb.Cpu.FlushPage | qemu_stm32/cputlb.c:82-112 | no entry installed from a page of any size that contains the address survives, and other entries are kept whole or dropped whole |
| SoftTlb.Cpu.AddLargePage | qemu_stm32/cputlb.c:202-221 | the widening loop ends, and the new region covers the new page and the old region |
| SoftTlb.Cpu.SetPage | qemu_stm32/cputlb.c:226-299 | the slot gets exactly the words the protection, the backing and the dirty state call for, other slots are untouched, the promises of all entries hold, and the modes still agree if and only if a new entry that stores agrees with the other modes |
| SoftTlb.Cpu.SetDirty | qemu_stm32/cputlb.c:188-198 | the log stays sound if and only if no mode's entry for the page stores to a clean page |
| SoftTlb.Cpu.ResetRange | qemu_stm32/cputlb.c:135-177 | exactly the entries that store to the host range are made to call back |
| SoftTlb.UndoneLog | qemu_stm32/cputlb.c:179-198 | when clearing the not-dirty flag of a page's entries breaks the promise of an entry |
| DirtyTracking.TightExact | qemu_stm32/exec.c:804-830 | the entries of all pages whose bits are cleared are reset if and only if the range touches no more pages than its length needs |
| DirtyTracking.AlignedIsTight | qemu_stm32/exec.c:804-830 | every range that starts on a page boundary is of that kind |
| DirtyTracking.ResetExact | qemu_stm32/exec.c:804-830 | after the bits of any range are cleared and the entries reset, an entry keeps its promise if and only if it is not the entry of a last page that the range touches and the reset does not reach |
| DirtyTracking.UnalignedReset | qemu_stm32/exec.c:804-830 | two bytes around a page boundary: an entry for the second page still stores at once to a page that is now clean |
| DirtyTracking.Machine.ResetDirty | qemu_stm32/exec.c:820-830 | on all CPUs, the promises hold after a reset if and only if no entry is missed, and none is in a range that touches no more pages than its length needs |
| DirtyTracking.Machine.Mark | qemu_stm32/cputlb.c:124-128 | setting dirty bits breaks no entry's promise |
| DirtyTracking.Machine.NotdirtyWrite | qemu_stm32/exec.c:1587-1613 | the page becomes dirty for migration and display, its entry stops calling back only when it is dirty for all clients, and then the promises hold if and only if no mode is left storing at once to a clean page |
| DirtyTracking.Machine.GuestStore | qemu_stm32/exec.c:1587-1613 | on either path a guest store leaves its RAM page in the dirty log |
| DirtyTracking.Machine.SetPage | qemu_stm32/cputlb.c:226-299 | installing a page on one CPU keeps the promise on all, and the agreement of modes if and only if the new entry agrees |
| DirtyTracking.Machine.FlushPage | qemu_stm32/cputlb.c:82-112 | flushing a page on one CPU keeps the promise on all |
| DirtyTracking.Machine.StoreHits | qemu_stm32/cputlb.c:226-299 | a store through the TLB goes to the page of RAM that its virtual page was last mapped to in its mode, whatever was flushed, evicted, reset or set dirty since |
| DirtyTracking.OwedNext | qemu_stm32/exec.c:820-830 | which pages are stored to and not cleared since, after one more step |
| DirtyTracking.Machine.Run | qemu_stm32/cputlb.c:51-299 | over any run of stores, resets, installs and flushes on any number of CPUs, which ends early only at a step that cannot be taken, an install that disagrees or a reset of a range that is not tight, all promises hold at the end, and the pages that wait for migration and display are exactly those that the stores went to since their bits were last cleared, as the mappings among the steps say |
| DirtyTracking.RunFromReset | qemu_stm32/cputlb.c:51-299 | for any number of CPUs that start with empty TLBs: after any such run the bitmaps hold every page of RAM stored to since its bit was last cleared |
| DirtyTracking.DisagreeingModes | qemu_stm32/cputlb.c:188-198 | two modes that map one virtual page to different clean pages: a store in one leaves the other storing at once to a clean page |
| AioWakeup.WalkKeeps | qemu_stm32/async.c:61-105 | each load and store of the bottom half walk keeps the wakeup invariant |
| AioWakeup.PollKeeps | qemu_stm32/aio-posix.c:175-274 | each step of the rest of aio_poll keeps the wakeup invariant |
| AioWakeup.ThreadKeeps | qemu_stm32/async.c:107-136 | each load and store of a scheduling thread keeps the wakeup invariant |
| AioWakeup.RunKeepsInv | qemu_stm32/iothread.c:40-48 | the invariant holds after every run of any number of threads |
| AioWakeup.NoLostWakeup | qemu_stm32/async.c:251-270 | whenever the iothread sleeps in a blocking poll, each bottom half marked by qemu_bh_schedule and not deleted has a thread on its way to notify |
| AioWakeup.NoLostFlag | qemu_stm32/async.c:107-136 | the same for each bottom half flagged as scheduled and not idle, unless an idle schedule of the present mark was crossed |
| AioWakeup.CrossingEnds | qemu_stm32/async.c:107-136 | a crossing is forgotten once the bottom half has run and no idle schedule is under way |
| AioWakeup.NeverIdle | qemu_stm32/async.c:107-117 | nothing is crossed if the bottom half is never scheduled as idle |
| AioWakeup.CrossedSleeps | qemu_stm32/async.c:107-136 | a run after which the iothread sleeps with a flagged bottom half and no thread about to notify |
| AioHandlers.NoCallAfterDelete | qemu_stm32/aio-posix.c:122-173 | in a log in order no handler and no bottom half is called after its deletion |
| AioHandlers.CallsAnswerReports | qemu_stm32/aio-posix.c:131-137 | in every prefix of the log, each callback of each handler has been called at most as often as a poll reported something for it |
| AioHandlers.FollowsTrans | qemu_stm32/aio-posix.c:126-129 | what each callback leaves of the lists under walk, new nodes at the head and nothing unlinked, adds up over any number of callbacks |
| AioHandlers.AfterHead | qemu_stm32/aio-posix.c:158-167 | the node after the current one is the head of what was left of the walk, also after the current one is unlinked |
| AioHandlers.AioContext.constructor | qemu_stm32/async.c:283-298 | a new context is in order, with an empty log |
| AioHandlers.AioContext.Find | qemu_stm32/aio-posix.c:32-43 | finds the live handler of a descriptor if there is one |
| AioHandlers.AioContext.SetFdHandler | qemu_stm32/aio-posix.c:45-93 | afterwards the descriptor has exactly the handler asked for or none, other descriptors are untouched, and no node of a list under walk is unlinked |
| AioHandlers.AioContext.RemoveHandler | qemu_stm32/aio-posix.c:57-73 | the handler is live no more; it is freed at once if and only if no walk is under way |
| AioHandlers.AioContext.PollFds | qemu_stm32/aio-posix.c:219-261 | exactly the live handlers are polled, and if any descriptor is ready each of them gets what was reported for its own descriptor, found through its index |
| AioHandlers.AioContext.AioDispatch | qemu_stm32/aio-posix.c:122-173 | with any callbacks the walk and all suspended walks find their nodes; with callbacks that do nothing the calls are exactly those due, in list order, read before write, and progress, flags and freed nodes follow |
| AioHandlers.AioContext.Visit | qemu_stm32/aio-posix.c:131-167 | one turn: with any callbacks the rest of the walk stays linked; with callbacks that do nothing exactly the calls due are made, the reported flags are cleared, and the node is freed if and only if it is deleted and the walk is outermost |
| AioHandlers.AioContext.Offer | qemu_stm32/aio-posix.c:139-156 | a callback is called if and only if it is set, a flag taken for it calls for it, and no callback has deleted the handler meanwhile; either way the flag is used up |
| AioHandlers.AioContext.Leave | qemu_stm32/aio-posix.c:158-167 | the walk goes on to the next node, and a deleted one is freed exactly by the outermost walk |
| AioHandlers.AioContext.AioBhPoll | qemu_stm32/async.c:61-105 | with any callbacks the walks find their bottom halves; with callbacks that do nothing exactly the scheduled ones run, in list order; the outermost walk leaves no deleted one |
| AioHandlers.AioContext.VisitBh | qemu_stm32/async.c:69-85 | a bottom half runs if and only if it is scheduled and not deleted, and the next one is remembered before its callback |
| AioHandlers.AioContext.EndBhPoll | qemu_stm32/async.c:87-102 | the outermost walk frees exactly the deleted bottom halves, and no other walk frees any |
| AioHandlers.AioContext.AioPoll | qemu_stm32/aio-posix.c:175-274 | a call, with any calls nested in its callbacks, ends with the walks of its callers intact |
| AioHandlers.AnyProgram | qemu_stm32/aio-posix.c:175-274 | for every program, and every nesting of polls and callbacks in it: no call after a deletion, at no time has a callback been called more often than polls reported something for it, and no walk is left open |
| ElfFormat.FieldValue | qemu_stm32/dump.c:39-70 | a number written in so many bytes, in either byte order, is read back modulo their range |
| ElfFormat.RecordAt | qemu_stm32/dump.c:174-198 | each field of a record is found at its offset |
| ElfFormat.PhdrRoundTrip | qemu_stm32/dump.c:174-224 | a program header read back from the file is the one written, cut to the fields of its class |
| ElfFormat.EhdrRoundTrip | qemu_stm32/dump.c:106-172 | from the ELF header a reader gets the class, the byte order and where the tables are |
| ElfFormat.NarrowExact | qemu_stm32/dump.c:200-224 | a program header is stored without loss if and only if all its values fit |
| ElfDump.RegionAdd | qemu_stm32/memory_mapping.c:196-257 | a section joins the last block exactly if it continues it in guest and host; the block list stays sorted and backs exactly the old bytes and those of the section |
| ElfDump.GuestBlocks | qemu_stm32/memory_mapping.c:259-267 | the finished list backs exactly the bytes of the RAM sections |
| ElfDump.MappingFilter | qemu_stm32/memory_mapping.c:326-351 | the mappings left are those that meet the filter, cut to it, in order, and cover exactly the mapped bytes inside it |
| ElfDump.KeptMappings | qemu_stm32/memory_mapping.c:315-351 | there is one mapping for each block that meets the filter, cut to it; all kept RAM is mapped |
| ElfDump.DumpState.WriteMemory | qemu_stm32/dump.c:372-395 | the page-wise loop writes the range and nothing else |
| ElfDump.DumpState.GetStartBlock | qemu_stm32/dump.c:1431-1457 | finds the first block with something to write, or there is none |
| ElfDump.DumpState.GetNextBlock | qemu_stm32/dump.c:593-618 | moves to the next block with something to write, or there is none |
| ElfDump.DumpState.DumpIterate | qemu_stm32/dump.c:621-648 | the memory part of the file is the kept parts of all blocks in order |
| ElfDump.BlockSlice | qemu_stm32/dump.c:621-648 | where in that part the memory of a block lies |
| ElfDump.DumpState.GetOffsetRange | qemu_stm32/dump.c:398-457 | the range holds the guest memory at the address, stays in its block, is as long as mapping, block and filter allow, and exists exactly for kept RAM |
| ElfDump.DumpState.Init | qemu_stm32/dump.c:1580-1620 | the memory offset is the size of the headers that will be written, with and without a section header |
| ElfDump.DumpState.WriteElfLoads | qemu_stm32/dump.c:459-495 | the file gets exactly one program header for each mapping, in its place, and each says where the memory of its mapping is |
| ElfDump.DumpState.WriteElfSection | qemu_stm32/dump.c:329-356 | the file gets the bytes from the place of the pointer on, as many as a section header has, and not the header prepared |
| ElfDump.DumpState.HeadersReadBack | qemu_stm32/dump.c:106-356 | from the bytes of the file alone a reader gets the class, the byte order and every program header, cut to the fields of the class; below 65533 mappings also their number, and from there on the number that the bytes around the pointer spell |
| ElfDump.DumpState.CountExact | qemu_stm32/dump.c:1587-1602 | a reader gets the number of program headers whatever those bytes are, if and only if there are fewer than 65533 mappings |
| ElfDump.DumpState.DumpBegin | qemu_stm32/dump.c:498-584 | the file begins with exactly the ELF header, the note header, the program headers, the bytes in place of the section header, and the notes, and they end where the memory is said to begin |
| ElfDump.DumpState.HeaderAgrees | qemu_stm32/dump.c:398-457 | in the finished file the range of a program header holds the guest memory it names |
| ElfDump.DumpState.CreateVmcore | qemu_stm32/dump.c:650-665 | the finished file is exactly headers, notes and the kept memory in order, and every program header leads to the guest memory it names |
| ElfDump.GetDumpInfo | qemu_stm32/target-i386/arch_dump.c:393-427 | the class is 64-bit exactly for long mode, for memory that ends above 4 GiB and for other targets, so every guest address fits its field |
| ElfDump.MeantExact | qemu_stm32/dump.c:174-224 | a program header is read as it is meant, with -1 as the offset of no memory, if and only if its values fit the class |
| ElfDump.DumpState.MeantIffFit | qemu_stm32/dump.c:398-495 | all program headers are read as they are meant if and only if the memory of every kept block begins at an offset that fits, computed from blocks, filter and note size alone |
| ElfDump.DumpGuestMemory | qemu_stm32/dump.c:1467-1632 | over a whole dump every byte of guest memory that the filter keeps is in the file where a header says; the headers in the file are as meant if and only if the offsets of all kept blocks fit the class; then, with fewer than 65533 mappings, a reader who knows only the file finds every such byte |
| ElfDump.ManyMappings | qemu_stm32/dump.c:329-356 | with 65533 mappings and zeros around the pointer a reader finds no program header and no byte of memory |
| ElfDump.CutOffset | qemu_stm32/dump.c:200-224 | a 32-bit guest with 20 CPUs and memory up to 4 GiB less a page: the last block is in the file and a reader does not find it |
| Kdump.DataCache.Write | qemu_stm32/dump.c:1137-1167 | whatever the flush points, the data given to a cache is in the file or in its buffer in order, all of it in the file after a sync, and nothing before the cache's area changes |
| Kdump.SwitchOne | qemu_stm32/dump.c:1009-1016 | setting or clearing a bit of a byte changes that bit only |
| Kdump.RegionBytes | qemu_stm32/dump.c:990-1011 | the byte and bit of a page in the buffer are those in the file, the buffer being one page of the bitmap |
| Kdump.AreaGrows | qemu_stm32/dump.c:993-1006 | flushing the buffer of a region extends the bitmap in the file by that region |
| Kdump.KdumpState.constructor | qemu_stm32/dump.c:1459-1465 | the space laid out for the bitmaps has room for every page of guest memory |
| Kdump.KdumpState.SetDumpBitmap | qemu_stm32/dump.c:970-1019 | the regions before that of the page reach both bitmaps, and its bit the buffer |
| Kdump.GetNextPage | qemu_stm32/dump.c:1027-1071 | the iteration yields exactly the next page of guest memory, and ends after the last |
| Kdump.PagesAscend | qemu_stm32/dump.c:1027-1071 | page numbers come in strictly ascending order |
| Kdump.KdumpState.WriteDumpBitmap | qemu_stm32/dump.c:1073-1125 | both bitmaps mark exactly the pages of guest memory, and the pages are counted |
| Kdump.KthBit | qemu_stm32/dump.c:1073-1125 | the k-th set bit belongs to the k-th page |
| Kdump.KdumpState.StoredForm | qemu_stm32/dump.c:1258-1335 | what is stored of a page, compressed or plain, restores it |
| Kdump.KdumpState.WritePage | qemu_stm32/dump.c:1251-1352 | one turn of the loop appends a descriptor whose range restores the page, zero pages sharing one copy |
| Kdump.KdumpState.PageInFile | qemu_stm32/dump.c:1204-1358 | descriptor k in the file unpacks to an offset and size at which the file holds data that restores page k |
| Kdump.KdumpState.WriteDumpPages | qemu_stm32/dump.c:1204-1371 | this holds of every page, through both caches |
| Kdump.KdumpState.CreateKdump | qemu_stm32/dump.c:1373-1429 | in the finished file the bitmaps mark exactly the pages of guest memory and descriptor k leads to the k-th of them |

## Left out

- Dispatch.AddressSpaceDispatch.PageSet: sets pages to the numbers of added sections, never back to the unassigned one.
- Dispatch.AddressSpaceDispatch.MemAdd: returns false where the source aborts because the section array is full.
- RamMigration.Migration.Migrate: a run ends at the first page that is lost, though a later store of the guest could still bring that page over.
- RamMigration.Migration.LoadMsg: the offset in a message lies in its block, which the source does not check.
- RamMigration.Migration.Setup: the block list stays the same during one migration.
- BlockDevice.BlockDriverState.ReadDone: a driver read sees the disk at one moment.
- BlockRuns.Serve: stops at an event that cannot happen, such as a call by a coroutine that has a call open.
- BlockDevice.BlockDriverState.Preadv: a copy-on-read request is serialised on its clusters, but what it copies into the image is not modelled.
- SoftTlb.Cpu.SetPage: large page sizes are powers of two, and whether a watchpoint applies is a parameter.
- AioWakeup.NoLostWakeup: callbacks do not call aio_poll again; `AioHandlers` covers nested calls.
- Kdump.KdumpState.CreateKdump: starts after the headers and takes compression and byte order as pairs of functions that undo each other.
- ElfDump.DumpState.DumpBegin: the notes of the CPUs have the size announced and any contents.
- AioHandlers.AioContext.SetFdHandler: leaves out aio_notify, which `AioWakeup` models, and the poll list of the GSource.
- AioHandlers.AioContext.AioPoll: leaves out `dispatching`, which `AioWakeup` models, and timers.
- DirtyTracking.Machine.Run: a reset or an install that is proved to break a promise ends the run.
- ElfDump.DumpState.HeadersReadBack: what is read in place of the section header is promised nothing about, because the source writes other bytes there.
- Migration over RDMA, auto-converge, rate limits, statistics and the choice of when to stop iterating.
- Blocks that appear or disappear during a migration, and the search for a bit by words instead of bit by bit.
- Zero writes with a null vector, throttling, write notifiers, growable devices and reads past the end of a device; devices are a whole number of blocks long.
- multiwrite_merge in block.c and mapping_merge in memory_mapping.c.
- IOMMU translation, Xen and the ldl/stl accessors; address spaces other than the one being built.
- Clearing of dirty bits by the word path of the migration bitmap sync as an event for the TLB; the two models are not composed.
- Execution of guest code, the translation block cache, and watchpoint traps.
- The GSource use of an AioContext, Windows, the main loop and timers other than as a reason to return from poll.
- The flattened file format's own headers, and write errors after which part of a buffer has been written.
- Paging-based memory mappings as input of a whole dump; `GetOffsetRange` and `CreateVmcore` cover any list of mappings.
