# awwoc allocation directory in Dafny

awwoc is a global memory allocator. `src/lib.rs` keeps one allocation directory, `RootNode`, behind a process-wide lock. It holds four fields:

- `first_block` and `last_block`, the head and tail of the block chain;
- `block_count`, the number of block records created;
- `next_free_block`, the head of the free list.

Every allocation is described by a block record, `BlockRef`. A record holds the data region's start and size, a `next` link for the chain, and a `next_free_block` link for the free list. Records live in 4096-byte metadata pages of `BLOCK_REF_BLOCK_AMOUNT` = 4096 / 32 = 128 slots each.

`allow_inner` first scans the free list. If no listed record qualifies, it grows the chain:

1. it maps the first metadata page on first use;
2. it reserves a slot, either the next slot of the first page or, once that page is full, slot 0 of a new page;
3. it maps the data region and writes the new record.

`GlobalAlloc::alloc` turns an allocation failure into null. `GlobalAlloc::dealloc` returns at once. The scan after that `return` (push the first chain record whose region starts at the pointer onto the free list, or abort) can never run. It is modelled separately.

That scan is the only code that lists a record: the root's free list starts empty (src/lib.rs:143), every new record gets no free-list successor (src/lib.rs:102), and the unlink at src/lib.rs:48 needs a listed record. So in the program as written the free-list path of `allow_inner` (src/lib.rs:41-57) is unreachable too. Every call grows, and every region it hands out was just mapped for exactly the requested size and overlaps no region handed out before (`EmptyListAllocation`). The model still states what the free-list path would do if the dead scan ran (`Reuse`, `ReuseGood`).

The model has five modules:

- `Pages` is the page provider (`map::map`). `map` passes a null hint to `mmap` (src/map.rs:14), so the system may place a region anywhere that is free. Where it places a region, and whether it grants a request at all, is an input: a script of answers, one per request. An answer is taken only when it is what `mmap` can return: a non-null, page-aligned address whose pages overlap no region granted before, for a length that is not zero. The model reads any other answer as a refusal, since it is not one `mmap` can give. The all-ones `MAP_FAILED` value, which `is_invalid` rejects together with null (src/map.rs:16-17, 27-29), is one of those because it is not page aligned. The log of requests records the order in which regions were mapped.
- `BlockRefs` holds records and metadata pages. The arena maps each page address to its slots, and a `SlotId` (page, index) stands for a `NonNull<BlockRef>`. It also specifies the chain walk and the free list. Slots are ordered by when their page was mapped, then by index (`Pos`), not by address. Every `next` link leads further on in that order, which is what makes the walk end.
- `Directory` defines the directory invariant, completeness of the chain, and one preservation lemma per step of the code.
- `Allocator` has one function per stretch of `allow_inner` and of the dead `dealloc` scan, over values. Its lemmas cover the invariant, the chain, the records written, freshness, and a three-call scenario.
- `Awwoc` has the class `RootNode`, whose methods update its fields in place like the source. Each method that stands for a step of `allow_inner` or of the `dealloc` scan is proved equal to its `Allocator` function. The free-list scan and the chain walk (`ScanFreeList`, `FindRecord`, `WalkChain`) are proved against `FirstFit` and `FindStart`, and `PushFree` states its new state directly. The module also has the `GlobalAlloc` adapter (`Alloc`, `Dealloc`).

## Behaviour as written

The model follows the code. In five places the code differs from what a reader of its comments and of the `GlobalAlloc` contract would expect of a first-fit allocator:

- **Fit test.** This and the next bullet describe the free-list path, which runs only if the dead `dealloc` scan did (see above). The free-list test at src/lib.rs:47 is `size <= requested`. A listed record qualifies when it is no larger than the request, so a smaller region than asked for would be handed out if the path ran, where `GlobalAlloc::alloc` must return a block that fits the layout. `FirstFit` and `ReleaseThenReuse` state this: a released region comes back for any request of at least its size.
- **Unlinking.** The unlink at src/lib.rs:48 writes through `prev_next_ptr`, which always points at the root's head. A first-fit list unlinks only the record it takes. Here taking the `k`-th listed record would make its successor the head, so every record listed before it would drop out of the list as well (`ReuseGood`). Like the fit test, this can happen only if the dead scan ran.
- **Order of updates.** `last_block` moves (src/lib.rs:76, 84) before the data mapping that can fail (src/lib.rs:90). After a refused data mapping, `last_block` names a slot with no record in it. What follows depends on whether the first page is full:
  - While `0 < block_count < 128`, the empty slot is not linked yet. The next successful allocation links it to itself (src/lib.rs:94-96); a further refused one only moves `last_block` to the same slot again. The chain from `first_block` stops at slot `count - 1`, whose `next` stays None, so it then holds fewer records than `block_count` (`RefusedDataMovesLast`, `SelfLinkedCommit`, `RefusedDataTruncatesChain`).
  - At `block_count == 0` the empty slot is slot 0, which is also `first_block`. The next allocation's self-link is overwritten at once by the record, whose `next` is None (src/lib.rs:98-103), and the chain is complete again.
  - Once `block_count >= 128`, line 82 has already linked the old tail to slot 0 of the new page. Starting from a complete chain, the chain then holds `block_count + 1` records, and the last of them has start 0 (`RefusedDataLinksPage`).
- **Pages per record.** The first page is filled slot by slot. Once `block_count` reaches 128, every new record gets a metadata page of its own (`ReserveStep`, `ReservePlacement`).
- **Deallocation.** `dealloc` returns at once (src/lib.rs:117), so nothing is ever released (`Dealloc`). Suppose the scan after the `return` did run. For a record that is still on the free list, it would find that record and push it a second time, instead of aborting on a double free. The `next_free_block` links then form a cycle, so no list of distinct records follows them (`DoubleReleaseBreaksList`). A freed record that the head-only unlink has already dropped from the list is simply listed again (`DeallocPreserves`).

## Model

| member | source | states |
|---|---|---|
| Pages.PageSpan | src/map.rs:11-21 | the bytes a mapping of `len` bytes occupies: a multiple of the page size, at least `len` and less than `len` plus one page |
| Pages.PageSpanLeast | src/map.rs:11-21 | no smaller multiple of the page size holds `len` bytes, so `PageSpan` is `len` rounded up to whole pages |
| Pages.Answer | src/map.rs:14-20 | the system's answer is taken exactly when it is a non-null, page-aligned address for a non-zero length whose pages overlap no earlier grant; anything else is a refusal |
| Pages.Request | src/map.rs:11-21 | a request is granted exactly when the next scripted answer is such an address, and then returns it. A zero length is refused. One answer is used up, the log grows by this request alone, and a valid provider stays valid |
| Pages.RequestNew | src/map.rs:11-21 | a granted region overlaps every earlier grant in no byte, so no earlier request returned its address: its rank is this request's position |
| Pages.RequestAnswered | src/map.rs:11-21 | a request uses up one scripted answer and logs the system's answer to it |
| Pages.Rank | src/map.rs:11-21 | the position of the first request that returned an address, or the log length when none did; no earlier request returned it |
| Pages.RankPrefix | src/map.rs:11-21 | later requests do not change the rank of an address already granted |
| Pages.FollowsTrans | src/map.rs:11-21 | two runs of requests one after the other are one run of requests |
| Pages.PageProvider.Map | src/map.rs:11-21 | the in-place provider answers and updates its fields exactly as `Request` says, so a grant may lie anywhere free, and it keeps its bookkeeping valid |
| BlockRefs.ZeroPage | src/lib.rs:26-33 | a freshly mapped metadata page has 128 slots, and each reads as a zeroed record |
| BlockRefs.Write | src/lib.rs:98-103 | storing a record changes that slot alone; every other slot and every page length stay |
| BlockRefs.WriteTwice | src/lib.rs:94-103 | a second store to a slot overrides the first |
| BlockRefs.PosOrder | src/lib.rs:79-84 | every slot of a page mapped earlier comes before every slot of a page mapped later |
| BlockRefs.ExtendWellFormed | src/lib.rs:79-90 | later requests keep every page's position and the forward-only links |
| BlockRefs.AddPageWellFormed | src/lib.rs:26-33 | adding a fresh zeroed page keeps the links forward-only and changes no link |
| BlockRefs.ChainShape | src/lib.rs:121-132 | the walk over `next` visits mapped slots in strictly increasing position, each linked to the one after it. It ends at the only record whose `next` is None |
| BlockRefs.ChainSameLinks | src/lib.rs:121-132 | the walk depends only on the `next` links |
| BlockRefs.ChainAppend | src/lib.rs:94-103 | linking the walk's last record to a record further on whose `next` is None extends the walk by exactly that record |
| BlockRefs.RestListed | src/lib.rs:53-56 | the records after the head form the free list that starts at the head's successor |
| BlockRefs.DropListed | src/lib.rs:53-56 | the records after the `k`-th listed one form the free list that starts at its successor |
| BlockRefs.TakeListed | src/lib.rs:47-49 | setting the head to the `k`-th listed record's successor and clearing that record's link leaves exactly the records listed after it. Starts and `next` links stay |
| BlockRefs.WriteOffList | src/lib.rs:92-103 | storing into a slot that is not listed keeps the free list |
| BlockRefs.PushListed | src/lib.rs:125-127 | pushing a record that is not listed makes it the head of the old list, with starts and `next` links unchanged |
| BlockRefs.ConsListed | src/lib.rs:125-127 | an unlisted record that links to the head goes in front of the list |
| BlockRefs.FreeListUnique | src/lib.rs:41-57 | the `next_free_block` pointers from the head determine the free list: at most one sequence fits |
| BlockRefs.FirstFit | src/lib.rs:41-57 | the position of the first listed record whose size is at most the request; records listed before it are larger; None exactly when all are larger |
| BlockRefs.FindStart | src/lib.rs:121-132 | the first chain position whose record starts at `ptr`; records before it start elsewhere; None exactly when no chain record starts at `ptr` |
| Directory.ChainOf | src/lib.rs:121-132 | the chain consists of mapped slots, and it is empty exactly when `first_block` is None |
| Directory.CompleteTail | src/lib.rs:71-87 | a complete chain with a first block has a tail, and while the first page is not full the tail is its slot `count - 1` |
| Directory.LinkFrom | src/lib.rs:94-96 | `prev.next` becomes the new slot; no other slot and no page changes |
| Directory.SameDataInvariant | src/lib.rs:82 | a change of `next` links alone that keeps them forward-only keeps the invariant |
| Directory.ExtendLog | src/lib.rs:79-90 | later requests keep the invariant and the chain |
| Directory.TakeInvariant | src/lib.rs:47-50 | taking the `k`-th listed record keeps the invariant and the chain, keeps a complete chain complete, and the record's region is non-null |
| Directory.PushInvariant | src/lib.rs:125-127 | pushing a chain record that is not listed and has a data region keeps the invariant, the chain and completeness |
| Directory.PushShape | src/lib.rs:125-127 | the push keeps the invariant, with the record at the head of the free list, and changes no `next` link |
| Directory.LinksKeepChain | src/lib.rs:125-127 | a change that keeps every `next` link and the chain fields of the root keeps the chain and its completeness |
| Directory.NewPageRank | src/lib.rs:79 | a page granted by the latest request is not yet a metadata page, and every metadata page keeps its rank |
| Directory.FirstPageInvariant | src/lib.rs:61-69 | with no first block, a fresh page as the first metadata page keeps the invariant |
| Directory.PageInvariant | src/lib.rs:79-80 | a fresh page that nothing refers to keeps the invariant and the chain |
| Directory.ReserveInvariant | src/lib.rs:73-77 | while the first page has room, moving `last_block` to its slot `count` keeps the invariant |
| Directory.LinkPageInvariant | src/lib.rs:78-86 | once the first page is full, a fresh page linked from `last_block` keeps the invariant, and its slot 0 comes after the old tail in mapping order |
| Directory.CommitInvariant | src/lib.rs:89-103 | counting the record, linking `prev` to the reserved slot and storing the record there keeps the invariant |
| Directory.StoreInvariant | src/lib.rs:92-103 | the reserved empty slot receiving a record with no links, counted, keeps the invariant |
| Directory.CommitComplete | src/lib.rs:94-103 | linking the old tail to the new record and storing it as the tail keeps a complete chain complete |
| Directory.CommitChain | src/lib.rs:94-103 | on a chain with a first block, the commit appends exactly the new tail to the chain |
| Directory.TailLinked | src/lib.rs:79-84 | a tail linked to a new, unlinked slot further on, which becomes `last_block`, extends the chain by exactly that slot |
| Allocator.NewPage | src/lib.rs:26-33 | a granted metadata page is added as a zeroed page, and the result is its slot 0; a refusal leaves the directory |
| Allocator.FirstBlockStep | src/lib.rs:60-69 | the slot yielded is `first_block` afterwards, and a mapped first page stays mapped |
| Allocator.ReserveStep | src/lib.rs:71-87 | a reserved slot lies in a mapped page |
| Allocator.CommitStep | src/lib.rs:89-105 | a refused data mapping leaves the directory as it was |
| Allocator.Growth | src/lib.rs:60-105 | the growth path leaves the free list as it was |
| Allocator.Reuse | src/lib.rs:47-50 | reuse makes no request to the provider |
| Allocator.Allocation | src/lib.rs:35-58 | when a listed record qualifies, the call makes no request to the provider |
| Allocator.FirstBlockGood | src/lib.rs:60-69 | keeps the invariant. Only `first_block` may change, and only with a granted page. An existing first block leaves everything as it was |
| Allocator.ReserveGood | src/lib.rs:71-87 | keeps the invariant and yields a reserved slot: `last_block`, empty, and after the old `last_block` in mapping order. Count, first block, head and free list stay. Every slot other than the old tail reads as before. A refusal with a tail present changes nothing |
| Allocator.LinkedPageGood | src/lib.rs:79-84 | with a `last_block` and a full first page, the fresh page's slot 0 is reserved and linked from it, the invariant holds, and every other slot reads as before |
| Allocator.ReservePlacement | src/lib.rs:73-87 | while the first page has room, the slot is its slot `count`, with no request. Otherwise one metadata request is made, the slot is slot 0 of the granted page, it is new to the arena and ranked last, and the old `last_block` links to it. With no `last_block`, or when refused, there is no slot |
| Allocator.CommitGood | src/lib.rs:89-105 | keeps the invariant. The log grows by the data request alone, and a granted region overlaps no earlier grant and is counted once |
| Allocator.RefusedCommitGood | src/lib.rs:90 | a refused data mapping only logs the refusal and keeps the invariant |
| Allocator.GrantedCommitGood | src/lib.rs:92-103 | a granted commit keeps the invariant |
| Allocator.GrantedCommitInvariant | src/lib.rs:92-103 | after the data request was logged, the commit keeps the invariant |
| Allocator.ReservedExtend | src/lib.rs:89-90 | later requests leave a reservation in place |
| Allocator.CommitWrites | src/lib.rs:92-103 | a granted commit stores record (start, size, None, None) in the slot and links `prev` to it; other slots stay |
| Allocator.GrowthGood | src/lib.rs:60-105 | the growth path keeps the invariant and the free-list head, and hands out only non-null regions |
| Allocator.ReuseGood | src/lib.rs:41-51 | returns the picked record's non-null start. The head becomes the record's old successor and the record's own link is cleared. It and every record listed before it leave the list. Chain, count and completeness stay |
| Allocator.AllocationGood | src/lib.rs:35-106 | an allocation keeps the invariant and hands out only non-null regions |
| Allocator.StepAnswered | src/lib.rs:60-90 | a step that makes no request, or one request, leaves the provider's log and answers as the script says |
| Allocator.GrowthAnswered | src/lib.rs:60-105 | the growth path only makes requests to the provider, each answered by the script |
| Allocator.FirstPageFirst | src/lib.rs:61-69 | with no first block, the call's first request is for a metadata page. A refusal fails the call with nothing changed. A success makes that page's slot 0 `first_block` |
| Allocator.GrantedGrowthRecord | src/lib.rs:89-105 | a successful growth counts one record. The new `last_block` holds (returned start, requested size, None, None). Head and free list stay |
| Allocator.RefusedDataMovesLast | src/lib.rs:71-92 | while the first page has room, a refused data mapping fails the call after `last_block` moved to slot `count`; count, pages and free list stay |
| Allocator.RefusedDataLinksPage | src/lib.rs:78-92 | once the first page is full, a refused data mapping fails the call after the new page's slot 0 became `last_block` and was linked: the chain holds `count + 1` records, and the last reads as zero |
| Allocator.PageLinkedShape | src/lib.rs:79-84 | once the first page is full, the new page's slot 0 becomes `last_block` and reads as zero |
| Allocator.PageLinkedChain | src/lib.rs:79-84 | once the first page is full, a complete chain gains the new page's slot 0 |
| Allocator.GrantedGrowthComplete | src/lib.rs:71-105 | a successful growth keeps a complete chain complete |
| Allocator.FirstGrowthComplete | src/lib.rs:61-105 | the first successful growth makes a complete one-record chain |
| Allocator.LaterGrowthComplete | src/lib.rs:71-105 | with a first block, a successful growth keeps a complete chain complete |
| Allocator.RefusedGrowthUnchanged | src/lib.rs:60-92 | a refused growth that leaves `last_block` in place leaves the directory as it was, and its one request was the refused metadata request |
| Allocator.GrowthComplete | src/lib.rs:60-105 | growth keeps a complete chain complete unless a refused data mapping moved `last_block` |
| Allocator.AllocationComplete | src/lib.rs:35-106 | an allocation keeps a complete chain complete unless a refused data mapping moved `last_block` |
| Allocator.GrowthFresh | src/lib.rs:89-105 | a region from growth was mapped for exactly the requested size by the call's last request, and its pages overlap no region granted before it, in this call or earlier |
| Allocator.EmptyListAllocation | src/lib.rs:35-106 | on an empty free list, as every list is while `dealloc` returns at once, an allocation keeps the invariant and the list empty, and a region it hands out was mapped for exactly the requested size by the call's last request and overlaps no earlier grant |
| Allocator.AllocationKeepsTail | src/lib.rs:35-106 | an allocation keeps `last_block` set once `first_block` is |
| Allocator.GrowthKeepsTail | src/lib.rs:60-105 | the growth path keeps `last_block` set once `first_block` is |
| Allocator.DeallocKeepsTail | src/lib.rs:119-135 | the `dealloc` scan keeps `last_block` set once `first_block` is |
| Allocator.TailExitUnreachable | src/lib.rs:79-80 | with `last_block` set, a slot is reserved past the first page exactly when the metadata page is granted, so the `root.last_block?` exit is never taken |
| Allocator.DeallocWalk | src/lib.rs:119-135 | the scan reports an invalid pointer exactly when no chain record starts at `ptr`, and then changes nothing |
| Allocator.DeallocPreserves | src/lib.rs:119-135 | releasing a record that is not listed keeps the invariant, chain and completeness. The released record heads the list in front of the old list, with its start `ptr` and its size unchanged |
| Allocator.DoubleReleaseBreaksList | src/lib.rs:119-135 | releasing a region whose record is already listed succeeds, and then no list of distinct records follows the `next_free_block` links from the head: they form a cycle, and the invariant is lost |
| Allocator.PushedTwice | src/lib.rs:125-127 | after the `i`-th listed record is pushed again, a list read from the new head repeats the old list up to that record |
| Allocator.ReleaseThenReuse | src/lib.rs:41-50 | after a release, requesting at least the released record's size returns the released region |
| Allocator.FirstAllocation | src/lib.rs:61-105 | the first allocation maps the first page, fills slot 0 with a record whose `next` is None, and counts 1 |
| Allocator.SelfLinkedCommit | src/lib.rs:71-105 | with `last_block` already at slot 1, the record of slot 0 keeps `next` None. The count reaches 2 while the chain holds slot 0 alone |
| Allocator.RefusedDataTruncatesChain | src/lib.rs:71-105 | from the empty directory, with answers grant, grant, refuse and grant, three 8-byte allocations succeed, fail and succeed. The count is 2 and the chain holds one record |
| Awwoc.RootNode.constructor | src/lib.rs:139-151 | the static directory starts empty, valid and complete |
| Awwoc.RootNode.AllowBlockRefBlock | src/lib.rs:26-33 | maps one metadata page in place exactly as `NewPage` says |
| Awwoc.RootNode.ScanFreeList | src/lib.rs:41-57 | the loop stops at the record `FirstFit` picks, or reports none |
| Awwoc.RootNode.TakeFree | src/lib.rs:47-50 | updates the fields exactly as `Reuse` says and keeps the invariant |
| Awwoc.RootNode.FirstBlock | src/lib.rs:60-69 | updates the fields exactly as `FirstBlockStep` says |
| Awwoc.RootNode.Reserve | src/lib.rs:71-87 | updates the fields exactly as `ReserveStep` says |
| Awwoc.RootNode.Commit | src/lib.rs:89-105 | updates the fields exactly as `CommitStep` says |
| Awwoc.RootNode.Grow | src/lib.rs:60-105 | updates the fields exactly as `Growth` says and keeps the invariant |
| Awwoc.RootNode.AllowInner | src/lib.rs:35-106 | updates the fields exactly as `Allocation` says and keeps the invariant |
| Awwoc.RootNode.FindRecord | src/lib.rs:121-132 | the `while let` walk stops at the chain record `FindStart` picks, or reports none |
| Awwoc.RootNode.PushFree | src/lib.rs:126-127 | the record becomes the head of the free list and links to the old head; nothing else changes |
| Awwoc.RootNode.DeallocScan | src/lib.rs:119-135 | updates the fields exactly as `DeallocWalk` says, and keeps the invariant for a non-null pointer whose record is not listed |
| Awwoc.WalkChain | src/lib.rs:121-132 | over the records linked by `next` from `first`, the loop stops at the first whose region starts at `ptr`, as `FindStart` says, or at the end of the links |
| Awwoc.Alloc | src/lib.rs:109-114 | returns the region `allow_inner` gives, or 0 (null) exactly when it fails, with the directory updated as `Allocation` says |
| Awwoc.Dealloc | src/lib.rs:116-117 | leaves the directory and the provider as they were |

## Left out

- `src/map.rs` internals (the `mmap` call itself, `unmap`, the miri wrapper), because they are calls into the operating system. Where the system places a region is an input, the script of answers. The provider accepts an answer only when it is page aligned, non-null and overlaps no earlier grant, which is what `mmap` guarantees for anonymous mappings that are never unmapped. The all-ones `MAP_FAILED` value that `is_invalid` also rejects is not page aligned, so the model reads it as a refusal too. Zero-filled contents are modelled for metadata pages only.
- The lock on `static BLOCK`, its poison recovery, and the `Send`/`Sync` impls, because they concern concurrency. Every call runs with the lock already held.
- The tests in `tests/`, because they are an end-to-end harness with no logic of their own.
- `Layout` alignment, because the code ignores it; only the size is passed on.
- Data-region contents, because the directory never reads or writes them.
- Raw-pointer provenance, because a `SlotId` (page, index) replaces it. `first_block.as_ptr().add(count)` is slot `count` of the first page.
- The stderr report and `libc::abort` of lines 134-135, because they are I/O and process exit. They become the outcome `InvalidPointer`, with the directory unchanged.
- `usize` wrap-around of `block_count += 1` and of sizes, because counts and sizes are modelled as unbounded `nat`.
- Awwoc.RootNode.DeallocScan: the invariant is promised only for a non-null pointer whose record is not already listed, for the reasons given for `DeallocPreserves`.
- Allocator.DeallocPreserves: requires a non-null pointer whose record is not already listed. A listed record would be pushed twice (`DoubleReleaseBreaksList`). A null pointer can find the empty start-0 record that a refused data mapping leaves in the chain once the first page is full (`RefusedDataLinksPage`), and the invariant keeps records without a data region off the free list.
