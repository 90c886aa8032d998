/**
 * The allocation directory of src/lib.rs as the program keeps it: the `RootNode` behind
 * the global lock, whose fields the allocation path updates in place, the metadata pages
 * it owns, `allow_block_ref_block`, `allow_inner` and the `GlobalAlloc` adapter. Every
 * method is proved to do exactly what the matching function of module Allocator says.
 * The lock is left out: every call below runs with the directory already held.
 */
module Awwoc {
  import opened Wrappers
  import opened Pages
  import opened BlockRefs
  import opened Directory
  import opened Allocator

  /** `RootNode` (src/lib.rs:146-151) together with the metadata pages it owns. */
  class RootNode {
    /** The page provider (src/map.rs). */
    const os: PageProvider
    var firstBlock: Option<SlotId>
    var lastBlock: Option<SlotId>
    var blockCount: nat
    var nextFreeBlock: Option<SlotId>
    /** The contents of every mapped metadata page. */
    var arena: Arena
    /** The records reachable from `nextFreeBlock`, in list order. */
    ghost var freeList: seq<SlotId>

    /** The four fields of `RootNode` as a value. */
    function View(): Root
      reads this
    {
      Root(firstBlock, lastBlock, blockCount, nextFreeBlock)
    }

    /** The whole directory as a value. */
    ghost function State(): Dir
      reads this
    {
      Dir(View(), arena, freeList)
    }

    ghost predicate Valid()
      reads this, os
    {
      Good(State(), os.State())
    }

    /** The static initial value of `BLOCK` (src/lib.rs:139-144). */
    constructor (os: PageProvider)
      requires os.Valid()
      ensures this.os == os && Valid()
      ensures State() == Dir(Root(None, None, 0, None), map[], [])
      ensures Complete(View(), arena, os.log)
    {
      this.os := os;
      firstBlock, lastBlock, blockCount, nextFreeBlock := None, None, 0, None;
      arena, freeList := map[], [];
    }

    /** `allow_block_ref_block` (lines 26-33): maps one metadata page, whose slots all read as zero. */
    method AllowBlockRefBlock() returns (block: Option<SlotId>)
      requires os.Valid()
      modifies os, this`arena
      ensures os.Valid()
      ensures Grant(block, State(), os.State()) == NewPage(old(State()), old(os.State()))
    {
      var page := os.Map(BLOCK_REF_BLOCK_SIZE);
      if page.None? {
        return None;
      }
      block := Some(SlotId(page.value, 0));
      arena := arena[page.value := ZeroPage()];
    }

    /**
     * The search of lines 41-57: walks the free list from its head and stops at the first
     * record whose size is at most `size`; `k` is that record's position in the list.
     */
    method ScanFreeList(size: nat) returns (found: Option<SlotId>, ghost k: nat)
      requires Valid()
      ensures found.Some? <==> FirstFit(arena, freeList, size).Some?
      ensures match FirstFit(arena, freeList, size)
              case Some(j) => k == j && found == Some(freeList[j])
              case None => found.None?
    {
      k := 0;
      if nextFreeBlock.None? {
        return None, 0;
      }
      var freeBlock := nextFreeBlock.value;
      while true
        invariant 0 <= k < |freeList| && freeBlock == freeList[k]
        invariant forall j :: 0 <= j < k ==> Read(arena, freeList[j]).size > size
        decreases |freeList| - k
      {
        var blockRef := Read(arena, freeBlock);
        if blockRef.size <= size {
          return Some(freeBlock), k;
        }
        match blockRef.nextFree
        case Some(block) =>
          freeBlock, k := block, k + 1;
        case None =>
          return None, k;
      }
    }

    /** Lines 47-50 once the scan stopped at the `k`-th listed record, `block`. */
    method TakeFree(block: SlotId, ghost k: nat) returns (r: Option<Addr>)
      requires Valid() && k < |freeList| && freeList[k] == block
      modifies this
      ensures Valid()
      ensures Outcome(r, State(), os.State()) == Reuse(old(State()), old(os.State()), k)
    {
      ghost var d, o := State(), os.State();
      assert Mapped(arena, block);
      var blockRef := Read(arena, block);
      nextFreeBlock := blockRef.nextFree;
      arena := Write(arena, block, blockRef.(nextFree := None));
      freeList := freeList[k + 1..];
      r := if blockRef.start == 0 then None else Some(blockRef.start);
      assert Outcome(r, State(), o) == Reuse(d, o, k);
      ReuseGood(d, o, k);
    }

    /** Lines 60-69: the first metadata page, mapped on first use. */
    method FirstBlock() returns (first: Option<SlotId>)
      requires os.Valid()
      modifies this, os
      ensures os.Valid()
      ensures Grant(first, State(), os.State()) == FirstBlockStep(old(State()), old(os.State()))
    {
      if firstBlock.Some? {
        return firstBlock;
      }
      first := AllowBlockRefBlock();
      if first.None? {
        return;
      }
      firstBlock := first;
    }

    /** Lines 71-87: the slot for the new record, and `last_block` moved to it. */
    method Reserve() returns (slot: Option<SlotId>)
      requires Valid() && firstBlock.Some?
      modifies this, os
      ensures os.Valid()
      ensures Grant(slot, State(), os.State()) == ReserveStep(old(State()), old(os.State()))
    {
      if blockCount < BLOCK_REF_BLOCK_AMOUNT {
        var s := SlotId(firstBlock.value.page, blockCount);
        lastBlock := Some(s);
        return Some(s);
      }
      var block := AllowBlockRefBlock();
      if block.None? {
        return None;
      }
      if lastBlock.None? {
        return None;
      }
      var lastPtr := lastBlock.value;
      arena := Write(arena, lastPtr, Read(arena, lastPtr).(next := block));
      lastBlock := block;
      slot := block;
    }

    /** Lines 89-105: the data region, then the count, the link from `prev` and the new record. */
    method Commit(prev: Option<SlotId>, slot: SlotId, size: nat) returns (r: Option<Addr>)
      requires os.Valid() && Reserved(State(), os.log, prev, slot)
      modifies this, os
      ensures Outcome(r, State(), os.State()) == CommitStep(old(State()), old(os.State()), prev, slot, size)
    {
      ghost var d, o := State(), os.State();
      var data := os.Map(size);
      assert State() == d;
      if data.None? {
        return None;
      }
      blockCount := blockCount + 1;
      if prev.Some? {
        arena := Write(arena, prev.value, Read(arena, prev.value).(next := Some(slot)));
      }
      assert arena == LinkFrom(d.arena, prev, slot);
      arena := Write(arena, slot, BlockRef(data.value, size, None, None));
      r := data;
      assert State() == Dir(d.root.(count := d.root.count + 1),
                            Write(LinkFrom(d.arena, prev, slot), slot, BlockRef(data.value, size, None, None)), d.freeList);
    }

    /** Lines 60-105: the growth path, reached when no listed record qualifies. */
    method Grow(size: nat) returns (r: Option<Addr>)
      requires Valid()
      modifies this, os
      ensures Valid()
      ensures Outcome(r, State(), os.State()) == Growth(old(State()), old(os.State()), size)
    {
      GrowthGood(State(), os.State(), size);
      FirstBlockGood(State(), os.State());
      var first := FirstBlock();
      if first.None? {
        return None;
      }
      ReserveGood(State(), os.State());
      var prevLast := lastBlock;
      var slot := Reserve();
      if slot.None? {
        return None;
      }
      r := Commit(prevLast, slot.value, size);
    }

    /** `allow_inner` (lines 35-106): reuse of a listed record, or growth. */
    method AllowInner(size: nat) returns (r: Option<Addr>)
      requires Valid()
      modifies this, os
      ensures Valid()
      ensures Outcome(r, State(), os.State()) == Allocation(old(State()), old(os.State()), size)
    {
      AllocationGood(State(), os.State(), size);
      var found, k := ScanFreeList(size);
      if found.Some? {
        r := TakeFree(found.value, k);
      } else {
        r := Grow(size);
      }
    }

    /**
     * The walk of lines 121-132: follows `next` from `first_block` and stops at the first
     * record whose region starts at `ptr`; `k` is its position in the chain.
     */
    method FindRecord(ptr: Addr) returns (found: Option<SlotId>, ghost k: nat)
      requires Walkable(View(), arena, os.log)
      ensures found.Some? <==> FindStart(arena, ChainOf(View(), arena, os.log), ptr).Some?
      ensures var c := ChainOf(View(), arena, os.log);
        match FindStart(arena, c, ptr)
        case Some(j) => k == j && found == Some(c[j])
        case None => found.None?
    {
      ghost var c := ChainOf(View(), arena, os.log);
      if firstBlock.Some? {
        ChainShape(arena, firstBlock.value, os.log);
        assert c == ChainFrom(arena, firstBlock.value, os.log);
      }
      found, k := WalkChain(arena, firstBlock, c, ptr);
    }

    /** Lines 126-127: `block` becomes the head of the free list and links to the old head. */
    method PushFree(block: SlotId)
      requires Mapped(arena, block)
      modifies this
      ensures State() == Dir(old(View()).(head := Some(block)),
                             Write(old(arena), block, Read(old(arena), block).(nextFree := old(nextFreeBlock))),
                             [block] + old(freeList))
    {
      var free := nextFreeBlock;
      nextFreeBlock := Some(block);
      arena := Write(arena, block, Read(arena, block).(nextFree := free));
      freeList := [block] + freeList;
    }

    /**
     * The unreachable body of `dealloc` (lines 119-135): the record found for `ptr` is
     * pushed onto the free list (lines 126-127); with none, the call ends in the report
     * and abort of lines 134-135.
     */
    method DeallocScan(ptr: Addr) returns (outcome: DeallocOutcome)
      requires Valid()
      modifies this
      ensures Release(outcome, State()) == DeallocWalk(old(State()), old(os.State()), ptr)
      ensures ptr != 0 && old(NotListed(State(), os.State(), ptr)) ==> Valid()
    {
      ghost var d, o := State(), os.State();
      var found, k := FindRecord(ptr);
      if found.None? {
        return InvalidPointer;
      }
      var block := found.value;
      ghost var c := ChainOf(d.root, d.arena, o.log);
      assert FindStart(d.arena, c, ptr) == Some(k) && block == c[k];
      PushFree(block);
      assert State() == DeallocWalk(d, o, ptr).dir;
      if ptr != 0 && NotListed(d, o, ptr) {
        DeallocPreserves(d, o, ptr);
      }
      return Released;
    }
  }

  /**
   * The loop of lines 121-132 over the records `c` linked by `next` from `first`: stops at
   * the first record whose region starts at `ptr`, or at the end of the links.
   */
  method WalkChain(arena: Arena, first: Option<SlotId>, ghost c: seq<SlotId>, ptr: Addr) returns (found: Option<SlotId>, ghost k: nat)
    requires (first.None? <==> c == []) && (c != [] ==> first == Some(c[0]))
    requires forall j :: 0 <= j < |c| ==> Mapped(arena, c[j])
    requires forall j :: 0 <= j < |c| - 1 ==> Read(arena, c[j]).next == Some(c[j + 1])
    requires c != [] ==> Read(arena, c[|c| - 1]).next.None?
    ensures found.Some? <==> FindStart(arena, c, ptr).Some?
    ensures match FindStart(arena, c, ptr)
            case Some(j) => k == j && found == Some(c[j])
            case None => found.None?
  {
    var optionBlock := first;
    k := 0;
    while optionBlock.Some?
      invariant 0 <= k <= |c| && (optionBlock.Some? <==> k < |c|)
      invariant k < |c| ==> optionBlock == Some(c[k])
      invariant forall j :: 0 <= j < k ==> Read(arena, c[j]).start != ptr
      decreases |c| - k
    {
      var block := optionBlock.value;
      var blockRef := Read(arena, block);
      if blockRef.start == ptr {
        return Some(block), k;
      }
      if k < |c| - 1 {
        assert blockRef.next == Some(c[k + 1]);
      }
      optionBlock := blockRef.next;
      k := k + 1;
    }
    return None, k;
  }

  /** `GlobalAlloc::alloc` (lines 109-114): the pointer `allow_inner` returns, or null. */
  method Alloc(root: RootNode, size: nat) returns (p: Addr)
    requires root.Valid()
    modifies root, root.os
    ensures root.Valid()
    ensures var o := Allocation(old(root.State()), old(root.os.State()), size);
      p == (if o.result.Some? then o.result.value else 0) && (p == 0 <==> o.result.None?) &&
      root.State() == o.dir && root.os.State() == o.os
  {
    AllocationGood(root.State(), root.os.State(), size);
    var r := root.AllowInner(size);
    p := if r.Some? then r.value else 0;
  }

  /** `GlobalAlloc::dealloc` (lines 116-117) returns before touching anything. */
  method Dealloc(root: RootNode, ptr: Addr, size: nat)
    requires root.Valid()
    ensures root.Valid() && root.State() == old(root.State()) && root.os.State() == old(root.os.State())
  {
  }
}
