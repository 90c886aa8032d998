/**
 * `allow_inner` (src/lib.rs:35-106) and the scan in `dealloc` (src/lib.rs:119-135) as
 * functions from the directory and the page provider's state to the result and the
 * states after the call. Each function follows one stretch of the code; the lemmas
 * say what each stretch keeps and what a whole call promises.
 */
module Allocator {
  import opened Wrappers
  import opened Pages
  import opened BlockRefs
  import opened Directory

  /** The directory: the root's four fields, the metadata pages, and the free list in order. */
  datatype Dir = Dir(root: Root, arena: Arena, freeList: seq<SlotId>)

  ghost predicate Good(d: Dir, os: Os) {
    OsValid(os) && Invariant(d.root, d.arena, os.log, d.freeList)
  }

  /** The first metadata page, once there is one, is mapped as a whole page. */
  ghost predicate FirstPageMapped(d: Dir) {
    d.root.first.Some? ==>
      d.root.first.value.page in d.arena && |d.arena[d.root.first.value.page]| == BLOCK_REF_BLOCK_AMOUNT &&
      d.root.first.value.index == 0
  }

  /** A step of the allocation path: the slot it yields (None ends the call), and the states after it. */
  datatype Grant = Grant(slot: Option<SlotId>, dir: Dir, os: Os)

  /** What an allocation returns, and the states after it. */
  datatype Outcome = Outcome(result: Option<Addr>, dir: Dir, os: Os)

  /** `allow_block_ref_block` (lines 26-33): one metadata page, whose slots read as zero, is mapped. */
  function NewPage(d: Dir, os: Os): (g: Grant)
    ensures g.slot.Some? ==> g.slot.value.index == 0 && Mapped(g.dir.arena, g.slot.value) &&
                             Read(g.dir.arena, g.slot.value) == ZEROED &&
                             g.dir == d.(arena := d.arena[g.slot.value.page := ZeroPage()])
    ensures g.slot.None? ==> g.dir == d
  {
    var reply := Request(os, BLOCK_REF_BLOCK_SIZE);
    if reply.result.None? then Grant(None, d, reply.os)
    else
      var p := reply.result.value;
      Grant(Some(SlotId(p, 0)), d.(arena := d.arena[p := ZeroPage()]), reply.os)
  }

  /** Lines 60-69: the first metadata page, mapped on first use. */
  function FirstBlockStep(d: Dir, os: Os): (g: Grant)
    ensures g.slot == g.dir.root.first
    ensures FirstPageMapped(d) ==> FirstPageMapped(g.dir)
    ensures g.os == os || g.os == Request(os, BLOCK_REF_BLOCK_SIZE).os
  {
    if d.root.first.Some? then Grant(d.root.first, d, os)
    else
      var g := NewPage(d, os);
      if g.slot.None? then g
      else Grant(g.slot, g.dir.(root := d.root.(first := g.slot)), g.os)
  }

  /**
   * Lines 71-87: while the first page has room, its slot `count` becomes `last_block`;
   * after that every record gets a fresh page, linked from the old `last_block`.
   */
  function ReserveStep(d: Dir, os: Os): (g: Grant)
    requires d.root.first.Some? && FirstPageMapped(d)
    ensures g.slot.Some? ==> Mapped(g.dir.arena, g.slot.value)
    ensures g.os == os || g.os == Request(os, BLOCK_REF_BLOCK_SIZE).os
  {
    var root := d.root;
    if root.count < BLOCK_REF_BLOCK_AMOUNT then
      var s := SlotId(root.first.value.page, root.count);
      Grant(Some(s), d.(root := root.(last := Some(s))), os)
    else
      var g := NewPage(d, os);
      if g.slot.None? then g
      else if root.last.None? then Grant(None, g.dir, g.os)
      else
        var t := g.slot.value;
        Grant(Some(t), Dir(root.(last := Some(t)), LinkFrom(g.dir.arena, root.last, t), d.freeList), g.os)
  }

  /**
   * Lines 89-105: the data region is requested; when it is granted the count grows, `prev`
   * is linked to the reserved slot, and the slot receives the new record.
   */
  function CommitStep(d: Dir, os: Os, prev: Option<SlotId>, slot: SlotId, size: nat): (o: Outcome)
    requires Mapped(d.arena, slot)
    ensures o.result.None? ==> o.dir == d
    ensures o.os == Request(os, size).os
  {
    var reply := Request(os, size);
    if reply.result.None? then Outcome(None, d, reply.os)
    else
      var rec := BlockRef(reply.result.value, size, None, None);
      Outcome(reply.result,
              Dir(d.root.(count := d.root.count + 1), Write(LinkFrom(d.arena, prev, slot), slot, rec), d.freeList),
              reply.os)
  }

  /** Lines 60-105: the growth path, taken when no listed record qualifies. */
  function Growth(d: Dir, os: Os, size: nat): (o: Outcome)
    requires FirstPageMapped(d)
    ensures o.dir.freeList == d.freeList
  {
    var g1 := FirstBlockStep(d, os);
    if g1.slot.None? then Outcome(None, g1.dir, g1.os)
    else
      var g2 := ReserveStep(g1.dir, g1.os);
      if g2.slot.None? then Outcome(None, g2.dir, g2.os)
      else CommitStep(g2.dir, g2.os, g1.dir.root.last, g2.slot.value, size)
  }

  /**
   * Lines 47-50 for the `k`-th listed record: its data region is handed out again
   * (`NonNull::new` of its start), its own link is cleared, and the head is set to its
   * successor, because `prev_next_ptr` still points at the head.
   */
  function Reuse(d: Dir, os: Os, k: nat): (o: Outcome)
    requires k < |d.freeList| && Mapped(d.arena, d.freeList[k])
    ensures o.os == os
  {
    var s := d.freeList[k];
    var rec := Read(d.arena, s);
    Outcome(if rec.start == 0 then None else Some(rec.start),
            Dir(d.root.(head := rec.nextFree), Write(d.arena, s, rec.(nextFree := None)), d.freeList[k + 1..]),
            os)
  }

  /** `allow_inner` (lines 35-106): the first qualifying listed record, or growth. */
  function Allocation(d: Dir, os: Os, size: nat): (o: Outcome)
    requires Good(d, os)
    ensures FirstFit(d.arena, d.freeList, size).Some? ==> o.os == os
  {
    match FirstFit(d.arena, d.freeList, size)
    case Some(k) => Reuse(d, os, k)
    case None => Growth(d, os, size)
  }

  /**
   * The slot `slot` was reserved for the next record: it is `last_block`, no record occupies
   * it, it is slot `count` of the first page while that page is not full and on another page
   * after, and the previous `last_block`, `prev`, is that slot or comes before it in the
   * order the pages of `log` were mapped.
   */
  ghost predicate Reserved(d: Dir, log: seq<Mapping>, prev: Option<SlotId>, slot: SlotId) {
    d.root.first.Some? && d.root.last == Some(slot) && Mapped(d.arena, slot) && Read(d.arena, slot).start == 0 &&
    (d.root.count < BLOCK_REF_BLOCK_AMOUNT ==> slot == SlotId(d.root.first.value.page, d.root.count)) &&
    (d.root.count >= BLOCK_REF_BLOCK_AMOUNT ==> slot.page != d.root.first.value.page) &&
    (prev.Some? ==> Mapped(d.arena, prev.value) && (prev.value == slot || Pos(log, prev.value) < Pos(log, slot)))
  }

  /** Lines 60-69 keep the invariant; only a new first page changes anything. */
  lemma FirstBlockGood(d: Dir, os: Os)
    requires Good(d, os)
    ensures var g := FirstBlockStep(d, os);
      Good(g.dir, g.os) && os.log <= g.os.log &&
      g.dir.freeList == d.freeList && g.dir.root == d.root.(first := g.dir.root.first) &&
      (d.root.first.Some? ==> g == Grant(d.root.first, d, os)) &&
      (g.slot.None? ==> g.dir == d)
  {
    if d.root.first.None? {
      var g := NewPage(d, os);
      RequestNew(os, BLOCK_REF_BLOCK_SIZE);
      if g.slot.Some? {
        FirstPageInvariant(d.root, d.arena, os.log, g.os.log, d.freeList, g.slot.value.page);
      }
    }
  }

  /**
   * Lines 71-87 keep the invariant and reserve a slot: the count, the first block and the
   * free list stay, and every slot but the old `last_block` reads as before.
   */
  lemma ReserveGood(d: Dir, os: Os)
    requires Good(d, os) && d.root.first.Some?
    ensures var g := ReserveStep(d, os);
      Good(g.dir, g.os) && os.log <= g.os.log &&
      g.dir.root.first == d.root.first && g.dir.root.count == d.root.count &&
      g.dir.root.head == d.root.head && g.dir.freeList == d.freeList &&
      (g.slot.Some? ==> Reserved(g.dir, g.os.log, d.root.last, g.slot.value)) &&
      (g.slot.Some? ==> forall u :: Mapped(d.arena, u) && Some(u) != d.root.last ==>
         Mapped(g.dir.arena, u) && Read(g.dir.arena, u) == Read(d.arena, u)) &&
      (g.slot.None? && d.root.last.Some? ==> g.dir == d)
  {
    var g := ReserveStep(d, os);
    if d.root.count < BLOCK_REF_BLOCK_AMOUNT {
      var s := SlotId(d.root.first.value.page, d.root.count);
      ReserveInvariant(d.root, d.arena, os.log, d.freeList);
      assert g == Grant(Some(s), d.(root := d.root.(last := Some(s))), os);
    } else {
      var n := NewPage(d, os);
      if n.slot.None? {
        ExtendLog(d.root, d.arena, os.log, n.os.log, d.freeList);
        assert g == n;
      } else {
        RequestNew(os, BLOCK_REF_BLOCK_SIZE);
        if d.root.last.None? {
          PageInvariant(d.root, d.arena, os.log, n.os.log, d.freeList, n.slot.value.page);
          assert g == Grant(None, n.dir, n.os);
        } else {
          LinkedPageGood(d, os);
        }
      }
    }
  }

  /** Lines 79-84 with a `last_block`: the fresh page's slot 0 is reserved and linked from it. */
  lemma LinkedPageGood(d: Dir, os: Os)
    requires Good(d, os) && d.root.first.Some? && d.root.last.Some? && d.root.count >= BLOCK_REF_BLOCK_AMOUNT
    requires NewPage(d, os).slot.Some? && Rank(NewPage(d, os).os.log, NewPage(d, os).slot.value.page) == |os.log|
    ensures var g := ReserveStep(d, os);
      Good(g.dir, g.os) &&
      Reserved(g.dir, g.os.log, d.root.last, g.slot.value) &&
      forall u :: Mapped(d.arena, u) && Some(u) != d.root.last ==>
        Mapped(g.dir.arena, u) && Read(g.dir.arena, u) == Read(d.arena, u)
  {
    var n := NewPage(d, os);
    var t := n.slot.value;
    var l := d.root.last.value;
    NewPageRank(d.arena, os.log, n.os.log, t.page);
    LinkPageInvariant(d.root, d.arena, os.log, n.os.log, d.freeList, t.page);
    var g := ReserveStep(d, os);
    assert g == Grant(Some(t), Dir(d.root.(last := Some(t)), LinkFrom(n.dir.arena, d.root.last, t), d.freeList), n.os);
    assert t.page !in d.arena && l.page in d.arena;
    assert Read(g.dir.arena, t) == Read(n.dir.arena, t);
    forall u | Mapped(d.arena, u) && Some(u) != d.root.last
      ensures Mapped(g.dir.arena, u) && Read(g.dir.arena, u) == Read(d.arena, u)
    {
      AddPageKeeps(d.arena, t.page, ZeroPage(), u);
    }
  }

  /**
   * Where lines 71-87 put the new record: while the first page has room, in its slot
   * `count`, with no request to the provider; after that, in slot 0 of a page mapped for
   * it, which the old `last_block` now links to. With no `last_block` there is no slot.
   */
  lemma ReservePlacement(d: Dir, os: Os)
    requires Good(d, os) && d.root.first.Some?
    ensures var g := ReserveStep(d, os);
      (d.root.count < BLOCK_REF_BLOCK_AMOUNT ==>
         g.os == os && g.dir.arena == d.arena &&
         g.slot == Some(SlotId(d.root.first.value.page, d.root.count)) && g.dir.root.last == g.slot) &&
      (d.root.count >= BLOCK_REF_BLOCK_AMOUNT ==>
         |g.os.log| == |os.log| + 1 && g.os.log[|os.log|].len == BLOCK_REF_BLOCK_SIZE &&
         (g.slot.Some? <==> g.os.log[|os.log|].result.Some? && d.root.last.Some?) &&
         (g.slot.Some? ==>
            g.slot == Some(SlotId(g.os.log[|os.log|].result.value, 0)) && g.slot.value.page !in d.arena &&
            Rank(g.os.log, g.slot.value.page) == |os.log| &&
            g.dir.root.last == g.slot && Mapped(g.dir.arena, d.root.last.value) &&
            Read(g.dir.arena, d.root.last.value).next == g.slot))
  {
    if d.root.count >= BLOCK_REF_BLOCK_AMOUNT {
      var g := NewPage(d, os);
      RequestNew(os, BLOCK_REF_BLOCK_SIZE);
      if g.slot.Some? && d.root.last.Some? {
        var t, l := g.slot.value, d.root.last.value;
        NewPageRank(d.arena, os.log, g.os.log, t.page);
        assert Mapped(g.dir.arena, l);
        var linked := LinkFrom(g.dir.arena, d.root.last, t);
        assert ReserveStep(d, os) == Grant(Some(t), Dir(d.root.(last := Some(t)), linked, d.freeList), g.os);
        assert Read(linked, l).next == Some(t);
      }
    } else {
      var s := SlotId(d.root.first.value.page, d.root.count);
      assert ReserveStep(d, os) == Grant(Some(s), d.(root := d.root.(last := Some(s))), os);
    }
  }

  /**
   * Lines 89-105 keep the invariant; a granted data region overlaps no region granted
   * before, and it is counted.
   */
  lemma CommitGood(d: Dir, os: Os, prev: Option<SlotId>, slot: SlotId, size: nat)
    requires Good(d, os) && Reserved(d, os.log, prev, slot)
    ensures var o := CommitStep(d, os, prev, slot, size);
      Good(o.dir, o.os) && os.log <= o.os.log &&
      o.os.log == os.log + [Mapping(size, o.result)] &&
      (o.result.Some? ==> Fresh(os.log, o.result.value, size) && o.dir.root == d.root.(count := d.root.count + 1))
  {
    CommitReply(d, os, prev, slot, size);
    if Request(os, size).result.None? {
      RefusedCommitGood(d, os, prev, slot, size);
    } else {
      GrantedCommitGood(d, os, prev, slot, size);
    }
  }

  /** Lines 89-105 answer with the data request's reply; a granted one is counted. */
  lemma CommitReply(d: Dir, os: Os, prev: Option<SlotId>, slot: SlotId, size: nat)
    requires Mapped(d.arena, slot)
    ensures var o := CommitStep(d, os, prev, slot, size);
      o.result == Request(os, size).result && o.os == Request(os, size).os &&
      (o.result.Some? ==> o.dir.root == d.root.(count := d.root.count + 1))
  {
  }

  /** A refused data request only logs the refusal. */
  lemma RefusedCommitGood(d: Dir, os: Os, prev: Option<SlotId>, slot: SlotId, size: nat)
    requires Good(d, os) && Mapped(d.arena, slot) && Request(os, size).result.None?
    ensures var o := CommitStep(d, os, prev, slot, size);
      Good(o.dir, o.os) && o.result.None? && o.os.log == os.log + [Mapping(size, None)]
  {
    ExtendWellFormed(d.arena, os.log, Request(os, size).os.log);
  }

  /** A granted data request: the record is committed after the request was logged. */
  lemma GrantedCommitGood(d: Dir, os: Os, prev: Option<SlotId>, slot: SlotId, size: nat)
    requires Good(d, os) && Reserved(d, os.log, prev, slot) && Request(os, size).result.Some?
    ensures Good(CommitStep(d, os, prev, slot, size).dir, CommitStep(d, os, prev, slot, size).os)
  {
    var reply := Request(os, size);
    var rec := BlockRef(reply.result.value, size, None, None);
    CommitGranted(d, os, prev, slot, size);
    GrantedCommitInvariant(d, os.log, reply.os.log, prev, slot, rec);
  }

  /** The state a granted commit leaves. */
  lemma CommitGranted(d: Dir, os: Os, prev: Option<SlotId>, slot: SlotId, size: nat)
    requires Mapped(d.arena, slot) && Request(os, size).result.Some?
    ensures var reply := Request(os, size);
      var o := CommitStep(d, os, prev, slot, size);
      o.os == reply.os && os.log <= reply.os.log &&
      o.dir == Dir(d.root.(count := d.root.count + 1),
                   Write(LinkFrom(d.arena, prev, slot), slot, BlockRef(reply.result.value, size, None, None)), d.freeList)
  {
  }

  /** Lines 92-103 after the data request was logged. */
  lemma GrantedCommitInvariant(d: Dir, log: seq<Mapping>, log': seq<Mapping>, prev: Option<SlotId>, slot: SlotId, rec: BlockRef)
    requires Invariant(d.root, d.arena, log, d.freeList) && Reserved(d, log, prev, slot) && log <= log'
    requires rec.next.None? && rec.nextFree.None?
    ensures Mapped(LinkFrom(d.arena, prev, slot), slot)
    ensures Invariant(d.root.(count := d.root.count + 1), Write(LinkFrom(d.arena, prev, slot), slot, rec), log', d.freeList)
  {
    ExtendWellFormed(d.arena, log, log');
    ReservedExtend(d, log, log', prev, slot);
    CommitInvariant(d.root, d.arena, log', d.freeList, prev, slot, rec);
  }

  /** Later requests leave a reservation in place. */
  lemma ReservedExtend(d: Dir, log: seq<Mapping>, log': seq<Mapping>, prev: Option<SlotId>, slot: SlotId)
    requires WellFormed(d.arena, log) && Reserved(d, log, prev, slot) && log <= log'
    ensures Reserved(d, log', prev, slot)
  {
    ExtendWellFormed(d.arena, log, log');
  }

  /**
   * A granted commit stores the new record in the reserved slot, links `prev` to it, and
   * leaves every other slot as it was.
   */
  lemma CommitWrites(d: Dir, os: Os, prev: Option<SlotId>, slot: SlotId, size: nat)
    requires Good(d, os) && Reserved(d, os.log, prev, slot)
    ensures var o := CommitStep(d, os, prev, slot, size);
      o.result.Some? ==>
        Mapped(o.dir.arena, slot) && Read(o.dir.arena, slot) == BlockRef(o.result.value, size, None, None) &&
        (prev.Some? && prev.value != slot ==>
           Read(o.dir.arena, prev.value) == Read(d.arena, prev.value).(next := Some(slot))) &&
        forall u :: Mapped(d.arena, u) && Some(u) != prev && u != slot ==>
          Mapped(o.dir.arena, u) && Read(o.dir.arena, u) == Read(d.arena, u)
  {
    if Request(os, size).result.Some? {
      CommitGranted(d, os, prev, slot, size);
    }
  }

  /** The growth path keeps the invariant, hands out only non-null regions and leaves the free list alone. */
  lemma GrowthGood(d: Dir, os: Os, size: nat)
    requires Good(d, os)
    ensures var o := Growth(d, os, size);
      Good(o.dir, o.os) && os.log <= o.os.log &&
      (o.result.Some? ==> o.result.value != 0) && o.dir.root.head == d.root.head
  {
    var g1 := FirstBlockStep(d, os);
    FirstBlockGood(d, os);
    if g1.slot.Some? {
      var g2 := ReserveStep(g1.dir, g1.os);
      ReserveGood(g1.dir, g1.os);
      if g2.slot.Some? {
        var o := CommitStep(g2.dir, g2.os, g1.dir.root.last, g2.slot.value, size);
        CommitGood(g2.dir, g2.os, g1.dir.root.last, g2.slot.value, size);
        assert Growth(d, os, size) == o;
      } else {
        assert Growth(d, os, size) == Outcome(None, g2.dir, g2.os);
      }
    } else {
      assert Growth(d, os, size) == Outcome(None, g1.dir, g1.os);
    }
  }

  /**
   * Reuse keeps the invariant and the chain. It hands out the picked record's region, which
   * is non-null, and the picked record and every record listed before it leave the list.
   */
  lemma ReuseGood(d: Dir, os: Os, k: nat)
    requires Good(d, os) && k < |d.freeList|
    ensures var o := Reuse(d, os, k);
      Good(o.dir, o.os) &&
      o.result == Some(Read(d.arena, d.freeList[k]).start) && o.result.value != 0 &&
      o.dir.freeList == d.freeList[k + 1..] &&
      (forall j :: 0 <= j <= k ==> d.freeList[j] !in o.dir.freeList) &&
      o.dir.root == d.root.(head := Read(d.arena, d.freeList[k]).nextFree) &&
      Mapped(o.dir.arena, d.freeList[k]) && Read(o.dir.arena, d.freeList[k]).nextFree.None? &&
      ChainOf(o.dir.root, o.dir.arena, os.log) == ChainOf(d.root, d.arena, os.log) &&
      (Complete(d.root, d.arena, os.log) ==> Complete(o.dir.root, o.dir.arena, os.log))
  {
    TakeInvariant(d.root, d.arena, os.log, d.freeList, k);
  }

  /** `allow_inner` keeps the invariant and returns only non-null regions. */
  lemma AllocationGood(d: Dir, os: Os, size: nat)
    requires Good(d, os)
    ensures var o := Allocation(d, os, size);
      Good(o.dir, o.os) && Answered(os, o.os) && (o.result.Some? ==> o.result.value != 0)
  {
    match FirstFit(d.arena, d.freeList, size)
    case Some(k) => ReuseGood(d, os, k); StepAnswered(os, os, 0);
    case None => GrowthGood(d, os, size); GrowthAnswered(d, os, size);
  }

  /** A step that makes at most one request, of `len` bytes, leaves the provider answered. */
  lemma StepAnswered(os: Os, os': Os, len: nat)
    requires os' == os || os' == Request(os, len).os
    ensures Answered(os, os')
  {
    if os' == os {
      assert os.answers[0..] == os.answers;
    } else {
      RequestAnswered(os, len);
    }
  }

  /** The requests of the growth path are answered by the script, one after the other. */
  lemma GrowthAnswered(d: Dir, os: Os, size: nat)
    requires Good(d, os)
    ensures Answered(os, Growth(d, os, size).os)
  {
    var g1 := FirstBlockStep(d, os);
    StepAnswered(os, g1.os, BLOCK_REF_BLOCK_SIZE);
    if g1.slot.Some? {
      var g2 := ReserveStep(g1.dir, g1.os);
      StepAnswered(g1.os, g2.os, BLOCK_REF_BLOCK_SIZE);
      AnsweredTrans(os, g1.os, g2.os);
      if g2.slot.Some? {
        var o := CommitStep(g2.dir, g2.os, g1.dir.root.last, g2.slot.value, size);
        StepAnswered(g2.os, o.os, size);
        AnsweredTrans(os, g2.os, o.os);
      }
    }
  }

  /**
   * With no `first_block`, the first request of the call is for the first metadata page,
   * which becomes `first_block` (lines 61-69); when it is refused the call fails and
   * nothing changes.
   */
  lemma FirstPageFirst(d: Dir, os: Os, size: nat)
    requires Good(d, os) && d.root.first.None?
    ensures var o := Growth(d, os, size);
      |o.os.log| > |os.log| && o.os.log[|os.log|].len == BLOCK_REF_BLOCK_SIZE &&
      (o.os.log[|os.log|].result.None? ==> o.result.None? && o.dir == d) &&
      (o.result.Some? ==> o.os.log[|os.log|].result.Some? &&
                          o.dir.root.first == Some(SlotId(o.os.log[|os.log|].result.value, 0)))
  {
    var g1 := FirstBlockStep(d, os);
    FirstBlockGood(d, os);
    if g1.slot.Some? {
      var g2 := ReserveStep(g1.dir, g1.os);
      ReserveGood(g1.dir, g1.os);
      if g2.slot.Some? {
        CommitGood(g2.dir, g2.os, g1.dir.root.last, g2.slot.value, size);
      }
    }
  }

  /**
   * A granted growth stores the record of lines 98-103 in the new `last_block`: its start is
   * the returned region, its size the requested one, and both links are empty. The count
   * grows by one and the free list is untouched.
   */
  lemma GrantedGrowthRecord(d: Dir, os: Os, size: nat)
    requires Good(d, os) && Growth(d, os, size).result.Some?
    ensures var o := Growth(d, os, size);
      o.dir.root.count == d.root.count + 1 && o.dir.root.head == d.root.head && o.dir.freeList == d.freeList &&
      o.dir.root.last.Some? && Mapped(o.dir.arena, o.dir.root.last.value) &&
      Read(o.dir.arena, o.dir.root.last.value) == BlockRef(o.result.value, size, None, None)
  {
    var g1 := FirstBlockStep(d, os);
    FirstBlockGood(d, os);
    var g2 := ReserveStep(g1.dir, g1.os);
    ReserveGood(g1.dir, g1.os);
    var slot := g2.slot.value;
    CommitGood(g2.dir, g2.os, g1.dir.root.last, slot, size);
    CommitWrites(g2.dir, g2.os, g1.dir.root.last, slot, size);
  }

  /**
   * While the first page has room, a refused data mapping fails the call after
   * `last_block` has moved to slot `count` (lines 75-76 before line 90); the count, the
   * pages and the free list stay as they were.
   */
  lemma RefusedDataMovesLast(d: Dir, os: Os, size: nat)
    requires Good(d, os) && FirstFit(d.arena, d.freeList, size).None?
    requires d.root.first.Some? && d.root.count < BLOCK_REF_BLOCK_AMOUNT
    requires Request(os, size).result.None?
    ensures var o := Allocation(d, os, size);
      Good(o.dir, o.os) && o.result.None? &&
      o.dir.root == d.root.(last := Some(SlotId(d.root.first.value.page, d.root.count))) &&
      o.dir.arena == d.arena && o.dir.freeList == d.freeList && o.os == Request(os, size).os
  {
    assert FirstBlockStep(d, os) == Grant(d.root.first, d, os);
    var g2 := ReserveStep(d, os);
    ReserveGood(d, os);
    var s := SlotId(d.root.first.value.page, d.root.count);
    assert g2 == Grant(Some(s), d.(root := d.root.(last := Some(s))), os);
    CommitGood(g2.dir, g2.os, d.root.last, s, size);
    assert Allocation(d, os, size) == CommitStep(g2.dir, g2.os, d.root.last, s, size);
  }

  /**
   * Once the first page is full, the new metadata page is linked from `last_block` at
   * line 82, before the data mapping of line 90. When that mapping is refused the call
   * fails, but the chain has already gained the new page's slot 0, which holds no data
   * region: it visits `count + 1` records, and its last one reads as zero.
   */
  lemma RefusedDataLinksPage(d: Dir, os: Os, size: nat)
    requires Good(d, os) && Complete(d.root, d.arena, os.log) && FirstFit(d.arena, d.freeList, size).None?
    requires d.root.first.Some? && d.root.count >= BLOCK_REF_BLOCK_AMOUNT
    requires NewPage(d, os).slot.Some? && Request(NewPage(d, os).os, size).result.None?
    ensures var o := Allocation(d, os, size); var t := NewPage(d, os).slot.value;
      Good(o.dir, o.os) && o.result.None? && o.dir.root == d.root.(last := Some(t)) &&
      Mapped(o.dir.arena, t) && Read(o.dir.arena, t) == ZEROED &&
      ChainOf(o.dir.root, o.dir.arena, o.os.log) == ChainOf(d.root, d.arena, os.log) + [t] &&
      |ChainOf(o.dir.root, o.dir.arena, o.os.log)| == d.root.count + 1
  {
    assert FirstBlockStep(d, os) == Grant(d.root.first, d, os);
    var g2 := ReserveStep(d, os);
    var t := g2.slot.value;
    CompleteTail(d.root, d.arena, os.log);
    PageLinkedShape(d, os);
    PageLinkedChain(d, os);
    var o := CommitStep(g2.dir, g2.os, d.root.last, t, size);
    assert Allocation(d, os, size) == o;
    RefusedCommitGood(g2.dir, g2.os, d.root.last, t, size);
    ExtendLog(g2.dir.root, g2.dir.arena, g2.os.log, o.os.log, d.freeList);
  }

  /** Lines 79-84 once the first page is full: the new page's slot 0 becomes `last_block`. */
  lemma PageLinkedShape(d: Dir, os: Os)
    requires Good(d, os) && d.root.first.Some? && d.root.last.Some?
    requires d.root.count >= BLOCK_REF_BLOCK_AMOUNT && NewPage(d, os).slot.Some?
    ensures var g := ReserveStep(d, os); var t := NewPage(d, os).slot.value;
      Good(g.dir, g.os) && g.slot == Some(t) && g.dir.root == d.root.(last := Some(t)) &&
      g.dir.freeList == d.freeList && Mapped(g.dir.arena, t) && Read(g.dir.arena, t) == ZEROED
  {
    var g := ReserveStep(d, os);
    ReserveGood(d, os);
    ReservePlacement(d, os);
    var n := NewPage(d, os);
    var t, l := n.slot.value, d.root.last.value;
    assert t.page !in d.arena && l.page in d.arena;
    assert g.dir.arena == LinkFrom(n.dir.arena, d.root.last, t);
    assert Read(g.dir.arena, t) == Read(n.dir.arena, t);
  }

  /**
   * Lines 79-84 on a complete chain whose first page is full: the chain gains the new
   * page's slot 0.
   */
  lemma PageLinkedChain(d: Dir, os: Os)
    requires Good(d, os) && Complete(d.root, d.arena, os.log) && d.root.first.Some?
    requires d.root.count >= BLOCK_REF_BLOCK_AMOUNT && NewPage(d, os).slot.Some?
    ensures var g := ReserveStep(d, os);
      Good(g.dir, g.os) && g.slot.Some? &&
      ChainOf(g.dir.root, g.dir.arena, g.os.log) == ChainOf(d.root, d.arena, os.log) + [g.slot.value]
  {
    CompleteTail(d.root, d.arena, os.log);
    var g := ReserveStep(d, os);
    PageLinkedShape(d, os);
    ReserveGood(d, os);
    ReservePlacement(d, os);
    var t := g.slot.value;
    assert !Mapped(d.arena, t) && Read(g.dir.arena, t).next.None?;
    TailLinked(d.root, d.arena, os.log, g.dir.arena, g.os.log, t);
  }

  /** A granted growth appends the new record to a complete chain. */
  lemma GrantedGrowthComplete(d: Dir, os: Os, size: nat)
    requires Good(d, os) && Complete(d.root, d.arena, os.log)
    requires Growth(d, os, size).result.Some?
    ensures var o := Growth(d, os, size); Good(o.dir, o.os) && Complete(o.dir.root, o.dir.arena, o.os.log)
  {
    GrowthGood(d, os, size);
    if d.root.first.None? {
      FirstGrowthComplete(d, os, size);
    } else {
      LaterGrowthComplete(d, os, size);
    }
  }

  /** The first record ever: the chain is slot 0 of the first page alone. */
  lemma FirstGrowthComplete(d: Dir, os: Os, size: nat)
    requires Good(d, os) && d.root.first.None? && Growth(d, os, size).result.Some?
    ensures var o := Growth(d, os, size);
      Walkable(o.dir.root, o.dir.arena, o.os.log) && Complete(o.dir.root, o.dir.arena, o.os.log)
  {
    GrowthGood(d, os, size);
    var g1 := FirstBlockStep(d, os);
    FirstBlockGood(d, os);
    var f := g1.slot.value;
    var g2 := ReserveStep(g1.dir, g1.os);
    assert g2 == Grant(Some(f), g1.dir.(root := g1.dir.root.(last := Some(f))), g1.os);
    var o := CommitStep(g2.dir, g2.os, None, f, size);
    assert Growth(d, os, size) == o;
    ReserveGood(g1.dir, g1.os);
    CommitWrites(g2.dir, g2.os, None, f, size);
    assert ChainOf(o.dir.root, o.dir.arena, o.os.log) == ChainFrom(o.dir.arena, f, o.os.log);
    SingleChain(o.dir.arena, o.os.log, f);
  }

  /** A later record is linked from the old `last_block`, which ends a complete chain. */
  lemma LaterGrowthComplete(d: Dir, os: Os, size: nat)
    requires Good(d, os) && Complete(d.root, d.arena, os.log) && d.root.first.Some?
    requires Growth(d, os, size).result.Some?
    ensures var o := Growth(d, os, size);
      Walkable(o.dir.root, o.dir.arena, o.os.log) && Complete(o.dir.root, o.dir.arena, o.os.log)
  {
    var o := Growth(d, os, size);
    GrowthGood(d, os, size);
    LaterGrowthRoot(d, os, size);
    LaterGrowthLinks(d, os, size);
    LaterGrowthOthers(d, os, size);
    CommitComplete(d.root, d.arena, os.log, o.dir.root, o.dir.arena, o.os.log);
  }

  /** The steps of a later granted growth: the stages it passes through. */
  lemma LaterGrowthSteps(d: Dir, os: Os, size: nat)
    requires Good(d, os) && Complete(d.root, d.arena, os.log) && d.root.first.Some?
    requires Growth(d, os, size).result.Some?
    ensures var g2 := ReserveStep(d, os);
      Good(g2.dir, g2.os) && g2.slot.Some? && Reserved(g2.dir, g2.os.log, d.root.last, g2.slot.value) &&
      Growth(d, os, size) == CommitStep(g2.dir, g2.os, d.root.last, g2.slot.value, size)
  {
    assert FirstBlockStep(d, os) == Grant(d.root.first, d, os);
    ReserveGood(d, os);
  }

  /** A later granted growth counts one more record, now `last_block`, after the old one. */
  lemma LaterGrowthRoot(d: Dir, os: Os, size: nat)
    requires Good(d, os) && Complete(d.root, d.arena, os.log) && d.root.first.Some?
    requires Growth(d, os, size).result.Some?
    ensures var o := Growth(d, os, size);
      o.dir.root.count == d.root.count + 1 && o.dir.root.first == d.root.first && o.dir.root.last.Some? &&
      (d.root.count < BLOCK_REF_BLOCK_AMOUNT ==>
         o.dir.root.last.value == SlotId(d.root.first.value.page, d.root.count)) &&
      d.root.last.Some? && Mapped(d.arena, d.root.last.value) && d.root.last != o.dir.root.last
  {
    CompleteTail(d.root, d.arena, os.log);
    LaterGrowthSteps(d, os, size);
    var g2 := ReserveStep(d, os);
    ReserveGood(d, os);
    ReservePlacement(d, os);
    CommitGood(g2.dir, g2.os, d.root.last, g2.slot.value, size);
  }

  /** In a later granted growth the old `last_block` links to the new one, which ends the chain. */
  lemma LaterGrowthLinks(d: Dir, os: Os, size: nat)
    requires Good(d, os) && Complete(d.root, d.arena, os.log) && d.root.first.Some?
    requires Growth(d, os, size).result.Some?
    ensures var o := Growth(d, os, size);
      o.dir.root.last.Some? && d.root.last.Some? &&
      var t, l := o.dir.root.last.value, d.root.last.value;
      Mapped(o.dir.arena, t) && Read(o.dir.arena, t).next.None? &&
      Mapped(o.dir.arena, l) && Read(o.dir.arena, l).next == Some(t) &&
      Pos(o.os.log, l) < Pos(o.os.log, t)
  {
    LaterGrowthRoot(d, os, size);
    LaterGrowthSteps(d, os, size);
    var g2 := ReserveStep(d, os);
    var t := g2.slot.value;
    var o := CommitStep(g2.dir, g2.os, d.root.last, t, size);
    CommitGood(g2.dir, g2.os, d.root.last, t, size);
    CommitWrites(g2.dir, g2.os, d.root.last, t, size);
    ExtendWellFormed(g2.dir.arena, g2.os.log, o.os.log);
  }

  /** A later granted growth changes no link but the old `last_block`'s and the new record's. */
  lemma LaterGrowthOthers(d: Dir, os: Os, size: nat)
    requires Good(d, os) && Complete(d.root, d.arena, os.log) && d.root.first.Some?
    requires Growth(d, os, size).result.Some?
    ensures var o := Growth(d, os, size);
      forall u :: Mapped(d.arena, u) && Some(u) != d.root.last && Some(u) != o.dir.root.last ==>
        Mapped(o.dir.arena, u) && Read(o.dir.arena, u).next == Read(d.arena, u).next
  {
    LaterGrowthSteps(d, os, size);
    var g2 := ReserveStep(d, os);
    ReserveGood(d, os);
    var t := g2.slot.value;
    var o := CommitStep(g2.dir, g2.os, d.root.last, t, size);
    CommitReply(g2.dir, g2.os, d.root.last, t, size);
    CommitWrites(g2.dir, g2.os, d.root.last, t, size);
    assert o.dir.root.last == Some(t);
    forall u | Mapped(d.arena, u) && Some(u) != d.root.last && Some(u) != o.dir.root.last
      ensures Mapped(o.dir.arena, u) && Read(o.dir.arena, u).next == Read(d.arena, u).next
    {
      assert Mapped(g2.dir.arena, u) && Read(g2.dir.arena, u) == Read(d.arena, u);
      assert Read(o.dir.arena, u) == Read(g2.dir.arena, u);
    }
  }

  /**
   * A refused growth that leaves `last_block` in place leaves the directory as it was; the
   * one request it made was the refused request for a metadata page.
   */
  lemma RefusedGrowthUnchanged(d: Dir, os: Os, size: nat)
    requires Good(d, os) && Complete(d.root, d.arena, os.log)
    requires Growth(d, os, size).result.None? && Growth(d, os, size).dir.root.last == d.root.last
    ensures Growth(d, os, size).dir == d
    ensures Request(os, BLOCK_REF_BLOCK_SIZE).result.None? && Growth(d, os, size).os == Request(os, BLOCK_REF_BLOCK_SIZE).os
  {
    if d.root.first.Some? {
      CompleteTail(d.root, d.arena, os.log);
    }
    var g1 := FirstBlockStep(d, os);
    FirstBlockGood(d, os);
    if g1.slot.None? {
      return;
    }
    var g2 := ReserveStep(g1.dir, g1.os);
    ReserveGood(g1.dir, g1.os);
    if g2.slot.None? {
      return;
    }
    assert false;
  }

  /**
   * Growth keeps the chain complete whenever it either succeeds or leaves `last_block`
   * where it was; only a data mapping refused after the reservation breaks it.
   */
  lemma GrowthComplete(d: Dir, os: Os, size: nat)
    requires Good(d, os) && Complete(d.root, d.arena, os.log)
    ensures var o := Growth(d, os, size);
      Good(o.dir, o.os) &&
      (o.result.Some? || o.dir.root.last == d.root.last ==> Complete(o.dir.root, o.dir.arena, o.os.log))
  {
    var o := Growth(d, os, size);
    GrowthGood(d, os, size);
    if o.result.Some? {
      GrantedGrowthComplete(d, os, size);
    } else if o.dir.root.last == d.root.last {
      RefusedGrowthUnchanged(d, os, size);
      ExtendLog(d.root, d.arena, os.log, o.os.log, d.freeList);
    }
  }

  /** An allocation keeps the chain complete unless a refused data mapping left `last_block` moved. */
  lemma AllocationComplete(d: Dir, os: Os, size: nat)
    requires Good(d, os) && Complete(d.root, d.arena, os.log)
    ensures var o := Allocation(d, os, size);
      Good(o.dir, o.os) &&
      (o.result.Some? || o.dir.root.last == d.root.last ==> Complete(o.dir.root, o.dir.arena, o.os.log))
  {
    match FirstFit(d.arena, d.freeList, size)
    case Some(k) => ReuseGood(d, os, k);
    case None => GrowthGood(d, os, size); GrowthComplete(d, os, size);
  }

  /**
   * A region handed out by growth was mapped for exactly the requested size by the last
   * request of the call, and its pages overlap no region the provider granted before it,
   * in this call or earlier.
   */
  lemma GrowthFresh(d: Dir, os: Os, size: nat)
    requires Good(d, os)
    ensures var o := Growth(d, os, size);
      os.log <= o.os.log &&
      (o.result.Some? ==>
         0 < |o.os.log| && o.os.log[|o.os.log| - 1] == Mapping(size, o.result) &&
         Fresh(o.os.log[..|o.os.log| - 1], o.result.value, size))
  {
    var o := Growth(d, os, size);
    GrowthGood(d, os, size);
    var g1 := FirstBlockStep(d, os);
    if o.result.Some? && g1.slot.Some? {
      FirstBlockGood(d, os);
      var g2 := ReserveStep(g1.dir, g1.os);
      if g2.slot.Some? {
        CommitReply(g2.dir, g2.os, g1.dir.root.last, g2.slot.value, size);
        assert o == CommitStep(g2.dir, g2.os, g1.dir.root.last, g2.slot.value, size);
        var log := g2.os.log;
        assert o.os.log == log + [Mapping(size, o.result)] && Fresh(log, o.result.value, size);
        assert o.os.log[..|log|] == log;
      }
    }
  }

  /**
   * Nothing ever lists a record while `dealloc` returns at once: the root starts with an empty
   * free list (line 143), and an allocation on an empty list grows and leaves it empty. So every
   * region `allow_inner` hands out was mapped for exactly the requested size by the call's last
   * request, and overlaps no region granted before it.
   */
  lemma EmptyListAllocation(d: Dir, os: Os, size: nat)
    requires Good(d, os) && d.freeList == []
    ensures var o := Allocation(d, os, size);
      Good(o.dir, o.os) && o.dir.freeList == [] && o.dir.root.head.None? &&
      (o.result.Some? ==>
         0 < |o.os.log| && o.os.log[|o.os.log| - 1] == Mapping(size, o.result) &&
         Fresh(o.os.log[..|o.os.log| - 1], o.result.value, size))
  {
    assert FirstFit(d.arena, d.freeList, size).None?;
    assert Allocation(d, os, size) == Growth(d, os, size);
    GrowthGood(d, os, size);
    GrowthFresh(d, os, size);
  }

  /** `last_block` is set whenever `first_block` is. */
  ghost predicate TailSet(d: Dir) {
    d.root.first.Some? ==> d.root.last.Some?
  }

  /**
   * Allocation keeps `last_block` set once `first_block` is: a new first page is followed
   * at once by lines 75-76, which set `last_block`, and no step clears it.
   */
  lemma AllocationKeepsTail(d: Dir, os: Os, size: nat)
    requires Good(d, os) && TailSet(d)
    ensures TailSet(Allocation(d, os, size).dir)
  {
    match FirstFit(d.arena, d.freeList, size)
    case Some(k) =>
      assert Allocation(d, os, size).dir.root == d.root.(head := Read(d.arena, d.freeList[k]).nextFree);
    case None =>
      GrowthKeepsTail(d, os, size);
  }

  /** The growth path keeps `last_block` set once `first_block` is. */
  lemma GrowthKeepsTail(d: Dir, os: Os, size: nat)
    requires Good(d, os) && TailSet(d)
    ensures TailSet(Growth(d, os, size).dir)
  {
    var g1 := FirstBlockStep(d, os);
    FirstBlockGood(d, os);
    if g1.slot.Some? {
      var g2 := ReserveStep(g1.dir, g1.os);
      ReserveGood(g1.dir, g1.os);
      if g2.slot.Some? {
        var o := CommitStep(g2.dir, g2.os, g1.dir.root.last, g2.slot.value, size);
        CommitReply(g2.dir, g2.os, g1.dir.root.last, g2.slot.value, size);
        assert Growth(d, os, size) == o;
        assert o.dir.root.last == Some(g2.slot.value);
      } else if d.root.first.Some? {
        assert g1 == Grant(d.root.first, d, os) && g2.dir == d;
      }
    }
  }

  /** The `dealloc` scan touches only the free list and so keeps `last_block` set. */
  lemma DeallocKeepsTail(d: Dir, os: Os, ptr: Addr)
    requires Good(d, os) && TailSet(d)
    ensures TailSet(DeallocWalk(d, os, ptr).dir)
  {
  }

  /**
   * With `last_block` set, the `root.last_block?` exit of line 80 is never taken: past
   * the first page, a slot is reserved exactly when the new metadata page is granted.
   */
  lemma TailExitUnreachable(d: Dir, os: Os)
    requires Good(d, os) && TailSet(d) && d.root.first.Some? && d.root.count >= BLOCK_REF_BLOCK_AMOUNT
    ensures ReserveStep(d, os).slot.Some? <==> NewPage(d, os).slot.Some?
  {
  }

  /** What the unreachable part of `dealloc` ends in: a release, or the report and abort of lines 134-135. */
  datatype DeallocOutcome = Released | InvalidPointer

  datatype Release = Release(outcome: DeallocOutcome, dir: Dir)

  /**
   * Lines 119-135: the chain is walked from `first_block`; the first record whose data
   * region starts at `ptr` is pushed onto the free list.
   */
  ghost function DeallocWalk(d: Dir, os: Os, ptr: Addr): (r: Release)
    requires Good(d, os)
    ensures r.outcome == InvalidPointer <==> FindStart(d.arena, ChainOf(d.root, d.arena, os.log), ptr).None?
    ensures r.outcome == InvalidPointer ==> r.dir == d
  {
    var c := ChainOf(d.root, d.arena, os.log);
    match FindStart(d.arena, c, ptr)
    case None => Release(InvalidPointer, d)
    case Some(k) =>
      var s := c[k];
      Release(Released, Dir(d.root.(head := Some(s)), Write(d.arena, s, Read(d.arena, s).(nextFree := d.root.head)),
                            [s] + d.freeList))
  }

  /** The record `dealloc` would release for `ptr` is not already on the free list. */
  ghost predicate NotListed(d: Dir, os: Os, ptr: Addr)
    requires Good(d, os)
  {
    var c := ChainOf(d.root, d.arena, os.log);
    match FindStart(d.arena, c, ptr)
    case None => true
    case Some(k) => c[k] !in d.freeList
  }

  /**
   * The `dealloc` scan keeps the invariant and the chain when the released record is not
   * already free; a released record heads the free list and its region starts at `ptr`.
   */
  lemma DeallocPreserves(d: Dir, os: Os, ptr: Addr)
    requires Good(d, os) && ptr != 0 && NotListed(d, os, ptr)
    ensures var r := DeallocWalk(d, os, ptr);
      Good(r.dir, os) &&
      ChainOf(r.dir.root, r.dir.arena, os.log) == ChainOf(d.root, d.arena, os.log) &&
      (Complete(d.root, d.arena, os.log) ==> Complete(r.dir.root, r.dir.arena, os.log)) &&
      (r.outcome == Released ==>
         r.dir.freeList != [] && r.dir.freeList[1..] == d.freeList &&
         Read(r.dir.arena, r.dir.freeList[0]).start == ptr &&
         Read(r.dir.arena, r.dir.freeList[0]).size == Read(d.arena, r.dir.freeList[0]).size)
  {
    var c := ChainOf(d.root, d.arena, os.log);
    match FindStart(d.arena, c, ptr)
    case None =>
    case Some(k) =>
      PushInvariant(d.root, d.arena, os.log, d.freeList, c[k]);
      assert ([c[k]] + d.freeList)[1..] == d.freeList;
  }

  /**
   * Releasing a region whose record is already on the free list pushes that record a
   * second time. The scan has no test for this case and does not abort: the record's link
   * now points back into the list that already holds it, so the links form a cycle that no
   * list of distinct records follows, and the invariant is lost.
   */
  lemma DoubleReleaseBreaksList(d: Dir, os: Os, ptr: Addr)
    requires Good(d, os) && !NotListed(d, os, ptr)
    ensures var r := DeallocWalk(d, os, ptr);
      r.outcome == Released && !Good(r.dir, os) &&
      forall l :: !FreeListed(r.dir.arena, r.dir.root.head, l)
  {
    var c := ChainOf(d.root, d.arena, os.log);
    var k := FindStart(d.arena, c, ptr).value;
    var s := c[k];
    var r := DeallocWalk(d, os, ptr);
    var i :| 0 <= i < |d.freeList| && d.freeList[i] == s;
    forall l ensures !FreeListed(r.dir.arena, r.dir.root.head, l) {
      if FreeListed(r.dir.arena, r.dir.root.head, l) {
        PushedTwice(d.arena, d.root.head, d.freeList, i, l, i);
      }
    }
  }

  /**
   * After the `i`-th listed record is pushed again, a free list read from the new head
   * runs through the old list: its entry `j + 1` is the old entry `j`, up to `j == i`.
   */
  lemma {:induction false} PushedTwice(arena: Arena, head: Option<SlotId>, list: seq<SlotId>, i: nat,
                                       l: seq<SlotId>, j: nat)
    requires FreeListed(arena, head, list) && i < |list| && j <= i
    requires FreeListed(Write(arena, list[i], Read(arena, list[i]).(nextFree := head)), Some(list[i]), l)
    ensures j + 1 < |l| && l[j + 1] == list[j]
    decreases j
  {
    var a' := Write(arena, list[i], Read(arena, list[i]).(nextFree := head));
    if j == 0 {
      assert l[0] == list[i] && Read(a', l[0]).nextFree == head == Some(list[0]);
    } else {
      PushedTwice(arena, head, list, i, l, j - 1);
      assert l[j] == list[j - 1] != list[i];
      assert Read(a', l[j]) == Read(arena, list[j - 1]);
      assert Read(arena, list[j - 1]).nextFree == Some(list[j]);
    }
  }

  /**
   * Releasing `ptr` and then asking for at least the released record's size hands `ptr`
   * out again: the released record heads the free list, and the scan looks there first.
   */
  lemma ReleaseThenReuse(d: Dir, os: Os, ptr: Addr, size: nat)
    requires Good(d, os) && ptr != 0 && NotListed(d, os, ptr)
    requires DeallocWalk(d, os, ptr).outcome == Released
    requires var r := DeallocWalk(d, os, ptr); Read(r.dir.arena, r.dir.freeList[0]).size <= size
    ensures var r := DeallocWalk(d, os, ptr); Good(r.dir, os) && Allocation(r.dir, os, size).result == Some(ptr)
  {
    DeallocPreserves(d, os, ptr);
  }

  /** The first allocation from an empty directory maps the first page and fills its slot 0. */
  lemma FirstAllocation(d: Dir, os: Os, size: nat)
    requires Good(d, os) && d.root == Root(None, None, 0, None) && d.freeList == []
    requires NewPage(d, os).slot.Some? && Request(NewPage(d, os).os, size).result.Some?
    ensures var o := Allocation(d, os, size); var f := NewPage(d, os).slot.value;
      Good(o.dir, o.os) && o.result == Request(NewPage(d, os).os, size).result &&
      o.dir.root == Root(Some(f), Some(f), 1, None) && o.dir.freeList == [] &&
      o.os == Request(NewPage(d, os).os, size).os &&
      Mapped(o.dir.arena, f) && Read(o.dir.arena, f) == BlockRef(o.result.value, size, None, None)
  {
    AllocationGood(d, os, size);
    var f := NewPage(d, os).slot.value;
    var g1 := FirstBlockStep(d, os);
    FirstBlockGood(d, os);
    assert g1.slot == Some(f) && g1.dir.root == Root(Some(f), None, 0, None) && g1.os == NewPage(d, os).os;
    var g2 := ReserveStep(g1.dir, g1.os);
    ReserveGood(g1.dir, g1.os);
    assert g2.slot == Some(f) && g2.dir.root == Root(Some(f), Some(f), 0, None) && g2.os == g1.os;
    assert Allocation(d, os, size) == CommitStep(g2.dir, g2.os, None, f, size);
    CommitGood(g2.dir, g2.os, None, f, size);
    CommitWrites(g2.dir, g2.os, None, f, size);
  }

  /**
   * With `last_block` already at the slot being filled, `prev_last_block` is that slot, so
   * line 95 links the new record to itself and the record before it keeps `next == None`.
   */
  lemma SelfLinkedCommit(d: Dir, os: Os, size: nat)
    requires Good(d, os) && d.freeList == [] && d.root.first.Some? && d.root.count == 1
    requires d.root.last == Some(SlotId(d.root.first.value.page, 1))
    requires Read(d.arena, d.root.first.value).next.None?
    requires Request(os, size).result.Some?
    ensures var o := Allocation(d, os, size);
      Good(o.dir, o.os) && o.result.Some? && o.dir.root.count == 2 &&
      ChainOf(o.dir.root, o.dir.arena, o.os.log) == [d.root.first.value]
  {
    var f := d.root.first.value;
    var s1 := SlotId(f.page, 1);
    assert FirstBlockStep(d, os) == Grant(d.root.first, d, os);
    var g2 := ReserveStep(d, os);
    ReserveGood(d, os);
    assert g2 == Grant(Some(s1), d, os);
    var o := CommitStep(d, os, Some(s1), s1, size);
    assert Allocation(d, os, size) == o;
    CommitGood(d, os, Some(s1), s1, size);
    CommitWrites(d, os, Some(s1), s1, size);
    assert Read(o.dir.arena, f) == Read(d.arena, f);
    assert ChainFrom(o.dir.arena, f, o.os.log) == [f];
  }

  /**
   * The order of lines 75-76 and 90 as written: when the data mapping of the second
   * allocation is refused, `last_block` has already moved to slot 1, so the third
   * allocation links slot 1 to itself instead of linking slot 0 to slot 1. The count
   * is then 2 while the chain from `first_block` holds only slot 0. The system here
   * places the metadata page above both data regions.
   */
  lemma RefusedDataTruncatesChain(d0: Dir, os0: Os)
    requires d0 == Dir(Root(None, None, 0, None), map[], [])
    requires os0 == Os([Some(3 * PAGE_SIZE), Some(PAGE_SIZE), None, Some(2 * PAGE_SIZE)], [])
    ensures Good(d0, os0) &&
      var a1 := Allocation(d0, os0, 8);
      Good(a1.dir, a1.os) &&
      var a2 := Allocation(a1.dir, a1.os, 8);
      Good(a2.dir, a2.os) &&
      var a3 := Allocation(a2.dir, a2.os, 8);
      Good(a3.dir, a3.os) &&
      a1.result == Some(PAGE_SIZE) && a2.result.None? && a3.result == Some(2 * PAGE_SIZE) &&
      a3.dir.root.count == 2 &&
      ChainOf(a3.dir.root, a3.dir.arena, a3.os.log) == [SlotId(3 * PAGE_SIZE, 0)]
  {
    assert BLOCK_REF_BLOCK_AMOUNT == 128;
    assert Good(d0, os0);
    var a1 := Allocation(d0, os0, 8);
    FirstAllocation(d0, os0, 8);
    var a2 := Allocation(a1.dir, a1.os, 8);
    RefusedDataMovesLast(a1.dir, a1.os, 8);
    SelfLinkedCommit(a2.dir, a2.os, 8);
  }
}
