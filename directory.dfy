/**
 * The directory's state as a value: the four fields of `RootNode` (src/lib.rs:146-151),
 * the invariant the allocation path keeps, the completeness of the block chain, and one
 * lemma per step of `allow_inner` (src/lib.rs:35-106) and of the `dealloc` scan
 * (src/lib.rs:119-135) saying what that step preserves.
 */
module Directory {
  import opened Wrappers
  import opened Pages
  import opened BlockRefs

  datatype Root = Root(first: Option<SlotId>, last: Option<SlotId>, count: nat, head: Option<SlotId>)

  /** Every mapped record whose data region is set and that lies in the first page was committed. */
  ghost predicate Committed(arena: Arena, firstPage: Addr, count: nat) {
    forall s :: Mapped(arena, s) && Read(arena, s).start != 0 && s.page == firstPage ==> s.index < count
  }

  /** The root's pointers sit in mapped slots, where the allocation path leaves them. */
  ghost predicate RootShape(root: Root, arena: Arena) {
    (root.first.None? ==> arena == map[] && root.last.None? && root.count == 0) &&
    (root.first.Some? ==> root.first.value.index == 0 && Mapped(arena, root.first.value)) &&
    (root.last.Some? ==> Mapped(arena, root.last.value)) &&
    // while the first page is not full, `last_block` is its slot `count - 1` or `count`
    (root.count < BLOCK_REF_BLOCK_AMOUNT && root.last.Some? ==>
       root.first.Some? && root.last.value.page == root.first.value.page &&
       root.last.value.index <= root.count <= root.last.value.index + 1)
  }

  /** The free list is well linked and holds only records with a data region. */
  ghost predicate FreeOk(arena: Arena, head: Option<SlotId>, freeList: seq<SlotId>) {
    FreeListed(arena, head, freeList) &&
    forall k :: 0 <= k < |freeList| ==> Read(arena, freeList[k]).start != 0
  }

  /**
   * What holds of the directory between any two steps of the allocation path, including
   * after a data mapping was refused.
   */
  ghost predicate Invariant(root: Root, arena: Arena, log: seq<Mapping>, freeList: seq<SlotId>) {
    WellFormed(arena, log) &&
    RootShape(root, arena) &&
    (root.first.Some? ==> Committed(arena, root.first.value.page, root.count)) &&
    FreeOk(arena, root.head, freeList)
  }

  /** The same pages, and in every slot the same data region and free-list link. */
  ghost predicate SameData(arena: Arena, arena': Arena) {
    arena'.Keys == arena.Keys &&
    (forall p :: p in arena ==> |arena'[p]| == |arena[p]|) &&
    forall u :: Mapped(arena, u) ==>
      Read(arena', u).start == Read(arena, u).start && Read(arena', u).nextFree == Read(arena, u).nextFree
  }

  /** Changing only `next` links keeps everything but well-formedness of the invariant. */
  lemma SameDataInvariant(root: Root, arena: Arena, arena': Arena, log: seq<Mapping>, freeList: seq<SlotId>)
    requires Invariant(root, arena, log, freeList) && SameData(arena, arena') && WellFormed(arena', log)
    ensures Invariant(root, arena', log, freeList)
  {
    assert forall u :: Mapped(arena', u) <==> Mapped(arena, u);
    assert RootShape(root, arena');
    if root.first.Some? {
      assert Committed(arena', root.first.value.page, root.count);
    }
    assert FreeListed(arena', root.head, freeList);
  }

  ghost predicate Walkable(root: Root, arena: Arena, log: seq<Mapping>) {
    WellFormed(arena, log) && (root.first.Some? ==> Mapped(arena, root.first.value))
  }

  /** The block chain: the records met walking `next` from `first_block`. */
  ghost function ChainOf(root: Root, arena: Arena, log: seq<Mapping>): (c: seq<SlotId>)
    requires Walkable(root, arena, log)
    ensures forall j :: 0 <= j < |c| ==> Mapped(arena, c[j])
    ensures root.first.Some? <==> c != []
  {
    if root.first.None? then []
    else
      ChainShape(arena, root.first.value, log);
      ChainFrom(arena, root.first.value, log)
  }

  /**
   * The chain is complete: from `first_block` it visits `count` records and ends at
   * `last_block`, and while the first page is not full its records are its slots in order.
   */
  ghost predicate Complete(root: Root, arena: Arena, log: seq<Mapping>)
    requires Walkable(root, arena, log)
  {
    var c := ChainOf(root, arena, log);
    |c| == root.count &&
    (root.count > 0 ==> root.last == Some(c[root.count - 1])) &&
    (0 < root.count <= BLOCK_REF_BLOCK_AMOUNT ==>
       root.first.Some? && root.last == Some(SlotId(root.first.value.page, root.count - 1)))
  }

  /** A complete chain with a first block is not empty, and its tail is where the count says. */
  lemma CompleteTail(root: Root, arena: Arena, log: seq<Mapping>)
    requires Walkable(root, arena, log) && Complete(root, arena, log) && root.first.Some?
    ensures root.count > 0 && root.last.Some?
    ensures root.count <= BLOCK_REF_BLOCK_AMOUNT ==> root.last == Some(SlotId(root.first.value.page, root.count - 1))
  {
  }

  /** `prev.next = Some(slot)` when there is a `prev` (src/lib.rs:82 and 94-96). */
  function LinkFrom(arena: Arena, prev: Option<SlotId>, slot: SlotId): (a: Arena)
    ensures a.Keys == arena.Keys
    ensures forall p :: p in arena ==> |a[p]| == |arena[p]|
    ensures forall u :: Mapped(arena, u) && Some(u) != prev ==> Read(a, u) == Read(arena, u)
    ensures prev.Some? && Mapped(arena, prev.value) ==>
      Read(a, prev.value) == Read(arena, prev.value).(next := Some(slot))
  {
    if prev.Some? && Mapped(arena, prev.value) then
      Write(arena, prev.value, Read(arena, prev.value).(next := Some(slot)))
    else arena
  }

  /** Later requests keep the invariant and the chain. */
  lemma ExtendLog(root: Root, arena: Arena, log: seq<Mapping>, log': seq<Mapping>, freeList: seq<SlotId>)
    requires Invariant(root, arena, log, freeList) && log <= log'
    ensures Invariant(root, arena, log', freeList)
    ensures ChainOf(root, arena, log') == ChainOf(root, arena, log)
    ensures Complete(root, arena, log) ==> Complete(root, arena, log')
  {
    ExtendWellFormed(arena, log, log');
    if root.first.Some? {
      ChainSameLinks(arena, arena, log, log', root.first.value);
    }
  }

  /**
   * Lines 47-49: the head becomes the `k`-th listed record's successor and that record's
   * own link is cleared; its data region is set, so `NonNull::new` gives Some.
   */
  lemma TakeInvariant(root: Root, arena: Arena, log: seq<Mapping>, freeList: seq<SlotId>, k: nat)
    requires Invariant(root, arena, log, freeList) && k < |freeList|
    ensures var rec := Read(arena, freeList[k]);
      var arena' := Write(arena, freeList[k], rec.(nextFree := None));
      var root' := root.(head := rec.nextFree);
      rec.start != 0 &&
      Invariant(root', arena', log, freeList[k + 1..]) &&
      ChainOf(root', arena', log) == ChainOf(root, arena, log) &&
      (Complete(root, arena, log) ==> Complete(root', arena', log))
  {
    var s := freeList[k];
    var rec := Read(arena, s);
    var arena' := Write(arena, s, rec.(nextFree := None));
    var root' := root.(head := rec.nextFree);
    TakeListed(arena, root.head, freeList, k);
    WriteWellFormed(arena, log, s, rec.(nextFree := None));
    var rest := freeList[k + 1..];
    forall j | 0 <= j < |rest| ensures Read(arena', rest[j]).start != 0 {
      assert rest[j] == freeList[k + 1 + j];
    }
    assert SameLinks(arena, arena');
    if root.first.Some? {
      ChainSameLinks(arena, arena', log, log, root.first.value);
    }
  }

  /**
   * Lines 126-127 of the `dealloc` scan: a chain record with a data region that is not on
   * the free list is pushed onto its head.
   */
  lemma PushInvariant(root: Root, arena: Arena, log: seq<Mapping>, freeList: seq<SlotId>, s: SlotId)
    requires Invariant(root, arena, log, freeList) && Mapped(arena, s)
    requires Read(arena, s).start != 0 && s !in freeList
    ensures var arena' := Write(arena, s, Read(arena, s).(nextFree := root.head));
      var root' := root.(head := Some(s));
      Invariant(root', arena', log, [s] + freeList) &&
      ChainOf(root', arena', log) == ChainOf(root, arena, log) &&
      (Complete(root, arena, log) ==> Complete(root', arena', log))
  {
    var arena' := Write(arena, s, Read(arena, s).(nextFree := root.head));
    PushShape(root, arena, log, freeList, s);
    LinksKeepChain(root, arena, arena', log, root.(head := Some(s)));
  }

  /** Pushing `s` keeps the invariant, with `s` at the head of the free list, and every link. */
  lemma PushShape(root: Root, arena: Arena, log: seq<Mapping>, freeList: seq<SlotId>, s: SlotId)
    requires Invariant(root, arena, log, freeList) && Mapped(arena, s)
    requires Read(arena, s).start != 0 && s !in freeList
    ensures var arena' := Write(arena, s, Read(arena, s).(nextFree := root.head));
      Invariant(root.(head := Some(s)), arena', log, [s] + freeList) && SameLinks(arena, arena')
  {
    var arena' := Write(arena, s, Read(arena, s).(nextFree := root.head));
    var root' := root.(head := Some(s));
    PushListed(arena, root.head, freeList, s);
    WriteWellFormed(arena, log, s, Read(arena, s).(nextFree := root.head));
    var list' := [s] + freeList;
    forall j | 0 <= j < |list'| ensures Read(arena', list'[j]).start != 0 {
      if j > 0 { assert list'[j] == freeList[j - 1]; }
    }
    assert FreeOk(arena', root'.head, list');
    assert forall u :: Mapped(arena', u) <==> Mapped(arena, u);
    assert RootShape(root', arena');
    if root.first.Some? {
      assert Committed(arena', root.first.value.page, root.count);
    }
  }

  /**
   * A change that keeps every `next` link and the root's chain fields keeps the chain and
   * its completeness.
   */
  lemma LinksKeepChain(root: Root, arena: Arena, arena': Arena, log: seq<Mapping>, root': Root)
    requires Walkable(root, arena, log) && WellFormed(arena', log) && SameLinks(arena, arena')
    requires root'.first == root.first && root'.last == root.last && root'.count == root.count
    ensures Walkable(root', arena', log)
    ensures ChainOf(root', arena', log) == ChainOf(root, arena, log)
    ensures Complete(root, arena, log) ==> Complete(root', arena', log)
  {
    if root.first.Some? {
      ChainSameLinks(arena, arena', log, log, root.first.value);
    }
  }

  /**
   * A page granted by the first request after `log` (its rank in `log'` is `|log|`) is not
   * a metadata page yet, and every metadata page keeps its rank.
   */
  lemma NewPageRank(arena: Arena, log: seq<Mapping>, log': seq<Mapping>, p: Addr)
    requires WellFormed(arena, log) && log <= log' && Rank(log', p) == |log|
    ensures p !in arena
    ensures forall q :: q in arena ==> Rank(log', q) == Rank(log, q) < |log|
  {
    forall q | q in arena ensures Rank(log', q) == Rank(log, q) < |log| {
      RankPrefix(log, log', q);
    }
  }

  /** Lines 63-65: with no first block, a fresh page becomes the first metadata page. */
  lemma FirstPageInvariant(root: Root, arena: Arena, log: seq<Mapping>, log': seq<Mapping>, freeList: seq<SlotId>, p: Addr)
    requires Invariant(root, arena, log, freeList) && root.first.None?
    requires 0 < p && Rank(log', p) < |log'|
    ensures Invariant(root.(first := Some(SlotId(p, 0))), map[p := ZeroPage()], log', freeList)
  {
    assert WellFormed(map[], log');
    AddPageWellFormed(map[], log', p);
  }

  /** Line 79: a fresh page joins the arena; nothing refers to it yet. */
  lemma PageInvariant(root: Root, arena: Arena, log: seq<Mapping>, log': seq<Mapping>, freeList: seq<SlotId>, p: Addr)
    requires Invariant(root, arena, log, freeList) && root.first.Some?
    requires log <= log' && |log| < |log'| && 0 < p && Rank(log', p) == |log|
    ensures p !in arena
    ensures Invariant(root, arena[p := ZeroPage()], log', freeList)
    ensures ChainOf(root, arena[p := ZeroPage()], log') == ChainOf(root, arena, log)
  {
    var arena' := arena[p := ZeroPage()];
    NewPageRank(arena, log, log', p);
    ExtendLog(root, arena, log, log', freeList);
    AddPageWellFormed(arena, log', p);
    assert forall s :: Mapped(arena, s) ==> Read(arena', s) == Read(arena, s);
    assert forall s :: Mapped(arena', s) && s.page == p ==> Read(arena', s) == ZEROED;
    ChainSameLinks(arena, arena', log', log', root.first.value);
  }

  /** Lines 75-76: while the first page is not full, `last_block` becomes its slot `count`. */
  lemma ReserveInvariant(root: Root, arena: Arena, log: seq<Mapping>, freeList: seq<SlotId>)
    requires Invariant(root, arena, log, freeList) && root.first.Some?
    requires root.count < BLOCK_REF_BLOCK_AMOUNT
    ensures Invariant(root.(last := Some(SlotId(root.first.value.page, root.count))), arena, log, freeList)
  {
  }

  /**
   * Lines 79-84: once the first page is full, a fresh page joins the arena and
   * `last_block.next` is linked to its first slot, which becomes `last_block`.
   */
  lemma LinkPageInvariant(root: Root, arena: Arena, log: seq<Mapping>, log': seq<Mapping>, freeList: seq<SlotId>, p: Addr)
    requires Invariant(root, arena, log, freeList) && root.first.Some? && root.last.Some?
    requires root.count >= BLOCK_REF_BLOCK_AMOUNT
    requires log <= log' && |log| < |log'| && 0 < p && Rank(log', p) == |log|
    ensures Mapped(arena[p := ZeroPage()], SlotId(p, 0))
    ensures Pos(log', root.last.value) < Pos(log', SlotId(p, 0))
    ensures Invariant(root.(last := Some(SlotId(p, 0))),
                      LinkFrom(arena[p := ZeroPage()], root.last, SlotId(p, 0)), log', freeList)
  {
    var l, t := root.last.value, SlotId(p, 0);
    var grown := arena[p := ZeroPage()];
    PageInvariant(root, arena, log, log', freeList, p);
    NewPageRank(arena, log, log', p);
    PosOrder(log', l, t);
    var arena' := LinkFrom(grown, root.last, t);
    WriteWellFormed(grown, log', l, Read(grown, l).(next := Some(t)));
    assert SameData(grown, arena');
    SameDataInvariant(root, grown, arena', log', freeList);
    assert RootShape(root.(last := Some(t)), arena');
  }

  /**
   * Lines 92-103: the count grows by one, the previous `last_block` (when there is one and it
   * is another slot) is linked to the reserved slot, and the reserved slot, which no record
   * occupied, receives the new record.
   */
  lemma CommitInvariant(root: Root, arena: Arena, log: seq<Mapping>, freeList: seq<SlotId>,
                        prev: Option<SlotId>, slot: SlotId, rec: BlockRef)
    requires Invariant(root, arena, log, freeList) && root.first.Some? && root.last == Some(slot)
    requires rec.next.None? && rec.nextFree.None?
    requires Read(arena, slot).start == 0
    requires root.count < BLOCK_REF_BLOCK_AMOUNT ==> slot == SlotId(root.first.value.page, root.count)
    requires root.count >= BLOCK_REF_BLOCK_AMOUNT ==> slot.page != root.first.value.page
    requires prev.Some? ==> Mapped(arena, prev.value) && (prev.value == slot || Pos(log, prev.value) < Pos(log, slot))
    ensures Mapped(LinkFrom(arena, prev, slot), slot)
    ensures Invariant(root.(count := root.count + 1), Write(LinkFrom(arena, prev, slot), slot, rec), log, freeList)
  {
    var linked := LinkFrom(arena, prev, slot);
    var arena' := Write(linked, slot, rec);
    var root' := root.(count := root.count + 1);
    // the arena the record is written into, once the link from `prev` is in place
    var base := arena;
    if prev.Some? && prev.value != slot {
      WriteWellFormed(arena, log, prev.value, Read(arena, prev.value).(next := Some(slot)));
      assert SameData(arena, linked);
      SameDataInvariant(root, arena, linked, log, freeList);
      base := linked;
    } else if prev.Some? {
      // a link from the reserved slot to itself is overwritten by the record at once
      WriteTwice(arena, slot, Read(arena, slot).(next := Some(slot)), rec);
    }
    assert arena' == Write(base, slot, rec);
    assert Invariant(root, base, log, freeList) && Read(base, slot).start == 0;
    StoreInvariant(root, base, log, freeList, slot, rec);
  }

  /** Line 103: the reserved slot, which no record occupied, receives the new record, and it is counted. */
  lemma StoreInvariant(root: Root, arena: Arena, log: seq<Mapping>, freeList: seq<SlotId>, slot: SlotId, rec: BlockRef)
    requires Invariant(root, arena, log, freeList) && root.first.Some? && root.last == Some(slot)
    requires rec.next.None? && rec.nextFree.None? && Read(arena, slot).start == 0
    requires root.count < BLOCK_REF_BLOCK_AMOUNT ==> slot == SlotId(root.first.value.page, root.count)
    requires root.count >= BLOCK_REF_BLOCK_AMOUNT ==> slot.page != root.first.value.page
    ensures Invariant(root.(count := root.count + 1), Write(arena, slot, rec), log, freeList)
  {
    var arena' := Write(arena, slot, rec);
    var root' := root.(count := root.count + 1);
    WriteWellFormed(arena, log, slot, rec);
    assert slot !in freeList;
    assert forall u :: Mapped(arena', u) <==> Mapped(arena, u);
    assert RootShape(root', arena');
    assert Committed(arena', root.first.value.page, root'.count);
    assert FreeListed(arena', root.head, freeList);
    assert FreeOk(arena', root.head, freeList);
  }

  /**
   * Lines 94-103 from a complete chain: when the data mapping is granted, linking the old tail
   * to the new record and storing that record as the tail keeps the chain complete.
   */
  lemma CommitComplete(root: Root, arena: Arena, log: seq<Mapping>, root': Root, arena': Arena, log': seq<Mapping>)
    requires Walkable(root, arena, log) && Walkable(root', arena', log') && log <= log'
    requires Complete(root, arena, log)
    requires root'.count == root.count + 1 && root'.last.Some? && root'.first.Some?
    requires root.first.Some? ==> root'.first == root.first
    requires root.first.None? ==> root'.first == root'.last
    requires root.count < BLOCK_REF_BLOCK_AMOUNT ==> root'.last.value == SlotId(root'.first.value.page, root.count)
    requires Mapped(arena', root'.last.value) && Read(arena', root'.last.value).next.None?
    requires root.last.Some? ==> Mapped(arena', root.last.value) && Read(arena', root.last.value).next == root'.last
    requires root.last.Some? ==> Pos(log', root.last.value) < Pos(log', root'.last.value)
    requires forall u :: Mapped(arena, u) && Some(u) != root.last && Some(u) != root'.last ==>
      Mapped(arena', u) && Read(arena', u).next == Read(arena, u).next
    ensures Complete(root', arena', log')
  {
    var t := root'.last.value;
    if root.first.None? {
      assert ChainOf(root', arena', log') == ChainFrom(arena', t, log');
      SingleChain(arena', log', t);
    } else {
      CompleteTail(root, arena, log);
      CommitChain(root, arena, log, root', arena', log');
    }
  }

  /** Lines 94-103 on a chain with a first block: the chain gains the new record. */
  lemma CommitChain(root: Root, arena: Arena, log: seq<Mapping>, root': Root, arena': Arena, log': seq<Mapping>)
    requires Walkable(root, arena, log) && Walkable(root', arena', log') && log <= log'
    requires Complete(root, arena, log) && root.first.Some? && root.last.Some?
    requires root'.last.Some? && root'.first == root.first
    requires Mapped(arena', root'.last.value) && Read(arena', root'.last.value).next.None?
    requires Mapped(arena', root.last.value) && Read(arena', root.last.value).next == root'.last
    requires Pos(log', root.last.value) < Pos(log', root'.last.value)
    requires forall u :: Mapped(arena, u) && Some(u) != root.last && Some(u) != root'.last ==>
      Mapped(arena', u) && Read(arena', u).next == Read(arena, u).next
    ensures ChainOf(root', arena', log') == ChainOf(root, arena, log) + [root'.last.value]
  {
    var f, l, t := root.first.value, root.last.value, root'.last.value;
    var c := ChainOf(root, arena, log);
    assert c == ChainFrom(arena, f, log);
    assert |c| == root.count && root.last == Some(c[root.count - 1]);
    assert WellFormed(arena, log) && WellFormed(arena', log') && Mapped(arena, f);
    assert forall u :: Mapped(arena, u) && u != l && u != t ==>
      Mapped(arena', u) && Read(arena', u).next == Read(arena, u).next;
    ChainExtended(arena, log, arena', log', f, l, t);
    assert ChainOf(root', arena', log') == ChainFrom(arena', f, log');
  }

  /**
   * Lines 79-84 on a complete chain: once the old `last_block` links to a new tail `t` and
   * `t` becomes `last_block`, the chain is the old one followed by `t`.
   */
  lemma TailLinked(root: Root, arena: Arena, log: seq<Mapping>, arena': Arena, log': seq<Mapping>, t: SlotId)
    requires Walkable(root, arena, log) && Complete(root, arena, log) && root.first.Some? && root.last.Some?
    requires WellFormed(arena', log') && log <= log'
    requires !Mapped(arena, t) && Mapped(arena', t) && Read(arena', t).next.None?
    requires Mapped(arena', root.last.value) && Read(arena', root.last.value).next == Some(t)
    requires Pos(log', root.last.value) < Pos(log', t)
    requires forall u :: Mapped(arena, u) && Some(u) != root.last && u != t ==>
      Mapped(arena', u) && Read(arena', u).next == Read(arena, u).next
    ensures Walkable(root.(last := Some(t)), arena', log')
    ensures ChainOf(root.(last := Some(t)), arena', log') == ChainOf(root, arena, log) + [t]
  {
    CompleteTail(root, arena, log);
    var f := root.first.value;
    assert Mapped(arena', f);
    assert ChainOf(root, arena, log) == ChainFrom(arena, f, log);
    ChainExtended(arena, log, arena', log', f, root.last.value, t);
  }

  /** The walk from a record whose `next` is None is that record alone. */
  lemma SingleChain(arena: Arena, log: seq<Mapping>, t: SlotId)
    requires WellFormed(arena, log) && Mapped(arena, t) && Read(arena, t).next.None?
    ensures ChainFrom(arena, t, log) == [t]
  {
  }

  /** The walk from `f`, once its last record `l` links to `t`, gains exactly `t`. */
  lemma ChainExtended(arena: Arena, log: seq<Mapping>, arena': Arena, log': seq<Mapping>, f: SlotId, l: SlotId, t: SlotId)
    requires WellFormed(arena, log) && WellFormed(arena', log') && log <= log' && Mapped(arena, f)
    requires var c := ChainFrom(arena, f, log); c[|c| - 1] == l
    requires Mapped(arena', t) && Read(arena', t).next.None?
    requires Mapped(arena', l) && Read(arena', l).next == Some(t)
    requires Pos(log', l) < Pos(log', t)
    requires forall u :: Mapped(arena, u) && u != l && u != t ==>
      Mapped(arena', u) && Read(arena', u).next == Read(arena, u).next
    ensures ChainFrom(arena', f, log') == ChainFrom(arena, f, log) + [t]
  {
    ExtendWellFormed(arena, log, log');
    ChainSameLinks(arena, arena, log, log', f);
    ChainAppend(arena, arena', log', f, l, t);
  }
}
