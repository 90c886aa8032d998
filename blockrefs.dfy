/**
 * Block records (`BlockRef`, src/lib.rs:156-163) and the metadata pages that hold them.
 *
 * A metadata page is one 4096-byte mapping holding BLOCK_REF_BLOCK_AMOUNT record slots.
 * The arena maps the address of every mapped metadata page to its slots; a `SlotId`
 * (page address, slot index) stands for a raw `NonNull<BlockRef>`. This module also
 * defines the two lists threaded through the records, as specification functions:
 * the block chain (through `next`) and the free list (through `next_free_block`).
 */
module BlockRefs {
  import opened Wrappers
  import opened Pages

  /** `BlockRef` is four pointer-sized fields on a 64-bit target. */
  const WORD_SIZE: nat := 8
  const BLOCK_REF_SIZE: nat := 4 * WORD_SIZE
  const BLOCK_REF_BLOCK_SIZE: nat := 4096
  const BLOCK_REF_BLOCK_AMOUNT: nat := BLOCK_REF_BLOCK_SIZE / BLOCK_REF_SIZE

  datatype SlotId = SlotId(page: Addr, index: nat)

  datatype BlockRef = BlockRef(start: Addr, size: nat, next: Option<SlotId>, nextFree: Option<SlotId>)

  /** What a slot of a freshly mapped (zero-filled) page reads as. */
  const ZEROED: BlockRef := BlockRef(0, 0, None, None)

  type Arena = map<Addr, seq<BlockRef>>

  function ZeroPage(): (page: seq<BlockRef>)
    ensures |page| == BLOCK_REF_BLOCK_AMOUNT
    ensures forall i :: 0 <= i < |page| ==> page[i] == ZEROED
  {
    seq(BLOCK_REF_BLOCK_AMOUNT, _ => ZEROED)
  }

  /** The slot lies inside a mapped metadata page. */
  predicate Mapped(arena: Arena, s: SlotId) {
    s.page in arena && s.index < |arena[s.page]|
  }

  function Read(arena: Arena, s: SlotId): BlockRef
    requires Mapped(arena, s)
  {
    arena[s.page][s.index]
  }

  /** Stores `rec` in slot `s`; every other slot keeps its contents. */
  function Write(arena: Arena, s: SlotId, rec: BlockRef): (a: Arena)
    requires Mapped(arena, s)
    ensures a.Keys == arena.Keys
    ensures forall p :: p in arena ==> |a[p]| == |arena[p]|
    ensures Mapped(a, s) && Read(a, s) == rec
    ensures forall u :: Mapped(arena, u) && u != s ==> Read(a, u) == Read(arena, u)
  {
    arena[s.page := arena[s.page][s.index := rec]]
  }

  /** A second write to a slot overrides the first. */
  lemma WriteTwice(arena: Arena, s: SlotId, x: BlockRef, y: BlockRef)
    requires Mapped(arena, s)
    ensures Write(Write(arena, s, x), s, y) == Write(arena, s, y)
  {
    assert arena[s.page][s.index := x][s.index := y] == arena[s.page][s.index := y];
  }

  /**
   * A position that orders all slots by when their page was mapped, then by index. The
   * provider places pages anywhere, so the page address says nothing about the order.
   */
  function Pos(log: seq<Mapping>, s: SlotId): nat {
    Rank(log, s.page) * BLOCK_REF_BLOCK_AMOUNT + s.index
  }

  /**
   * Every page is a full metadata page granted by a request of `log`, and every `next`
   * link leads to a mapped slot further on: the chain is forward-only.
   */
  ghost predicate WellFormed(arena: Arena, log: seq<Mapping>) {
    (forall p :: p in arena ==> 0 < p && Rank(log, p) < |log| && |arena[p]| == BLOCK_REF_BLOCK_AMOUNT) &&
    (forall s {:trigger Read(arena, s)} :: Mapped(arena, s) && Read(arena, s).next.Some? ==>
       Mapped(arena, Read(arena, s).next.value) && Pos(log, s) < Pos(log, Read(arena, s).next.value))
  }

  /** A slot of a page mapped earlier comes before every slot of a page mapped later. */
  lemma PosOrder(log: seq<Mapping>, s: SlotId, t: SlotId)
    requires s.index < BLOCK_REF_BLOCK_AMOUNT && Rank(log, s.page) < Rank(log, t.page)
    ensures Pos(log, s) < Pos(log, t)
  {
    assert BLOCK_REF_BLOCK_AMOUNT == 128;
  }

  lemma PosBelow(arena: Arena, log: seq<Mapping>, s: SlotId)
    requires WellFormed(arena, log) && Mapped(arena, s)
    ensures Pos(log, s) < |log| * BLOCK_REF_BLOCK_AMOUNT
  {
    assert BLOCK_REF_BLOCK_AMOUNT == 128;
    assert Rank(log, s.page) + 1 <= |log| && s.index < 128;
  }

  /** Later requests keep the arena well formed and every slot's position. */
  lemma ExtendWellFormed(arena: Arena, log: seq<Mapping>, log': seq<Mapping>)
    requires WellFormed(arena, log) && log <= log'
    ensures WellFormed(arena, log')
    ensures forall s :: Mapped(arena, s) ==> Pos(log', s) == Pos(log, s)
  {
    forall p | p in arena ensures Rank(log', p) == Rank(log, p) {
      RankPrefix(log, log', p);
    }
  }

  /** Mapping a new page leaves every slot of the other pages as it was. */
  lemma AddPageKeeps(arena: Arena, p: Addr, page: seq<BlockRef>, u: SlotId)
    requires Mapped(arena, u) && u.page != p
    ensures Mapped(arena[p := page], u) && Read(arena[p := page], u) == Read(arena, u)
  {
  }

  /** A fresh zero-filled page granted by a request of `log` keeps the arena well formed. */
  lemma AddPageWellFormed(arena: Arena, log: seq<Mapping>, p: Addr)
    requires WellFormed(arena, log) && p !in arena && 0 < p && Rank(log, p) < |log|
    ensures WellFormed(arena[p := ZeroPage()], log)
    ensures SameLinks(arena, arena[p := ZeroPage()])
  {
    var a := arena[p := ZeroPage()];
    forall s | Mapped(a, s) && Read(a, s).next.Some?
      ensures Mapped(a, Read(a, s).next.value) && Pos(log, s) < Pos(log, Read(a, s).next.value)
    {
      assert s.page != p;
      AddPageKeeps(arena, p, ZeroPage(), s);
      AddPageKeeps(arena, p, ZeroPage(), Read(arena, s).next.value);
    }
  }

  /** Storing a record whose `next` is None or points further on keeps the arena well formed. */
  lemma WriteWellFormed(arena: Arena, log: seq<Mapping>, s: SlotId, rec: BlockRef)
    requires WellFormed(arena, log) && Mapped(arena, s)
    requires rec.next.Some? ==> Mapped(arena, rec.next.value) && Pos(log, s) < Pos(log, rec.next.value)
    ensures WellFormed(Write(arena, s, rec), log)
  {
    var a := Write(arena, s, rec);
    forall u | Mapped(a, u) && Read(a, u).next.Some?
      ensures Mapped(a, Read(a, u).next.value) && Pos(log, u) < Pos(log, Read(a, u).next.value)
    {
      if u != s {
        assert Read(a, u) == Read(arena, u);
      }
    }
  }

  /** The records met by walking `next` from `s`, `s` included. */
  ghost function ChainFrom(arena: Arena, s: SlotId, log: seq<Mapping>): (c: seq<SlotId>)
    requires WellFormed(arena, log) && Mapped(arena, s)
    ensures |c| > 0 && c[0] == s
    decreases |log| * BLOCK_REF_BLOCK_AMOUNT - Pos(log, s)
  {
    PosBelow(arena, log, s);
    match Read(arena, s).next
    case None => [s]
    case Some(t) => PosBelow(arena, log, t); [s] + ChainFrom(arena, t, log)
  }

  /**
   * A walk visits mapped slots in strictly increasing position (so never twice),
   * each one linked to the next, and stops at the one record whose `next` is None.
   */
  lemma {:induction false} ChainShape(arena: Arena, s: SlotId, log: seq<Mapping>)
    requires WellFormed(arena, log) && Mapped(arena, s)
    ensures var c := ChainFrom(arena, s, log);
      (forall j :: 0 <= j < |c| ==> Mapped(arena, c[j])) &&
      (forall j :: 0 <= j < |c| - 1 ==> Read(arena, c[j]).next == Some(c[j + 1])) &&
      Read(arena, c[|c| - 1]).next.None? &&
      (forall i, j :: 0 <= i < j < |c| ==> Pos(log, c[i]) < Pos(log, c[j]))
    decreases |log| * BLOCK_REF_BLOCK_AMOUNT - Pos(log, s)
  {
    PosBelow(arena, log, s);
    match Read(arena, s).next
    case None =>
    case Some(t) =>
      PosBelow(arena, log, t);
      ChainShape(arena, t, log);
      var c, d := ChainFrom(arena, s, log), ChainFrom(arena, t, log);
      assert c == [s] + d;
      forall i, j | 0 <= i < j < |c| ensures Pos(log, c[i]) < Pos(log, c[j]) {
        if i == 0 {
          assert c[j] == d[j - 1];
          if j > 1 { assert Pos(log, d[0]) < Pos(log, d[j - 1]); }
        } else {
          assert c[i] == d[i - 1] && c[j] == d[j - 1];
        }
      }
  }

  /** Two arenas whose slots, as far as the first maps them, carry the same `next` links. */
  ghost predicate SameLinks(arena: Arena, arena': Arena) {
    forall u :: Mapped(arena, u) ==> Mapped(arena', u) && Read(arena', u).next == Read(arena, u).next
  }

  /** A walk depends only on the `next` links, not on the other fields or on the log. */
  lemma {:induction false} ChainSameLinks(arena: Arena, arena': Arena, log: seq<Mapping>, log': seq<Mapping>, s: SlotId)
    requires WellFormed(arena, log) && WellFormed(arena', log') && Mapped(arena, s)
    requires SameLinks(arena, arena')
    ensures ChainFrom(arena', s, log') == ChainFrom(arena, s, log)
    decreases |log| * BLOCK_REF_BLOCK_AMOUNT - Pos(log, s)
  {
    PosBelow(arena, log, s);
    match Read(arena, s).next
    case None =>
    case Some(t) =>
      PosBelow(arena, log, t);
      ChainSameLinks(arena, arena', log, log', t);
  }

  /**
   * Linking the last record `l` of a walk to a record `t` further on whose `next` is None,
   * leaving every other link alone, extends the walk by exactly `t`.
   */
  lemma {:induction false} ChainAppend(arena: Arena, arena': Arena, log: seq<Mapping>, s: SlotId, l: SlotId, t: SlotId)
    requires WellFormed(arena, log) && WellFormed(arena', log) && Mapped(arena, s)
    requires var c := ChainFrom(arena, s, log); c[|c| - 1] == l && Pos(log, l) < Pos(log, t)
    requires forall u :: Mapped(arena, u) && u != l && u != t ==>
      Mapped(arena', u) && Read(arena', u).next == Read(arena, u).next
    requires Mapped(arena', l) && Read(arena', l).next == Some(t)
    requires Mapped(arena', t) && Read(arena', t).next == None
    ensures ChainFrom(arena', s, log) == ChainFrom(arena, s, log) + [t]
    decreases |log| * BLOCK_REF_BLOCK_AMOUNT - Pos(log, s)
  {
    ChainShape(arena, s, log);
    var c := ChainFrom(arena, s, log);
    PosBelow(arena, log, s);
    if s == l {
      PosBelow(arena', log, t);
      assert ChainFrom(arena', t, log) == [t];
    } else {
      assert |c| > 1 && Pos(log, s) < Pos(log, l);
      var n := Read(arena, s).next.value;
      assert Read(arena', s).next == Some(n);
      PosBelow(arena, log, n);
      assert ChainFrom(arena, s, log) == [s] + ChainFrom(arena, n, log);
      ChainAppend(arena, arena', log, n, l, t);
    }
  }

  /**
   * The free list: `list` is exactly the sequence of distinct mapped records reached from
   * `head` by following `nextFree`, the last of them having no successor.
   */
  ghost predicate FreeListed(arena: Arena, head: Option<SlotId>, list: seq<SlotId>) {
    (forall k :: 0 <= k < |list| ==> Mapped(arena, list[k])) &&
    (forall i, j :: 0 <= i < j < |list| ==> list[i] != list[j]) &&
    head == (if list == [] then None else Some(list[0])) &&
    (forall k {:trigger Read(arena, list[k])} :: 0 <= k < |list| ==>
       Read(arena, list[k]).nextFree == if k + 1 < |list| then Some(list[k + 1]) else None)
  }

  /** Dropping the head of a free list leaves the free list that starts at its successor. */
  lemma RestListed(arena: Arena, head: Option<SlotId>, list: seq<SlotId>)
    requires FreeListed(arena, head, list) && list != []
    ensures FreeListed(arena, Read(arena, list[0]).nextFree, list[1..])
  {
    var rest := list[1..];
    assert Read(arena, list[0]).nextFree == if 1 < |list| then Some(list[1]) else None;
    assert rest != [] ==> rest[0] == list[1];
    forall k | 0 <= k < |rest|
      ensures Read(arena, rest[k]).nextFree == if k + 1 < |rest| then Some(rest[k + 1]) else None
    {
      assert rest[k] == list[k + 1];
      assert Read(arena, list[k + 1]).nextFree == if k + 2 < |list| then Some(list[k + 2]) else None;
      assert k + 1 < |rest| ==> rest[k + 1] == list[k + 2];
    }
  }

  /**
   * Setting the head to the `k`-th record's successor and clearing that record's own
   * `nextFree` leaves the free list that followed it.
   */
  lemma TakeListed(arena: Arena, head: Option<SlotId>, list: seq<SlotId>, k: nat)
    requires FreeListed(arena, head, list) && k < |list|
    ensures var a := Write(arena, list[k], Read(arena, list[k]).(nextFree := None));
      FreeListed(a, Read(arena, list[k]).nextFree, list[k + 1..]) &&
      forall u :: Mapped(arena, u) ==> Read(a, u).start == Read(arena, u).start && Read(a, u).next == Read(arena, u).next
  {
    var rest := list[k + 1..];
    DropListed(arena, head, list, k);
    forall j | 0 <= j < |rest| ensures rest[j] != list[k] {
      assert rest[j] == list[k + 1 + j];
    }
    WriteOffList(arena, Read(arena, list[k]).nextFree, rest, list[k], Read(arena, list[k]).(nextFree := None));
  }

  /** The records after the `k`-th one of a free list form the free list that starts at its successor. */
  lemma DropListed(arena: Arena, head: Option<SlotId>, list: seq<SlotId>, k: nat)
    requires FreeListed(arena, head, list) && k < |list|
    ensures FreeListed(arena, Read(arena, list[k]).nextFree, list[k + 1..])
  {
    var rest := list[k + 1..];
    forall j | 0 <= j < |rest|
      ensures Read(arena, rest[j]).nextFree == if j + 1 < |rest| then Some(rest[j + 1]) else None
    {
      assert rest[j] == list[k + 1 + j];
      assert Read(arena, list[k + 1 + j]).nextFree == if k + 2 + j < |list| then Some(list[k + 2 + j]) else None;
      assert j + 1 < |rest| ==> rest[j + 1] == list[k + 2 + j];
    }
    forall i, j | 0 <= i < j < |rest| ensures rest[i] != rest[j] {
      assert rest[i] == list[k + 1 + i] && rest[j] == list[k + 1 + j];
    }
    assert Read(arena, list[k]).nextFree == if k + 1 < |list| then Some(list[k + 1]) else None;
    assert rest != [] ==> rest[0] == list[k + 1];
  }

  /** Writing a record that is not on a free list keeps the list. */
  lemma WriteOffList(arena: Arena, head: Option<SlotId>, list: seq<SlotId>, s: SlotId, rec: BlockRef)
    requires FreeListed(arena, head, list) && Mapped(arena, s) && s !in list
    ensures FreeListed(Write(arena, s, rec), head, list)
  {
    var a := Write(arena, s, rec);
    forall j | 0 <= j < |list|
      ensures Mapped(a, list[j]) && Read(a, list[j]).nextFree == if j + 1 < |list| then Some(list[j + 1]) else None
    {
      assert list[j] != s;
      assert Read(arena, list[j]).nextFree == if j + 1 < |list| then Some(list[j + 1]) else None;
    }
  }

  /** Pushing a record that is not on the free list makes it the new head. */
  lemma PushListed(arena: Arena, head: Option<SlotId>, list: seq<SlotId>, s: SlotId)
    requires FreeListed(arena, head, list) && Mapped(arena, s) && s !in list
    ensures var a := Write(arena, s, Read(arena, s).(nextFree := head));
      FreeListed(a, Some(s), [s] + list) &&
      forall u :: Mapped(arena, u) ==> Read(a, u).start == Read(arena, u).start && Read(a, u).next == Read(arena, u).next
  {
    var a := Write(arena, s, Read(arena, s).(nextFree := head));
    WriteOffList(arena, head, list, s, Read(arena, s).(nextFree := head));
    ConsListed(a, head, list, s);
    forall u | Mapped(arena, u)
      ensures Read(a, u).start == Read(arena, u).start && Read(a, u).next == Read(arena, u).next
    {
    }
  }

  /** A record off the list whose `nextFree` is the head goes in front of the list. */
  lemma ConsListed(arena: Arena, head: Option<SlotId>, list: seq<SlotId>, s: SlotId)
    requires FreeListed(arena, head, list) && Mapped(arena, s) && s !in list && Read(arena, s).nextFree == head
    ensures FreeListed(arena, Some(s), [s] + list)
  {
    var list' := [s] + list;
    forall j | 0 <= j < |list'|
      ensures Read(arena, list'[j]).nextFree == if j + 1 < |list'| then Some(list'[j + 1]) else None
    {
      if j > 0 {
        assert list'[j] == list[j - 1];
        assert Read(arena, list[j - 1]).nextFree == if j < |list| then Some(list[j]) else None;
        assert j + 1 < |list'| ==> list'[j + 1] == list[j];
      } else {
        assert list != [] ==> list'[1] == list[0];
      }
    }
    forall i, j | 0 <= i < j < |list'| ensures list'[i] != list'[j] {
      assert list'[j] == list[j - 1];
      if i > 0 { assert list'[i] == list[i - 1]; }
    }
    forall k | 0 <= k < |list'| ensures Mapped(arena, list'[k]) {
      if k > 0 { assert list'[k] == list[k - 1]; }
    }
  }

  /** The pointers determine the free list: at most one sequence fits a given head. */
  lemma {:induction false} FreeListUnique(arena: Arena, head: Option<SlotId>, list: seq<SlotId>, list': seq<SlotId>)
    requires FreeListed(arena, head, list) && FreeListed(arena, head, list')
    ensures list == list'
    decreases |list|
  {
    if list != [] {
      assert list'!= [] && list[0] == list'[0];
      var next := Read(arena, list[0]).nextFree;
      RestListed(arena, head, list);
      RestListed(arena, head, list');
      FreeListUnique(arena, next, list[1..], list'[1..]);
      assert list == [list[0]] + list[1..] && list' == [list'[0]] + list'[1..];
    }
  }

  /**
   * The free-list policy as src/lib.rs:47 writes it: the position of the first listed
   * record whose size is AT MOST the requested size.
   */
  function FirstFit(arena: Arena, list: seq<SlotId>, size: nat): (k: Option<nat>)
    requires forall j :: 0 <= j < |list| ==> Mapped(arena, list[j])
    ensures k.Some? ==> k.value < |list| && Read(arena, list[k.value]).size <= size
    ensures k.Some? ==> forall j :: 0 <= j < k.value ==> Read(arena, list[j]).size > size
    ensures k.None? ==> forall j :: 0 <= j < |list| ==> Read(arena, list[j]).size > size
  {
    if list == [] then None
    else if Read(arena, list[0]).size <= size then Some(0)
    else match FirstFit(arena, list[1..], size)
         case None => None
         case Some(k) => Some(k + 1)
  }

  /** The position of the first record of `c` whose data region starts at `ptr`. */
  function FindStart(arena: Arena, c: seq<SlotId>, ptr: Addr): (k: Option<nat>)
    requires forall j :: 0 <= j < |c| ==> Mapped(arena, c[j])
    ensures k.Some? ==> k.value < |c| && Read(arena, c[k.value]).start == ptr
    ensures k.Some? ==> forall j :: 0 <= j < k.value ==> Read(arena, c[j]).start != ptr
    ensures k.None? ==> forall j :: 0 <= j < |c| ==> Read(arena, c[j]).start != ptr
  {
    if c == [] then None
    else if Read(arena, c[0]).start == ptr then Some(0)
    else match FindStart(arena, c[1..], ptr)
         case None => None
         case Some(k) => Some(k + 1)
  }
}
