/**
 * The page provider that the allocator asks for memory (`map::map` in src/map.rs).
 * Only its interface is modelled. `map` passes a null hint to `mmap`, so the system may
 * place a granted region anywhere that is free: below earlier regions as well as above.
 * Where it places a region, and whether it grants a request at all, is not under the
 * allocator's control, so it is an input: the provider is created with the answers the
 * system will give, one per request (an address, or a refusal), and refuses every request
 * once they are used up. Every request is logged, and the log order is the order in which
 * the regions were mapped.
 */
module Pages {
  import opened Wrappers

  const PAGE_SIZE: nat := 4096

  /** A machine address; 0 is the null pointer. */
  type Addr = nat

  /** One request made to the provider and what it answered. */
  datatype Mapping = Mapping(len: nat, result: Option<Addr>)

  /** The bytes a mapping of `len` bytes occupies: `len` rounded up to whole pages. */
  function PageSpan(len: nat): (span: nat)
    ensures span % PAGE_SIZE == 0 && len <= span < len + PAGE_SIZE
  {
    (len + PAGE_SIZE - 1) / PAGE_SIZE * PAGE_SIZE
  }

  /** No multiple of the page size that holds `len` bytes is smaller than `PageSpan(len)`. */
  lemma PageSpanLeast(len: nat, m: nat)
    requires m % PAGE_SIZE == 0 && len <= m
    ensures PageSpan(len) <= m
  {
  }

  /** The byte ranges `[a, a + n)` and `[b, b + m)` share no byte. */
  predicate Disjoint(a: Addr, n: nat, b: Addr, m: nat) {
    a + n <= b || b + m <= a
  }

  /**
   * `mmap` may return `a` for `len` bytes after the requests of `log`: the length is not
   * zero (`mmap` refuses a zero length), `a` is non-null and page aligned, and the pages
   * from `a` on overlap no region granted before.
   */
  predicate Fresh(log: seq<Mapping>, a: Addr, len: nat) {
    0 < len && 0 < a && a % PAGE_SIZE == 0 &&
    forall k :: 0 <= k < |log| && log[k].result.Some? ==>
      Disjoint(log[k].result.value, PageSpan(log[k].len), a, PageSpan(len))
  }

  /**
   * The system's answer to a request of `len` bytes after `log`, when the script says `ans`.
   * An address that is not fresh is one `mmap` never returns; it is read as a refusal.
   * This is the definition of the system's behaviour, not a property derived from it.
   */
  function Answer(log: seq<Mapping>, ans: Option<Addr>, len: nat): (r: Option<Addr>)
    ensures r.Some? <==> ans.Some? && Fresh(log, ans.value, len)
    ensures r.Some? ==> r == ans
  {
    if ans.Some? && Fresh(log, ans.value, len) then ans else None
  }

  /** What the provider has handed out and what it will answer. */
  datatype Os = Os(
    /** The answers the system will give to the coming requests: an address, or None for a refusal. */
    answers: seq<Option<Addr>>,
    /** Every request made so far, in order, with its answer. */
    log: seq<Mapping>)

  /** A granted request had a length, and its address is non-null and page aligned. */
  predicate Placed(m: Mapping) {
    m.result.Some? ==> 0 < m.len && 0 < m.result.value && m.result.value % PAGE_SIZE == 0
  }

  /**
   * Every granted region was fresh when it was granted: it was placed as `mmap` places
   * regions, and no two granted regions overlap.
   */
  ghost predicate OsValid(os: Os) {
    (forall k :: 0 <= k < |os.log| ==> Placed(os.log[k])) &&
    forall i, j :: 0 <= i < j < |os.log| && os.log[i].result.Some? && os.log[j].result.Some? ==>
      Disjoint(os.log[i].result.value, PageSpan(os.log[i].len), os.log[j].result.value, PageSpan(os.log[j].len))
  }

  /**
   * The position in `log` of the request that granted address `p`: the first one to
   * return it, or `|log|` when none did.
   */
  function Rank(log: seq<Mapping>, p: Addr): (k: nat)
    ensures k <= |log|
    ensures k < |log| ==> log[k].result == Some(p)
    ensures forall j :: 0 <= j < k ==> log[j].result != Some(p)
  {
    if log == [] then 0
    else if log[0].result == Some(p) then 0
    else
      var k := 1 + Rank(log[1..], p);
      assert forall j :: 1 <= j < k ==> log[j] == log[1..][j - 1];
      k
  }

  /** A request that returned `p` bounds its rank. */
  lemma RankAt(log: seq<Mapping>, j: nat, p: Addr)
    requires j < |log| && log[j].result == Some(p)
    ensures Rank(log, p) <= j
  {
  }

  /** Later requests do not change the rank of an address already granted. */
  lemma RankPrefix(log: seq<Mapping>, log': seq<Mapping>, p: Addr)
    requires log <= log' && Rank(log, p) < |log|
    ensures Rank(log', p) == Rank(log, p)
  {
    var k := Rank(log, p);
    assert log'[k] == log[k];
    RankAt(log', k, p);
    var k' := Rank(log', p);
    assert log'[k'] == log[k'];
  }

  /**
   * `log1`/`answers1` follow `log0`/`answers0` by some requests: the log only grew, one
   * answer was used up per new request, and each new request got the system's answer to it.
   */
  ghost predicate Follows(log0: seq<Mapping>, answers0: seq<Option<Addr>>, log1: seq<Mapping>, answers1: seq<Option<Addr>>) {
    log0 <= log1 &&
    answers1 == (if |log1| - |log0| <= |answers0| then answers0[|log1| - |log0|..] else []) &&
    forall j :: |log0| <= j < |log1| ==>
      log1[j].result == Answer(log1[..j], if j - |log0| < |answers0| then answers0[j - |log0|] else None, log1[j].len)
  }

  lemma FollowsTrans(log0: seq<Mapping>, answers0: seq<Option<Addr>>, log1: seq<Mapping>, answers1: seq<Option<Addr>>,
                     log2: seq<Mapping>, answers2: seq<Option<Addr>>)
    requires Follows(log0, answers0, log1, answers1) && Follows(log1, answers1, log2, answers2)
    ensures Follows(log0, answers0, log2, answers2)
  {
    assert log2[..|log0|] == log2[..|log1|][..|log0|];
    forall j | |log0| <= j < |log2|
      ensures log2[j].result == Answer(log2[..j], if j - |log0| < |answers0| then answers0[j - |log0|] else None, log2[j].len)
    {
      if j < |log1| {
        assert log2[j] == log1[j] && log2[..j] == log1[..j];
      } else if |log1| - |log0| <= |answers0| {
        assert j - |log1| < |answers1| ==> answers1[j - |log1|] == answers0[j - |log0|];
      }
    }
  }

  /** `os1` is what `os0` becomes after some requests. */
  ghost predicate Answered(os0: Os, os1: Os) {
    Follows(os0.log, os0.answers, os1.log, os1.answers)
  }

  lemma AnsweredTrans(os0: Os, os1: Os, os2: Os)
    requires Answered(os0, os1) && Answered(os1, os2)
    ensures Answered(os0, os2)
  {
    FollowsTrans(os0.log, os0.answers, os1.log, os1.answers, os2.log, os2.answers);
  }

  /** The answer to a request and the provider's state after it. */
  datatype Reply = Reply(result: Option<Addr>, os: Os)

  /**
   * `map::map(len)`: the next scripted answer decides. A granted region is non-null, page
   * aligned and overlaps no region granted before; a zero length is refused.
   */
  function Request(os: Os, len: nat): (r: Reply)
    ensures r.os.log == os.log + [Mapping(len, r.result)]
    ensures r.os.answers == if os.answers == [] then [] else os.answers[1..]
    ensures r.result.Some? <==> os.answers != [] && os.answers[0].Some? && Fresh(os.log, os.answers[0].value, len)
    ensures r.result.Some? ==> r.result == os.answers[0]
    ensures len == 0 ==> r.result.None?
    ensures OsValid(os) ==> OsValid(r.os)
  {
    var result := Answer(os.log, if os.answers == [] then None else os.answers[0], len);
    var log' := os.log + [Mapping(len, result)];
    assert forall k :: 0 <= k < |os.log| ==> log'[k] == os.log[k];
    Reply(result, Os(if os.answers == [] then [] else os.answers[1..], log'))
  }

  /** A request uses up one scripted answer and logs the system's answer to it. */
  lemma RequestAnswered(os: Os, len: nat)
    ensures Answered(os, Request(os, len).os)
  {
    var r := Request(os, len);
    assert r.os.log[..|os.log|] == os.log;
  }

  /**
   * A granted address overlaps nothing granted before, so no earlier request returned
   * it: its rank is the position of this request.
   */
  lemma RequestNew(os: Os, len: nat)
    requires OsValid(os)
    ensures var r := Request(os, len);
      r.result.Some? ==>
        Rank(r.os.log, r.result.value) == |os.log| &&
        forall k :: 0 <= k < |os.log| && os.log[k].result.Some? ==>
          Disjoint(os.log[k].result.value, PageSpan(os.log[k].len), r.result.value, PageSpan(len))
  {
    var r := Request(os, len);
    if r.result.Some? {
      var a := r.result.value;
      forall j | 0 <= j < |os.log| ensures os.log[j].result != Some(a) {
        if os.log[j].result.Some? {
          assert 0 < os.log[j].len;
        }
      }
      assert r.os.log[|os.log|].result == Some(a);
      RankAt(r.os.log, |os.log|, a);
    }
  }

  class PageProvider {
    var answers: seq<Option<Addr>>
    var log: seq<Mapping>

    function State(): Os
      reads this
    {
      Os(answers, log)
    }

    ghost predicate Valid()
      reads this
    {
      OsValid(State())
    }

    constructor (answers: seq<Option<Addr>>)
      ensures Valid()
      ensures State() == Os(answers, [])
    {
      this.answers := answers;
      log := [];
    }

    /** Maps `len` zero-filled bytes, or fails. */
    method Map(len: nat) returns (r: Option<Addr>)
      requires Valid()
      modifies this
      ensures Valid()
      ensures Reply(r, State()) == Request(old(State()), len)
    {
      var ans := if answers == [] then None else answers[0];
      if ans.Some? && Fresh(log, ans.value, len) {
        r := ans;
      } else {
        r := None;
      }
      answers := if answers == [] then [] else answers[1..];
      log := log + [Mapping(len, r)];
    }
  }
}
