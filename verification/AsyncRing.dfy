/** The io_uring submission and completion rings, with 32-bit indices that wrap.

    The kernel is the environment: `KernelConsume` and `KernelPost` are what it may do, at any time; the
    calls below take, as parameters, what it does while they run.  The ghost sequences record every entry
    staged, consumed, posted and reaped since the ring was created. */
module AsyncRing {
  import opened Common
  import opened Bits

  datatype Sqe = Sqe(opcode: int, fd: int, addr: nat, len: nat, off: nat, rwFlags: nat, tag: nat)
  datatype Cqe = Cqe(tag: nat, result: int)

  const EINTR := 4

  // What a caller may do with the submission queue; `enter` is what the kernel answers.
  datatype Call = Submitting(sqe: Sqe) | Flushing(enter: seq<int>)

  ghost predicate RingSize(n: nat) {
    exists k: nat :: k <= 31 && n == Pow2(k)
  }

  // A wrapped 32-bit index masked with entries - 1 selects the slot of the counter it stands for.
  lemma SlotOf(i: nat, n: nat)
    requires RingSize(n)
    ensures 0 < n < WORD32 && And(Wrap(i, WORD32), n - 1) == Wrap(i, n)
  {
    var k: nat :| k <= 31 && n == Pow2(k);
    WordSizes();
    MaskedWord(i, k, 32);
    Pow2Add(k, 32 - k);
    MulStep(Pow2(k), 1, Pow2(32 - k));
  }

  // The part of a history from `from` on lies in its ring slots, and fits.
  ghost predicate InSlots<T(!new)>(ring: seq<T>, history: seq<T>, from: nat) {
    && |ring| > 0 && from <= |history| <= from + |ring|
    && forall i: nat :: from <= i < |history| ==> ring[Wrap(i, |ring|)] == history[i]
  }

  // Writing the next entry into its slot disturbs none of them.
  lemma Append<T(!new)>(ring: seq<T>, history: seq<T>, from: nat, x: T)
    requires InSlots(ring, history, from) && |history| < from + |ring|
    ensures InSlots(ring[Wrap(|history|, |ring|) := x], history + [x], from)
  {
    forall i: nat | from <= i < |history| ensures Wrap(i, |ring|) != Wrap(|history|, |ring|) {
      if Wrap(i, |ring|) == Wrap(|history|, |ring|) { WrapDistinct(i, |history|, |ring|); }
    }
  }

  // The entries from number `from` up to `to` are found through the index array.
  ghost predicate Indexed(a: seq<nat>, from: nat, to: nat) {
    |a| > 0 && forall i: nat :: from <= i < to ==> a[Wrap(i, |a|)] == Wrap(i, |a|)
  }

  lemma IndexNext(a: seq<nat>, from: nat, to: nat)
    requires Indexed(a, from, to)
    ensures Indexed(a[Wrap(to, |a|) := Wrap(to, |a|)], from, to + 1)
  {
  }

  lemma IndexAt(a: seq<nat>, from: nat, to: nat, i: nat)
    requires Indexed(a, from, to) && from <= i < to
    ensures a[Wrap(i, |a|)] == Wrap(i, |a|)
  {
  }

  class Ring {
    const entries: nat
    const cqEntries: nat
    // shared with the kernel
    var sqHead: nat              // advanced by the kernel
    var sqTail: nat              // advanced by flush
    const sqes: array<Sqe>
    const sqArray: array<nat>
    var cqHead: nat              // advanced by reap
    var cqTail: nat              // advanced by the kernel
    const cqes: array<Cqe>
    // local
    var sqPending: nat           // staged, but not yet published

    ghost var staged: seq<Sqe>
    ghost var published: nat
    ghost var consumed: seq<Sqe>
    ghost var posted: seq<Cqe>
    ghost var reaped: seq<Cqe>

    ghost predicate SubmissionOk()
      reads this, sqes, sqArray
    {
      && RingSize(entries) && sqes.Length == sqArray.Length == entries
      && |consumed| <= published <= |staged| && consumed == staged[..|consumed|]
      && sqHead == Wrap(|consumed|, WORD32) && sqTail == Wrap(published, WORD32) && sqPending == |staged| - published
      && InSlots(sqes[..], staged, |consumed|) && Indexed(sqArray[..], |consumed|, |staged|)
    }

    ghost predicate CompletionOk()
      reads this, cqes
    {
      && RingSize(cqEntries) && cqes.Length == cqEntries
      && reaped <= posted
      && cqHead == Wrap(|reaped|, WORD32) && cqTail == Wrap(|posted|, WORD32)
      && InSlots(cqes[..], posted, |reaped|)
    }

    ghost predicate Valid()
      reads this, sqes, sqArray, cqes
    {
      && sqes as object != cqes && sqArray as object != cqes && sqArray as object != sqes
      && SubmissionOk() && CompletionOk()
    }

    constructor (entries: nat, cqEntries: nat, noSqe: Sqe, noCqe: Cqe)
      requires RingSize(entries) && RingSize(cqEntries)
      ensures Valid() && this.entries == entries && this.cqEntries == cqEntries
      ensures staged == [] && consumed == [] && posted == [] && reaped == []
      ensures fresh(sqes) && fresh(sqArray) && fresh(cqes)
    {
      this.entries, this.cqEntries := entries, cqEntries;
      sqHead, sqTail, sqPending, cqHead, cqTail := 0, 0, 0, 0, 0;
      sqes := new Sqe[entries](_ => noSqe);
      sqArray := new nat[entries](i => i);
      cqes := new Cqe[cqEntries](_ => noCqe);
      staged, published, consumed, posted, reaped := [], 0, [], [], [];
      new;
      SlotOf(0, entries);
      SlotOf(0, cqEntries);
    }

    // ----- the environment -----

    // The kernel reads the next n published entries, through sq_array, from sq_head on.
    method KernelConsume(n: nat)
      requires Valid() && |consumed| + n <= published
      modifies this`sqHead, this`consumed
      ensures Valid() && |consumed| == |old(consumed)| + n
      ensures old(consumed) <= consumed
    {
      for k := 0 to n
        invariant Valid() && |consumed| == |old(consumed)| + k && old(consumed) <= consumed
      {
        ConsumeOne();
      }
    }

    method ConsumeOne()
      requires Valid() && |consumed| < published
      modifies this`sqHead, this`consumed
      ensures Valid() && consumed == old(consumed) + [staged[|old(consumed)|]]
    {
      SlotOf(|consumed|, entries);
      WrapAddExact(|consumed|, 1, WORD32);
      var index := sqArray[And(sqHead, entries - 1)];
      IndexAt(sqArray[..], |consumed|, |staged|, |consumed|);
      assert sqes[..][index] == staged[|consumed|];
      consumed := consumed + [sqes[index]];
      sqHead := WrapAdd(sqHead, 1, WORD32);
    }

    // The kernel posts a completion while there is room for it.
    method KernelPost(c: Cqe)
      requires Valid() && |posted| < |reaped| + cqEntries
      modifies this`cqTail, this`posted, cqes
      ensures Valid() && posted == old(posted) + [c]
    {
      SlotOf(|posted|, cqEntries);
      WrapAddExact(|posted|, 1, WORD32);
      Append(cqes[..], posted, |reaped|, c);
      var i := And(cqTail, cqEntries - 1);
      cqes[i] := c;
      assert cqes[..] == old(cqes[..])[i := c];
      posted := posted + [c];
      cqTail := WrapAdd(cqTail, 1, WORD32);
    }

    method KernelPostAll(cs: seq<Cqe>)
      requires Valid() && |posted| + |cs| <= |reaped| + cqEntries
      modifies this`cqTail, this`posted, cqes
      ensures Valid() && posted == old(posted) + cs
    {
      for k := 0 to |cs|
        invariant Valid() && posted == old(posted) + cs[..k]
      {
        KernelPost(cs[k]);
      }
    }

    // ----- the runtime -----

    // What the unsigned difference tail + pending - head amounts to.
    lemma QueuedExact()
      requires Valid()
      ensures 0 < entries < WORD32 && sqTail < WORD32 && sqHead < WORD32 && sqPending < WORD32
      ensures WrapSub(WrapAdd(sqTail, sqPending, WORD32), sqHead, WORD32) == |staged| - |consumed|
      ensures And(WrapAdd(sqTail, sqPending, WORD32), entries - 1) == Wrap(|staged|, entries)
    {
      SlotOf(|staged|, entries);
      WrapAddExact(published, sqPending, WORD32);
      assert WrapAdd(sqTail, sqPending, WORD32) == Wrap(|staged|, WORD32);
      WrapDiffExact(|staged|, |consumed|, WORD32);
    }

    // submit_rw and lc_async_submit_raw; the kernel consumes `meanwhile` entries after head was loaded.
    method Submit(sqe: Sqe, meanwhile: nat) returns (ok: bool)
      requires Valid() && |consumed| + meanwhile <= published
      modifies this`sqPending, this`sqHead, this`staged, this`consumed, sqes, sqArray
      ensures Valid() && |consumed| == |old(consumed)| + meanwhile && old(consumed) <= consumed
      ensures ok <==> |old(staged)| - |old(consumed)| < entries
      ensures staged == if ok then old(staged) + [sqe] else old(staged)
    {
      QueuedExact();
      var tail, head := sqTail, sqHead;
      var full := WrapSub(WrapAdd(tail, sqPending, WORD32), head, WORD32) >= entries;
      KernelConsume(meanwhile);
      if full { return false; }
      QueuedExact();
      Stage(sqe);
      return true;
    }

    method Stage(sqe: Sqe)
      requires Valid() && |staged| < |consumed| + entries
      modifies this`sqPending, this`staged, sqes, sqArray
      ensures Valid() && staged == old(staged) + [sqe]
    {
      QueuedExact();
      var index := And(WrapAdd(sqTail, sqPending, WORD32), entries - 1);
      Append(sqes[..], staged, |consumed|, sqe);
      sqes[index] := sqe;
      assert sqes[..] == old(sqes[..])[index := sqe];
      sqArray[index] := index;
      assert sqArray[..] == old(sqArray[..])[index := index];
      IndexNext(old(sqArray[..]), |consumed|, |staged|);
      sqPending := sqPending + 1;
      staged := staged + [sqe];
    }

    method GetFreeSlots() returns (n: nat)
      requires Valid()
      ensures n == entries - (|staged| - |consumed|)
    {
      QueuedExact();
      WrapDiffExact(published, |consumed|, WORD32);
      var used := WrapAdd(WrapSub(sqTail, sqHead, WORD32), sqPending, WORD32);
      if used >= entries { return 0; }
      return entries - used;
    }

    // Makes what is staged visible to the kernel by advancing the shared tail.
    method Publish()
      requires Valid()
      modifies this`sqTail, this`sqPending, this`published
      ensures Valid() && published == |staged| && sqPending == 0
    {
      QueuedExact();
      WrapAddExact(published, sqPending, WORD32);
      sqTail := WrapAdd(sqTail, sqPending, WORD32);
      published := |staged|;
      sqPending := 0;
    }

    // Publishes what is staged, then enters the kernel for as many entries, until it has taken them, an
    // error stops it, or it makes no progress.  `enter` is what successive enters return.
    method Flush(enter: seq<int>) returns (submitted: nat)
      requires Valid()
      modifies this`sqTail, this`sqPending, this`sqHead, this`published, this`consumed
      ensures Valid() && published == |staged| && sqPending == 0
      ensures submitted == Taken(enter, old(sqPending)) <= old(sqPending)
      ensures old(consumed) <= consumed && |consumed| == |old(consumed)| + submitted
      // it asks for as many entries as are new, so what earlier flushes left behind stays behind
      ensures Backlog() == old(Backlog()) + old(sqPending) - submitted
      ensures consumed == staged <==> old(Backlog()) == 0 && Taken(enter, old(sqPending)) == old(sqPending)
    {
      var toSubmit := sqPending;
      if toSubmit == 0 { return 0; }
      Publish();
      submitted := EnterAll(toSubmit, enter);
    }

    // Entries published and not consumed.
    ghost function Backlog(): int
      reads this`published, this`consumed
    {
      published - |consumed|
    }

    // Whatever is submitted and flushed afterwards, the backlog never gets smaller.
    method MakeCalls(calls: seq<Call>)
      requires Valid()
      modifies this`sqTail, this`sqPending, this`sqHead, this`staged, this`published, this`consumed, sqes, sqArray
      ensures Valid() && Backlog() >= old(Backlog()) && old(consumed) <= consumed && old(staged) <= staged
      ensures (forall i :: 0 <= i < |calls| ==> calls[i].Flushing?) && old(sqPending) == 0 ==>
        consumed == old(consumed) && staged == old(staged)
    {
      for i := 0 to |calls|
        invariant Valid() && Backlog() >= old(Backlog()) && old(consumed) <= consumed && old(staged) <= staged
        invariant (forall j :: 0 <= j < i ==> calls[j].Flushing?) && old(sqPending) == 0 ==>
          sqPending == 0 && consumed == old(consumed) && staged == old(staged)
      {
        match calls[i] {
          case Submitting(sqe) => var _ := Submit(sqe, 0);
          case Flushing(enter) => var _ := Flush(enter);
        }
      }
    }

    // The loop of enters for n published entries.
    method EnterAll(toSubmit: nat, enter: seq<int>) returns (submitted: nat)
      requires Valid() && published == |staged| && sqPending == 0 && toSubmit <= published - |consumed|
      modifies this`sqHead, this`consumed
      ensures Valid() && submitted == Taken(enter, toSubmit)
      ensures old(consumed) <= consumed && |consumed| == |old(consumed)| + submitted
    {
      submitted := 0;
      var k := 0;
      while submitted < toSubmit && k < |enter|
        invariant k <= |enter| && Valid() && submitted <= toSubmit
        invariant old(consumed) <= consumed && |consumed| == |old(consumed)| + submitted
        invariant submitted + Taken(enter[k..], toSubmit - submitted) == Taken(enter, toSubmit)
      {
        var ret := enter[k];
        k := k + 1;
        if ret == -EINTR { continue; }
        if ret <= 0 { break; }
        var taken := Min(ret, toSubmit - submitted);  // the kernel takes at most what it was asked for
        KernelConsume(taken);
        submitted := submitted + taken;
      }
    }

    // Copies out completions, oldest first; the kernel posts `meanwhile` after the tail was loaded.
    method Reap(max: nat, meanwhile: seq<Cqe>) returns (results: seq<Cqe>)
      requires Valid() && |posted| + |meanwhile| <= |reaped| + cqEntries
      modifies this`cqHead, this`cqTail, this`posted, this`reaped, cqes
      ensures Valid() && posted == old(posted) + meanwhile
      ensures reaped == old(reaped) + results
      ensures |results| == Min(max, |old(posted)| - |old(reaped)|)
    {
      var head, tail := cqHead, cqTail;
      KernelPostAll(meanwhile);
      results := CopyOut(head, tail, max, |old(posted)|);
      StoreHead(results);
    }

    method StoreHead(results: seq<Cqe>)
      requires Valid() && reaped + results <= posted
      modifies this`cqHead, this`reaped
      ensures Valid() && reaped == old(reaped) + results
    {
      SlotOf(0, cqEntries);
      WrapAddExact(|reaped|, |results|, WORD32);
      cqHead := WrapAdd(cqHead, |results|, WORD32);
      reaped := reaped + results;
    }

    // The entry at index h holds completion i as long as i has not been reaped.
    method CqeAt(h: nat, ghost i: nat) returns (c: Cqe)
      requires Valid() && |reaped| <= i < |posted| && h == Wrap(i, WORD32)
      ensures c == posted[i]
    {
      SlotOf(i, cqEntries);
      assert cqes[..][Wrap(i, cqEntries)] == posted[i];
      c := cqes[And(h, cqEntries - 1)];
    }

    // The copy loop of reap_completions, between the loads of head and tail and the store of head.
    method CopyOut(head: nat, tail: nat, max: nat, ghost seen: nat) returns (results: seq<Cqe>)
      requires Valid() && |reaped| <= seen <= |posted|
      requires head == Wrap(|reaped|, WORD32) && tail == Wrap(seen, WORD32)
      ensures |results| == Min(max, seen - |reaped|)
      ensures results == posted[|reaped|..|reaped| + |results|]
    {
      results := [];
      var h := head;
      ghost var i := |reaped|;
      while h != tail && |results| < max
        invariant |results| <= max && |reaped| <= i <= seen && h == Wrap(i, WORD32)
        invariant results == posted[|reaped|..i]
        decreases max - |results|
      {
        WrapAddExact(i, 1, WORD32);
        assert i < seen;
        var c := CqeAt(h, i);
        OneMore(posted, |reaped|, i);
        results := results + [c];
        h := WrapAdd(h, 1, WORD32);
        i := i + 1;
      }
      if |results| < max {
        SameCounter(i, seen);
      }
    }

    // Equal indices stand for equal counters, because at most a ring's worth is unreaped.
    lemma SameCounter(i: nat, seen: nat)
      requires Valid() && |reaped| <= i <= seen <= |posted| && Wrap(i, WORD32) == Wrap(seen, WORD32)
      ensures i == seen
    {
      SlotOf(0, cqEntries);
      WrapDistinct(i, seen, WORD32);
    }
  }

  // Two entries, of which the kernel takes one: no later flush submits the other.
  method LeaveOneBehind(a: Sqe, b: Sqe, later: seq<Call>) returns (ring: Ring)
    requires forall i :: 0 <= i < |later| ==> later[i].Flushing?
    ensures ring.Valid() && ring.staged == [a, b] && ring.consumed == [a]
  {
    assert RingSize(2) by { assert Pow2(1) == 2; }
    ring := new Ring(2, 2, a, Cqe(0, 0));
    var _ := ring.Submit(a, 0);
    var _ := ring.Submit(b, 0);
    var _ := ring.Flush([1, 0]);
    ring.MakeCalls(later);
  }

  lemma OneMore<T>(s: seq<T>, lo: nat, i: nat)
    requires lo <= i < |s|
    ensures s[lo..i] + [s[i]] == s[lo..i + 1]
  {
  }

  // How many of n requested entries the kernel takes when its enters return `enter`.
  function Taken(enter: seq<int>, n: nat): (t: nat)
    ensures t <= n
  {
    if n == 0 || enter == [] then 0
    else if enter[0] == -EINTR then Taken(enter[1..], n)
    else if enter[0] <= 0 then 0
    else Min(enter[0], n) + Taken(enter[1..], n - Min(enter[0], n))
  }

  // Interruptions alone never lose an entry: all are taken once the other returns add up to enough.
  lemma {:induction false} InterruptionsAreHarmless(enter: seq<int>, n: nat)
    requires forall i :: 0 <= i < |enter| ==> enter[i] == -EINTR || enter[i] > 0
    ensures Taken(enter, n) == Min(n, Sum(enter))
  {
    if n > 0 && enter != [] {
      var taken := if enter[0] > 0 then Min(enter[0], n) else 0;
      InterruptionsAreHarmless(enter[1..], n - taken);
    }
  }

  // Of any returns, those count that come before the first one that is neither an interruption nor progress.
  lemma {:induction false} TakenExact(enter: seq<int>, n: nat, p: nat)
    requires p <= |enter| && forall i :: 0 <= i < p ==> enter[i] == -EINTR || enter[i] > 0
    requires p == |enter| || (enter[p] <= 0 && enter[p] != -EINTR)
    ensures Taken(enter, n) == Min(n, Sum(enter[..p]))
  {
    if n > 0 && p > 0 {
      var taken := if enter[0] > 0 then Min(enter[0], n) else 0;
      assert enter[..p][1..] == enter[1..][..p - 1];
      TakenExact(enter[1..], n - taken, p - 1);
    }
  }

  function Sum(enter: seq<int>): nat {
    if enter == [] then 0 else (if enter[0] > 0 then enter[0] else 0) + Sum(enter[1..])
  }
}
