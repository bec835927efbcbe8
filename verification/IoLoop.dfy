/** lio_loop_run: the event loop together with the submission and completion rings it works through.

    The fields `tags`, `taken`, `done` and `gone` are the kernel's record of the operations: the tags of all
    entries staged so far, how many of them it has taken, the numbers of those it has completed in the order
    of completion, and how many completions have been processed.  `accepts` are the accepts under way.  The kernel
    may complete, in any order and with any result, whatever it has taken; moves that it could not make are
    skipped.  An operation is under way from its staging until its completion is processed.  Handlers are scripts
    of what they do in a turn. */
module IoLoop {
  import opened Common
  import opened EventLoop
  import opened AsyncRing

  // What a handler does in one turn: close its stream, stop the loop, or submit an operation, which suspends it
  // if it can be staged; `enter` is what the kernel answers when the queue is flushed for it.  A handler that
  // comes to the end of its script returns.
  datatype HandlerStep = CloseIt | StopLoop | Operate(sqe: Sqe, enter: seq<int>)

  // The kernel completes operation number `pick`.
  datatype Move = Move(pick: nat, result: int)

  // What happens in one round of the loop.
  datatype Round = Round(turns: nat -> seq<HandlerStep>, enter: seq<int>, moves: seq<Move>, mapOk: nat -> bool)

  const BATCH := 64
  const IORING_OP_ACCEPT := 13

  // The accept that is submitted for a listening socket.
  function AcceptEntry(fd: int): Sqe { Sqe(IORING_OP_ACCEPT, fd, 0, 0, 0, 0, TAG_ACCEPT) }

  // ----- what is staged -----

  // What a handler can change in a turn: the entries staged, whether the loop runs, its own stream, and the room.
  datatype View = View(staged: seq<Sqe>, running: bool, fd: int, room: bool)

  // One step of the handler in slot i: only an operation suspends it, and it does if there is room; what it asked for
  // is staged exactly if it suspends.
  predicate Stepped(step: HandlerStep, i: nat, suspended: bool, v: View, v': View) {
    && (suspended ==> step.Operate?) && (step.Operate? && v.room ==> suspended)
    && v'.staged == (if suspended then v.staged + [step.sqe.(tag := i)] else v.staged)
    && v'.running == (v.running && step != StopLoop)
    && (if step == CloseIt then v'.fd < 0 else v'.fd == v.fd)
    && (!step.Operate? ==> v'.room == v.room)
  }

  // A handler has made `ran` steps of its script, up to an operation that it now waits for if it is suspended, and that
  // operation is all that is staged.  If there was room it is the first in the script.
  predicate Ran(steps: seq<HandlerStep>, i: nat, ran: nat, suspended: bool, v: View, v': View) {
    && ran <= |steps| && (suspended ==> ran > 0 && steps[ran - 1].Operate?)
    && v'.staged == (if suspended then v.staged + [steps[ran - 1].sqe.(tag := i)] else v.staged)
    && v'.running == (v.running && StopLoop !in steps[..ran])
    && (if CloseIt in steps[..ran] then v'.fd < 0 else v'.fd == v.fd)
    && (v.room ==> forall j :: 0 <= j < (if suspended then ran - 1 else ran) ==> !steps[j].Operate?)
    && (v.room && !suspended ==> v'.room)
  }

  lemma NothingRan(steps: seq<HandlerStep>, i: nat, v: View)
    ensures Ran(steps, i, 0, false, v, v)
  {
  }

  lemma RanStep(steps: seq<HandlerStep>, i: nat, ran: nat, suspended: bool, v: View, mid: View, v': View)
    requires ran < |steps| && Ran(steps, i, ran, false, v, mid) && Stepped(steps[ran], i, suspended, mid, v')
    ensures Ran(steps, i, ran + 1, suspended, v, v')
  {
    assert steps[..ran + 1] == steps[..ran] + [steps[ran]];
  }

  // A turn of `ran` steps went to the end of the script, or up to an operation that the handler waits for.
  predicate TurnOk(steps: seq<HandlerStep>, ran: nat, waits: bool) {
    ran <= |steps| && if waits then ran > 0 && steps[ran - 1].Operate? else ran == |steps|
  }

  // What was asked for in such a turn.
  function Request(steps: seq<HandlerStep>, i: nat, ran: nat, waits: bool): seq<Sqe>
    requires TurnOk(steps, ran, waits)
  {
    if waits then [steps[ran - 1].sqe.(tag := i)] else []
  }

  // Slot j was ready and made rans[j] steps, after which it waits or is free.
  ghost predicate TurnMade(turns: nat -> seq<HandlerStep>, ss: seq<Slot>, ss': seq<Slot>, rans: seq<nat>, j: nat) {
    j < |ss| && j < |ss'| && j < |rans| && ss[j].state == Ready && TurnOk(turns(j), rans[j], ss'[j].state == Waiting)
  }

  // What the turns of the first n slots have asked for, in the order of the slots.
  ghost function AskedBy(turns: nat -> seq<HandlerStep>, ss: seq<Slot>, ss': seq<Slot>, rans: seq<nat>, n: nat)
    : seq<Sqe>
  {
    if n == 0 then []
    else
      AskedBy(turns, ss, ss', rans, n - 1) +
      if TurnMade(turns, ss, ss', rans, n - 1)
      then Request(turns(n - 1), n - 1, rans[n - 1], ss'[n - 1].state == Waiting) else []
  }

  // The ready ones of the first n slots have made their turns and asked for `es`.
  ghost predicate Asked(es: seq<Sqe>, turns: nat -> seq<HandlerStep>, ss: seq<Slot>, ss': seq<Slot>, rans: seq<nat>,
                        n: nat)
  {
    && es == AskedBy(turns, ss, ss', rans, n)
    && forall j :: 0 <= j < n && j < |ss| && ss[j].state == Ready ==> TurnMade(turns, ss, ss', rans, j)
  }

  // None of them has stopped the loop.
  ghost predicate NoStop(turns: nat -> seq<HandlerStep>, ss: seq<Slot>, rans: seq<nat>, n: nat) {
    forall j :: 0 <= j < n && j < |ss| && j < |rans| && ss[j].state == Ready && rans[j] <= |turns(j)| ==>
      StopLoop !in turns(j)[..rans[j]]
  }

  // What a handler has asked for in its turn.
  lemma AskedInTurn(steps: seq<HandlerStep>, i: nat, ran: nat, suspended: bool, v: View, v': View)
    returns (more: seq<Sqe>)
    requires Ran(steps, i, ran, suspended, v, v') && (suspended || ran == |steps|)
    ensures TurnOk(steps, ran, suspended) && more == Request(steps, i, ran, suspended)
    ensures v'.staged == v.staged + more && v'.running == (v.running && StopLoop !in steps[..ran])
  {
    more := Request(steps, i, ran, suspended);
  }

  lemma {:induction false} AskedFrame(turns: nat -> seq<HandlerStep>, ss: seq<Slot>, mid: seq<Slot>, ss': seq<Slot>,
                                      rans: seq<nat>, ran: nat, n: nat)
    requires n <= |rans| && |ss'| == |mid| && forall j :: 0 <= j < n && j < |mid| ==> ss'[j] == mid[j]
    ensures AskedBy(turns, ss, ss', rans + [ran], n) == AskedBy(turns, ss, mid, rans, n)
  {
    if n > 0 { AskedFrame(turns, ss, mid, ss', rans, ran, n - 1); }
  }

  lemma AskedOne(es: seq<Sqe>, more: seq<Sqe>, turns: nat -> seq<HandlerStep>, ss: seq<Slot>, mid: seq<Slot>,
                 ss': seq<Slot>, rans: seq<nat>, ran: nat)
    requires Asked(es, turns, ss, mid, rans, |rans|) && |rans| < |ss| == |mid| && SameBut(mid, ss', |rans|)
    requires var i := |rans|; if ss[i].state == Ready then
      TurnOk(turns(i), ran, ss'[i].state == Waiting) && more == Request(turns(i), i, ran, ss'[i].state == Waiting)
      else more == []
    ensures Asked(es + more, turns, ss, ss', rans + [ran], |rans| + 1)
  {
    AskedFrame(turns, ss, mid, ss', rans, ran, |rans|);
    forall j | 0 <= j < |rans| + 1 && j < |ss| && ss[j].state == Ready
      ensures TurnMade(turns, ss, ss', rans + [ran], j)
    {
      assert j < |rans| ==> TurnMade(turns, ss, mid, rans, j);
    }
  }

  lemma NoStopOne(turns: nat -> seq<HandlerStep>, ss: seq<Slot>, rans: seq<nat>, ran: nat)
    requires |rans| < |ss|
    ensures var i := |rans|;
      NoStop(turns, ss, rans + [ran], i + 1) <==>
        NoStop(turns, ss, rans, i) && (ss[i].state == Ready && ran <= |turns(i)| ==> StopLoop !in turns(i)[..ran])
  {
    var i, more := |rans|, rans + [ran];
    assert forall j :: 0 <= j < i ==> more[j] == rans[j];
    assert more[i] == ran;
  }

  predicate IsAccept(c: Cqe) { c.tag == TAG_ACCEPT }

  // How many accepts are renewed for a batch: one for each that is in it, as long as the loop runs and there is room.
  function Renewals(running: bool, results: seq<Cqe>, room: int): nat {
    if running && room > 0 then Min(Count(results, IsAccept), room) else 0
  }

  function Copies(e: Sqe, n: nat): seq<Sqe> { seq(n, _ => e) }

  lemma RenewNext(running: bool, results: seq<Cqe>, k: nat, room: int, staged: seq<Sqe>, e: Sqe)
    requires k < |results|
    ensures var n, n' := Renewals(running, results[..k], room), Renewals(running, results[..k + 1], room);
      && n' == n + (if results[k].tag == TAG_ACCEPT && running && n < room then 1 else 0)
      && (n' == n + 1 ==> staged + Copies(e, n') == staged + Copies(e, n) + [e])
  {
    assert results[..k + 1][..k] == results[..k] && results[..k + 1][k] == results[k];
  }

  // What one round did: the slots before and after the turns, how many steps the handlers made and what they asked
  // for, the completions reaped, and the number of accepts renewed.
  datatype RoundTrace =
    RoundTrace(start: seq<Slot>, turned: seq<Slot>, rans: seq<nat>, asked: seq<Sqe>, results: seq<Cqe>, accepts: nat)

  ghost predicate TraceOk(t: RoundTrace, r: Round) {
    && |t.start| == MAX_SLOTS && Turned(t.start, t.turned, MAX_SLOTS) && Settled(t.turned)
    && Asked(t.asked, r.turns, t.start, t.turned, t.rans, MAX_SLOTS) && t.accepts <= Count(t.results, IsAccept)
  }

  // A handler has stopped the loop, or there is nothing left to do.
  ghost predicate Leaves(t: RoundTrace, r: Round, fd: int) {
    || !NoStop(r.turns, t.start, t.rans, MAX_SLOTS)
    || (fd < 0 && forall j :: 0 <= j < |t.turned| ==> t.turned[j].state == Free)
  }

  lemma NoneActive(ss: seq<Slot>)
    ensures Active(ss) == 0 <==> forall j :: 0 <= j < |ss| ==> ss[j].state == Free
  {
    CountBounds(ss, InUse);
  }

  function Entries(t: RoundTrace, fd: int): seq<Sqe> { t.asked + Copies(AcceptEntry(fd), t.accepts) }

  function AllEntries(trace: seq<RoundTrace>, fd: int): seq<Sqe> {
    if trace == [] then [] else AllEntries(trace[..|trace| - 1], fd) + Entries(trace[|trace| - 1], fd)
  }

  function AllResults(trace: seq<RoundTrace>): seq<Cqe> {
    if trace == [] then [] else AllResults(trace[..|trace| - 1]) + trace[|trace| - 1].results
  }

  lemma NoTrace(fd: int)
    ensures AllEntries([], fd) == [] && AllResults([]) == []
  {
  }

  lemma TraceMore(trace: seq<RoundTrace>, t: RoundTrace, fd: int)
    ensures AllEntries(trace + [t], fd) == AllEntries(trace, fd) + Entries(t, fd)
    ensures AllResults(trace + [t]) == AllResults(trace) + t.results
  {
    assert (trace + [t])[..|trace|] == trace;
  }

  // ----- what the kernel does -----

  predicate PicksBelow(done: seq<Move>, n: nat) { forall k :: 0 <= k < |done| ==> done[k].pick < n }

  // A descriptor that is open, or handed out and not processed yet.
  predicate FdTaken(fd: int, done: seq<Move>, tags: seq<nat>, slots: seq<Slot>, gone: nat)
    requires PicksBelow(done, |tags|)
  {
    || (exists i :: 0 <= i < |slots| && slots[i].fd == fd)
    || (exists k :: gone <= k < |done| && tags[done[k].pick] == TAG_ACCEPT && done[k].result == fd)
  }

  // The kernel has taken the operation and not completed it, the completion ring has room, and a descriptor
  // that it would hand out is not in use.
  predicate Possible(m: Move, done: seq<Move>, tags: seq<nat>, taken: nat, limit: nat, slots: seq<Slot>, gone: nat)
    requires taken <= |tags| && PicksBelow(done, |tags|)
  {
    && m.pick < taken && !Done(done, m.pick) && |done| < limit
    && (tags[m.pick] != TAG_ACCEPT || m.result < 0 || !FdTaken(m.result, done, tags, slots, gone))
  }

  // What has been completed after some moves, of which the impossible ones are skipped.
  function Completed(done: seq<Move>, moves: seq<Move>, tags: seq<nat>, taken: nat, limit: nat, slots: seq<Slot>,
                     gone: nat): (r: seq<Move>)
    requires taken <= |tags| && PicksBelow(done, |tags|)
    ensures PicksBelow(r, |tags|) && done <= r
  {
    if moves == [] then done
    else
      var d, m := Completed(done, moves[..|moves| - 1], tags, taken, limit, slots, gone), moves[|moves| - 1];
      if Possible(m, d, tags, taken, limit, slots, gone) then d + [m] else d
  }

  lemma CompletedNone(done: seq<Move>, moves: seq<Move>, tags: seq<nat>, taken: nat, limit: nat, slots: seq<Slot>,
                      gone: nat)
    requires taken <= |tags| && PicksBelow(done, |tags|)
    ensures Completed(done, moves[..0], tags, taken, limit, slots, gone) == done
  {
  }

  lemma CompletedNext(done: seq<Move>, moves: seq<Move>, k: nat, tags: seq<nat>, taken: nat, limit: nat,
                      slots: seq<Slot>, gone: nat)
    requires taken <= |tags| && PicksBelow(done, |tags|) && k < |moves|
    ensures var d := Completed(done, moves[..k], tags, taken, limit, slots, gone);
      Completed(done, moves[..k + 1], tags, taken, limit, slots, gone) ==
        if Possible(moves[k], d, tags, taken, limit, slots, gone) then d + [moves[k]] else d
  {
    assert moves[..k + 1][..k] == moves[..k];
  }

  // While the loop waited, with n entries staged and `first` completions reaped before, the kernel has made the moves
  // that it could, and `count` is the number of completions then returned: all of them, up to a batch.
  ghost predicate Worked(done: seq<Move>, done': seq<Move>, moves: seq<Move>, tags: seq<nat>, n: nat, taken: nat,
                         first: nat, cqEntries: nat, slots: seq<Slot>, count: nat)
  {
    && taken <= n <= |tags| && PicksBelow(done, n)
    && done' == Completed(done, moves, tags[..n], taken, first + cqEntries, slots, first)
    && count == Min(BATCH, |done'| - first)
  }

  // ----- the operations under way -----

  predicate Done(done: seq<Move>, id: nat) {
    exists k :: 0 <= k < |done| && done[k].pick == id
  }

  // The operations that the first n completions are of.
  ghost function Picks(done: seq<Move>, n: nat): set<OpId>
    requires n <= |done|
  {
    if n == 0 then {} else Picks(done, n - 1) + {done[n - 1].pick}
  }

  lemma {:induction false} PicksAre(done: seq<Move>, n: nat, id: nat)
    requires n <= |done|
    ensures id in Picks(done, n) <==> exists k :: 0 <= k < n && done[k].pick == id
  {
    if n > 0 { PicksAre(done, n - 1, id); }
  }

  lemma {:induction false} PicksPrefix(done: seq<Move>, m: Move, n: nat)
    requires n <= |done|
    ensures Picks(done + [m], n) == Picks(done, n)
  {
    if n > 0 { PicksPrefix(done, m, n - 1); }
  }

  // The completions are of operations that were taken, each completed once, with their tags.
  ghost predicate DoneOk(tags: seq<nat>, taken: nat, done: seq<Move>, posted: seq<Cqe>) {
    && taken <= |tags| && |done| == |posted|
    && (forall j, k :: 0 <= j < k < |done| ==> done[j].pick != done[k].pick)
    && forall k :: 0 <= k < |done| ==> done[k].pick < taken && posted[k] == Cqe(tags[done[k].pick], done[k].result)
  }

  // What the loop takes to be under way is what is staged and not processed.
  ghost predicate Linked(b: Book, tags: seq<nat>, done: seq<Move>, gone: nat) {
    && b.issued == |tags| && gone <= |done|
    && (forall id: nat :: id in b.ops <==> id < |tags| && id !in Picks(done, gone))
    && (forall id: nat :: id in b.ops && id < |tags| ==> b.ops[id] == tags[id])
  }

  // ----- what became of the completions -----

  predicate IsNew(c: Cqe) { c.tag == TAG_ACCEPT && c.result >= 0 }

  // How many of the first n completions are new connections.
  function Accepts(posted: seq<Cqe>, n: nat): nat
    requires n <= |posted|
  {
    Count(posted[..n], IsNew)
  }

  // Completion c of operation id: an I/O completion resumes the connection that issued the operation, with its
  // result; an accept brings a new connection or fails.
  ghost predicate OutcomeOk(o: Outcome, id: OpId, c: Cqe, issuer: map<OpId, nat>) {
    if c.tag != TAG_ACCEPT then id in issuer && o == Resumed(id, issuer[id], c.result)
    else if c.result >= 0 then o.Accepted? && o.op == id else o == Failed(id)
  }

  // Connections have numbers in the order of their coming, below `accepted`.
  predicate Numbered(log: seq<Outcome>, accepted: nat) {
    && (forall k :: 0 <= k < |log| && log[k].Accepted? ==> log[k].conn < accepted)
    && (forall j, k :: 0 <= j < k < |log| && log[j].Accepted? && log[k].Accepted? ==> log[j].conn < log[k].conn)
  }

  // The log has the outcome of every completion processed, in order.
  ghost predicate LogOk(log: seq<Outcome>, done: seq<Move>, posted: seq<Cqe>, issuer: map<OpId, nat>) {
    && |log| <= |done| == |posted|
    && forall k: nat :: k < |log| ==> OutcomeOk(log[k], done[k].pick, posted[k], issuer)
  }

  lemma LogPosted(log: seq<Outcome>, done: seq<Move>, posted: seq<Cqe>, issuer: map<OpId, nat>, m: Move, c: Cqe)
    requires LogOk(log, done, posted, issuer)
    ensures LogOk(log, done + [m], posted + [c], issuer)
    ensures Accepts(posted + [c], |log|) == Accepts(posted, |log|)
  {
    assert (posted + [c])[..|log|] == posted[..|log|];
  }

  lemma LogIssued(log: seq<Outcome>, done: seq<Move>, posted: seq<Cqe>, issuer: map<OpId, nat>, id: OpId, c: nat)
    requires LogOk(log, done, posted, issuer) && id !in issuer
    ensures LogOk(log, done, posted, issuer[id := c])
  {
  }

  lemma LogMore(log: seq<Outcome>, done: seq<Move>, posted: seq<Cqe>, issuer: map<OpId, nat>, o: Outcome, accepted: nat)
    requires LogOk(log, done, posted, issuer) && Numbered(log, accepted) && |log| < |done|
    requires OutcomeOk(o, done[|log|].pick, posted[|log|], issuer) && (o.Accepted? ==> o.conn == accepted)
    ensures LogOk(log + [o], done, posted, issuer)
    ensures Numbered(log + [o], accepted + if IsNew(posted[|log|]) then 1 else 0)
    ensures Accepts(posted, |log| + 1) == Accepts(posted, |log|) + if IsNew(posted[|log|]) then 1 else 0
  {
    var n := |log|;
    assert posted[..n + 1][..n] == posted[..n] && posted[..n + 1][n] == posted[n];
  }

  // When every connection is closed, so is every one that a completion brought.
  lemma AllNewClosed(log: seq<Outcome>, done: seq<Move>, posted: seq<Cqe>, issuer: map<OpId, nat>, f: Files)
    requires LogOk(log, done, posted, issuer) && Numbered(log, f.accepted)
    requires forall c: nat :: c < f.accepted ==> c in f.closed
    ensures forall k :: 0 <= k < |log| && IsNew(posted[k]) ==> log[k].Accepted? && log[k].conn in f.closed
  {
    forall k | 0 <= k < |log| && IsNew(posted[k]) ensures log[k].Accepted? && log[k].conn in f.closed {
      assert OutcomeOk(log[k], done[k].pick, posted[k], issuer);
    }
  }

  // ----- accepts -----

  predicate HasAccept(results: seq<Cqe>) {
    exists k :: 0 <= k < |results| && results[k].tag == TAG_ACCEPT
  }

  // The accepts under way are those that were staged and have not been processed.
  ghost predicate AreAccepts(accepts: set<OpId>, tags: seq<nat>, done: seq<Move>, gone: nat)
    requires gone <= |done|
  {
    forall id: nat :: id in accepts <==> id < |tags| && tags[id] == TAG_ACCEPT && id !in Picks(done, gone)
  }

  lemma AcceptsOf(ss: seq<Slot>, b: Book, tags: seq<nat>, done: seq<Move>, gone: nat)
    requires BookOk(ss, b) && Linked(b, tags, done, gone)
    ensures AreAccepts(b.accepts, tags, done, gone)
  {
  }

  // More entries have been staged, all of them accepts, and some exactly if `some`.
  ghost predicate OnlyAccepts(tags: seq<nat>, tags': seq<nat>, some: bool) {
    && tags <= tags' && (|tags| < |tags'| <==> some)
    && forall i :: |tags| <= i < |tags'| ==> tags'[i] == TAG_ACCEPT
  }

  // After a batch an accept is under way if one was and is not in the batch, or if one was staged meanwhile.
  lemma AcceptsAfter(accepts: set<OpId>, tags: seq<nat>, done: seq<Move>, gone: nat, n: nat, some: bool,
                     accepts': set<OpId>, tags': seq<nat>)
    requires gone <= n <= |done| && AreAccepts(accepts, tags, done, gone) && AreAccepts(accepts', tags', done, n)
    requires OnlyAccepts(tags, tags', some) && forall k :: 0 <= k < n ==> done[k].pick < |tags|
    ensures accepts' != {} <==> (exists id :: id in accepts && !Done(done[gone..n], id)) || some
  {
    forall id: nat ensures id in Picks(done, n) <==> id in Picks(done, gone) || Done(done[gone..n], id) {
      PicksSplit(done, gone, n, id);
    }
    if some {
      PicksAre(done, n, |tags|);
      assert |tags| in accepts';
    }
    if id :| id in accepts && !Done(done[gone..n], id) {
      assert id in accepts';
    }
    if id :| id in accepts' && id < |tags| {
      assert id in accepts && !Done(done[gone..n], id);
    }
  }

  lemma PicksSplit(done: seq<Move>, gone: nat, n: nat, id: nat)
    requires gone <= n <= |done|
    ensures id in Picks(done, n) <==> id in Picks(done, gone) || Done(done[gone..n], id)
  {
    PicksAre(done, n, id);
    PicksAre(done, gone, id);
    if k :| gone <= k < n && done[k].pick == id { assert done[gone..n][k - gone].pick == id; }
    if k :| 0 <= k < n - gone && done[gone..n][k].pick == id { assert done[gone + k].pick == id; }
  }

  // Without an accept under way there is none among the completions to come, and no new connection.
  lemma NoneToCome(accepts: set<OpId>, tags: seq<nat>, taken: nat, done: seq<Move>, posted: seq<Cqe>, gone: nat, n: nat)
    requires gone <= n <= |done| && DoneOk(tags, taken, done, posted)
    requires AreAccepts(accepts, tags, done, gone) && accepts == {}
    ensures !HasAccept(posted[gone..n]) && Accepts(posted, n) == Accepts(posted, gone)
  {
    forall k | gone <= k < n ensures posted[k].tag != TAG_ACCEPT {
      PicksAre(done, gone, done[k].pick);
      assert done[k].pick !in accepts;
    }
    NoneNew(posted, gone, n);
  }

  lemma {:induction false} NoneNew(posted: seq<Cqe>, gone: nat, n: nat)
    requires gone <= n <= |posted| && forall k :: gone <= k < n ==> !IsNew(posted[k])
    ensures Accepts(posted, n) == Accepts(posted, gone)
  {
    if gone < n {
      NoneNew(posted, gone, n - 1);
      assert posted[..n][..n - 1] == posted[..n - 1] && posted[..n][n - 1] == posted[n - 1];
    }
  }

  lemma StageNext(tags: seq<nat>, tags': seq<nat>, tags'': seq<nat>, results: seq<Cqe>, k: nat, can: bool, next: bool)
    requires k < |results| && OnlyAccepts(tags, tags', can && HasAccept(results[..k]))
    requires tags'' == if next then tags' + [TAG_ACCEPT] else tags'
    requires |tags'| == |tags| ==> (next <==> results[k].tag == TAG_ACCEPT && can)
    ensures OnlyAccepts(tags, tags'', can && HasAccept(results[..k + 1]))
  {
    AcceptNext(results[..k], results[k]);
    assert results[..k + 1] == results[..k] + [results[k]];
  }

  lemma AcceptNext(results: seq<Cqe>, c: Cqe)
    ensures HasAccept(results + [c]) <==> HasAccept(results) || c.tag == TAG_ACCEPT
  {
    assert (results + [c])[|results|] == c;
    assert forall j :: 0 <= j < |results| ==> (results + [c])[j] == results[j];
  }

  // ----- batches -----

  // The first n completions of a batch have led to what the log says, from place `first` on.
  ghost predicate AllHandled(log: seq<Outcome>, first: nat, results: seq<Cqe>, n: nat, ss: seq<Slot>, f: Files) {
    && n <= |results| && first + n <= |log|
    && forall k :: 0 <= k < n ==> Handled(log[first + k], results[k].tag, results[k].result, ss, f)
  }

  lemma NoneYet(log: seq<Outcome>, results: seq<Cqe>, ss: seq<Slot>, f: Files, tags: seq<nat>, running: bool, room: int,
                e: Sqe)
    ensures AllHandled(log, |log|, results, 0, ss, f) && OnlyAccepts(tags, tags, false) && !HasAccept(results[..0])
    ensures Renewals(running, results[..0], room) == 0 && Copies(e, 0) == []
  {
  }

  lemma HandleNext(log: seq<Outcome>, log': seq<Outcome>, first: nat, results: seq<Cqe>, n: nat,
                   ss: seq<Slot>, f: Files, ss': seq<Slot>, f': Files)
    requires AllHandled(log, first, results, n, ss, f) && n < |results| && log <= log' && |log'| == first + n + 1
    requires Woken(results[n].tag, results[n].result, ss, ss') && Extends(f, f')
    requires Handled(log'[first + n], results[n].tag, results[n].result, ss', f')
    ensures AllHandled(log', first, results, n + 1, ss', f') && (Resting(ss) ==> Resting(ss'))
  {
    forall k | 0 <= k < n ensures Handled(log'[first + k], results[k].tag, results[k].result, ss', f') {
      var c := results[n];
      StaysHandled(log[first + k], results[k].tag, results[k].result, ss, f, ss', f', c.tag, c.result);
      assert log'[first + k] == log[first + k];
    }
  }

  // ----- descriptors -----

  // Accepted descriptors that are not processed yet are new.
  ghost predicate NewFds(conn: map<int, nat>, posted: seq<Cqe>, gone: nat) {
    && (forall k :: gone <= k < |posted| && posted[k].tag == TAG_ACCEPT ==> posted[k].result !in conn)
    && (forall j, k :: gone <= j < k < |posted| && posted[j].tag == posted[k].tag == TAG_ACCEPT && posted[j].result >= 0
          ==> posted[j].result != posted[k].result)
  }

  lemma LinkStage(b: Book, tags: seq<nat>, done: seq<Move>, gone: nat, tag: nat, b': Book)
    requires Linked(b, tags, done, gone) && forall k :: 0 <= k < |done| ==> done[k].pick < |tags|
    requires b'.ops == b.ops[|tags| := tag] && b'.issued == |tags| + 1
    ensures Linked(b', tags + [tag], done, gone)
  {
    PicksAre(done, gone, |tags|);
  }

  // The next completion to be processed is of an operation under way, and takes it away.
  lemma LinkReap(b: Book, tags: seq<nat>, done: seq<Move>, gone: nat, taken: nat, posted: seq<Cqe>)
    requires Linked(b, tags, done, gone) && DoneOk(tags, taken, done, posted) && gone < |done|
    ensures var id := done[gone].pick;
      && id in b.ops && b.ops[id] == posted[gone].tag && posted[gone].result == done[gone].result
      && Linked(AfterCompletion(b, id), tags, done, gone + 1)
  {
    var id := done[gone].pick;
    PicksAre(done, gone, id);
    assert Picks(done, gone + 1) == Picks(done, gone) + {id};
  }

  // After a completion other descriptors may have been closed, and one that was accepted opened.
  lemma FdsStayNew(conn: map<int, nat>, conn': map<int, nat>, posted: seq<Cqe>, gone: nat)
    requires NewFds(conn, posted, gone) && gone < |posted| && forall fd :: fd in conn' ==> fd >= 0
    requires conn'.Keys <= conn.Keys + (if posted[gone].tag == TAG_ACCEPT then {posted[gone].result} else {})
    ensures NewFds(conn', posted, gone + 1)
  {
  }

  // Connections are accepted and closed, and none is forgotten.
  ghost predicate Grows(f: Files, f': Files) {
    f.accepted <= f'.accepted && f.closed <= f'.closed
  }

  // Slots keep the connections they came with, or those are closed.
  ghost predicate CameFrom(f: Files, f': Files) {
    forall j: nat :: j in f.came ==> if j in f'.came then f'.came[j] == f.came[j] else f.came[j] in f'.closed
  }

  // No coroutine is in the middle of a turn.
  ghost predicate Resting(ss: seq<Slot>) { forall j :: 0 <= j < |ss| ==> ss[j].state in {Free, Ready, Waiting} }

  // Nor is one ready for a turn.
  ghost predicate Settled(ss: seq<Slot>) { forall j :: 0 <= j < |ss| ==> ss[j].state in {Free, Waiting} }

  // The ready ones of the first n slots have had their turn, and all others are as they were.
  ghost predicate Turned(ss: seq<Slot>, ss': seq<Slot>, n: nat) {
    && |ss'| == |ss|
    && forall j :: 0 <= j < |ss| ==>
         if j < n && ss[j].state == Ready then ss'[j].state in {Free, Waiting} else ss'[j] == ss[j]
  }

  lemma TurnOne(ss: seq<Slot>, mid: seq<Slot>, ss': seq<Slot>, i: nat)
    requires Turned(ss, mid, i) && i < |ss| && SameBut(mid, ss', i)
    requires if mid[i].state == Ready then ss'[i].state in {Free, Waiting} else ss'[i] == mid[i]
    ensures Turned(ss, ss', i + 1) && mid[i] == ss[i]
  {
  }

  lemma NoTurnYet(turns: nat -> seq<HandlerStep>, ss: seq<Slot>, f: Files)
    ensures Turned(ss, ss, 0) && CameFrom(f, f) && Asked([], turns, ss, ss, [], 0) && NoStop(turns, ss, [], 0)
  {
  }

  lemma AllTurned(ss: seq<Slot>, ss': seq<Slot>, n: nat)
    requires |ss| == n && Resting(ss) && Turned(ss, ss', n)
    ensures Settled(ss')
  {
  }

  lemma SettledRests(ss: seq<Slot>)
    requires Settled(ss)
    ensures Resting(ss)
  {
  }

  lemma CameOn(f: Files, mid: Files, f': Files, i: nat, suspended: bool)
    requires CameFrom(f, mid) && mid.closed <= f'.closed && i in mid.came
    requires if suspended then f'.came == mid.came else f'.came == mid.came - {i} && mid.came[i] in f'.closed
    ensures CameFrom(f, f')
  {
  }

  // The loop's books agree with the kernel's record: what is under way is what is staged and not processed; every
  // completion that was processed is in the log; and the connections are those that came with them.
  ghost predicate Matched(b: Book, f: Files, log: seq<Outcome>, tags: seq<nat>, done: seq<Move>, posted: seq<Cqe>) {
    && Linked(b, tags, done, |log|) && LogOk(log, done, posted, b.issuer) && Numbered(log, f.accepted)
    && f.accepted == Accepts(posted, |log|) && NewFds(f.conn, posted, |log|)
  }

  // The next completion is processed by the loop, and what it led to joins the log.
  method ProcessInLoop(loop: Loop, c: Cqe, mapOk: bool, ghost tags: seq<nat>, ghost taken: nat, ghost done: seq<Move>,
                       ghost posted: seq<Cqe>)
    requires loop.Valid() && |loop.log| < |posted| && c == posted[|loop.log|] && DoneOk(tags, taken, done, posted)
    requires Matched(loop.book, loop.files, loop.log, tags, done, posted)
    modifies loop
    ensures loop.Valid() && |loop.log| == |old(loop.log)| + 1
    ensures Matched(loop.book, loop.files, loop.log, tags, done, posted)
    ensures old(loop.log) <= loop.log && Handled(loop.log[|old(loop.log)|], c.tag, c.result, loop.slots, loop.files)
    ensures Woken(c.tag, c.result, old(loop.slots), loop.slots) && Extends(old(loop.files), loop.files)
    ensures old(loop.files).accepted <= loop.files.accepted
  {
    ghost var gone := |loop.log|;
    LinkReap(loop.book, tags, done, gone, taken, posted);
    loop.OnCompletion(done[gone].pick, c.tag, c.result, mapOk);
    LogMore(old(loop.log), done, posted, loop.book.issuer, loop.log[gone], old(loop.files).accepted);
    FdsStayNew(old(loop.files).conn, loop.files.conn, posted, gone);
  }

  class IoLoop {
    const loop: Loop
    const ring: Ring
    var running: bool
    var serverFd: int            // the listening socket, or negative
    var tags: seq<nat>
    var taken: nat
    var done: seq<Move>
    var gone: nat
    var reaped: nat
    ghost var accepts: set<OpId>

    // The rings and the kernel's record of them.
    ghost predicate Synced()
      reads this`tags, this`taken, this`done, ring, ring.sqes, ring.sqArray, ring.cqes
    {
      && ring.Valid() && |tags| == |ring.staged| && (forall i :: 0 <= i < |tags| ==> ring.staged[i].tag == tags[i])
      && taken == |ring.consumed| && DoneOk(tags, taken, done, ring.posted)
    }

    ghost predicate Valid()
      reads this, loop, ring, ring.sqes, ring.sqArray, ring.cqes
    {
      && loop.Valid() && Synced() && |loop.log| == gone <= reaped == |ring.reaped|
      && Matched(loop.book, loop.files, loop.log, tags, done, ring.posted) && accepts == loop.book.accepts
    }

    constructor (entries: nat, cqEntries: nat)
      requires RingSize(entries) && RingSize(cqEntries)
      ensures Valid() && fresh(loop) && fresh(ring) && fresh(ring.sqes) && fresh(ring.sqArray) && fresh(ring.cqes)
      ensures loop.files.accepted == 0 && loop.log == [] && accepts == {} && !running && serverFd < 0
      ensures tags == [] && taken == 0 && done == [] && gone == 0 && Resting(loop.slots) && ring.entries == entries
      ensures ring.cqEntries == cqEntries && ring.sqPending == 0 && loop.activeCount == 0
    {
      loop := new Loop();
      ring := new Ring(entries, cqEntries, Sqe(0, 0, 0, 0, 0, 0, 0), Cqe(0, 0));
      running, serverFd, tags, taken, done, gone, reaped, accepts := false, -1, [], 0, [], 0, 0, {};
    }

    // Stages an entry with a tag, if there is room.
    method Stage(sqe: Sqe, tag: nat) returns (ok: bool)
      requires Synced()
      modifies this`tags, ring, ring.sqes, ring.sqArray
      ensures Synced() && ring.posted == old(ring.posted) && ring.reaped == old(ring.reaped)
      ensures ring.published == old(ring.published)
      ensures ring.sqPending == old(ring.sqPending) + (if ok then 1 else 0)
      ensures ok <==> old(HasRoom())
      ensures tags == if ok then old(tags) + [tag] else old(tags)
      ensures ring.staged == if ok then old(ring.staged) + [sqe.(tag := tag)] else old(ring.staged)
      ensures !ok ==> |tags| - taken == ring.entries
    {
      ok := ring.Submit(sqe.(tag := tag), 0);
      if ok {
        tags := tags + [tag];
      }
    }

    // Is there room for another entry?
    predicate HasRoom()
      reads this`tags, this`taken
    {
      |tags| - taken < ring.entries
    }

    // There is room, or the kernel takes something when the queue is flushed.
    predicate CanStage(enter: seq<int>)
      reads this`tags, this`taken, ring`sqPending
    {
      HasRoom() || Taken(enter, ring.sqPending) > 0
    }

    // What the handler in slot i sees.
    ghost function ViewOf(i: nat): View
      requires i < |loop.slots|
      reads this, loop, ring
    {
      View(ring.staged, running, loop.slots[i].fd, HasRoom())
    }

    lemma InBounds()
      requires Valid()
      ensures |loop.slots| == MAX_SLOTS && |tags| - taken <= ring.entries && loop.activeCount == Active(loop.slots)
      ensures taken <= |tags| && PicksBelow(done, |tags|)
    {
    }

    // lio_try_submit_read and its like: at once, or after a flush.
    method TryStage(sqe: Sqe, tag: nat, enter: seq<int>) returns (ok: bool)
      requires Synced()
      modifies this`tags, this`taken, ring, ring.sqes, ring.sqArray
      ensures Synced() && ring.posted == old(ring.posted) && ring.reaped == old(ring.reaped)
      ensures ok <==> old(CanStage(enter))
      ensures tags == if ok then old(tags) + [tag] else old(tags)
      // the entry is the operation that was asked for, with the tag
      ensures ring.staged == if ok then old(ring.staged) + [sqe.(tag := tag)] else old(ring.staged)
    {
      ok := Stage(sqe, tag);
      if !ok {
        Flush(enter);
        ok := Stage(sqe, tag);
      }
    }

    // lc_async_flush
    method Flush(enter: seq<int>)
      requires Synced()
      modifies this`taken, ring
      ensures Synced() && taken == old(taken) + Taken(enter, old(ring.sqPending))
      ensures ring.posted == old(ring.posted) && ring.reaped == old(ring.reaped) && ring.staged == old(ring.staged)
      ensures ring.published == |ring.staged| && ring.sqPending == 0
    {
      var n := ring.Flush(enter);
      taken := taken + n;
    }

    // lio_read, lio_write and lio_sleep of the running coroutine i: the operation is staged at once or after a
    // flush, and then the coroutine suspends; otherwise it goes on without.
    method SubmitAndSuspend(i: nat, sqe: Sqe, enter: seq<int>) returns (suspended: bool)
      requires Valid() && i < MAX_SLOTS && loop.slots[i].state == Running
      modifies this`tags, this`taken, loop`book, loop`slots, ring, ring.sqes, ring.sqArray
      ensures Valid() && ring.posted == old(ring.posted) && ring.reaped == old(ring.reaped)
      ensures suspended <==> old(CanStage(enter))
      ensures ring.staged == if suspended then old(ring.staged) + [sqe.(tag := i)] else old(ring.staged)
      ensures loop.slots ==
        if suspended then old(loop.slots)[i := old(loop.slots[i]).(state := Waiting)] else old(loop.slots)
    {
      hide loop.Valid, ring.Valid;
      suspended := TryStage(sqe, i, enter);
      if suspended {
        loop.Suspend(i);
        LinkStage(old(loop.book), old(tags), done, gone, i, loop.book);
        LogIssued(loop.log, done, ring.posted, old(loop.book).issuer, |old(tags)|, loop.files.came[i]);
      }
    }

    // The accept for the listening socket is staged exactly if there is room for it.
    method SubmitAccept()
      requires Valid()
      modifies this`tags, this`accepts, loop`book, ring, ring.sqes, ring.sqArray
      ensures Valid() && ring.posted == old(ring.posted) && ring.reaped == old(ring.reaped)
      ensures ring.published == old(ring.published)
      ensures tags == if old(HasRoom()) then old(tags) + [TAG_ACCEPT] else old(tags)
      ensures ring.staged == if old(HasRoom()) then old(ring.staged) + [AcceptEntry(serverFd)] else old(ring.staged)
      ensures accepts == if old(HasRoom()) then old(accepts) + {|old(tags)|} else old(accepts)
    {
      hide loop.Valid, ring.Valid;
      var ok := Stage(AcceptEntry(serverFd), TAG_ACCEPT);
      if ok {
        accepts := accepts + {loop.book.issued};
        loop.AcceptStaged();
        LinkStage(old(loop.book), old(tags), done, gone, TAG_ACCEPT, loop.book);
      }
    }

    // The end of lio_tcp_serve: the socket listens, and the first accept is staged if there is room for it.
    method Serve(fd: int)
      requires Valid() && fd >= 0
      modifies this`serverFd, this`tags, this`accepts, loop`book, ring, ring.sqes, ring.sqArray
      ensures Valid() && serverFd == fd && ring.sqPending == old(ring.sqPending) + (if old(HasRoom()) then 1 else 0)
      ensures tags == if old(HasRoom()) then old(tags) + [TAG_ACCEPT] else old(tags)
      ensures ring.staged == if old(HasRoom()) then old(ring.staged) + [AcceptEntry(fd)] else old(ring.staged)
      ensures accepts == if old(HasRoom()) then old(accepts) + {|old(tags)|} else old(accepts)
    {
      serverFd := fd;
      SubmitAccept();
    }

    // One turn of slot i: its coroutine is entered and runs until it suspends or returns; `ran` is how many steps of
    // its handler it made, and `end` what it has come to.
    method RunTurn(i: nat, steps: seq<HandlerStep>) returns (suspended: bool, ghost ran: nat, ghost end: View)
      requires Valid() && i < MAX_SLOTS && loop.slots[i].state == Ready
      modifies this`tags, this`taken, this`running, ring, ring.sqes, ring.sqArray
      modifies loop`book, loop`slots, loop`files, loop`current, loop`activeCount
      ensures Valid() && Shrinks(old(loop.files), loop.files) && i in old(loop.files).came
      ensures ring.posted == old(ring.posted) && ring.reaped == old(ring.reaped)
      ensures suspended ==> loop.slots[i].state == Waiting && loop.files.came == old(loop.files).came
      // by the time its slot is free, the connection it was given is closed
      ensures !suspended ==> loop.slots[i].state == Free && old(loop.files).came[i] in loop.files.closed
      ensures !suspended ==> loop.files.came == old(loop.files).came - {i}
      ensures SameBut(old(loop.slots), loop.slots, i)
      // it has made the steps of its script up to an operation that it waits for, or all of them
      ensures Ran(steps, i, ran, suspended, old(ViewOf(i)), end) && (suspended || ran == |steps|)
      ensures ring.staged == end.staged && running == end.running && (suspended ==> loop.slots[i].fd == end.fd)
    {
      hide Ran, loop.Valid, ring.Valid, Synced, Matched;
      InBounds();
      suspended, ran := Resume(i, steps);
      end := ViewOf(i);
      if !suspended {
        Finish(i);
      }
    }

    method Resume(i: nat, steps: seq<HandlerStep>) returns (suspended: bool, ghost ran: nat)
      requires Valid() && i < MAX_SLOTS && loop.slots[i].state == Ready
      modifies this`tags, this`taken, this`running, ring, ring.sqes, ring.sqArray
      modifies loop`book, loop`slots, loop`files, loop`current, loop`activeCount
      ensures Valid() && Shrinks(old(loop.files), loop.files) && loop.files.came == old(loop.files).came
      ensures i in loop.files.came && loop.slots[i].state == if suspended then Waiting else Running
      ensures ring.posted == old(ring.posted) && ring.reaped == old(ring.reaped)
      ensures SameBut(old(loop.slots), loop.slots, i)
      ensures Ran(steps, i, ran, suspended, old(ViewOf(i)), ViewOf(i)) && (suspended || ran == |steps|)
    {
      hide Ran, loop.Valid, ring.Valid, Synced, Matched;
      InBounds();
      Enter(i);
      suspended, ran := RunSteps(i, steps);
    }

    method Enter(i: nat)
      requires Valid() && i < MAX_SLOTS && loop.slots[i].state == Ready
      modifies loop`slots, loop`current
      ensures Valid() && loop.slots == old(loop.slots)[i := old(loop.slots[i]).(state := Running)]
      ensures i in loop.files.came
    {
      loop.Enter(i);
    }

    method Finish(i: nat)
      requires Valid() && i < MAX_SLOTS && loop.slots[i].state == Running
      modifies loop`slots, loop`files, loop`activeCount
      ensures Valid() && Shrinks(old(loop.files), loop.files) && SameBut(old(loop.slots), loop.slots, i)
      ensures loop.slots[i].state == Free && i in old(loop.files).came && old(loop.files).came[i] in loop.files.closed
      ensures loop.files.came == old(loop.files).came - {i}
    {
      loop.Finish(i);
    }

    method RunSteps(i: nat, steps: seq<HandlerStep>) returns (suspended: bool, ghost ran: nat)
      requires Valid() && i < MAX_SLOTS && loop.slots[i].state == Running
      modifies this`tags, this`taken, this`running, loop`book, loop`slots, loop`files, ring, ring.sqes, ring.sqArray
      ensures Valid() && Shrinks(old(loop.files), loop.files) && loop.files.came == old(loop.files).came
      ensures loop.slots[i].state == if suspended then Waiting else Running
      ensures ring.posted == old(ring.posted) && ring.reaped == old(ring.reaped)
      ensures SameBut(old(loop.slots), loop.slots, i)
      ensures Ran(steps, i, ran, suspended, old(ViewOf(i)), ViewOf(i)) && (suspended || ran == |steps|)
    {
      hide ring.Valid, Ran, Stepped, Matched, Synced;
      suspended := false;
      var k := 0;
      ghost var start := ViewOf(i);
      NothingRan(steps, i, start);
      while k < |steps| && !suspended
        invariant k <= |steps| && Valid() && Shrinks(old(loop.files), loop.files)
        invariant loop.files.came == old(loop.files).came && SameBut(old(loop.slots), loop.slots, i)
        invariant loop.slots[i].state == if suspended then Waiting else Running
        invariant ring.posted == old(ring.posted) && ring.reaped == old(ring.reaped)
        invariant Ran(steps, i, k, suspended, start, ViewOf(i))
        decreases |steps| - k
      {
        ghost var mid := ViewOf(i);
        suspended := RunStep(i, steps[k]);
        RanStep(steps, i, k, suspended, start, mid, ViewOf(i));
        k := k + 1;
      }
      ran := k;
    }

    method RunStep(i: nat, step: HandlerStep) returns (suspended: bool)
      requires Valid() && i < MAX_SLOTS && loop.slots[i].state == Running
      modifies this`tags, this`taken, this`running, loop`book, loop`slots, loop`files, ring, ring.sqes, ring.sqArray
      ensures Valid() && Shrinks(old(loop.files), loop.files) && loop.files.came == old(loop.files).came
      ensures loop.slots[i].state == if suspended then Waiting else Running
      ensures ring.posted == old(ring.posted) && ring.reaped == old(ring.reaped)
      ensures SameBut(old(loop.slots), loop.slots, i)
      ensures suspended <==> step.Operate? && old(CanStage(step.enter))
      ensures Stepped(step, i, suspended, old(ViewOf(i)), ViewOf(i))
    {
      hide loop.Valid, ring.Valid, Synced, Matched;
      InBounds();
      suspended := false;
      match step {
        case CloseIt => CloseStream(i);
        case StopLoop => running := false;
        case Operate(sqe, enter) => suspended := SubmitAndSuspend(i, sqe, enter);
      }
    }

    method CloseStream(i: nat)
      requires Valid() && i < MAX_SLOTS && loop.slots[i].state == Running
      modifies loop`slots, loop`files
      ensures Valid() && Shrinks(old(loop.files), loop.files) && loop.files.came == old(loop.files).came
      ensures loop.slots[i].state == Running && loop.slots[i].fd < 0 && SameBut(old(loop.slots), loop.slots, i)
    {
      loop.CloseStream(i);
    }

    // The first phase of lio_loop_run: every ready coroutine gets one turn.
    method RunReady(turns: nat -> seq<HandlerStep>) returns (ghost asked: seq<Sqe>, ghost rans: seq<nat>)
      requires Valid() && Resting(loop.slots)
      modifies this`tags, this`taken, this`running, ring, ring.sqes, ring.sqArray
      modifies loop`book, loop`slots, loop`files, loop`current, loop`activeCount
      ensures Valid() && Shrinks(old(loop.files), loop.files)
      ensures Settled(loop.slots) && ring.posted == old(ring.posted) && ring.reaped == old(ring.reaped)
      // a slot that was not ready is untouched; a connection whose slot was freed is closed
      ensures Turned(old(loop.slots), loop.slots, MAX_SLOTS) && CameFrom(old(loop.files), loop.files)
      // the entries staged are what the coroutines that now wait have asked for, one each, in the order of their slots
      ensures ring.staged == old(ring.staged) + asked
      ensures Asked(asked, turns, old(loop.slots), loop.slots, rans, MAX_SLOTS)
      // the loop goes on unless one of the steps made has stopped it
      ensures running == (old(running) && NoStop(turns, old(loop.slots), rans, MAX_SLOTS))
    {
      hide ring.Valid, loop.Valid, Asked, CameFrom, Turned, Matched, Synced, NoStop;
      asked, rans := [], [];
      InBounds();
      NoTurnYet(turns, loop.slots, loop.files);
      for i := 0 to MAX_SLOTS
        invariant Valid() && Shrinks(old(loop.files), loop.files) && CameFrom(old(loop.files), loop.files)
        invariant ring.posted == old(ring.posted) && ring.reaped == old(ring.reaped)
        invariant Turned(old(loop.slots), loop.slots, i)
        invariant |rans| == i && ring.staged == old(ring.staged) + asked
        invariant Asked(asked, turns, old(loop.slots), loop.slots, rans, i)
        invariant running == (old(running) && NoStop(turns, old(loop.slots), rans, i))
      {
        ghost var more, ran := TurnIfReady(i, turns, old(loop.slots), old(loop.files), asked, rans, old(running));
        asked, rans := asked + more, rans + [ran];
      }
      AllTurned(old(loop.slots), loop.slots, MAX_SLOTS);
    }

    method TurnIfReady(i: nat, turns: nat -> seq<HandlerStep>, ghost ss: seq<Slot>, ghost f: Files,
                       ghost asked: seq<Sqe>, ghost rans: seq<nat>, ghost began: bool)
      returns (ghost more: seq<Sqe>, ghost ran: nat)
      requires Valid() && i < MAX_SLOTS == |ss| && |rans| == i
      requires Shrinks(f, loop.files) && CameFrom(f, loop.files) && Turned(ss, loop.slots, i)
      requires Asked(asked, turns, ss, loop.slots, rans, i) && running == (began && NoStop(turns, ss, rans, i))
      modifies this`tags, this`taken, this`running, ring, ring.sqes, ring.sqArray
      modifies loop`book, loop`slots, loop`files, loop`current, loop`activeCount
      ensures Valid() && Shrinks(f, loop.files) && CameFrom(f, loop.files) && Turned(ss, loop.slots, i + 1)
      ensures ring.posted == old(ring.posted) && ring.reaped == old(ring.reaped)
      ensures ring.staged == old(ring.staged) + more
      ensures Asked(asked + more, turns, ss, loop.slots, rans + [ran], i + 1)
      ensures running == (began && NoStop(turns, ss, rans + [ran], i + 1))
    {
      hide ring.Valid, loop.Valid, Asked, CameFrom, Turned, Ran, TurnOk, Request, Matched, Synced, NoStop;
      more, ran := [], 0;
      InBounds();
      if loop.slots[i].state == Ready {
        var suspended;
        ghost var end;
        suspended, ran, end := RunTurn(i, turns(i));
        CameOn(f, old(loop.files), loop.files, i, suspended);
        more := AskedInTurn(turns(i), i, ran, suspended, old(ViewOf(i)), end);
      }
      TurnOne(ss, old(loop.slots), loop.slots, i);
      AskedOne(asked, more, turns, ss, old(loop.slots), loop.slots, rans, ran);
      NoStopOne(turns, ss, rans, ran);
    }

    // A move that the kernel can make now.
    predicate CanMove(m: Move)
      requires taken <= |tags| && PicksBelow(done, |tags|)
      reads this, loop
    {
      Possible(m, done, tags, taken, reaped + ring.cqEntries, loop.slots, gone)
    }

    // The kernel completes an operation, if it can.
    method KernelMove(m: Move)
      requires Valid()
      modifies this`done, ring, ring.cqes
      ensures Valid() && done == if old(CanMove(m)) then old(done) + [m] else old(done)
      ensures ring.reaped == old(ring.reaped)
      ensures ring.staged == old(ring.staged) && ring.published == old(ring.published)
    {
      if CanMove(m) {
        var tag := tags[m.pick];
        PostedIsNew(m, tag);
        LogPosted(loop.log, done, ring.posted, loop.book.issuer, m, Cqe(tag, m.result));
        ring.KernelPost(Cqe(tag, m.result));
        done := done + [m];
      }
    }

    lemma PostedIsNew(m: Move, tag: nat)
      requires Valid() && m.pick < taken && tag == tags[m.pick]
      requires tag != TAG_ACCEPT || m.result < 0 || !FdTaken(m.result, done, tags, loop.slots, gone)
      ensures NewFds(loop.files.conn, ring.posted + [Cqe(tag, m.result)], gone)
      ensures Linked(loop.book, tags, done + [m], gone)
    {
      PicksPrefix(done, m, gone);
      if tag == TAG_ACCEPT {
        assert m.result !in loop.files.conn;
      }
    }

    // lc_async_wait: flushes, lets the kernel work, and reaps a batch of completions.
    method Wait(enter: seq<int>, moves: seq<Move>) returns (results: seq<Cqe>)
      requires Valid() && gone == reaped
      modifies this`taken, this`done, this`reaped, ring
      modifies ring, ring.cqes
      ensures Valid() && Batch(results, gone) && ring.reaped == old(ring.reaped) + results
      ensures ring.staged == old(ring.staged)
      // everything staged has been published, and the kernel has taken what it answers
      ensures ring.published == |ring.staged| && taken == old(taken) + Taken(enter, old(ring.sqPending))
      // it has made all moves that it could, and as many completions as there are, up to a batch, are returned
      ensures done == Completed(old(done), moves, tags, taken, old(reaped) + ring.cqEntries, loop.slots, gone)
      ensures |results| == Min(BATCH, |done| - old(reaped))
    {
      hide loop.Valid, ring.Valid, Completed, Matched, DoneOk;
      Flush(enter);
      KernelMoves(moves);
      results := Reap();
    }

    method Reap() returns (results: seq<Cqe>)
      requires Valid() && gone == reaped
      modifies this`reaped, ring, ring.cqes
      ensures Valid() && Batch(results, gone) && |results| == Min(BATCH, |done| - old(reaped))
      ensures ring.reaped == old(ring.reaped) + results
      ensures ring.staged == old(ring.staged) && ring.published == old(ring.published)
    {
      hide loop.Valid, ring.Valid;
      results := ReapRing();
      reaped := reaped + |results|;
    }

    // reap_completions
    method ReapRing() returns (results: seq<Cqe>)
      requires Synced()
      modifies ring, ring.cqes
      ensures Synced() && ring.posted == old(ring.posted) && ring.reaped == old(ring.reaped) + results <= ring.posted
      ensures |results| == Min(BATCH, |ring.posted| - |old(ring.reaped)|)
      ensures ring.staged == old(ring.staged) && ring.published == old(ring.published)
    {
      results := ring.Reap(BATCH, []);
      assert ring.posted == old(ring.posted);
    }

    method KernelMoves(moves: seq<Move>)
      requires Valid()
      modifies this`done, ring, ring.cqes
      ensures Valid() && |old(done)| <= |done| && ring.reaped == old(ring.reaped)
      ensures ring.staged == old(ring.staged) && ring.published == old(ring.published)
      ensures done == Completed(old(done), moves, tags, taken, reaped + ring.cqEntries, loop.slots, gone)
    {
      hide loop.Valid, ring.Valid, Valid, Possible, Completed, Matched, Synced;
      InBounds();
      CompletedNone(done, moves, tags, taken, reaped + ring.cqEntries, loop.slots, gone);
      for k := 0 to |moves|
        invariant Valid() && |old(done)| <= |done| && ring.reaped == old(ring.reaped)
        invariant ring.staged == old(ring.staged) && ring.published == old(ring.published)
        invariant done == Completed(old(done), moves[..k], tags, taken, reaped + ring.cqEntries, loop.slots, gone)
      {
        InBounds();
        CompletedNext(old(done), moves, k, tags, taken, reaped + ring.cqEntries, loop.slots, gone);
        KernelMove(moves[k]);
      }
      assert moves[..|moves|] == moves;
    }

    // The completions reaped last, from number `first` on.
    ghost predicate Batch(results: seq<Cqe>, first: nat)
      reads this`reaped, ring`posted
    {
      first + |results| == reaped <= |ring.posted| && results == ring.posted[first..reaped]
    }

    lemma AcceptsHere()
      requires Valid()
      ensures |loop.log| == gone <= reaped <= |done| && AreAccepts(accepts, tags, done, gone)
      ensures DoneOk(tags, taken, done, ring.posted) && PicksBelow(done, |tags|) && |tags| - taken <= ring.entries
      ensures loop.files.accepted == Accepts(ring.posted, gone)
    {
      AcceptsOf(loop.slots, loop.book, tags, done, gone);
    }

    // The last phase of lio_loop_run: the completions of one batch.
    method OnCompletions(results: seq<Cqe>, mapOk: nat -> bool)
      requires Valid() && Batch(results, gone) && Settled(loop.slots)
      modifies this`tags, this`gone, this`accepts, loop, ring, ring.sqes, ring.sqArray
      ensures Valid() && gone == reaped && Resting(loop.slots)
      ensures ring.posted == old(ring.posted) && ring.reaped == old(ring.reaped)
      ensures ring.published == old(ring.published)
      ensures Grows(old(loop.files), loop.files) && old(loop.log) <= loop.log
      // none is dropped: each resumes the connection that issued it, with its own result, or is a new connection
      // that has a ready coroutine or is closed
      ensures AllHandled(loop.log, old(gone), results, |results|, loop.slots, loop.files)
      // an accept is under way if one was and is not in the batch, or if the next could be staged for one that is
      ensures accepts != {} <==>
        || (exists id :: id in old(accepts) && !Done(done[old(gone)..reaped], id))
        || (running && old(HasRoom()) && HasAccept(results))
      ensures old(accepts) == {} ==> accepts == {} && loop.files.accepted == old(loop.files).accepted
      // one is staged for each that is in the batch, as long as there is room
      ensures old(tags) <= tags
      ensures ring.staged == old(ring.staged) +
        Copies(AcceptEntry(serverFd), Renewals(running, results, ring.entries - (|old(tags)| - taken)))
    {
      hide Valid, Synced, Matched, DoneOk, AllHandled, AreAccepts, Renewals, Copies, Resting, Settled;
      AcceptsHere();
      SettledRests(loop.slots);
      ghost var can := running && HasRoom();
      DeliverAll(results, mapOk);
      AcceptsHere();
      AcceptsAfter(old(accepts), old(tags), done, old(gone), reaped, can && HasAccept(results), accepts, tags);
      if old(accepts) == {} {
        NoneToCome({}, old(tags), taken, done, ring.posted, old(gone), reaped);
      }
    }

    method DeliverAll(results: seq<Cqe>, mapOk: nat -> bool)
      requires Valid() && Batch(results, gone) && Resting(loop.slots)
      modifies this`tags, this`gone, this`accepts, loop, ring, ring.sqes, ring.sqArray
      ensures Valid() && gone == reaped && Resting(loop.slots)
      ensures ring.posted == old(ring.posted) && ring.reaped == old(ring.reaped)
      ensures ring.published == old(ring.published)
      ensures Grows(old(loop.files), loop.files) && old(loop.log) <= loop.log
      ensures AllHandled(loop.log, old(gone), results, |results|, loop.slots, loop.files)
      ensures OnlyAccepts(old(tags), tags, running && old(HasRoom()) && HasAccept(results))
      ensures ring.staged == old(ring.staged) +
        Copies(AcceptEntry(serverFd), Renewals(running, results, ring.entries - (|old(tags)| - taken)))
    {
      hide Valid, Synced, Matched, AllHandled, OnlyAccepts, Renewals, Copies, Resting;
      ghost var first := gone;
      AcceptsHere();
      ghost var room := ring.entries - (|tags| - taken);
      NoneYet(loop.log, results, loop.slots, loop.files, tags, running, room, AcceptEntry(serverFd));
      for k := 0 to |results|
        invariant Valid() && Batch(results, first) && gone == first + k && Resting(loop.slots)
        invariant ring.posted == old(ring.posted) && ring.reaped == old(ring.reaped)
        invariant ring.published == old(ring.published) && |old(tags)| - taken <= ring.entries
        invariant Grows(old(loop.files), loop.files) && old(loop.log) <= loop.log
        invariant AllHandled(loop.log, first, results, k, loop.slots, loop.files)
        invariant OnlyAccepts(old(tags), tags, running && |old(tags)| - taken < ring.entries && HasAccept(results[..k]))
        invariant Staged(old(ring.staged), old(tags), results[..k])
      {
        DeliverNext(results, k, mapOk(k), first, old(tags), old(ring.staged));
      }
      assert results[..|results|] == results;
    }

    // What has been staged for the accepts among some completions.
    ghost predicate Staged(staged: seq<Sqe>, tags0: seq<nat>, results: seq<Cqe>)
      reads this, ring
    {
      var n := Renewals(running, results, ring.entries - (|tags0| - taken));
      ring.staged == staged + Copies(AcceptEntry(serverFd), n) && |tags| == |tags0| + n
    }

    method DeliverNext(results: seq<Cqe>, k: nat, mapOk: bool, ghost first: nat, ghost tags0: seq<nat>,
                       ghost staged0: seq<Sqe>)
      requires k < |results| && Valid() && Batch(results, first) && gone == first + k && Resting(loop.slots)
      requires AllHandled(loop.log, first, results, k, loop.slots, loop.files)
      requires OnlyAccepts(tags0, tags, running && |tags0| - taken < ring.entries && HasAccept(results[..k]))
      requires Staged(staged0, tags0, results[..k]) && |tags0| - taken <= ring.entries
      modifies this`tags, this`gone, this`accepts, loop, ring, ring.sqes, ring.sqArray
      ensures Valid() && gone == first + k + 1 && Resting(loop.slots)
      ensures ring.posted == old(ring.posted) && ring.reaped == old(ring.reaped)
      ensures ring.published == old(ring.published)
      ensures Grows(old(loop.files), loop.files) && old(loop.log) <= loop.log
      ensures AllHandled(loop.log, first, results, k + 1, loop.slots, loop.files)
      ensures OnlyAccepts(tags0, tags, running && |tags0| - taken < ring.entries && HasAccept(results[..k + 1]))
      ensures Staged(staged0, tags0, results[..k + 1])
    {
      hide loop.Valid, ring.Valid, Synced, Matched, OnlyAccepts, HasAccept, AllHandled, Resting, Renewals, Copies;
      ghost var can := running && |tags0| - taken < ring.entries;
      ghost var next := results[k].tag == TAG_ACCEPT && running && HasRoom();
      OneCompletion(results, k, mapOk, first);
      StageNext(tags0, old(tags), tags, results, k, can, next);
      RenewNext(running, results, k, ring.entries - (|tags0| - taken), staged0, AcceptEntry(serverFd));
    }

    method OneCompletion(results: seq<Cqe>, k: nat, mapOk: bool, ghost first: nat)
      requires k < |results| && Valid() && Batch(results, first) && gone == first + k && Resting(loop.slots)
      requires AllHandled(loop.log, first, results, k, loop.slots, loop.files)
      modifies this`tags, this`gone, this`accepts, loop, ring, ring.sqes, ring.sqArray
      ensures Valid() && gone == first + k + 1 && Resting(loop.slots)
      ensures ring.posted == old(ring.posted) && ring.reaped == old(ring.reaped)
      ensures ring.published == old(ring.published)
      ensures Grows(old(loop.files), loop.files) && old(loop.log) <= loop.log
      ensures AllHandled(loop.log, first, results, k + 1, loop.slots, loop.files)
      ensures tags == if results[k].tag == TAG_ACCEPT && running && old(HasRoom())
                      then old(tags) + [TAG_ACCEPT] else old(tags)
      ensures ring.staged == if results[k].tag == TAG_ACCEPT && running && old(HasRoom())
                             then old(ring.staged) + [AcceptEntry(serverFd)] else old(ring.staged)
    {
      hide loop.Valid, ring.Valid;
      HandleOne(results, k, mapOk, first);
      if results[k].tag == TAG_ACCEPT && running {
        SubmitAccept();
      }
    }

    method HandleOne(results: seq<Cqe>, k: nat, mapOk: bool, ghost first: nat)
      requires k < |results| && Valid() && Batch(results, first) && gone == first + k && Resting(loop.slots)
      requires AllHandled(loop.log, first, results, k, loop.slots, loop.files)
      modifies this`gone, this`accepts, loop
      ensures Valid() && gone == first + k + 1 && Resting(loop.slots)
      ensures Grows(old(loop.files), loop.files) && old(loop.log) <= loop.log
      ensures AllHandled(loop.log, first, results, k + 1, loop.slots, loop.files)
    {
      Process(results[k], mapOk);
      HandleNext(old(loop.log), loop.log, first, results, k, old(loop.slots), old(loop.files), loop.slots, loop.files);
    }

    // The branch that the next completion takes.
    method Process(c: Cqe, mapOk: bool)
      requires Valid() && gone < reaped && gone < |ring.posted| && c == ring.posted[gone]
      modifies this`gone, this`accepts, loop
      ensures Valid() && gone == old(gone) + 1 && old(loop.log) <= loop.log
      ensures Woken(c.tag, c.result, old(loop.slots), loop.slots) && Extends(old(loop.files), loop.files)
      ensures Grows(old(loop.files), loop.files)
      ensures Handled(loop.log[old(gone)], c.tag, c.result, loop.slots, loop.files)
    {
      hide loop.Valid, ring.Valid;
      ProcessInLoop(loop, c, mapOk, tags, taken, done, ring.posted);
      accepts := loop.book.accepts;
      gone := gone + 1;
    }

    // One round of lio_loop_run; false means that the loop is left.
    method RunRound(r: Round) returns (again: bool, ghost t: RoundTrace)
      requires Valid() && gone == reaped && Resting(loop.slots)
      modifies this, loop, ring, ring.sqes, ring.sqArray, ring.cqes
      ensures Valid() && gone == reaped && Resting(loop.slots) && serverFd == old(serverFd)
      ensures Grows(old(loop.files), loop.files) && old(loop.log) <= loop.log
      ensures !again ==> !running || (serverFd < 0 && loop.activeCount == 0)
      // it goes on unless a handler has stopped it or there is nothing left to do
      ensures running == (old(running) && NoStop(r.turns, t.start, t.rans, MAX_SLOTS))
      ensures again <==> old(running) && !Leaves(t, r, serverFd)
      ensures again ==> running
      ensures old(accepts) == {} ==> accepts == {} && loop.files.accepted == old(loop.files).accepted
      // every ready coroutine had its turn; what they asked for, and the accepts renewed, is what was staged
      ensures t.start == old(loop.slots) && TraceOk(t, r)
      ensures ring.staged == old(ring.staged) + Entries(t, serverFd) && ring.reaped == old(ring.reaped) + t.results
      // before the loop waits, all that was asked for has been published to the kernel
      ensures again ==> |old(ring.staged)| + |t.asked| <= ring.published
      ensures !again ==> t.results == [] && t.accepts == 0
      // the kernel has made the moves that it could, and what it has completed is returned, up to a batch
      ensures again ==> Worked(old(done), done, r.moves, tags, |old(tags)| + |t.asked|, taken,
                               old(reaped), ring.cqEntries, t.turned, |t.results|)
    {
      hide loop.Valid, ring.Valid, Asked, Turned, Settled, Resting, Matched, Worked, NoStop, Active;
      InBounds();
      ghost var asked, rans := RunReady(r.turns);
      NoneActive(loop.slots);
      InBounds();
      SettledRests(loop.slots);
      t := RoundTrace(old(loop.slots), loop.slots, rans, asked, [], 0);
      if !running { return false, t; }
      Flush(r.enter);
      if loop.activeCount == 0 && serverFd < 0 { return false, t; }
      ghost var results, accepts := WaitAndProcess(r);
      t := t.(results := results, accepts := accepts);
      return true, t;
    }

    // The last two phases.
    method WaitAndProcess(r: Round) returns (ghost results: seq<Cqe>, ghost renewed: nat)
      requires Valid() && gone == reaped && Settled(loop.slots) && ring.published == |ring.staged|
      modifies this`tags, this`taken, this`done, this`gone, this`reaped, this`accepts
      modifies loop, ring, ring.sqes, ring.sqArray, ring.cqes
      ensures Valid() && gone == reaped && Resting(loop.slots)
      ensures Grows(old(loop.files), loop.files) && old(loop.log) <= loop.log
      ensures old(accepts) == {} ==> accepts == {} && loop.files.accepted == old(loop.files).accepted
      ensures renewed == Renewals(running, results, ring.entries - (|old(tags)| - taken))
      ensures ring.staged == old(ring.staged) + Copies(AcceptEntry(serverFd), renewed)
      ensures ring.reaped == old(ring.reaped) + results && ring.published == |old(ring.staged)|
      ensures Worked(old(done), done, r.moves, tags, |old(tags)|, taken, old(reaped), ring.cqEntries, old(loop.slots),
                     |results|)
    {
      hide loop.Valid, ring.Valid, Settled, Resting, Matched, Completed, Renewals, Copies;
      var batch := Wait(r.enter, r.moves);
      results := batch;
      renewed := Renewals(running, results, ring.entries - (|tags| - taken));
      OnCompletions(batch, r.mapOk);
      assert tags[..|old(tags)|] == old(tags);
    }

    // With no slot in use, every connection that ever came is closed.
    lemma NothingOpen()
      requires Valid() && loop.activeCount == 0
      ensures forall k :: 0 <= k < gone && IsNew(ring.posted[k]) ==>
        loop.log[k].Accepted? && loop.log[k].conn in loop.files.closed
    {
      AllClosed(loop.slots, loop.files);
      AllNewClosed(loop.log, done, ring.posted, loop.book.issuer, loop.files);
    }

    // lio_loop_run, for as many rounds as there are, whatever handlers and kernel do.
    method Run(rounds: seq<Round>) returns (left: bool, ghost trace: seq<RoundTrace>)
      requires Valid() && gone == reaped && Resting(loop.slots)
      modifies this, loop, ring, ring.sqes, ring.sqArray, ring.cqes
      ensures Valid() && gone == reaped && Resting(loop.slots)
      // the log has every completion reaped, each once and in order: I/O resumed the connection that issued it,
      // with its result, and new connections were numbered as they came
      ensures old(loop.log) <= loop.log && |loop.log| == reaped == |ring.reaped|
      ensures LogOk(loop.log, done, ring.posted, loop.book.issuer) && Numbered(loop.log, loop.files.accepted)
      ensures loop.files.accepted == Accepts(ring.posted, reaped)
      ensures Grows(old(loop.files), loop.files)
      // a loop that runs out of work has closed every connection that was ever reaped
      ensures left && running ==>
        forall k :: 0 <= k < reaped && IsNew(ring.posted[k]) ==>
          loop.log[k].Accepted? && loop.log[k].conn in loop.files.closed
      // without an accept under way no connection ever comes again
      ensures old(accepts) == {} ==> accepts == {} && loop.files.accepted == old(loop.files).accepted
      // it runs until it is left; what was staged, in order, is what the handlers asked for and the accepts renewed,
      // round by round, and nothing else; and the completions are those of the rounds
      ensures |trace| <= |rounds| && (left || |trace| == |rounds|) && serverFd == old(serverFd)
      ensures forall k :: 0 <= k < |trace| ==>
        TraceOk(trace[k], rounds[k]) && (Leaves(trace[k], rounds[k], serverFd) <==> left && k == |trace| - 1)
      ensures ring.staged == old(ring.staged) + AllEntries(trace, serverFd)
      ensures ring.reaped == old(ring.reaped) + AllResults(trace)
    {
      hide loop.Valid, ring.Valid, TraceOk, Leaves, Worked, Entries, AllEntries, AllResults;
      hide LogOk, Numbered, Linked, NewFds, DoneOk;
      running, left, trace := true, false, [];
      NoTrace(serverFd);
      for k := 0 to |rounds|
        invariant Valid() && gone == reaped && Resting(loop.slots) && serverFd == old(serverFd)
        invariant Grows(old(loop.files), loop.files) && old(loop.log) <= loop.log
        invariant old(accepts) == {} ==> accepts == {} && loop.files.accepted == old(loop.files).accepted
        invariant running && !left && |trace| == k
        invariant forall j :: 0 <= j < k ==> TraceOk(trace[j], rounds[j]) && !Leaves(trace[j], rounds[j], serverFd)
        invariant ring.staged == old(ring.staged) + AllEntries(trace, serverFd)
        invariant ring.reaped == old(ring.reaped) + AllResults(trace)
      {
        var again;
        ghost var t;
        again, t := RunRound(rounds[k]);
        TraceMore(trace, t, serverFd);
        trace := trace + [t];
        if !again {
          left := true;
          break;
        }
      }
      if loop.activeCount == 0 {
        NothingOpen();
      }
    }
  }
}
