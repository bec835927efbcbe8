/** The event loop that runs one coroutine per connection and resumes it when its I/O completes.

    A context switch is a transfer of control: a turn enters a slot's coroutine, and the coroutine comes
    back by suspending on an operation or by finishing.  What the kernel does (new descriptors, results,
    failed mappings, a full submission queue) and what handlers do is passed in as parameters.

    Two ghost records say what must not be lost.  `Book` holds every operation under way with the tag it
    carries.  `Files` holds every accepted connection; the kernel may reuse descriptor numbers, so
    connections are numbered in order of acceptance and a number is never used again.  `log` records, for
    every completion processed so far, what it led to. */
module EventLoop {
  import opened Common

  const MAX_SLOTS := 1024
  const TAG_ACCEPT := 0xFFFF_FFFF

  datatype SlotState = Free | Ready | Running | Waiting | Finished

  // `streamFd` is the copy of the descriptor in the stream that the handler uses.
  datatype Slot = Slot(state: SlotState, fd: int, stack: bool, pendingResult: int, streamFd: int)

  type OpId = nat

  // Operations staged, in the kernel or unreaped, with their tags; the operation each suspended coroutine
  // waits for; the accepts among the operations; the number of operations issued so far, which is above every
  // id; and, for all I/O operations ever issued, the connection whose coroutine issued them.
  datatype Book = Book(ops: map<OpId, nat>, awaits: map<nat, OpId>, accepts: set<OpId>,
                       issued: nat, issuer: map<OpId, nat>)

  // Open descriptors with their connections; closed connections; the number accepted; and the connection
  // that each slot in use was given.
  datatype Files = Files(conn: map<int, nat>, closed: set<nat>, accepted: nat, came: map<nat, nat>)

  // What a completion led to: the coroutine of connection `conn` goes on with the result, or connection `conn`
  // is new, or an accept has failed.
  datatype Outcome = Resumed(op: OpId, conn: nat, result: int) | Accepted(op: OpId, conn: nat) | Failed(op: OpId)

  // ----- the invariant -----

  predicate InUse(x: Slot) { x.state != Free }

  function Active(ss: seq<Slot>): nat { Count(ss, InUse) }

  // A slot is waiting exactly when one operation with its tag is under way, and that is the one it issued.
  ghost predicate BookOk(ss: seq<Slot>, b: Book) {
    && (forall i: nat :: i in b.awaits ==> i < |ss| && b.awaits[i] in b.ops && b.ops[b.awaits[i]] == i)
    && (forall i: nat :: i < |ss| ==> (ss[i].state == Waiting <==> i in b.awaits))
    && (forall id :: id in b.ops && b.ops[id] != TAG_ACCEPT ==> b.ops[id] in b.awaits && b.awaits[b.ops[id]] == id)
    && (forall id :: id in b.ops ==> id < b.issued)
    && (forall id :: id in b.accepts <==> id in b.ops && b.ops[id] == TAG_ACCEPT)
  }

  // A waiting slot still belongs to the connection that issued the operation it waits for.
  ghost predicate IssuersOk(b: Book, came: map<nat, nat>) {
    && (forall i: nat :: i in b.awaits ==> i in came && b.awaits[i] in b.issuer && b.issuer[b.awaits[i]] == came[i])
    && (forall id :: id in b.issuer ==> id < b.issued)
  }

  predicate Holds(ss: seq<Slot>, i: nat, fd: int) {
    i < |ss| && ss[i].fd == fd
  }

  ghost predicate Held(ss: seq<Slot>, fd: int) {
    exists i: nat :: Holds(ss, i, fd)
  }

  // The descriptors in the slots are the open connections, each in one slot that is in use.
  ghost predicate FdsOk(ss: seq<Slot>, conn: map<int, nat>) {
    && (forall i: nat :: i < |ss| && ss[i].fd >= 0 ==> ss[i].fd in conn && ss[i].state != Free)
    && (forall i: nat, j: nat :: i < j < |ss| && ss[i].fd >= 0 ==> ss[i].fd != ss[j].fd)
    && (forall f :: f in conn ==> f >= 0 && Held(ss, f))
    && (forall i: nat :: i < |ss| ==> if ss[i].state == Free then !ss[i].stack else ss[i].streamFd == ss[i].fd)
  }

  // Every connection accepted so far is open under one descriptor or closed, not both.
  ghost predicate ConnOk(conn: map<int, nat>, closed: set<nat>, accepted: nat) {
    && (forall f :: f in conn ==> conn[f] < accepted && conn[f] !in closed)
    && (forall f, g :: f in conn && g in conn && conn[f] == conn[g] ==> f == g)
    && (forall c: nat :: c in closed ==> c < accepted)
    && (forall c: nat :: c < accepted && c !in closed ==> exists f :: f in conn && conn[f] == c)
  }

  // A slot in use remembers the connection it was given: open under the slot's descriptor, or closed.
  ghost predicate CameOk(ss: seq<Slot>, f: Files) {
    && (forall i: nat :: i in f.came ==> i < |ss|)
    && (forall i: nat :: i < |ss| ==> (i in f.came <==> ss[i].state != Free))
    && (forall i: nat :: i in f.came && i < |ss| ==> Tracks(ss[i].fd, f.came[i], f))
  }

  ghost predicate Tracks(fd: int, c: nat, f: Files) {
    if fd < 0 then c in f.closed else fd in f.conn && f.conn[fd] == c
  }

  ghost predicate FilesOk(ss: seq<Slot>, f: Files) {
    FdsOk(ss, f.conn) && ConnOk(f.conn, f.closed, f.accepted) && CameOk(ss, f)
  }

  // At most slot i differs.
  ghost predicate SameBut(ss: seq<Slot>, ss': seq<Slot>, i: nat) {
    |ss'| == |ss| && forall j :: 0 <= j < |ss| && j != i ==> ss'[j] == ss[j]
  }

  ghost predicate Ok(ss: seq<Slot>, active: nat, b: Book, f: Files) {
    active == Active(ss) && BookOk(ss, b) && FilesOk(ss, f) && IssuersOk(b, f.came)
  }

  // Connections are closed, and none is opened.
  ghost predicate Shrinks(f: Files, f': Files) {
    f'.accepted == f.accepted && f'.conn.Keys <= f.conn.Keys && f.closed <= f'.closed
  }

  // ----- the changes that the loop makes, each of which keeps the invariant -----

  // Connection c issues an operation that its slot waits for.
  ghost function Issue(b: Book, slot: nat, c: nat): Book {
    b.(ops := b.ops[b.issued := slot], awaits := b.awaits[slot := b.issued],
       issued := b.issued + 1, issuer := b.issuer[b.issued := c])
  }

  ghost function IssueAccept(b: Book): Book {
    b.(ops := b.ops[b.issued := TAG_ACCEPT], accepts := b.accepts + {b.issued}, issued := b.issued + 1)
  }

  ghost function Complete(b: Book, id: OpId): Book
    requires id in b.ops
  {
    b.(ops := b.ops - {id}, awaits := b.awaits - {b.ops[id]}, accepts := b.accepts - {id})
  }

  ghost function Open(f: Files, i: nat, fd: int): Files {
    Files(f.conn[fd := f.accepted], f.closed, f.accepted + 1, f.came[i := f.accepted])
  }

  // Only an open descriptor can be closed.
  ghost function Close(f: Files, fd: int): Files
    requires fd in f.conn
  {
    f.(conn := f.conn - {fd}, closed := f.closed + {f.conn[fd]})
  }

  // The files after a slot's descriptor, if it still has one, was closed.
  ghost function Without(f: Files, fd: int): Files
    requires fd < 0 || fd in f.conn
  {
    if fd < 0 then f else Close(f, fd)
  }

  // A slot gets a new value: it keeps its descriptor, or loses it, or is free and gets a new one.
  lemma NewFd(ss: seq<Slot>, conn: map<int, nat>, i: nat, x: Slot, conn': map<int, nat>)
    requires FdsOk(ss, conn) && i < |ss|
    requires if x.state == Free then x.fd < 0 && !x.stack else x.streamFd == x.fd
    requires x.fd < 0 || x.fd == ss[i].fd || (ss[i].fd < 0 && x.fd !in conn)
    requires forall f :: f in conn' <==> (f in conn && f != ss[i].fd) || (f == x.fd >= 0)
    ensures FdsOk(ss[i := x], conn')
  {
    var ss' := ss[i := x];
    forall f | f in conn' ensures f >= 0 && Held(ss', f) {
      if f == x.fd { assert Holds(ss', i, f); } else { HeldElsewhere(ss, i, x, f); }
    }
  }

  lemma HeldElsewhere(ss: seq<Slot>, i: nat, x: Slot, f: int)
    requires Held(ss, f) && i < |ss| && ss[i].fd != f
    ensures Held(ss[i := x], f)
  {
    var j: nat :| Holds(ss, j, f);
    assert Holds(ss[i := x], j, f);
  }

  lemma NewConn(conn: map<int, nat>, closed: set<nat>, accepted: nat, fd: int)
    requires ConnOk(conn, closed, accepted) && fd !in conn
    ensures ConnOk(conn[fd := accepted], closed, accepted + 1)
  {
    var conn' := conn[fd := accepted];
    forall c: nat | c < accepted + 1 && c !in closed ensures exists f :: f in conn' && conn'[f] == c {
      if c == accepted {
        assert conn'[fd] == c;
      } else {
        var f :| f in conn && conn[f] == c;
        assert conn'[f] == c;
      }
    }
  }

  lemma CloseConn(conn: map<int, nat>, closed: set<nat>, accepted: nat, fd: int)
    requires ConnOk(conn, closed, accepted) && fd in conn
    ensures ConnOk(conn - {fd}, closed + {conn[fd]}, accepted)
  {
    var conn', closed' := conn - {fd}, closed + {conn[fd]};
    forall c: nat | c < accepted && c !in closed' ensures exists f :: f in conn' && conn'[f] == c {
      var f :| f in conn && conn[f] == c;
      assert f in conn' && conn'[f] == c;
    }
  }

  // A slot in use knows its connection; closing it leaves the other slots' connections as they are.
  lemma OthersTrack(ss: seq<Slot>, f: Files, i: nat)
    requires FilesOk(ss, f) && i < |ss| && ss[i].state != Free
    ensures i in f.came && (ss[i].fd >= 0 ==> ss[i].fd in f.conn && f.conn[ss[i].fd] == f.came[i])
    ensures f.came[i] in Without(f, ss[i].fd).closed
    ensures forall j: nat :: j in f.came && j != i ==> Tracks(ss[j].fd, f.came[j], Without(f, ss[i].fd))
  {
    assert Tracks(ss[i].fd, f.came[i], f);
    forall j: nat | j in f.came && j != i ensures Tracks(ss[j].fd, f.came[j], Without(f, ss[i].fd)) {
      assert Tracks(ss[j].fd, f.came[j], f);
      assert ss[j].fd >= 0 ==> ss[j].fd != ss[i].fd;
    }
  }

  // A change of slot that does not enter or leave Waiting.
  lemma SameBook(ss: seq<Slot>, b: Book, i: nat, x: Slot)
    requires BookOk(ss, b) && i < |ss| && ss[i].state != Waiting && x.state != Waiting
    ensures BookOk(ss[i := x], b)
  {
  }

  lemma OpenFiles(ss: seq<Slot>, f: Files, i: nat, x: Slot)
    requires FilesOk(ss, f) && i < |ss| && ss[i].state == Free
    requires x.fd >= 0 && x.fd !in f.conn && x.state != Free && x.streamFd == x.fd
    ensures FilesOk(ss[i := x], Open(f, i, x.fd))
  {
    var f', ss' := Open(f, i, x.fd), ss[i := x];
    NewFd(ss, f.conn, i, x, f'.conn);
    NewConn(f.conn, f.closed, f.accepted, x.fd);
    forall j: nat | j in f'.came ensures j < |ss'| && Tracks(ss'[j].fd, f'.came[j], f') {
      assert j != i ==> Tracks(ss[j].fd, f.came[j], f);
    }
  }

  // A new connection goes into a free slot.
  lemma Opens(ss: seq<Slot>, n: nat, b: Book, f: Files, i: nat, x: Slot)
    requires Ok(ss, n, b, f) && i < |ss| && ss[i].state == Free
    requires x.fd >= 0 && x.fd !in f.conn && x.state !in {Free, Waiting} && x.streamFd == x.fd
    ensures Ok(ss[i := x], n + 1, b, Open(f, i, x.fd))
  {
    CountUpdate(ss, InUse, i, x);
    SameBook(ss, b, i, x);
    OpenFiles(ss, f, i, x);
  }

  lemma KeepFiles(ss: seq<Slot>, f: Files, i: nat, x: Slot)
    requires FilesOk(ss, f) && i < |ss| && ss[i].state != Free && x.state != Free
    requires x.fd == ss[i].fd && x.streamFd == ss[i].streamFd
    ensures FilesOk(ss[i := x], f)
  {
    NewFd(ss, f.conn, i, x, f.conn);
  }

  // A slot in use changes its state, entering or leaving Waiting with the operation it waits for.
  lemma Keeps(ss: seq<Slot>, n: nat, b: Book, f: Files, i: nat, x: Slot, b': Book)
    requires Ok(ss, n, b, f) && i < |ss| && ss[i].state != Free && x.state != Free
    requires x.fd == ss[i].fd && x.streamFd == ss[i].streamFd && BookOk(ss[i := x], b') && IssuersOk(b', f.came)
    ensures Ok(ss[i := x], n, b', f)
  {
    CountUpdate(ss, InUse, i, x);
    KeepFiles(ss, f, i, x);
  }

  // The files after slot i has lost its descriptor, and has been freed if x is free.
  ghost function Closed(f: Files, fd: int, i: nat, x: Slot): Files
    requires fd < 0 || fd in f.conn
  {
    if x.state == Free then Without(f, fd).(came := f.came - {i}) else Without(f, fd)
  }

  lemma CloseFiles(ss: seq<Slot>, f: Files, i: nat, x: Slot)
    requires FilesOk(ss, f) && i < |ss| && ss[i].state != Free
    requires x.fd < 0 && if x.state == Free then !x.stack else x.streamFd == x.fd
    ensures i in f.came && (ss[i].fd >= 0 ==> ss[i].fd in f.conn) && f.came[i] in Without(f, ss[i].fd).closed
    ensures FilesOk(ss[i := x], Closed(f, ss[i].fd, i, x))
  {
    OthersTrack(ss, f, i);
    var f', ss' := Closed(f, ss[i].fd, i, x), ss[i := x];
    NewFd(ss, f.conn, i, x, f'.conn);
    if ss[i].fd >= 0 { CloseConn(f.conn, f.closed, f.accepted, ss[i].fd); }
    forall j: nat | j in f'.came ensures j < |ss'| && Tracks(ss'[j].fd, f'.came[j], f') {
      assert j != i ==> Tracks(ss[j].fd, f.came[j], Without(f, ss[i].fd));
    }
  }

  // A slot's descriptor is closed; the slot is freed or goes on without it.
  lemma Closes(ss: seq<Slot>, n: nat, b: Book, f: Files, i: nat, x: Slot)
    requires Ok(ss, n, b, f) && i < |ss| && ss[i].state !in {Free, Waiting} && x.state != Waiting
    requires x.fd < 0 && if x.state == Free then !x.stack else x.streamFd == x.fd
    ensures i in f.came && (ss[i].fd >= 0 ==> ss[i].fd in f.conn) && f.came[i] in Without(f, ss[i].fd).closed && n > 0
    ensures Ok(ss[i := x], if x.state == Free then n - 1 else n, b, Closed(f, ss[i].fd, i, x))
  {
    CountUpdate(ss, InUse, i, x);
    SameBook(ss, b, i, x);
    CloseFiles(ss, f, i, x);
  }

  lemma Issues(ss: seq<Slot>, b: Book, i: nat, x: Slot, came: map<nat, nat>)
    requires BookOk(ss, b) && i < |ss| < TAG_ACCEPT && ss[i].state != Waiting && x.state == Waiting
    requires IssuersOk(b, came) && i in came
    ensures BookOk(ss[i := x], Issue(b, i, came[i])) && IssuersOk(Issue(b, i, came[i]), came)
  {
  }

  lemma Completes(ss: seq<Slot>, b: Book, id: OpId, x: Slot)
    requires BookOk(ss, b) && id in b.ops && b.ops[id] < |ss| < TAG_ACCEPT && x.state != Waiting
    ensures BookOk(ss[b.ops[id] := x], Complete(b, id))
  {
  }

  // An accept completion leaves its operation; the next accept joins.
  ghost function Drop(b: Book, id: OpId): Book { b.(ops := b.ops - {id}, accepts := b.accepts - {id}) }

  ghost function AfterCompletion(b: Book, id: OpId): Book
    requires id in b.ops
  {
    if b.ops[id] == TAG_ACCEPT then Drop(b, id) else Complete(b, id)
  }

  // What a completion does to the slots: I/O wakes the waiting slot that its tag names, with the result; a new
  // connection leaves the coroutines that exist alone.
  ghost predicate Woken(tag: nat, result: int, ss: seq<Slot>, ss': seq<Slot>) {
    && |ss'| == |ss|
    && if tag != TAG_ACCEPT
       then
         && tag < |ss| && ss[tag].state == Waiting
         && ss' == ss[tag := ss[tag].(state := Ready, pendingResult := result)]
       else forall i :: 0 <= i < |ss| ==> if ss[i].state != Free then ss'[i] == ss[i] else ss'[i].state in {Free, Ready}
  }

  lemma Drops(ss: seq<Slot>, b: Book, id: OpId)
    requires BookOk(ss, b) && |ss| < TAG_ACCEPT && id in b.ops && b.ops[id] == TAG_ACCEPT
    ensures BookOk(ss, Drop(b, id))
  {
  }

  lemma IssuesAccept(ss: seq<Slot>, b: Book)
    requires BookOk(ss, b) && |ss| < TAG_ACCEPT
    ensures BookOk(ss, IssueAccept(b))
  {
  }

  // When no slot is in use, every connection that was accepted has been closed.
  lemma AllClosed(ss: seq<Slot>, f: Files)
    requires FilesOk(ss, f) && Active(ss) == 0
    ensures forall c: nat :: c < f.accepted ==> c in f.closed
  {
    CountBounds(ss, InUse);
    assert forall i: nat :: i < |ss| ==> !InUse(ss[i]);
    assert forall fd :: fd in f.conn ==> Held(ss, fd);
    assert forall fd :: fd !in f.conn;
  }

  // No slot in use changes hands.
  ghost predicate Extends(f: Files, f': Files) {
    && f.closed <= f'.closed
    && forall i: nat :: i in f.came ==> i in f'.came && f'.came[i] == f.came[i]
  }

  // Connection c is closed, or has a slot of its own and a coroutine that is ready to run.
  ghost predicate Placed(c: nat, fd: int, ss: seq<Slot>, f: Files) {
    || c in f.closed
    || exists i: nat :: i in f.came && f.came[i] == c && i < |ss| && ss[i].state == Ready && ss[i].fd == fd
  }

  // What becomes of a new connection: `slot` is where it was put, or negative.
  ghost predicate Admitted(slot: int, fd: int, mapOk: bool, ss: seq<Slot>, f: Files, ss': seq<Slot>, f': Files) {
    && f'.accepted == f.accepted + 1 && f'.conn.Keys <= f.conn.Keys + {fd} && Extends(f, f')
    && Woken(TAG_ACCEPT, fd, ss, ss')
    && if 0 <= slot < |ss'| && mapOk
       then ss'[slot] == Slot(Ready, fd, true, 0, fd) && slot in f'.came && f'.came[slot] == f.accepted
       else f.accepted in f'.closed
  }

  lemma AdmitsIn(ss: seq<Slot>, f: Files, slot: nat, fd: int, mapOk: bool, ss': seq<Slot>, f': Files)
    requires CameOk(ss, f) && slot < |ss| && ss[slot].state == Free && SameBut(ss, ss', slot)
    requires Shrinks(Open(f, slot, fd), f')
    requires mapOk ==> ss'[slot] == Slot(Ready, fd, true, 0, fd) && f' == Open(f, slot, fd)
    requires !mapOk ==> ss'[slot].state == Free && f.accepted in f'.closed && f'.came == Open(f, slot, fd).came - {slot}
    ensures Admitted(slot, fd, mapOk, ss, f, ss', f')
  {
  }

  // The slots and files are as the outcome of a completion says.
  ghost predicate Handled(o: Outcome, tag: nat, result: int, ss: seq<Slot>, f: Files) {
    match o
    case Resumed(_, c, r) =>
      && tag < |ss| && ss[tag].state == Ready && ss[tag].pendingResult == result == r
      && tag in f.came && f.came[tag] == c
    case Accepted(_, c) => Placed(c, result, ss, f)
    case Failed(_) => true
  }

  // Later completions of the same batch do not undo it.
  lemma StaysHandled(o: Outcome, tag: nat, result: int, ss: seq<Slot>, f: Files, ss': seq<Slot>, f': Files,
                     tag': nat, result': int)
    requires Handled(o, tag, result, ss, f) && Woken(tag', result', ss, ss') && Extends(f, f')
    ensures Handled(o, tag, result, ss', f')
  {
    if o.Accepted? && o.conn !in f.closed {
      var i: nat :| i in f.came && f.came[i] == o.conn && i < |ss| && ss[i].state == Ready && ss[i].fd == result;
      assert i in f'.came && ss'[i].state == Ready && ss'[i].fd == result;
    }
  }

  // The outcome that completion of operation `id` must have.
  ghost function OutcomeOf(id: OpId, tag: nat, result: int, b: Book, accepted: nat): Outcome
    requires tag != TAG_ACCEPT ==> id in b.issuer
  {
    if tag != TAG_ACCEPT then Resumed(id, b.issuer[id], result)
    else if result >= 0 then Accepted(id, accepted) else Failed(id)
  }

  class Loop {
    var slots: seq<Slot>                // the struct's fixed array of MAX_SLOTS slots
    var current: int
    var activeCount: nat
    ghost var book: Book
    ghost var files: Files
    ghost var log: seq<Outcome>

    ghost predicate Valid()
      reads this`slots, this`activeCount, this`book, this`files
    {
      |slots| == MAX_SLOTS && Ok(slots, activeCount, book, files)
    }

    constructor ()
      ensures Valid() && activeCount == 0
      ensures book == Book(map[], map[], {}, 0, map[]) && files == Files(map[], {}, 0, map[]) && log == []
      ensures forall i :: 0 <= i < MAX_SLOTS ==> slots[i].state == Free
    {
      slots := seq(MAX_SLOTS, _ => Slot(Free, -1, false, 0, -1));
      current, activeCount := -1, 0;
      book, files, log := Book(map[], map[], {}, 0, map[]), Files(map[], {}, 0, map[]), [];
      new;
      CountBounds(slots, InUse);
    }

    // alloc_slot: the first free slot, or -1.
    method AllocSlot(fd: int) returns (r: int)
      requires Valid() && fd >= 0 && fd !in files.conn
      modifies this`activeCount, this`files, this`slots
      ensures Valid() && -1 <= r < MAX_SLOTS
      ensures forall j :: 0 <= j < (if r < 0 then MAX_SLOTS else r) ==> old(slots[j].state) != Free
      ensures r < 0 ==> slots == old(slots) && files == old(files) && activeCount == old(activeCount)
      ensures r >= 0 ==>
        && old(slots[r].state) == Free && slots == old(slots)[r := Slot(Ready, fd, false, 0, fd)]
        && files == Open(old(files), r, fd) && activeCount == old(activeCount) + 1
    {
      for i := 0 to MAX_SLOTS
        invariant forall j :: 0 <= j < i ==> slots[j].state != Free
        invariant unchanged(this)
      {
        if slots[i].state == Free {
          Opens(slots, activeCount, book, files, i, Slot(Ready, fd, false, 0, fd));
          slots := slots[i := slots[i].(state := Ready, fd := fd, pendingResult := 0, streamFd := fd)];
          activeCount, files := activeCount + 1, Open(files, i, fd);
          return i;
        }
      }
      return -1;
    }

    // The system call that closes a descriptor, which must be open.
    ghost method KernelClose(fd: int)
      requires fd in files.conn
      modifies this`files
      ensures files == Close(old(files), fd)
    {
      files := Close(files, fd);
    }

    // Frees a slot: closes its descriptor if it still has one, drops its stack.
    method Release(i: nat)
      requires Valid() && i < MAX_SLOTS && slots[i].state !in {Free, Waiting}
      modifies this`activeCount, this`files, this`slots
      ensures Valid() && activeCount == old(activeCount) - 1 && slots[i].state == Free
      ensures SameBut(old(slots), slots, i)
      // by the time a slot is free, the connection it was given is closed
      ensures i in old(files).came && old(files).came[i] in files.closed
      ensures Shrinks(old(files), files) && files.came == old(files).came - {i}
    {
      ghost var x := slots[i].(state := Free, fd := if slots[i].fd >= 0 then -1 else slots[i].fd, stack := false);
      Closes(slots, activeCount, book, files, i, x);
      if slots[i].fd >= 0 {
        KernelClose(slots[i].fd);
      }
      files := files.(came := files.came - {i});
      slots := slots[i := slots[i].(state := Free, fd := if slots[i].fd >= 0 then -1 else slots[i].fd, stack := false)];
      activeCount := activeCount - 1;
    }

    // init_coroutine_for_slot: without a stack the slot is rolled back to free.
    method InitCoroutine(i: nat, mapOk: bool)
      requires Valid() && i < MAX_SLOTS && slots[i].state == Ready && !slots[i].stack
      modifies this`activeCount, this`files, this`slots
      ensures Valid() && i in old(files).came && Shrinks(old(files), files)
      ensures mapOk ==> slots == old(slots)[i := old(slots[i]).(stack := true)] && files == old(files)
      ensures !mapOk ==> slots[i].state == Free && old(files).came[i] in files.closed
      ensures !mapOk ==> files.came == old(files).came - {i}
      ensures !mapOk ==> activeCount == old(activeCount) - 1
      ensures SameBut(old(slots), slots, i)
    {
      if !mapOk {
        Release(i);
      } else {
        Keeps(slots, activeCount, book, files, i, slots[i].(stack := true), book);
        slots := slots[i := slots[i].(stack := true)];
      }
    }

    // The accept branch of the completion loop.
    method OnAccept(fd: int, mapOk: bool) returns (slot: int)
      requires Valid() && fd !in files.conn
      modifies this`activeCount, this`files, this`slots
      ensures Valid() && -1 <= slot < MAX_SLOTS
      ensures fd < 0 ==> slots == old(slots) && files == old(files)
      // the new connection is in a ready coroutine if there is room for one and a stack, or closed
      ensures fd >= 0 ==> Admitted(slot, fd, mapOk, old(slots), old(files), slots, files)
      ensures fd >= 0 && slot < 0 ==> forall i :: 0 <= i < MAX_SLOTS ==> old(slots[i].state) != Free
    {
      slot := -1;
      if fd >= 0 {
        slot := Admit(fd, mapOk);
      }
    }

    // A new connection gets a slot and a coroutine, or is closed.
    method Admit(fd: int, mapOk: bool) returns (slot: int)
      requires Valid() && fd >= 0 && fd !in files.conn
      modifies this`activeCount, this`files, this`slots
      ensures Valid() && -1 <= slot < MAX_SLOTS && Admitted(slot, fd, mapOk, old(slots), old(files), slots, files)
      ensures slot < 0 ==> forall i :: 0 <= i < MAX_SLOTS ==> old(slots[i].state) != Free
    {
      slot := AllocSlot(fd);
      if slot >= 0 {
        InitCoroutine(slot, mapOk);
        AdmitsIn(old(slots), old(files), slot, fd, mapOk, slots, files);
      } else {
        RefuseConnection(fd);
      }
    }

    // No slot for a new descriptor: it is closed at once.
    ghost method RefuseConnection(fd: int)
      requires Valid() && fd >= 0 && fd !in files.conn
      modifies this`files
      ensures Valid() && files.accepted == old(files).accepted + 1 && files.conn == old(files).conn
      ensures files.closed == old(files).closed + {old(files).accepted} && files.came == old(files).came
    {
      NewConn(files.conn, files.closed, files.accepted, fd);
      CloseConn(files.conn[fd := files.accepted], files.closed, files.accepted + 1, fd);
      assert files.conn[fd := files.accepted] - {fd} == files.conn;
      files := files.(accepted := files.accepted + 1, closed := files.closed + {files.accepted});
    }

    // A reaped accept.
    method AcceptDone(ghost id: OpId, result: int, mapOk: bool)
      requires Valid() && id in book.ops && book.ops[id] == TAG_ACCEPT && result !in files.conn
      modifies this
      ensures Valid() && files.conn.Keys <= old(files).conn.Keys + {result} && Extends(old(files), files)
      ensures book == Drop(old(book), id) && Woken(TAG_ACCEPT, result, old(slots), slots)
      ensures files.accepted == old(files).accepted + (if result >= 0 then 1 else 0)
      ensures var o := if result >= 0 then Accepted(id, old(files).accepted) else Failed(id);
        log == old(log) + [o] && Handled(o, TAG_ACCEPT, result, slots, files)
    {
      Drops(slots, book, id);
      book := Drop(book, id);
      log := log + [if result >= 0 then Accepted(id, files.accepted) else Failed(id)];
      var slot := OnAccept(result, mapOk);
    }

    // One reaped completion, of operation id; `mapOk` is whether a new coroutine gets a stack.
    method OnCompletion(ghost id: OpId, tag: nat, result: int, mapOk: bool)
      requires Valid() && id in book.ops && book.ops[id] == tag
      requires tag == TAG_ACCEPT ==> result !in files.conn
      modifies this
      ensures Valid() && forall fd :: fd in files.conn ==> fd >= 0
      ensures files.conn.Keys <= old(files).conn.Keys + (if tag == TAG_ACCEPT then {result} else {})
      ensures Extends(old(files), files)
      ensures book == AfterCompletion(old(book), id) && Woken(tag, result, old(slots), slots)
      // the coroutine that an I/O completion wakes is the one that waits for this very operation
      ensures tag != TAG_ACCEPT ==> tag in old(book).awaits && old(book).awaits[tag] == id && files == old(files)
      ensures files.accepted == old(files).accepted + (if tag == TAG_ACCEPT && result >= 0 then 1 else 0)
      // what it led to is logged: the connection that issued the operation goes on, or a new one has its place
      ensures tag != TAG_ACCEPT ==> id in book.issuer
      ensures var o := OutcomeOf(id, tag, result, book, old(files).accepted);
        log == old(log) + [o] && Handled(o, tag, result, slots, files)
    {
      if tag == TAG_ACCEPT {
        AcceptDone(id, result, mapOk);
      } else {
        IoDone(id, tag, result);
      }
    }

    // A reaped I/O completion.
    method IoDone(ghost id: OpId, tag: nat, result: int)
      requires Valid() && id in book.ops && book.ops[id] == tag != TAG_ACCEPT
      modifies this`slots, this`book, this`log
      ensures Valid() && book == Complete(old(book), id) && Woken(tag, result, old(slots), slots)
      ensures tag in old(book).awaits && old(book).awaits[tag] == id
      ensures tag in files.came && id in book.issuer && book.issuer[id] == files.came[tag]
      ensures log == old(log) + [Resumed(id, files.came[tag], result)]
    {
      var slot := tag % WORD32;
      if slot < MAX_SLOTS && slots[slot].state == Waiting {
        WakeSlot(id, slot, result);
      }
    }

    // The next accept has been staged.
    ghost method AcceptStaged()
      requires Valid()
      modifies this`book
      ensures Valid() && book == IssueAccept(old(book))
    {
      IssuesAccept(slots, book);
      book := IssueAccept(book);
    }

    method WakeSlot(ghost id: OpId, slot: nat, result: int)
      requires Valid() && id in book.ops && book.ops[id] == slot < MAX_SLOTS && slots[slot].state == Waiting
      modifies this`slots, this`book, this`log
      ensures Valid() && book == Complete(old(book), id)
      ensures slots == old(slots)[slot := old(slots[slot]).(state := Ready, pendingResult := result)]
      ensures slot in files.came && id in book.issuer && book.issuer[id] == files.came[slot]
      ensures log == old(log) + [Resumed(id, files.came[slot], result)]
    {
      ghost var x := slots[slot].(state := Ready, pendingResult := result);
      Completes(slots, book, id, x);
      Keeps(slots, activeCount, book, files, slot, x, Complete(book, id));
      slots := slots[slot := slots[slot].(pendingResult := result, state := Ready)];
      book, log := Complete(book, id), log + [Resumed(id, files.came[slot], result)];
    }

    // ----- a coroutine's turn -----

    method SetState(i: nat, state: SlotState)
      requires Valid() && i < MAX_SLOTS
      requires slots[i].state !in {Free, Waiting} && state !in {Free, Waiting}
      modifies this`slots
      ensures Valid() && slots == old(slots)[i := old(slots[i]).(state := state)]
    {
      Keeps(slots, activeCount, book, files, i, slots[i].(state := state), book);
      slots := slots[i := slots[i].(state := state)];
    }

    // The end of lio_read, lio_write and lio_sleep: the operation has been staged, the coroutine suspends.
    method Suspend(i: nat)
      requires Valid() && i < MAX_SLOTS && slots[i].state == Running
      modifies this`book, this`slots
      ensures Valid() && slots == old(slots)[i := old(slots[i]).(state := Waiting)]
      // the operation is recorded as issued by the connection that the slot was given
      ensures i in files.came && book == Issue(old(book), i, files.came[i]) && old(book).issued !in old(book).issuer
    {
      ghost var x := slots[i].(state := Waiting);
      Issues(slots, book, i, x, files.came);
      Keeps(slots, activeCount, book, files, i, x, Issue(book, i, files.came[i]));
      slots := slots[i := slots[i].(state := Waiting)];
      book := Issue(book, i, files.came[i]);
    }

    // lio_close: closes once, and clears the slot's copy so that the loop does not close again.
    method CloseStream(i: nat)
      requires Valid() && i < MAX_SLOTS && slots[i].state == Running
      modifies this`files, this`slots
      ensures Valid() && slots[i].state == Running && slots[i].fd < 0
      ensures SameBut(old(slots), slots, i)
      ensures i in files.came && files.came[i] in files.closed
      ensures Shrinks(old(files), files) && files.came == old(files).came
    {
      Closes(slots, activeCount, book, files, i, slots[i].(fd := -1, streamFd := -1));
      if slots[i].streamFd >= 0 {
        KernelClose(slots[i].streamFd);
        slots := slots[i := slots[i].(fd := -1, streamFd := -1)];
      }
    }

    // A coroutine is entered.
    method Enter(i: nat)
      requires Valid() && i < MAX_SLOTS && slots[i].state == Ready
      modifies this`slots, this`current
      ensures Valid() && slots == old(slots)[i := old(slots[i]).(state := Running)] && current == i
    {
      current := i;
      SetState(i, Running);
    }

    // A coroutine has run to its end.
    method Finish(i: nat)
      requires Valid() && i < MAX_SLOTS && slots[i].state == Running
      modifies this`slots, this`files, this`activeCount
      ensures Valid() && slots[i].state == Free && i in old(files).came && old(files).came[i] in files.closed
      ensures Shrinks(old(files), files) && files.came == old(files).came - {i}
      ensures SameBut(old(slots), slots, i)
    {
      SetState(i, Finished);
      Release(i);
    }
  }
}
