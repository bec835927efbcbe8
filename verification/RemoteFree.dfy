/** One heap page: its owner allocates from and frees to a bitmap, other threads free blocks by a
    lock-free push onto the page's remote free list, and the owner drains that list by one exchange.

    The list lives inside the freed blocks (the first word of a freed block is its `next`), so a live
    block's `next` is whatever its user wrote there.  Each load, store, compare-and-swap and exchange on
    shared memory is one step.  `status`, `remote` and `drained` are auxiliary: they record what became
    of each block and which blocks the two lists hold; no step's choice depends on them, except that
    callers free only blocks that are live. */
module RemoteFree {
  import opened Common

  type Block = nat

  const MAX_BLOCKS := 2048       // 64 KiB pages of blocks of at least 32 bytes
  const COUNTER := 0x1_0000      // used_count is a uint16_t

  datatype Link = Nil | Node(block: Block)

  datatype Owner =
    | Ready                    // between calls
    | Draining(cursor: Link)   // in drain_remote_frees, after the exchange

  datatype Freer =
    | Idle
    | Loading(block: Block)                // about to load the list head
    | Linking(block: Block, seen: Link)    // about to store the loaded head into the block
    | Swapping(block: Block, seen: Link)   // about to compare-and-swap the head

  datatype Status =
    | Free
    | Live               // handed out
    | Pushing(t: Tid)    // freed by a foreign thread that has not finished its push
    | Listed             // on the remote list or on the list being drained

  datatype State = State(bits: seq<bool>, used: nat, head: Link, next: seq<Link>, owner: Owner, freer: map<Tid, Freer>,
                         status: seq<Status>, remote: seq<Block>, drained: seq<Block>)

  datatype Action =
    | Alloc(block: Block, header: Link)
    | UserWrite(block: Block, value: Link)
    | LocalFree(block: Block)
    | StartFree(t: Tid, block: Block)
    | LoadHead(t: Tid)
    | StoreNext(t: Tid)
    | Swap(t: Tid, spurious: bool)
    | BeginDrain
    | DrainOne
    | EndDrain

  // The block the bitmap search returns: the lowest clear bit.
  predicate LowestClear(bits: seq<bool>, b: Block) {
    b < |bits| && !bits[b] && forall i :: 0 <= i < b ==> bits[i]
  }

  // The number of blocks of the page; bits from there on are padding.
  function BlockCount(s: State): nat {
    |s.status|
  }

  predicate Init(s: State) {
    && |s.next| == |s.status| <= |s.bits| && |s.status| <= MAX_BLOCKS
    && (forall b :: 0 <= b < |s.status| ==> s.status[b] == Free && !s.bits[b])
    && (forall b :: |s.status| <= b < |s.bits| ==> s.bits[b])
    && s.used == 0 && s.head == Nil && s.owner == Ready
    && (forall t <- s.freer :: s.freer[t] == Idle)
    && s.remote == [] && s.drained == []
  }

  predicate OwnerStep(s: State, a: Action, s': State) {
    match a
    case Alloc(b, header) =>
      && s.owner == Ready && s.used < BlockCount(s) && LowestClear(s.bits, b)
      && s' == s.(bits := s.bits[b := true], used := (s.used + 1) % COUNTER,
                  next := if b < |s.next| then s.next[b := header] else s.next,
                  status := if b < |s.status| then s.status[b := Live] else s.status)
    case LocalFree(b) =>
      && s.owner == Ready && b < |s.status| && b < |s.bits| && s.status[b] == Live
      && s' == s.(bits := s.bits[b := false], used := (s.used + COUNTER - 1) % COUNTER, status := s.status[b := Free])
    case BeginDrain =>
      && s.owner == Ready
      && s' == s.(head := Nil, owner := Draining(s.head), drained := s.remote, remote := [])
    case DrainOne =>
      && s.owner.Draining? && s.owner.cursor.Node?
      && var b := s.owner.cursor.block;
      && b < |s.next| && b < |s.bits| && b < |s.status|
      && s' == s.(bits := s.bits[b := false], used := (s.used + COUNTER - 1) % COUNTER, owner := Draining(s.next[b]),
                  status := s.status[b := Free], drained := if s.drained == [] then [] else s.drained[1..])
    case EndDrain =>
      s.owner == Draining(Nil) && s' == s.(owner := Ready)
    case _ => false
  }

  predicate OtherStep(s: State, a: Action, s': State) {
    match a
    case UserWrite(b, value) =>
      && b < |s.status| && b < |s.next| && s.status[b] == Live
      && s' == s.(next := s.next[b := value])
    case StartFree(t, b) =>
      && t in s.freer && s.freer[t] == Idle && b < |s.status| && s.status[b] == Live
      && s' == s.(freer := s.freer[t := Loading(b)], status := s.status[b := Pushing(t)])
    case LoadHead(t) =>
      && t in s.freer && s.freer[t].Loading?
      && s' == s.(freer := s.freer[t := Linking(s.freer[t].block, s.head)])
    case StoreNext(t) =>
      && t in s.freer && s.freer[t].Linking? && s.freer[t].block < |s.next|
      && var f := s.freer[t];
         s' == s.(next := s.next[f.block := f.seen], freer := s.freer[t := Swapping(f.block, f.seen)])
    case Swap(t, spurious) =>
      && t in s.freer && s.freer[t].Swapping? && s.freer[t].block < |s.status|
      && var f := s.freer[t];
         s' == if s.head == f.seen && !spurious
               then s.(head := Node(f.block), freer := s.freer[t := Idle],
                       status := s.status[f.block := Listed], remote := [f.block] + s.remote)
               else s.(freer := s.freer[t := Loading(f.block)])
    case _ => false
  }

  predicate Step(s: State, a: Action, s': State) {
    OwnerStep(s, a, s') || OtherStep(s, a, s')
  }

  ghost predicate IsRun(states: seq<State>, actions: seq<Action>) {
    && |states| == |actions| + 1
    && Init(states[0])
    && forall i :: 0 <= i < |actions| ==> Step(states[i], actions[i], states[i + 1])
  }

  // ----- the inductive invariant -----

  // Following `next` from `l` visits exactly `blocks`, in that order, and ends.
  predicate Chain(l: Link, next: seq<Link>, blocks: seq<Block>)
    decreases blocks
  {
    if blocks == [] then l == Nil
    else l == Node(blocks[0]) && blocks[0] < |next| && Chain(next[blocks[0]], next, blocks[1..])
  }

  predicate Distinct(bs: seq<Block>) {
    forall i, j :: 0 <= i < j < |bs| ==> bs[i] != bs[j]
  }

  predicate IsUsed(x: Status) { x != Free }

  function NotFree(status: seq<Status>): nat { Count(status, IsUsed) }

  ghost predicate BitsOk(s: State) {
    && |s.next| == |s.status| <= |s.bits| && |s.status| <= MAX_BLOCKS
    && (forall b :: 0 <= b < |s.status| ==> (s.bits[b] <==> s.status[b] != Free))
    && (forall b :: |s.status| <= b < |s.bits| ==> s.bits[b])
    && s.used == NotFree(s.status)
  }

  predicate On(s: State, b: Block) {
    b in s.remote || b in s.drained
  }

  ghost predicate ListsOk(s: State) {
    && Chain(s.head, s.next, s.remote)
    && (if s.owner == Ready then s.drained == [] else Chain(s.owner.cursor, s.next, s.drained))
    && Distinct(s.remote) && Distinct(s.drained)
    && (forall b: Block :: b in s.remote ==> b !in s.drained)
    && (forall b: Block :: On(s, b) ==> b < |s.status|)
    && (forall b: Block :: b < |s.status| ==> (On(s, b) <==> s.status[b] == Listed))
  }

  predicate FreerOk(s: State, t: Tid, f: Freer) {
    f.Idle? || (f.block < |s.status| && s.status[f.block] == Pushing(t)
                && (f.Swapping? ==> f.block < |s.next| && s.next[f.block] == f.seen))
  }

  predicate PushedBy(s: State, t: Tid, b: Block) {
    t in s.freer && !s.freer[t].Idle? && s.freer[t].block == b
  }

  // Every block whose push has begun and not ended has its pusher.
  ghost predicate PushersOk(s: State) {
    forall b :: 0 <= b < |s.status| && s.status[b].Pushing? ==> PushedBy(s, s.status[b].t, b)
  }

  // Every thread that is pushing has its block to itself, and the other way round.
  ghost predicate PushesOk(s: State) {
    (forall t <- s.freer :: FreerOk(s, t, s.freer[t])) && PushersOk(s)
  }

  ghost predicate Inv(s: State) {
    BitsOk(s) && ListsOk(s) && PushesOk(s)
  }

  // Writing into a block that is not on the list leaves the list as it is.
  lemma {:induction false} ChainFrame(l: Link, next: seq<Link>, blocks: seq<Block>, b: Block, x: Link)
    requires Chain(l, next, blocks) && b < |next| && b !in blocks
    ensures Chain(l, next[b := x], blocks)
    decreases blocks
  {
    if blocks != [] { ChainFrame(next[blocks[0]], next, blocks[1..], b, x); }
  }

  lemma InvInit(s: State)
    requires Init(s)
    ensures Inv(s)
  {
    CountBounds(s.status, IsUsed);
  }

  // ----- every step keeps it -----

  // One block that nobody is pushing changes its status, to one that is not a push either.
  lemma PushesKept(s: State, s': State, b: Block)
    requires PushesOk(s) && s'.freer == s.freer && |s'.next| == |s.next| && b < |s.status|
    requires !s.status[b].Pushing? && |s'.status| == |s.status| && !s'.status[b].Pushing?
    requires forall c :: 0 <= c < |s.next| && c != b ==> s'.next[c] == s.next[c]
    requires forall c :: 0 <= c < |s.status| && c != b ==> s'.status[c] == s.status[c]
    ensures PushesOk(s')
  {
    forall t | t in s'.freer ensures FreerOk(s', t, s'.freer[t]) { assert FreerOk(s, t, s.freer[t]); }
    forall c | 0 <= c < |s'.status| && s'.status[c].Pushing? ensures PushedBy(s', s'.status[c].t, c) {
      assert PushedBy(s, s.status[c].t, c);
    }
  }

  // A free block is taken: its bit is set and it is counted.
  lemma BitsTaken(s: State, s': State, b: Block, x: Status)
    requires BitsOk(s) && b < |s.status| && s.status[b] == Free && x != Free && |s'.next| == |s.next|
    requires s'.status == s.status[b := x] && s'.bits == s.bits[b := true] && s'.used == (s.used + 1) % COUNTER
    ensures BitsOk(s')
  {
    CountBounds(s'.status, IsUsed);
    CountUpdate(s.status, IsUsed, b, x);
  }

  // A used block becomes free: its bit is cleared and it is no longer counted.
  lemma BitsFreed(s: State, s': State, b: Block)
    requires BitsOk(s) && b < |s.status| && s.status[b] != Free && |s'.next| == |s.next|
    requires s'.status == s.status[b := Free] && s'.bits == s.bits[b := false]
    requires s'.used == (s.used + COUNTER - 1) % COUNTER
    ensures BitsOk(s')
  {
    CountBounds(s.status, IsUsed);
    CountUpdate(s.status, IsUsed, b, Free);
  }

  // A used block stays used.
  lemma BitsSame(s: State, s': State, b: Block, x: Status)
    requires BitsOk(s) && b < |s.status| && s.status[b] != Free && x != Free && |s'.next| == |s.next|
    requires s'.status == s.status[b := x] && s'.bits == s.bits && s'.used == s.used
    ensures BitsOk(s')
  {
    CountUpdate(s.status, IsUsed, b, x);
  }

  lemma AllocFindsFree(s: State, a: Action, s': State)
    requires BitsOk(s) && a.Alloc? && Step(s, a, s')
    ensures a.block < BlockCount(s) && s.status[a.block] == Free
  {
    CountBounds(s.status, IsUsed);
    var f :| 0 <= f < |s.status| && s.status[f] == Free;
    assert !s.bits[f] && a.block <= f;
  }

  lemma AllocStep(s: State, a: Action, s': State)
    requires Inv(s) && a.Alloc? && Step(s, a, s')
    ensures Inv(s')
  {
    AllocFindsFree(s, a, s');
    BitsTaken(s, s', a.block, Live);
    PushesKept(s, s', a.block);
    ChainFrame(s.head, s.next, s.remote, a.block, a.header);
    assert forall b: Block :: On(s', b) <==> On(s, b);
  }

  lemma LocalFreeStep(s: State, a: Action, s': State)
    requires Inv(s) && a.LocalFree? && Step(s, a, s')
    ensures Inv(s')
  {
    BitsFreed(s, s', a.block);
    PushesKept(s, s', a.block);
    assert forall b: Block :: On(s', b) <==> On(s, b);
  }

  // The block the drain looks at is the head of the list it took, and it is a used block of the page.
  lemma DrainAt(s: State)
    requires Inv(s) && s.owner.Draining? && s.owner.cursor.Node?
    ensures s.drained != [] && s.owner.cursor.block == s.drained[0]
    ensures s.drained[0] < |s.status| && s.status[s.drained[0]] == Listed && s.used > 0
  {
    assert On(s, s.drained[0]);
    CountUpdate(s.status, IsUsed, s.drained[0], Free);
  }

  lemma DrainOneStep(s: State, a: Action, s': State)
    requires Inv(s) && a.DrainOne? && Step(s, a, s')
    ensures Inv(s')
  {
    DrainAt(s);
    var b := s.drained[0];
    BitsFreed(s, s', b);
    PushesKept(s, s', b);
    assert s.drained == [b] + s'.drained;
    DrainOneLists(s, s', b);
  }

  lemma DrainOneLists(s: State, s': State, b: Block)
    requires ListsOk(s) && s.owner.Draining? && s.drained != [] && b == s.drained[0] < |s.next| == |s.status|
    requires s' == s.(bits := s'.bits, used := s'.used, owner := Draining(s.next[b]), status := s.status[b := Free],
                      drained := s.drained[1..])
    ensures ListsOk(s')
  {
    assert s.drained == [b] + s'.drained;
    forall c: Block ensures On(s', c) <==> On(s, c) && c != b { }
  }

  lemma SwapStep(s: State, a: Action, s': State)
    requires Inv(s) && Step(s, a, s') && SwapSucceeds(s, a)
    ensures Inv(s')
  {
    var f := s.freer[a.t];
    assert FreerOk(s, a.t, f) && !On(s, f.block);
    BitsSame(s, s', f.block, Listed);
    SwapPushes(s, s', a.t);
    assert s'.remote[1..] == s.remote;
    forall c: Block ensures On(s', c) <==> On(s, c) || c == f.block { }
  }

  // A push ends: its thread is idle and its block is listed.
  lemma SwapPushes(s: State, s': State, t: Tid)
    requires PushesOk(s) && t in s.freer && s.freer[t].Swapping? && s.freer[t].block < |s.status| && s'.next == s.next
    requires s'.freer == s.freer[t := Idle] && s'.status == s.status[s.freer[t].block := Listed]
    ensures PushesOk(s')
  {
    assert FreerOk(s, t, s.freer[t]);
    forall u | u in s'.freer ensures FreerOk(s', u, s'.freer[u]) { assert FreerOk(s, u, s.freer[u]); }
    forall c | 0 <= c < |s'.status| && s'.status[c].Pushing? ensures PushedBy(s', s'.status[c].t, c) {
      assert PushedBy(s, s.status[c].t, c);
    }
  }

  lemma WriteStep(s: State, a: Action, s': State)
    requires Inv(s) && (a.UserWrite? || a.StoreNext?) && Step(s, a, s')
    ensures Inv(s')
  {
    var b := if a.UserWrite? then a.block else s.freer[a.t].block;
    var x := if a.UserWrite? then a.value else s.freer[a.t].seen;
    assert a.StoreNext? ==> FreerOk(s, a.t, s.freer[a.t]);
    assert s.status[b] != Listed && !On(s, b);
    ChainFrame(s.head, s.next, s.remote, b, x);
    if s.owner.Draining? { ChainFrame(s.owner.cursor, s.next, s.drained, b, x); }
    forall t | t in s'.freer ensures FreerOk(s', t, s'.freer[t]) { assert FreerOk(s, t, s.freer[t]); }
    assert forall c: Block :: On(s', c) <==> On(s, c);
  }

  lemma StartFreeStep(s: State, a: Action, s': State)
    requires Inv(s) && a.StartFree? && Step(s, a, s')
    ensures Inv(s')
  {
    BitsSame(s, s', a.block, Pushing(a.t));
    forall t | t in s'.freer ensures FreerOk(s', t, s'.freer[t]) { assert FreerOk(s, t, s.freer[t]); }
    assert forall c: Block :: On(s', c) <==> On(s, c);
  }

  lemma LocalStep(s: State, a: Action, s': State)
    requires Inv(s) && Step(s, a, s')
    requires a.LoadHead? || a.BeginDrain? || a.EndDrain? || (a.Swap? && !SwapSucceeds(s, a))
    ensures Inv(s')
  {
    forall t | t in s'.freer ensures FreerOk(s', t, s'.freer[t]) { assert FreerOk(s, t, s.freer[t]); }
    assert forall c: Block :: On(s', c) <==> On(s, c);
  }

  lemma InvStep(s: State, a: Action, s': State)
    requires Inv(s) && Step(s, a, s')
    ensures Inv(s')
  {
    match a
    case Alloc(_, _) => AllocStep(s, a, s');
    case UserWrite(_, _) => WriteStep(s, a, s');
    case LocalFree(_) => LocalFreeStep(s, a, s');
    case StartFree(t, b) => StartFreeStep(s, a, s');
    case LoadHead(_) => LocalStep(s, a, s');
    case StoreNext(_) => WriteStep(s, a, s');
    case Swap(t, spurious) => if SwapSucceeds(s, a) { SwapStep(s, a, s'); } else { LocalStep(s, a, s'); }
    case BeginDrain => LocalStep(s, a, s');
    case DrainOne => DrainOneStep(s, a, s');
    case EndDrain => LocalStep(s, a, s');
  }

  lemma {:induction false} InvOnRun(states: seq<State>, actions: seq<Action>, i: nat)
    requires IsRun(states, actions) && i < |states|
    ensures Inv(states[i])
  {
    if i == 0 {
      InvInit(states[0]);
    } else {
      InvOnRun(states, actions, i - 1);
      InvStep(states[i - 1], actions[i - 1], states[i]);
    }
  }

  // ----- what the page promises, over every run -----

  lemma SameBlocks(s: State, a: Action, s': State)
    requires Step(s, a, s')
    ensures BlockCount(s') == BlockCount(s)
  {
  }

  predicate Frees(a: Action, b: Block) {
    (a.LocalFree? || a.StartFree?) && a.block == b
  }

  lemma LiveStep(s: State, a: Action, s': State, b: Block)
    requires Inv(s) && Step(s, a, s') && b < |s.status| && s.status[b] == Live && !Frees(a, b)
    ensures b < |s'.status| && s'.status[b] == Live
  {
    if a.Alloc? { AllocFindsFree(s, a, s'); }
    if a.DrainOne? { DrainAt(s); }
    if a.Swap? { assert FreerOk(s, a.t, s.freer[a.t]); }
  }

  lemma {:induction false} LiveUntilFreed(states: seq<State>, actions: seq<Action>, i: nat, j: nat, b: Block)
    requires IsRun(states, actions) && i <= j < |states|
    requires b < |states[i].status| && states[i].status[b] == Live
    requires forall k :: i <= k < j ==> !Frees(actions[k], b)
    ensures b < |states[j].status| && states[j].status[b] == Live
  {
    if i < j {
      LiveUntilFreed(states, actions, i, j - 1, b);
      InvOnRun(states, actions, j - 1);
      LiveStep(states[j - 1], actions[j - 1], states[j], b);
    }
  }

  // No block is handed out twice: between two allocations of a block someone frees it.
  lemma NoDoubleHandout(states: seq<State>, actions: seq<Action>, i: nat, j: nat)
    requires IsRun(states, actions) && i < j < |actions|
    requires actions[i].Alloc? && actions[j].Alloc? && actions[i].block == actions[j].block
    ensures exists k :: i < k < j && Frees(actions[k], actions[i].block)
  {
    if forall k :: i < k < j ==> !Frees(actions[k], actions[i].block) {
      InvOnRun(states, actions, i);
      AllocFindsFree(states[i], actions[i], states[i + 1]);
      LiveUntilFreed(states, actions, i + 1, j, actions[i].block);
      InvOnRun(states, actions, j);
      AllocFindsFree(states[j], actions[j], states[j + 1]);
      assert false;
    }
  }

  lemma {:induction false} ChainUnique(l: Link, next: seq<Link>, a: seq<Block>, b: seq<Block>)
    requires Chain(l, next, a) && Chain(l, next, b)
    ensures a == b
    decreases a
  {
    if a != [] { ChainUnique(next[a[0]], next, a[1..], b[1..]); }
  }

  predicate SwapSucceeds(s: State, a: Action) {
    a.Swap? && !a.spurious && a.t in s.freer && s.freer[a.t].Swapping? && s.head == s.freer[a.t].seen
  }

  // A compare-and-swap that succeeds prepends its block to the list as it is now.  The head it loaded may
  // since have been drained, reused and pushed again: nothing is assumed about what happened in between.
  lemma SwapPrepends(states: seq<State>, actions: seq<Action>, i: nat, list: seq<Block>)
    requires IsRun(states, actions) && i < |actions|
    requires SwapSucceeds(states[i], actions[i])
    requires Chain(states[i].head, states[i].next, list)
    ensures var b := states[i].freer[actions[i].t].block;
      b !in list && Chain(states[i + 1].head, states[i + 1].next, [b] + list)
  {
    var s := states[i];
    InvOnRun(states, actions, i);
    InvOnRun(states, actions, i + 1);
    ChainUnique(s.head, s.next, list, s.remote);
    assert FreerOk(s, actions[i].t, s.freer[actions[i].t]);
    assert !On(s, s.freer[actions[i].t].block);
  }

  // Each block is in exactly one place: free, live, in one thread's push, on the remote list, or on the
  // list being drained; its bit is set exactly when it is not free; used_count counts the set bits.
  lemma EveryBlockInOnePlace(states: seq<State>, actions: seq<Action>, i: nat, b: Block)
    requires IsRun(states, actions) && i < |states| && b < BlockCount(states[i])
    ensures b < |states[i].bits|
    ensures var s := states[i];
      && (s.bits[b] <==> s.status[b] != Free)
      && (s.status[b] == Listed <==> On(s, b)) && !(b in s.remote && b in s.drained)
      && (forall t :: PushedBy(s, t, b) <==> s.status[b] == Pushing(t))
      && s.used == |set c: Block | c < BlockCount(s) && c < |s.bits| && s.bits[c]|
  {
    InvOnRun(states, actions, i);
    var s := states[i];
    forall t ensures PushedBy(s, t, b) <==> s.status[b] == Pushing(t) {
      if PushedBy(s, t, b) { assert FreerOk(s, t, s.freer[t]); }
    }
    CountPositions(s.status, IsUsed);
    assert (set c: Block | c < BlockCount(s) && c < |s.bits| && s.bits[c]) == Positions(s.status, IsUsed);
  }

  // The memory accesses of the push and the drain always hit blocks of the page.
  lemma NoFault(states: seq<State>, actions: seq<Action>, i: nat)
    requires IsRun(states, actions) && i < |states|
    ensures var s := states[i];
      && (s.owner.Draining? && s.owner.cursor.Node? ==> s.owner.cursor.block < BlockCount(s) && s.used > 0)
      && (forall t <- s.freer :: !s.freer[t].Idle? ==> s.freer[t].block < BlockCount(s))
  {
    InvOnRun(states, actions, i);
    var s := states[i];
    if s.owner.Draining? && s.owner.cursor.Node? { DrainAt(s); }
    forall t | t in s.freer && !s.freer[t].Idle? ensures s.freer[t].block < BlockCount(s) {
      assert FreerOk(s, t, s.freer[t]);
    }
  }

  // While a drain is under way, the blocks it took are free again or still to come.
  ghost predicate DrainedOrFree(s: State, b: Block) {
    s.owner.Draining? && (b in s.drained || (b < |s.status| && s.status[b] == Free))
  }

  lemma DrainKeeps(s: State, a: Action, s': State, b: Block)
    requires Inv(s) && Step(s, a, s') && DrainedOrFree(s, b) && !a.EndDrain?
    ensures DrainedOrFree(s', b)
  {
    if a.DrainOne? {
      DrainAt(s);
      assert s.drained == [s.drained[0]] + s'.drained;
    }
    if a.Swap? { assert FreerOk(s, a.t, s.freer[a.t]); }
  }

  lemma {:induction false} DrainKeepsList(states: seq<State>, actions: seq<Action>, i: nat, j: nat, b: Block)
    requires IsRun(states, actions) && i < j < |states|
    requires actions[i].BeginDrain? && b in states[i].remote
    requires forall k :: i < k < j ==> !actions[k].EndDrain?
    ensures DrainedOrFree(states[j], b)
  {
    if i + 1 < j {
      DrainKeepsList(states, actions, i, j - 1, b);
      InvOnRun(states, actions, j - 1);
      DrainKeeps(states[j - 1], actions[j - 1], states[j], b);
    }
  }

  // Every block whose push completed before the exchange is free again when the drain ends.
  lemma DrainReturnsAll(states: seq<State>, actions: seq<Action>, i: nat, j: nat, b: Block)
    requires IsRun(states, actions) && i < j < |actions|
    requires actions[i].BeginDrain? && actions[j].EndDrain? && forall k :: i < k < j ==> !actions[k].EndDrain?
    requires b in states[i].remote
    ensures b < |states[j + 1].bits| && !states[j + 1].bits[b]
  {
    DrainKeepsList(states, actions, i, j, b);
    InvOnRun(states, actions, j);
    InvOnRun(states, actions, j + 1);
  }

  // ----- a free is completed -----

  // A local free makes the block available at once.
  lemma LocalFreeReturns(states: seq<State>, actions: seq<Action>, i: nat)
    requires IsRun(states, actions) && i < |actions| && actions[i].LocalFree?
    ensures actions[i].block < |states[i].bits| && states[i].bits[actions[i].block]
    ensures states[i + 1].bits == states[i].bits[actions[i].block := false]
  {
    InvOnRun(states, actions, i);
    InvOnRun(states, actions, i + 1);
  }

  // A thread that pushes a block goes on pushing it until its compare-and-swap succeeds.
  lemma PushGoesOn(s: State, a: Action, s': State, t: Tid, b: Block)
    requires Step(s, a, s') && PushedBy(s, t, b)
    ensures PushedBy(s', t, b) || (a.Swap? && a.t == t && SwapSucceeds(s, a))
  {
  }

  // The step puts block b on the remote list for thread t.
  predicate Lists(s: State, a: Action, s': State, t: Tid, b: Block) {
    SwapSucceeds(s, a) && a.t == t && PushedBy(s, t, b) && s'.remote != [] && s'.remote[0] == b
  }

  lemma SwapLists(s: State, a: Action, s': State, b: Block)
    requires Step(s, a, s') && SwapSucceeds(s, a) && PushedBy(s, a.t, b)
    ensures Lists(s, a, s', a.t, b)
  {
  }

  lemma {:induction false} PushUntil(states: seq<State>, actions: seq<Action>, i: nat, j: nat, t: Tid, b: Block)
    returns (k: nat)
    requires IsRun(states, actions) && i <= j < |states| && PushedBy(states[i], t, b)
    ensures PushedBy(states[j], t, b) || (i <= k < j && Lists(states[k], actions[k], states[k + 1], t, b))
  {
    hide Step, Lists, PushedBy, SwapSucceeds;
    k := i;
    if i < j {
      k := PushUntil(states, actions, i, j - 1, t, b);
      if PushedBy(states[j - 1], t, b) {
        PushGoesOn(states[j - 1], actions[j - 1], states[j], t, b);
        if !PushedBy(states[j], t, b) {
          SwapLists(states[j - 1], actions[j - 1], states[j], b);
          k := j - 1;
        }
      }
    }
  }

  // In every run, a thread that has begun a foreign free and is idle again has put the block on the remote list.
  lemma PushIsCompleted(states: seq<State>, actions: seq<Action>, i: nat, j: nat, t: Tid, b: Block) returns (k: nat)
    requires IsRun(states, actions) && i < j < |states| && i < |actions| && actions[i] == StartFree(t, b)
    requires t in states[j].freer && states[j].freer[t] == Idle
    ensures i < k < j && Lists(states[k], actions[k], states[k + 1], t, b) && b in states[k + 1].remote
  {
    FreeStarts(states[i], actions[i], states[i + 1]);
    k := PushUntil(states, actions, i + 1, j, t, b);
  }

  lemma FreeStarts(s: State, a: Action, s': State)
    requires Step(s, a, s') && a.StartFree?
    ensures PushedBy(s', a.t, a.block)
  {
  }

  predicate Available(s: State, b: Block) { b < |s.bits| && !s.bits[b] }

  lemma ListedStep(s: State, a: Action, s': State, b: Block)
    requires Inv(s) && Step(s, a, s') && On(s, b)
    ensures On(s', b) || Available(s', b)
  {
    if a.DrainOne? {
      DrainAt(s);
      assert s.drained == [s.drained[0]] + s'.drained;
    }
  }

  // A listed block stays on one of the two lists until its bit is clear.
  lemma {:induction false} ListedUntil(states: seq<State>, actions: seq<Action>, i: nat, j: nat, b: Block)
    returns (m: nat)
    requires IsRun(states, actions) && i <= j < |states| && On(states[i], b)
    ensures On(states[j], b) || (i <= m <= j && Available(states[m], b))
  {
    hide Step, Inv, On, Available;
    m := i;
    if i < j {
      m := ListedUntil(states, actions, i, j - 1, b);
      if On(states[j - 1], b) {
        InvOnRun(states, actions, j - 1);
        ListedStep(states[j - 1], actions[j - 1], states[j], b);
        m := j;
      }
    }
  }

  // In every run, if a foreign free of b has returned by state j, then by the end of any drain that begins afterwards
  // the block has been available again.
  lemma FreedByDrain(states: seq<State>, actions: seq<Action>, i: nat, j: nat, d: nat, e: nat, t: Tid, b: Block)
    returns (m: nat)
    requires IsRun(states, actions) && i < j <= d < e < |actions| && actions[i] == StartFree(t, b)
    requires t in states[j].freer && states[j].freer[t] == Idle
    requires actions[d].BeginDrain? && actions[e].EndDrain? && forall k :: d < k < e ==> !actions[k].EndDrain?
    ensures i < m <= e + 1 && Available(states[m], b)
  {
    hide Step, Inv, Lists;
    var k := PushIsCompleted(states, actions, i, j, t, b);
    m := ListedUntil(states, actions, k + 1, d, b);
    if On(states[d], b) {
      OnlyRemote(states, actions, d, b);
      DrainReturnsAll(states, actions, d, e, b);
      m := e + 1;
    }
  }

  // When a drain begins nothing is left of an earlier one.
  lemma OnlyRemote(states: seq<State>, actions: seq<Action>, d: nat, b: Block)
    requires IsRun(states, actions) && d < |actions| && actions[d].BeginDrain? && On(states[d], b)
    ensures b in states[d].remote
  {
    InvOnRun(states, actions, d);
    assert Step(states[d], actions[d], states[d + 1]);
  }

  lemma {:induction false} RemoteUntilDrain(states: seq<State>, actions: seq<Action>, i: nat, j: nat, b: Block)
    requires IsRun(states, actions) && i <= j < |states| && b in states[i].remote
    requires forall k :: i <= k < j ==> !actions[k].BeginDrain?
    ensures b in states[j].remote
  {
    if i < j {
      RemoteUntilDrain(states, actions, i, j - 1, b);
      assert Step(states[j - 1], actions[j - 1], states[j]);
    }
  }

  // If that drain is the first since the free began, the block is available when it ends.
  lemma FreedByFirstDrain(states: seq<State>, actions: seq<Action>, i: nat, j: nat, d: nat, e: nat, t: Tid, b: Block)
    requires IsRun(states, actions) && i < j <= d < e < |actions| && actions[i] == StartFree(t, b)
    requires t in states[j].freer && states[j].freer[t] == Idle
    requires actions[d].BeginDrain? && actions[e].EndDrain? && forall k :: d < k < e ==> !actions[k].EndDrain?
    requires forall k :: i < k < d ==> !actions[k].BeginDrain?
    ensures Available(states[e + 1], b)
  {
    hide Step, Inv, Lists;
    var k := PushIsCompleted(states, actions, i, j, t, b);
    RemoteUntilDrain(states, actions, k + 1, d, b);
    DrainReturnsAll(states, actions, d, e, b);
  }

  // ----- nobody is stuck -----

  ghost predicate Can(s: State, a: Action) { exists s' :: Step(s, a, s') }

  // The next step of a foreign freer; an idle one can free any block that is live.
  predicate NextOf(s: State, a: Action, t: Tid) {
    t in s.freer &&
    match s.freer[t]
    case Idle => a.StartFree? && a.t == t && a.block < |s.status| && s.status[a.block] == Live
    case Loading(_) => a == LoadHead(t)
    case Linking(_, _) => a == StoreNext(t)
    case Swapping(_, _) => a.Swap? && a.t == t
  }

  // The next step of the owner, which between calls can free what is live and drain.
  predicate NextOfOwner(s: State, a: Action) {
    match s.owner
    case Ready => a == BeginDrain || (a.LocalFree? && a.block < |s.status| && s.status[a.block] == Live)
    case Draining(cursor) => a == if cursor == Nil then EndDrain else DrainOne
  }

  lemma FreerCan(s: State, a: Action, t: Tid)
    requires Inv(s) && NextOf(s, a, t)
    ensures Can(s, a)
  {
    var f := s.freer[t];
    assert FreerOk(s, t, f);
    var s' := match f
      case Idle => s.(freer := s.freer[t := Loading(a.block)], status := s.status[a.block := Pushing(t)])
      case Loading(b) => s.(freer := s.freer[t := Linking(b, s.head)])
      case Linking(b, seen) => s.(next := s.next[b := seen], freer := s.freer[t := Swapping(b, seen)])
      case Swapping(b, seen) =>
        if s.head == seen && !a.spurious
        then s.(head := Node(b), freer := s.freer[t := Idle], status := s.status[b := Listed], remote := [b] + s.remote)
        else s.(freer := s.freer[t := Loading(b)]);
    assert Step(s, a, s');
  }

  lemma OwnerCan(s: State, a: Action)
    requires Inv(s) && NextOfOwner(s, a)
    ensures Can(s, a)
  {
    var used := (s.used + COUNTER - 1) % COUNTER;
    match a
    case BeginDrain =>
      assert Step(s, a, s.(head := Nil, owner := Draining(s.head), drained := s.remote, remote := []));
    case LocalFree(b) =>
      assert Step(s, a, s.(bits := s.bits[b := false], used := used, status := s.status[b := Free]));
    case DrainOne =>
      assert s.drained != [] && On(s, s.drained[0]);
      var b := s.owner.cursor.block;
      assert Step(s, a, s.(bits := s.bits[b := false], used := used, owner := Draining(s.next[b]),
                           status := s.status[b := Free], drained := s.drained[1..]));
    case EndDrain => assert Step(s, a, s.(owner := Ready));
  }

  lemma {:induction false} LowestUpTo(bits: seq<bool>, b: Block) returns (c: Block)
    requires b < |bits| && !bits[b]
    ensures c <= b && LowestClear(bits, c)
  {
    if i :| 0 <= i < b && !bits[i] { c := LowestUpTo(bits, i); } else { c := b; }
  }

  lemma AllocCan(s: State, b: Block, header: Link) returns (c: Block)
    requires Inv(s) && s.owner == Ready && b < |s.status| && s.status[b] == Free
    ensures c <= b && Can(s, Alloc(c, header))
  {
    c := LowestUpTo(s.bits, b);
    CountBounds(s.status, IsUsed);
    assert Step(s, Alloc(c, header),
                s.(bits := s.bits[c := true], used := (s.used + 1) % COUNTER, next := s.next[c := header],
                   status := s.status[c := Live]));
  }

  // In every run every operation that has begun can go on, and every one that callers may begin can begin.
  lemma NobodyStuck(states: seq<State>, actions: seq<Action>, i: nat, a: Action, t: Tid)
    requires IsRun(states, actions) && i < |states|
    ensures NextOf(states[i], a, t) || NextOfOwner(states[i], a) ==> Can(states[i], a)
  {
    hide Step, Inv, Can;
    InvOnRun(states, actions, i);
    if NextOf(states[i], a, t) { FreerCan(states[i], a, t); }
    if NextOfOwner(states[i], a) { OwnerCan(states[i], a); }
  }

  // In every run the owner can allocate from the page whenever a block of it is free.
  lemma AllocationSucceeds(states: seq<State>, actions: seq<Action>, i: nat, b: Block, header: Link) returns (c: Block)
    requires IsRun(states, actions) && i < |states| && states[i].owner == Ready
    requires b < |states[i].status| && states[i].status[b] == Free
    ensures c <= b && Can(states[i], Alloc(c, header))
  {
    hide Step, Inv, Can;
    InvOnRun(states, actions, i);
    c := AllocCan(states[i], b, header);
  }

  // ----- a push fails only if another one succeeds -----

  lemma HeadKept(s: State, a: Action, s': State)
    requires Step(s, a, s') && !SwapSucceeds(s, a) && !a.BeginDrain?
    ensures s'.head == s.head
  {
  }

  // What thread t has loaded, and has not compared with yet.
  predicate HasSeen(s: State, t: Tid, l: Link) {
    t in s.freer && (s.freer[t].Linking? || s.freer[t].Swapping?) && s.freer[t].seen == l
  }

  lemma {:induction false} SeenUntil(states: seq<State>, actions: seq<Action>, i: nat, j: nat, t: Tid)
    requires IsRun(states, actions) && i < j < |states| && i < |actions| && actions[i] == LoadHead(t)
    requires forall k :: i < k < j ==> !(actions[k].Swap? && actions[k].t == t)
    requires forall k :: i < k < j ==> !SwapSucceeds(states[k], actions[k]) && !actions[k].BeginDrain?
    ensures HasSeen(states[j], t, states[j].head)
  {
    hide Step, SwapSucceeds, HasSeen;
    if i + 1 < j {
      SeenUntil(states, actions, i, j - 1, t);
      SeenStep(states[j - 1], actions[j - 1], states[j], t);
    } else {
      SeenFirst(states[i], actions[i], states[j]);
    }
  }

  lemma SeenFirst(s: State, a: Action, s': State)
    requires Step(s, a, s') && a.LoadHead?
    ensures HasSeen(s', a.t, s'.head)
  {
  }

  lemma SeenStep(s: State, a: Action, s': State, t: Tid)
    requires Step(s, a, s') && HasSeen(s, t, s.head) && !(a.Swap? && a.t == t)
    requires !SwapSucceeds(s, a) && !a.BeginDrain?
    ensures HasSeen(s', t, s'.head)
  {
    HeadKept(s, a, s');
  }

  // The push is lock-free: between the load and a compare-and-swap that fails, other than for no reason, another
  // thread's push has succeeded or the owner has taken the list.
  lemma FailsOnlyByProgress(states: seq<State>, actions: seq<Action>, i: nat, j: nat, t: Tid)
    requires IsRun(states, actions) && i < j < |actions| && actions[i] == LoadHead(t) && actions[j] == Swap(t, false)
    requires forall k :: i < k < j ==> !(actions[k].Swap? && actions[k].t == t)
    requires !SwapSucceeds(states[j], actions[j])
    ensures exists k :: i < k < j && (SwapSucceeds(states[k], actions[k]) || actions[k].BeginDrain?)
  {
    assert Step(states[j], actions[j], states[j + 1]);
    if forall k :: i < k < j ==> !SwapSucceeds(states[k], actions[k]) && !actions[k].BeginDrain? {
      SeenUntil(states, actions, i, j, t);
      assert false;
    }
  }
}
