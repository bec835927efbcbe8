/** The reusable barrier: `count` arrivals of the current generation, `phase` a 32-bit generation
    counter that wraps.  Exactly `threshold` threads use the barrier, each as often as it likes.

    Auxiliary counters, which the code does not have, record history: `arrived` and `left` count a
    thread's arrivals and returns, `gen` counts the completed generations without wrapping. */
module Barrier {
  import opened Common

  const WAKE_MAX := 2147483647     // the number of sleepers that the last thread asks to wake

  // So many participants that the last one can wake all others.
  const MAX_WOKEN := WAKE_MAX + 1

  datatype Pc =
    | Out               // not in barrier_wait
    | Loaded(p: nat)    // loaded the phase, about to add 1 to count
    | Check(p: nat)     // not the last one, about to load the phase again
    | Wait(p: nat)      // phase had not changed, about to call futex_wait(phase, p)
    | Sleep(p: nat)
    | Reset             // last one, about to store 0 to count
    | Bump              // about to add 1 to phase
    | Wake              // about to wake all

  datatype State = State(count: nat, phase: nat, pc: map<Tid, Pc>,
                         arrived: map<Tid, nat>, left: map<Tid, nat>, gen: nat)
  {
    // Exactly the participants use the barrier.
    ghost function Threshold(): nat { |pc| }

    function Move(t: Tid, p: Pc): State { this.(pc := pc[t := p]) }

    function Leave(t: Tid): State
      requires t in left
    { this.(pc := pc[t := Out], left := left[t := left[t] + 1]) }
  }

  datatype Action =
    | Load(t: Tid) | Arrive(t: Tid) | StoreZero(t: Tid) | Advance(t: Tid) | WakeAll(t: Tid, those: set<Tid>)
    | Recheck(t: Tid) | FutexWait(t: Tid, interrupted: bool) | SpuriousWake(t: Tid)

  ghost predicate Shape(s: State) {
    && 0 < s.Threshold() < WORD32
    && s.arrived.Keys == s.pc.Keys && s.left.Keys == s.pc.Keys
  }

  ghost predicate Init(s: State) {
    && Shape(s)
    && s.count == 0 && s.phase == 0 && s.gen == 0
    && forall t <- s.pc :: s.pc[t] == Out && s.arrived[t] == 0 && s.left[t] == 0
  }

  function Woken(p: Pc): Pc {
    if p.Sleep? then Check(p.p) else p
  }

  function Sleepers(s: State): set<Tid> {
    set t | t in s.pc && s.pc[t].Sleep?
  }

  function Roused(pc: map<Tid, Pc>, those: set<Tid>): map<Tid, Pc> {
    map u | u in pc :: if u in those then Woken(pc[u]) else pc[u]
  }

  ghost predicate Step(s: State, a: Action, s': State) {
    Shape(s) && a.t in s.pc &&
    var p := s.pc[a.t];
    match a
    case Load(t) => p == Out && s' == s.Move(t, Loaded(s.phase))
    case Arrive(t) =>
      && p.Loaded?
      && var n := (s.count + 1) % WORD32;
         s' == s.Move(t, if n == s.Threshold() then Reset else Check(p.p))
                .(count := n, arrived := s.arrived[t := s.arrived[t] + 1])
    case StoreZero(t) => p == Reset && s' == s.Move(t, Bump).(count := 0)
    case Advance(t) => p == Bump && s' == s.Move(t, Wake).(phase := (s.phase + 1) % WORD32, gen := s.gen + 1)
    case WakeAll(t, those) =>
      && p == Wake && those <= Sleepers(s) && |those| == Min(WAKE_MAX, |Sleepers(s)|)
      && s' == s.(pc := Roused(s.pc, those)).Leave(t)
    case Recheck(t) => p.Check? && s' == if s.phase == p.p then s.Move(t, Wait(p.p)) else s.Leave(t)
    case FutexWait(t, interrupted) =>
      p.Wait? && s' == s.Move(t, if s.phase == p.p && !interrupted then Sleep(p.p) else Check(p.p))
    case SpuriousWake(t) => p.Sleep? && s' == s.Move(t, Check(p.p))
  }

  ghost predicate IsRun(states: seq<State>, actions: seq<Action>) {
    && |states| == |actions| + 1
    && Init(states[0])
    && forall i :: 0 <= i < |actions| ==> Step(states[i], actions[i], states[i + 1])
  }

  // ----- the inductive invariant -----

  predicate Waiting(p: Pc) {
    p.Check? || p.Wait? || p.Sleep?
  }

  // The 32-bit word that `gen` increments from 0 leave behind.
  function PhaseWord(gen: nat): (w: nat)
    ensures w < WORD32
  {
    if gen == 0 then 0 else (PhaseWord(gen - 1) + 1) % WORD32
  }

  // A waiter of the current generation, or one of the generation before that has not yet noticed.
  predicate ThreadOk(gen: nat, p: Pc, arrived: nat, left: nat) {
    match p
    case Out => arrived == left == gen
    case Loaded(v) => arrived == left == gen && v == PhaseWord(gen)
    case Reset => arrived == gen + 1 && left == gen
    case Bump => arrived == gen + 1 && left == gen
    case Wake => arrived == gen && left == gen - 1
    case _ => arrived == left + 1 && p.p == PhaseWord(left) && gen - 1 <= left <= gen
  }

  ghost function Arrivals(s: State): set<Tid> {
    set t | t in s.arrived && s.arrived[t] == s.gen + 1
  }

  predicate Closing(s: State, t: Tid) {
    t in s.pc && s.pc[t] in {Reset, Bump}
  }

  // While nobody closes the generation, count is the number of its arrivals.
  ghost predicate CountOk(s: State) {
    if exists t :: Closing(s, t)
    then Arrivals(s) == s.pc.Keys
      && forall t | Closing(s, t) :: s.count == if s.pc[t] == Reset then s.Threshold() else 0
    else s.count == |Arrivals(s)| && Arrivals(s) != s.pc.Keys
  }

  ghost predicate Inv(s: State) {
    && Shape(s)
    && s.phase == PhaseWord(s.gen)
    && (forall t <- s.pc :: ThreadOk(s.gen, s.pc[t], s.arrived[t], s.left[t]))
    && CountOk(s)
    && (forall t, u :: Closing(s, t) && Closing(s, u) ==> t == u)
  }

  // A thread that is asleep although its generation has ended is about to be woken.
  ghost predicate Covered(s: State) {
    forall t <- s.pc :: t in s.left && Overslept(s, t) ==> exists u <- s.pc :: s.pc[u] == Wake
  }

  lemma InvInit(s: State)
    requires Init(s)
    ensures Inv(s)
  {
    assert Arrivals(s) == {};
    assert s.pc != map[];
    assert s.pc.Keys != {};
  }

  // Consecutive generations never share a phase word: a waiter that lags by one is told apart.
  lemma PhasesDiffer(gen: nat)
    ensures PhaseWord(gen + 1) == (PhaseWord(gen) + 1) % WORD32
    ensures PhaseWord(gen + 1) != PhaseWord(gen)
  {
  }

  lemma OthersStep(s: State, a: Action, s': State)
    requires Step(s, a, s')
    ensures Shape(s')
    ensures s'.pc.Keys == s.pc.Keys && s'.Threshold() == s.Threshold()
    ensures forall u <- s.pc | u != a.t ::
      && s'.arrived[u] == s.arrived[u] && s'.left[u] == s.left[u]
      && s'.pc[u] == if a.WakeAll? && u in a.those then Woken(s.pc[u]) else s.pc[u]
  {
    assert s'.pc.Keys == s.pc.Keys;
    assert |s'.pc| == |s'.pc.Keys| == |s.pc.Keys| == |s.pc|;
  }

  lemma OwnStep(s: State, a: Action, s': State)
    requires Step(s, a, s') && s.phase == PhaseWord(s.gen) && a.t in s.pc && a.t in s.arrived && a.t in s.left
    requires ThreadOk(s.gen, s.pc[a.t], s.arrived[a.t], s.left[a.t])
    ensures s'.phase == PhaseWord(s'.gen)
    ensures a.t in s'.arrived && a.t in s'.left && a.t in s'.pc
    ensures ThreadOk(s'.gen, s'.pc[a.t], s'.arrived[a.t], s'.left[a.t])
  {
    PhasesDiffer(s.gen);
    if s.gen > 0 { PhasesDiffer(s.gen - 1); }
  }

  // When the phase advances everyone has arrived, so everyone else is a waiter of the generation that ends.
  lemma AllWaiting(s: State, t: Tid)
    requires Inv(s) && t in s.pc && s.pc[t] == Bump
    ensures forall u <- s.pc :: s.arrived[u] == s.gen + 1 && (u != t ==> Waiting(s.pc[u]))
  {
    assert Closing(s, t);
    forall u | u in s.pc ensures s.arrived[u] == s.gen + 1 && (u != t ==> Waiting(s.pc[u])) {
      assert u in Arrivals(s);
      assert ThreadOk(s.gen, s.pc[u], s.arrived[u], s.left[u]) && (u != t ==> !Closing(s, u));
    }
  }

  lemma GenStep(s: State, a: Action, s': State)
    requires Step(s, a, s')
    ensures a.t in s.pc && s'.gen == (if a.Advance? then s.gen + 1 else s.gen) && (a.Advance? ==> s.pc[a.t] == Bump)
  {
  }

  lemma ThreadsStep(s: State, a: Action, s': State)
    requires Inv(s) && Step(s, a, s')
    ensures s'.pc.Keys == s.pc.Keys && Shape(s')
    ensures forall t <- s'.pc :: ThreadOk(s'.gen, s'.pc[t], s'.arrived[t], s'.left[t])
  {
    hide Step, ThreadOk;
    GenStep(s, a, s');
    OthersStep(s, a, s');
    OwnStep(s, a, s');
    if a.Advance? { AllWaiting(s, a.t); }
    forall t | t in s'.pc && t != a.t ensures ThreadOk(s'.gen, s'.pc[t], s'.arrived[t], s'.left[t]) {
      OtherThread(s.gen, s.pc[t], s.arrived[t], s.left[t], s'.gen, s'.pc[t]);
    }
  }

  // What a step of another thread may do to a thread: wake it, or end the generation that it waits in.
  lemma OtherThread(gen: nat, p: Pc, arrived: nat, left: nat, gen': nat, p': Pc)
    requires ThreadOk(gen, p, arrived, left) && (p' == p || p' == Woken(p))
    requires gen' == gen || (gen' == gen + 1 && arrived == gen + 1 && Waiting(p))
    ensures ThreadOk(gen', p', arrived, left)
  {
  }

  lemma ArriveSets(s: State, a: Action, s': State)
    requires Inv(s) && Step(s, a, s') && a.Arrive?
    ensures a.t !in Arrivals(s) && Arrivals(s') == Arrivals(s) + {a.t} && Arrivals(s') <= s.pc.Keys
    ensures s.count == |Arrivals(s)|
    ensures forall u <- s.pc :: s.pc[u] !in {Reset, Bump}
  {
    NobodyCloses(s, a.t);
    ArrivalJoins(s, a, s');
    forall u | u in s.pc ensures s.pc[u] !in {Reset, Bump} { assert !Closing(s, u); }
  }

  // While a thread is about to arrive its generation is open.
  lemma NobodyCloses(s: State, t: Tid)
    requires Inv(s) && t in s.pc && s.pc[t].Loaded?
    ensures t in s.arrived && s.arrived[t] == s.gen && s.count == |Arrivals(s)| && forall u :: !Closing(s, u)
  {
    assert ThreadOk(s.gen, s.pc[t], s.arrived[t], s.left[t]);
    assert t !in Arrivals(s);
  }

  lemma ArrivalJoins(s: State, a: Action, s': State)
    requires Step(s, a, s') && a.Arrive? && a.t in s.arrived && s.arrived[a.t] == s.gen
    ensures a.t !in Arrivals(s) && Arrivals(s') == Arrivals(s) + {a.t} && Arrivals(s') <= s.pc.Keys
  {
  }

  // What the arrival itself does.
  lemma ArriveWord(s: State, a: Action, s': State)
    requires Step(s, a, s') && a.Arrive? && s.count < s.Threshold()
    ensures Shape(s') && s'.count == s.count + 1
    ensures s'.pc[a.t] == Reset <==> s'.count == s'.Threshold()
    ensures s'.pc[a.t] != Bump && s'.pc == s.pc[a.t := s'.pc[a.t]] && s'.pc.Keys == s.pc.Keys
  {
    assert s'.pc.Keys == s.pc.Keys;
    assert |s'.pc| == |s'.pc.Keys| == |s.pc.Keys| == |s.pc|;
  }

  // The last arrival, and only the last, turns into the thread that closes the generation.
  lemma ArriveCloses(s': State, t: Tid)
    requires Shape(s') && t in s'.pc && s'.count == |Arrivals(s')| && Arrivals(s') <= s'.pc.Keys
    requires s'.pc[t] == Reset <==> s'.count == s'.Threshold()
    requires s'.pc[t] != Bump && forall u <- s'.pc | u != t :: s'.pc[u] !in {Reset, Bump}
    ensures CountOk(s') && forall u :: Closing(s', u) ==> u == t
  {
    SubsetSize(Arrivals(s'), s'.pc.Keys);
    if s'.pc[t] == Reset {
      assert Closing(s', t);
    } else {
      assert forall u :: !Closing(s', u);
    }
  }

  lemma ArriveCounts(s: State, a: Action, s': State)
    requires Inv(s) && Step(s, a, s') && a.Arrive?
    ensures Shape(s') && CountOk(s') && forall u :: Closing(s', u) ==> u == a.t
  {
    ArriveSets(s, a, s');
    SubsetSize(Arrivals(s'), s.pc.Keys);
    ArriveWord(s, a, s');
    ArriveCloses(s', a.t);
  }

  lemma AdvanceCounts(s: State, a: Action, s': State)
    requires Inv(s) && Step(s, a, s') && a.Advance?
    ensures Shape(s') && CountOk(s') && forall u :: !Closing(s', u)
  {
    OthersStep(s, a, s');
    assert Closing(s, a.t);
    forall u ensures !Closing(s', u) { assert u != a.t ==> !Closing(s, u); }
    assert forall t <- s.pc :: t in Arrivals(s);
    assert Arrivals(s') == {};
    assert a.t in s'.pc.Keys;
  }

  // Every other step leaves the arrivals of the open generation and the closing thread alone.
  lemma ArrivalsKept(s: State, a: Action, s': State)
    requires Step(s, a, s') && !a.Arrive? && !a.Advance?
    ensures s'.arrived == s.arrived && s'.gen == s.gen && Arrivals(s') == Arrivals(s)
  {
  }

  lemma OwnClosingKept(s: State, a: Action, s': State)
    requires Step(s, a, s') && !a.Arrive? && !a.Advance?
    ensures Closing(s', a.t) <==> Closing(s, a.t)
  {
  }

  lemma ClosingKept(s: State, a: Action, s': State)
    requires Step(s, a, s') && !a.Arrive? && !a.Advance?
    ensures s'.pc.Keys == s.pc.Keys && forall u :: Closing(s', u) <==> Closing(s, u)
  {
    hide Step;
    OthersStep(s, a, s');
    OwnClosingKept(s, a, s');
  }

  lemma OwnCountKept(s: State, a: Action, s': State)
    requires Step(s, a, s') && !a.Arrive? && !a.Advance?
    ensures a.StoreZero? ==> Closing(s, a.t) && s'.pc[a.t] == Bump && s'.count == 0
    ensures !a.StoreZero? ==> !Closing(s, a.t) && s'.count == s.count
  {
  }

  lemma CountKept(s: State, a: Action, s': State)
    requires Step(s, a, s') && !a.Arrive? && !a.Advance?
    ensures a.StoreZero? ==> Closing(s, a.t) && s'.pc[a.t] == Bump && s'.count == 0
    ensures !a.StoreZero? ==> s'.count == s.count && forall u | Closing(s, u) :: u in s'.pc && s'.pc[u] == s.pc[u]
  {
    hide Step;
    OwnCountKept(s, a, s');
    OthersStep(s, a, s');
  }

  lemma OtherCounts(s: State, a: Action, s': State)
    requires Shape(s) && CountOk(s) && Step(s, a, s') && !a.Arrive? && !a.Advance?
    requires forall t, u :: Closing(s, t) && Closing(s, u) ==> t == u
    ensures Shape(s') && CountOk(s') && forall u :: Closing(s', u) <==> Closing(s, u)
  {
    OthersStep(s, a, s');
    ArrivalsKept(s, a, s');
    ClosingKept(s, a, s');
    CountKept(s, a, s');
  }

  lemma CountStep(s: State, a: Action, s': State)
    requires Inv(s) && Step(s, a, s')
    ensures Shape(s') && CountOk(s') && forall t, u :: Closing(s', t) && Closing(s', u) ==> t == u
  {
    if a.Arrive? {
      ArriveCounts(s, a, s');
    } else if a.Advance? {
      AdvanceCounts(s, a, s');
    } else {
      OtherCounts(s, a, s');
    }
  }

  predicate Overslept(s: State, t: Tid)
    requires t in s.pc && t in s.left
  {
    s.pc[t].Sleep? && s.left[t] < s.gen
  }

  // A thread that falls asleep has just compared the current phase with its own, so it is of the current generation.
  lemma SleepOwn(s: State, a: Action, s': State)
    requires Step(s, a, s') && s.phase == PhaseWord(s.gen) && !a.Advance?
    requires a.t in s.pc && a.t in s.arrived && a.t in s.left
    requires ThreadOk(s.gen, s.pc[a.t], s.arrived[a.t], s.left[a.t])
    ensures a.t in s'.pc && a.t in s'.left && !Overslept(s', a.t)
  {
    if s.gen > 0 { PhasesDiffer(s.gen - 1); }
  }

  // Up to 2^31 participants, the last one wakes all others that sleep.
  lemma WakesEverybody(s: State, a: Action, s': State)
    requires Step(s, a, s') && a.WakeAll? && |s.pc| <= MAX_WOKEN
    ensures forall u <- s'.pc :: !s'.pc[u].Sleep?
  {
    OthersStep(s, a, s');
    OthersSleep(s, a.t);
    SubsetSize(a.those, Sleepers(s));
    assert a.those == Sleepers(s);
  }

  lemma OthersSleep(s: State, t: Tid)
    requires t in s.pc && !s.pc[t].Sleep?
    ensures |Sleepers(s)| < |s.pc|
  {
    var others := s.pc.Keys - {t};
    SubsetSize(Sleepers(s), others);
    assert |others| == |s.pc.Keys| - 1 && |s.pc.Keys| == |s.pc|;
  }

  lemma SleepStep(s: State, a: Action, s': State, t: Tid)
    requires Inv(s) && Covered(s) && |s.pc| <= MAX_WOKEN && Step(s, a, s')
    requires t in s'.pc && t in s'.left && Overslept(s', t)
    ensures exists u <- s'.pc :: s'.pc[u] == Wake
  {
    OthersStep(s, a, s');
    if a.WakeAll? { WakesEverybody(s, a, s'); }
    if a.Advance? {
      assert s'.pc[a.t] == Wake;
    } else {
      SleepOwn(s, a, s');
      SleepOther(s, a, s', t);
    }
  }

  lemma SleepOther(s: State, a: Action, s': State, t: Tid)
    requires Step(s, a, s') && t in s'.pc && t in s'.left && Overslept(s', t) && t != a.t
    requires !a.Advance? && !a.WakeAll?
    requires t in s.pc && t in s.left && (Overslept(s, t) ==> exists u <- s.pc :: s.pc[u] == Wake)
    ensures exists u <- s'.pc :: s'.pc[u] == Wake
  {
    OthersStep(s, a, s');
    assert Overslept(s, t);
    var u :| u in s.pc && s.pc[u] == Wake;
    assert s'.pc[u] == Wake;
  }

  lemma InvStep(s: State, a: Action, s': State)
    requires Inv(s) && Step(s, a, s')
    ensures Inv(s')
  {
    ThreadsStep(s, a, s');
    OwnStep(s, a, s');
    CountStep(s, a, s');
  }

  lemma CoveredStep(s: State, a: Action, s': State)
    requires Inv(s) && Covered(s) && |s.pc| <= MAX_WOKEN && Step(s, a, s')
    ensures Covered(s') && |s'.pc| == |s.pc|
  {
    OthersStep(s, a, s');
    forall t | t in s'.pc && t in s'.left && Overslept(s', t) ensures exists u <- s'.pc :: s'.pc[u] == Wake {
      SleepStep(s, a, s', t);
    }
  }

  lemma {:induction false} InvOnRun(states: seq<State>, actions: seq<Action>, i: nat)
    requires IsRun(states, actions) && i < |states|
    ensures Inv(states[i])
  {
    hide Inv, Step;
    if i == 0 {
      InvInit(states[0]);
    } else {
      InvOnRun(states, actions, i - 1);
      InvStep(states[i - 1], actions[i - 1], states[i]);
    }
  }

  // ----- the counters are the history -----

  predicate IsArrival(a: Action, t: Tid) { a == Arrive(t) }

  // How often t has arrived in the first i actions.
  function ArrivalsOf(actions: seq<Action>, i: nat, t: Tid): nat
    requires i <= |actions|
  {
    if i == 0 then 0 else ArrivalsOf(actions, i - 1, t) + if IsArrival(actions[i - 1], t) then 1 else 0
  }

  // How often t has returned from barrier_wait by state i.
  function ReturnsOf(states: seq<State>, i: nat, t: Tid): nat
    requires i < |states|
  {
    if i == 0 then 0 else ReturnsOf(states, i - 1, t) + if Returns(states[i - 1], states[i], t) then 1 else 0
  }

  predicate Returns(s: State, s': State, t: Tid) {
    t in s.pc && t in s'.pc && s.pc[t] != Out && s'.pc[t] == Out
  }

  lemma CountersStep(s: State, a: Action, s': State, t: Tid)
    requires Step(s, a, s') && t in s.pc
    ensures t in s'.pc && Shape(s')
    ensures s'.arrived[t] == s.arrived[t] + if IsArrival(a, t) then 1 else 0
    ensures s'.left[t] == s.left[t] + if Returns(s, s', t) then 1 else 0
  {
    assert s'.pc.Keys == s.pc.Keys;
    assert s'.arrived.Keys == s.arrived.Keys && s'.left.Keys == s.left.Keys;
    assert s'.Threshold() == |s'.pc.Keys| == |s.pc.Keys|;
  }

  // What the auxiliary counters count: the arrivals and the returns of each thread.
  lemma {:induction false} CountersAreHistory(states: seq<State>, actions: seq<Action>, i: nat, t: Tid)
    requires IsRun(states, actions) && i < |states| && t in states[0].pc
    ensures t in states[i].pc && Shape(states[i])
    ensures states[i].arrived[t] == ArrivalsOf(actions, i, t) && states[i].left[t] == ReturnsOf(states, i, t)
  {
    hide Step;
    if i > 0 {
      CountersAreHistory(states, actions, i - 1, t);
      CountersStep(states[i - 1], actions[i - 1], states[i], t);
    }
  }

  // ----- what the barrier promises, over every run -----

  // A thread has returned from its g-th wait only when every participant has arrived g times, and no
  // thread is ever more than one arrival ahead of another: generations do not overlap.
  lemma NobodyLeavesEarly(states: seq<State>, actions: seq<Action>, i: nat, t: Tid, u: Tid)
    requires IsRun(states, actions) && i < |states|
    requires t in states[i].pc && u in states[i].pc
    ensures t in states[i].left && u in states[i].arrived
    ensures states[i].left[t] <= states[i].arrived[u] <= states[i].left[t] + 2
  {
    InvOnRun(states, actions, i);
    var s := states[i];
    assert ThreadOk(s.gen, s.pc[t], s.arrived[t], s.left[t]);
    assert ThreadOk(s.gen, s.pc[u], s.arrived[u], s.left[u]);
  }

  // No arrival is lost across the reset of count: outside the two steps in which the last thread
  // closes a generation, count is exactly the number of threads that arrived in it.
  lemma NoArrivalLost(states: seq<State>, actions: seq<Action>, i: nat)
    requires IsRun(states, actions) && i < |states|
    requires forall t <- states[i].pc :: states[i].pc[t] !in {Reset, Bump}
    ensures states[i].count == |set t | t in states[i].arrived && states[i].arrived[t] == states[i].gen + 1|
    ensures states[i].count < |states[i].pc|
  {
    InvOnRun(states, actions, i);
    var s := states[i];
    assert forall t :: !Closing(s, t);
    SubsetSize(Arrivals(s), s.pc.Keys);
  }

  // A waiter's phase is the current one or the one before, whatever the phase word has wrapped to, and
  // it compares equal to the current word exactly when its generation is still open.
  lemma WaiterLagsAtMostOne(states: seq<State>, actions: seq<Action>, i: nat, t: Tid)
    requires IsRun(states, actions) && i < |states|
    requires t in states[i].pc && Waiting(states[i].pc[t])
    ensures t in states[i].left && states[i].gen - 1 <= states[i].left[t] <= states[i].gen
    ensures states[i].phase == states[i].pc[t].p <==> states[i].left[t] == states[i].gen
  {
    InvOnRun(states, actions, i);
    var s := states[i];
    assert ThreadOk(s.gen, s.pc[t], s.arrived[t], s.left[t]);
    if s.gen > 0 { PhasesDiffer(s.gen - 1); }
  }

  lemma CoveredInit(s: State)
    requires Init(s)
    ensures Covered(s)
  {
  }

  lemma {:induction false} CoveredOnRun(states: seq<State>, actions: seq<Action>, i: nat)
    requires IsRun(states, actions) && i < |states| && |states[0].pc| <= MAX_WOKEN
    ensures Covered(states[i]) && |states[i].pc| == |states[0].pc|
  {
    hide Covered, Inv, Step, Init;
    if i == 0 {
      CoveredInit(states[0]);
    } else {
      CoveredOnRun(states, actions, i - 1);
      InvOnRun(states, actions, i - 1);
      CoveredStep(states[i - 1], actions[i - 1], states[i]);
    }
  }

  // A thread asleep after its generation has ended is about to be woken.
  lemma NoSleepPastGeneration(states: seq<State>, actions: seq<Action>, i: nat, t: Tid)
    requires IsRun(states, actions) && i < |states| && |states[0].pc| <= MAX_WOKEN
    requires t in states[i].pc && t in states[i].arrived
    requires states[i].pc[t].Sleep? && states[i].arrived[t] <= states[i].gen
    ensures exists u <- states[i].pc :: states[i].pc[u] == Wake
  {
    InvOnRun(states, actions, i);
    CoveredOnRun(states, actions, i);
    var s := states[i];
    assert ThreadOk(s.gen, s.pc[t], s.arrived[t], s.left[t]);
  }

  // ----- more participants than one call can wake -----

  function Start(ts: set<Tid>): State {
    State(0, 0, map t | t in ts :: Out, map t | t in ts :: 0, map t | t in ts :: 0, 0)
  }

  // In the first generation: the threads rs sleep, thread t is at p, and the others have not called yet; t has
  // arrived too if `came`.
  function Early(ts: set<Tid>, rs: set<Tid>, t: Tid, p: Pc, came: bool): State {
    State(|rs| + if came then 1 else 0, 0,
          map u | u in ts :: if u == t then p else if u in rs then Sleep(0) else Out,
          map u | u in ts :: if u in rs || (came && u == t) then 1 else 0, map u | u in ts :: 0, 0)
  }

  lemma KeysShape(s: State, ts: set<Tid>)
    requires s.pc.Keys == s.arrived.Keys == s.left.Keys == ts && ts != {} && |ts| < WORD32
    ensures Shape(s) && s.Threshold() == |ts|
  {
    assert |s.pc| == |s.pc.Keys|;
  }

  lemma EarlyShape(ts: set<Tid>, rs: set<Tid>, t: Tid, p: Pc, came: bool)
    requires t in ts && |ts| < WORD32
    ensures Shape(Early(ts, rs, t, p, came)) && Early(ts, rs, t, p, came).Threshold() == |ts|
    ensures forall p' :: Early(ts, rs, t, p, came).Move(t, p') == Early(ts, rs, t, p', came)
  {
    var s := Early(ts, rs, t, p, came);
    assert s.pc.Keys == ts && s.arrived.Keys == ts && s.left.Keys == ts;
    KeysShape(s, ts);
    forall p' ensures s.Move(t, p') == Early(ts, rs, t, p', came) {
      assert s.Move(t, p').pc == Early(ts, rs, t, p', came).pc;
    }
  }

  // A thread comes: it loads the phase and adds to the count; `p` is where it goes on.
  lemma Comes(ts: set<Tid>, rs: set<Tid>, t: Tid, p: Pc)
    requires t in ts && t !in rs && rs < ts && |ts| < WORD32 && p == if rs + {t} == ts then Reset else Check(0)
    ensures Step(Early(ts, rs, t, Out, false), Load(t), Early(ts, rs, t, Loaded(0), false))
    ensures Step(Early(ts, rs, t, Loaded(0), false), Arrive(t), Early(ts, rs, t, p, true))
  {
    EarlyShape(ts, rs, t, Out, false);
    Arrives(ts, rs, t, p);
  }

  lemma Arrives(ts: set<Tid>, rs: set<Tid>, t: Tid, p: Pc)
    requires t in ts && t !in rs && rs < ts && |ts| < WORD32 && p == if rs + {t} == ts then Reset else Check(0)
    ensures Step(Early(ts, rs, t, Loaded(0), false), Arrive(t), Early(ts, rs, t, p, true))
  {
    EarlyShape(ts, rs, t, Loaded(0), false);
    LastByCount(ts, rs, t);
    OneMoreCame(ts, rs, t, p);
    ArriveStep(Early(ts, rs, t, Loaded(0), false), t, p);
  }

  lemma ArriveStep(s: State, t: Tid, p: Pc)
    requires Shape(s) && t in s.pc && s.pc[t] == Loaded(0) && s.arrived[t] == 0 && s.count + 1 < WORD32
    requires p == if s.count + 1 == s.Threshold() then Reset else Check(0)
    ensures Step(s, Arrive(t), s.Move(t, p).(count := s.count + 1, arrived := s.arrived[t := 1]))
  {
  }

  lemma LastByCount(ts: set<Tid>, rs: set<Tid>, t: Tid)
    requires t in ts && t !in rs && rs < ts
    ensures |rs| + 1 <= |ts| && (|rs| + 1 == |ts| <==> rs + {t} == ts)
  {
    SubsetSize(rs + {t}, ts);
  }

  lemma OneMoreCame(ts: set<Tid>, rs: set<Tid>, t: Tid, p: Pc)
    requires t in ts && t !in rs
    ensures var s := Early(ts, rs, t, Loaded(0), false);
      s.arrived[t] == 0 && Early(ts, rs, t, p, true) == s.Move(t, p).(count := |rs| + 1, arrived := s.arrived[t := 1])
  {
    var s, s' := Early(ts, rs, t, Loaded(0), false), Early(ts, rs, t, p, true);
    assert s.arrived[t := 1] == s'.arrived && s.pc[t := p] == s'.pc;
  }

  lemma Dozes(ts: set<Tid>, rs: set<Tid>, t: Tid)
    requires t in ts && |ts| < WORD32
    ensures Step(Early(ts, rs, t, Check(0), true), Recheck(t), Early(ts, rs, t, Wait(0), true))
    ensures Step(Early(ts, rs, t, Wait(0), true), FutexWait(t, false), Early(ts, rs, t, Sleep(0), true))
  {
    EarlyShape(ts, rs, t, Check(0), true);
    EarlyShape(ts, rs, t, Wait(0), true);
  }

  lemma Extend(states: seq<State>, actions: seq<Action>, a: Action, s': State)
    returns (states': seq<State>, actions': seq<Action>)
    requires IsRun(states, actions) && Step(states[|actions|], a, s')
    ensures IsRun(states', actions') && states'[0] == states[0] && states'[|actions'|] == s'
  {
    states', actions' := states + [s'], actions + [a];
  }

  // All threads but t fall asleep, one after the other.
  lemma {:induction false} FallAsleep(ts: set<Tid>, rs: set<Tid>, t: Tid)
    returns (states: seq<State>, actions: seq<Action>)
    requires rs < ts && |ts| < WORD32 && t in ts && t !in rs
    ensures IsRun(states, actions) && states[0] == Start(ts) && states[|actions|] == Early(ts, rs, t, Out, false)
    decreases |rs|
  {
    if rs == {} {
      EarlyShape(ts, rs, t, Out, false);
      assert Early(ts, rs, t, Out, false) == Start(ts);
      states, actions := [Start(ts)], [];
    } else {
      var u :| u in rs;
      var rest := rs - {u};
      states, actions := FallAsleep(ts, rest, u);
      Comes(ts, rest, u, Check(0));
      Dozes(ts, rest, u);
      states, actions := Extend(states, actions, Load(u), Early(ts, rest, u, Loaded(0), false));
      states, actions := Extend(states, actions, Arrive(u), Early(ts, rest, u, Check(0), true));
      states, actions := Extend(states, actions, Recheck(u), Early(ts, rest, u, Wait(0), true));
      states, actions := Extend(states, actions, FutexWait(u, false), Early(ts, rest, u, Sleep(0), true));
      AsleepSame(ts, rs, u, t);
    }
  }

  lemma AsleepSame(ts: set<Tid>, rs: set<Tid>, u: Tid, t: Tid)
    requires u in rs && t !in rs && t in ts && rs <= ts
    ensures Early(ts, rs - {u}, u, Sleep(0), true) == Early(ts, rs, t, Out, false)
  {
    var s, s' := Early(ts, rs - {u}, u, Sleep(0), true), Early(ts, rs, t, Out, false);
    assert s.pc == s'.pc && s.arrived == s'.arrived;
  }

  // The last thread has ended the first generation and is about to wake the others.
  function Ending(ts: set<Tid>, t: Tid): State {
    Early(ts, ts - {t}, t, Wake, true).(count := 0, phase := 1, gen := 1)
  }

  lemma LastEnds(ts: set<Tid>, t: Tid) returns (s: State)
    requires t in ts && |ts| < WORD32
    ensures Step(Early(ts, ts - {t}, t, Reset, true), StoreZero(t), s) && Step(s, Advance(t), Ending(ts, t))
  {
    EarlyShape(ts, ts - {t}, t, Reset, true);
    EarlyShape(ts, ts - {t}, t, Bump, true);
    s := Early(ts, ts - {t}, t, Bump, true).(count := 0);
    assert Shape(s);
  }

  // It wakes as many as it can, and one that it cannot wake sleeps on.
  lemma LastWakes(ts: set<Tid>, t: Tid, those: set<Tid>, u: Tid) returns (s: State)
    requires t in ts && |ts| < WORD32 && those <= ts - {t} && |those| == Min(WAKE_MAX, |ts - {t}|)
    requires u in ts - {t} && u !in those
    ensures Step(Ending(ts, t), WakeAll(t, those), s) && !Covered(s)
  {
    EarlyShape(ts, ts - {t}, t, Wake, true);
    var s0 := Ending(ts, t);
    assert Shape(s0);
    assert Sleepers(s0) == ts - {t};
    s := s0.(pc := Roused(s0.pc, those)).Leave(t);
    assert u in s.pc && u in s.left && Overslept(s, u);
    assert forall x <- s.pc :: s.pc[x] != Wake;
  }

  lemma AllCome(ts: set<Tid>, t: Tid) returns (states: seq<State>, actions: seq<Action>)
    requires t in ts && |ts| < WORD32
    ensures IsRun(states, actions) && states[0] == Start(ts)
    ensures states[|actions|] == Early(ts, ts - {t}, t, Reset, true)
  {
    var rs := ts - {t};
    states, actions := FallAsleep(ts, rs, t);
    assert rs + {t} == ts;
    Comes(ts, rs, t, Reset);
    states, actions := Extend(states, actions, Load(t), Early(ts, rs, t, Loaded(0), false));
    states, actions := Extend(states, actions, Arrive(t), Early(ts, rs, t, Reset, true));
  }

  // With more participants somebody may sleep on after the generation has ended, and nobody is about to wake them.
  lemma LeftAsleep(ts: set<Tid>) returns (states: seq<State>, actions: seq<Action>)
    requires MAX_WOKEN < |ts| < WORD32
    ensures IsRun(states, actions) && states[0] == Start(ts) && !Covered(states[|actions|])
  {
    var t :| t in ts;
    assert |ts - {t}| == |ts| - 1;
    states, actions := AllCome(ts, t);
    var those := PickSome(ts - {t}, WAKE_MAX);
    var u := Remaining(ts - {t}, those);
    var s1 := LastEnds(ts, t);
    states, actions := Extend(states, actions, StoreZero(t), s1);
    states, actions := Extend(states, actions, Advance(t), Ending(ts, t));
    var s := LastWakes(ts, t, those, u);
    states, actions := Extend(states, actions, WakeAll(t, those), s);
  }

  lemma Remaining(a: set<Tid>, b: set<Tid>) returns (x: Tid)
    requires |b| < |a|
    ensures x in a && x !in b
  {
    if forall y :: y in a ==> y in b {
      SubsetSize(a, b);
    }
    x :| x in a && x !in b;
  }

  // Nobody sleeps past the end of a generation unnoticed, in any run, if and only if there are at most 2^31
  // participants.
  lemma CoveredExactly(ts: set<Tid>)
    requires 0 < |ts| < WORD32
    ensures |ts| <= MAX_WOKEN <==>
      forall states: seq<State>, actions: seq<Action>, i: nat ::
        IsRun(states, actions) && states[0] == Start(ts) && i < |states| ==> Covered(states[i])
  {
    if |ts| <= MAX_WOKEN {
      forall states: seq<State>, actions, i: nat | IsRun(states, actions) && states[0] == Start(ts) && i < |states|
        ensures Covered(states[i])
      {
        assert states[0].pc.Keys == ts && |states[0].pc| == |states[0].pc.Keys|;
        CoveredOnRun(states, actions, i);
      }
    } else {
      var states, actions := LeftAsleep(ts);
    }
  }

  // ----- progress: with no interruption every schedule completes the current generation -----

  predicate Internal(a: Action) {
    !a.SpuriousWake? && (a.FutexWait? ==> !a.interrupted)
  }

  ghost predicate Stuck(s: State) {
    forall a, s' :: Internal(a) ==> !Step(s, a, s')
  }

  // Steps a thread has left, at most, before it is asleep in, or closes, the current generation.
  function StepsLeft(gen: nat, p: Pc, left: nat): nat {
    match p
    case Out => 5
    case Loaded(_) => 4
    case Check(_) => if left == gen then 2 else 6
    case Wait(_) => if left == gen then 1 else 7
    case Sleep(_) => 0
    case Reset => 3
    case Bump => 2
    case Wake => 0
  }

  ghost function Wakers(s: State): set<Tid> {
    set t | t in s.pc && s.pc[t] == Wake
  }

  ghost function Work(s: State): set<(Tid, nat)>
    requires Shape(s)
  {
    set t, n: nat | t in s.pc && n < StepsLeft(s.gen, s.pc[t], s.left[t]) :: (t, n)
  }

  lemma InternalStepDecreases(s: State, a: Action, s': State)
    requires Inv(s) && Internal(a) && Step(s, a, s')
    ensures Shape(s')
    ensures
      || s'.gen > s.gen
      || (s'.gen == s.gen && Wakers(s') < Wakers(s))
      || (s'.gen == s.gen && Wakers(s') == Wakers(s) && Work(s') < Work(s))
  {
    OthersStep(s, a, s');
    if a.WakeAll? {
      WakersDecrease(s, a, s');
    } else if !a.Advance? {
      WorkDecreases(s, a, s');
    }
  }

  lemma WakersDecrease(s: State, a: Action, s': State)
    requires Step(s, a, s') && a.WakeAll?
    ensures s'.gen == s.gen && Wakers(s') < Wakers(s)
  {
    assert a.t in Wakers(s) && a.t !in Wakers(s');
  }

  lemma WorkDecreases(s: State, a: Action, s': State)
    requires Inv(s) && Internal(a) && Step(s, a, s') && !a.WakeAll? && !a.Advance?
    ensures Shape(s') && Wakers(s') == Wakers(s) && Work(s') < Work(s)
  {
    OthersStep(s, a, s');
    OwnWorkDecreases(s, a, s');
    WorkShrinks(s, s', a.t);
  }

  lemma OwnWorkDecreases(s: State, a: Action, s': State)
    requires s.phase == PhaseWord(s.gen) && Internal(a) && Step(s, a, s') && !a.WakeAll? && !a.Advance?
    requires a.t in s.pc && a.t in s.arrived && a.t in s.left
    requires ThreadOk(s.gen, s.pc[a.t], s.arrived[a.t], s.left[a.t])
    ensures a.t in s'.pc && a.t in s'.left && s'.gen == s.gen && s.pc[a.t] != Wake && s'.pc[a.t] != Wake
    ensures StepsLeft(s'.gen, s'.pc[a.t], s'.left[a.t]) < StepsLeft(s.gen, s.pc[a.t], s.left[a.t])
  {
    if s.gen > 0 { PhasesDiffer(s.gen - 1); }
  }

  lemma WorkShrinks(s: State, s': State, t: Tid)
    requires Shape(s) && Shape(s') && s'.gen == s.gen && s'.pc.Keys == s.pc.Keys && t in s.pc
    requires forall u <- s.pc | u != t :: s'.pc[u] == s.pc[u] && s'.left[u] == s.left[u]
    requires StepsLeft(s'.gen, s'.pc[t], s'.left[t]) < StepsLeft(s.gen, s.pc[t], s.left[t])
    requires s.pc[t] != Wake && s'.pc[t] != Wake
    ensures Wakers(s') == Wakers(s) && Work(s') < Work(s)
  {
    var n := StepsLeft(s.gen, s.pc[t], s.left[t]) - 1;
    assert (t, n) in Work(s) && (t, n) !in Work(s');
  }

  // The participants are never all asleep.
  lemma FindAwake(s: State) returns (t: Tid)
    requires Inv(s) && Covered(s)
    ensures t in s.pc && !s.pc[t].Sleep?
  {
    if forall u <- s.pc :: s.pc[u].Sleep? {
      forall u | u in s.pc.Keys ensures u in Arrivals(s) {
        assert ThreadOk(s.gen, s.pc[u], s.arrived[u], s.left[u]);
      }
      assert Arrivals(s) == s.pc.Keys;
      assert forall u :: !Closing(s, u);
      assert false;
    }
    t :| t in s.pc && !s.pc[t].Sleep?;
  }

  lemma FindInternalStep(s: State) returns (a: Action, s': State)
    requires Inv(s) && Covered(s)
    ensures Internal(a) && Step(s, a, s')
  {
    var t := FindAwake(s);
    a, s' := StepOf(s, t);
  }

  // A thread that is awake can always take a step.
  lemma StepOf(s: State, t: Tid) returns (a: Action, s': State)
    requires Shape(s) && t in s.pc && !s.pc[t].Sleep?
    ensures Internal(a) && Step(s, a, s')
  {
    var p := s.pc[t];
    match p
    case Out => a, s' := Load(t), s.Move(t, Loaded(s.phase));
    case Loaded(v) =>
      var n := (s.count + 1) % WORD32;
      a := Arrive(t);
      var next := if n == s.Threshold() then Reset else Check(v);
      s' := s.Move(t, next).(count := n, arrived := s.arrived[t := s.arrived[t] + 1]);
    case Check(v) => a, s' := Recheck(t), if s.phase == v then s.Move(t, Wait(v)) else s.Leave(t);
    case Wait(v) => a, s' := FutexWait(t, false), s.Move(t, if s.phase == v then Sleep(v) else Check(v));
    case Reset => a, s' := StoreZero(t), s.Move(t, Bump).(count := 0);
    case Bump => a, s' := Advance(t), s.Move(t, Wake).(phase := (s.phase + 1) % WORD32, gen := s.gen + 1);
    case Wake =>
      var those := PickSome(Sleepers(s), Min(WAKE_MAX, |Sleepers(s)|));
      a, s' := WakeAll(t, those), s.(pc := Roused(s.pc, those)).Leave(t);
  }

  ghost predicate Follows(run: nat -> State, acts: nat -> Action, k: nat) {
    if Stuck(run(k)) then run(k + 1) == run(k) else Internal(acts(k)) && Step(run(k), acts(k), run(k + 1))
  }

  // From any reachable state on, as long as every participant keeps taking its steps, whatever the
  // schedule the current generation ends: the barrier can be reused for ever.
  lemma EveryGenerationEnds(run: nat -> State, acts: nat -> Action, i: nat)
    requires Inv(run(i)) && Covered(run(i)) && |run(i).pc| <= MAX_WOKEN
    requires forall k: nat :: i <= k ==> Follows(run, acts, k)
    ensures exists j: nat :: i < j && run(j).gen > run(i).gen
    decreases Wakers(run(i)), Work(run(i))
  {
    var a, s' := FindInternalStep(run(i));
    assert Follows(run, acts, i);
    InternalStepDecreases(run(i), acts(i), run(i + 1));
    InvStep(run(i), acts(i), run(i + 1));
    CoveredStep(run(i), acts(i), run(i + 1));
    if run(i + 1).gen == run(i).gen {
      EveryGenerationEnds(run, acts, i + 1);
    }
  }
}
