/** The three-state futex mutex: word 0 = free, 1 = locked, 2 = locked with (possible) waiters.

    Every atomic operation and every futex call is one step of one thread; any set of threads may
    interleave.  The kernel contract of the futex calls is part of the step relation: a wait
    compares and sleeps atomically and may return early, a wake-one takes some sleeper if there is one. */
module Mutex {
  import opened Common

  datatype Pc =
    | Idle           // outside the mutex code
    | Exchanging     // slow path, about to exchange 2 into the word
    | AboutToWait    // saw a non-zero word, about to call futex_wait(word, 2)
    | Sleeping       // asleep in the kernel
    | Holding        // owns the mutex
    | Storing        // unlock: fetch_sub returned 2, about to store 0
    | Waking         // unlock: stored 0, about to call futex_wake(word, 1)

  datatype State = State(word: nat, pc: map<Tid, Pc>)

  datatype Action =
    | Lock(t: Tid)
    | TryLock(t: Tid)
    | Exchange(t: Tid)
    | Wait(t: Tid, interrupted: bool)
    | SpuriousWake(t: Tid)
    | Unlock(t: Tid)
    | Store(t: Tid)
    | WakeOne(t: Tid, woken: Tid)
    | WakeNobody(t: Tid)

  predicate Init(s: State) {
    s.word == 0 && forall t <- s.pc :: s.pc[t] == Idle
  }

  predicate At(s: State, t: Tid, pc: Pc) {
    t in s.pc && s.pc[t] == pc
  }

  predicate Step(s: State, a: Action, s': State) {
    match a
    case Lock(t) =>
      && At(s, t, Idle)
      && s' == (if s.word == 0 then State(1, s.pc[t := Holding]) else State(s.word, s.pc[t := Exchanging]))
    case TryLock(t) =>
      && At(s, t, Idle)
      && s' == (if s.word == 0 then State(1, s.pc[t := Holding]) else s)
    case Exchange(t) =>
      && At(s, t, Exchanging)
      && s' == State(2, s.pc[t := if s.word == 0 then Holding else AboutToWait])
    case Wait(t, interrupted) =>
      && At(s, t, AboutToWait)
      && s' == State(s.word, s.pc[t := if s.word == 2 && !interrupted then Sleeping else Exchanging])
    case SpuriousWake(t) =>
      && At(s, t, Sleeping)
      && s' == State(s.word, s.pc[t := Exchanging])
    case Unlock(t) =>
      && At(s, t, Holding)
      && s' == State((s.word + WORD32 - 1) % WORD32, s.pc[t := if s.word == 2 then Storing else Idle])
    case Store(t) =>
      && At(s, t, Storing)
      && s' == State(0, s.pc[t := Waking])
    case WakeOne(t, woken) =>
      && At(s, t, Waking) && At(s, woken, Sleeping)
      && s' == State(s.word, s.pc[t := Idle][woken := Exchanging])
    case WakeNobody(t) =>
      && At(s, t, Waking) && (forall u <- s.pc :: s.pc[u] != Sleeping)
      && s' == State(s.word, s.pc[t := Idle])
  }

  // A run: one action between each two consecutive states.
  ghost predicate IsRun(states: seq<State>, actions: seq<Action>) {
    && |states| == |actions| + 1
    && Init(states[0])
    && forall i :: 0 <= i < |actions| ==> Step(states[i], actions[i], states[i + 1])
  }

  // ----- the inductive invariant -----

  // The thread that keeps the word away from 0: the holder, or an unlocker between fetch_sub and store.
  predicate Owns(s: State, t: Tid) {
    At(s, t, Holding) || At(s, t, Storing)
  }

  // A thread that will, by its own next steps, either wake a sleeper or put 2 into the word.
  predicate Rescues(s: State, t: Tid) {
    At(s, t, Storing) || At(s, t, Waking) || At(s, t, Exchanging)
  }

  ghost predicate Inv(s: State) {
    && s.word <= 2
    && (forall t, u :: Owns(s, t) && Owns(s, u) ==> t == u)
    && (s.word != 0 <==> exists t :: Owns(s, t))
    && ((exists t :: At(s, t, Sleeping)) ==> s.word == 2 || exists u :: Rescues(s, u))
  }

  lemma InvInit(s: State)
    requires Init(s)
    ensures Inv(s)
  {
  }

  // The threads an action does not mention keep their program counter.
  lemma Unmentioned(s: State, a: Action, s': State)
    requires Step(s, a, s')
    ensures forall u, p :: u != a.t && (a.WakeOne? ==> u != a.woken) ==> (At(s', u, p) <==> At(s, u, p))
  {
  }

  lemma InvStep(s: State, a: Action, s': State)
    requires Inv(s) && Step(s, a, s')
    ensures Inv(s')
  {
    Unmentioned(s, a, s');
    assert forall u :: u != a.t ==> (Owns(s', u) <==> Owns(s, u));
    assert Owns(s, a.t) || Owns(s', a.t) ==> a.Lock? || a.TryLock? || a.Exchange? || a.Unlock? || a.Store?;
    if a.WakeOne? {
      assert Rescues(s', a.woken);
    } else if exists x :: At(s', x, Sleeping) {
      SleeperRescued(s, a, s');
    }
    OwnerIffWord(s, a, s');
  }

  lemma OwnerIffWord(s: State, a: Action, s': State)
    requires Inv(s) && Step(s, a, s')
    ensures s'.word != 0 <==> exists t :: Owns(s', t)
  {
    Unmentioned(s, a, s');
    assert a.Unlock? || a.Store? ==> Owns(s, a.t);
    if s'.word != 0 && !Owns(s', a.t) {
      var o :| Owns(s, o);
      assert Owns(s', o);
    }
    if o :| Owns(s', o) {
      assert Owns(s, o) || (o == a.t && Owns(s', a.t));
    }
  }

  // The last conjunct of the invariant, for every action but a successful wake.
  lemma SleeperRescued(s: State, a: Action, s': State)
    requires Inv(s) && Step(s, a, s') && !a.WakeOne?
    requires exists x :: At(s', x, Sleeping)
    ensures s'.word == 2 || exists u :: Rescues(s', u)
  {
    Unmentioned(s, a, s');
    if a.Wait? && At(s', a.t, Sleeping) {
      assert s'.word == 2;
    } else if a.Unlock? || a.Store? || a.SpuriousWake? || a.Lock? {
      assert Owns(s, a.t) <==> a.Unlock? || a.Store?;
      if !Rescues(s', a.t) && s.word != 2 {
        var u :| Rescues(s, u);
        assert Rescues(s', u);
      }
    } else if s'.word != 2 {
      var x :| At(s', x, Sleeping);
      assert At(s, x, Sleeping);
      var u :| Rescues(s, u);
      assert Rescues(s', u);
    }
  }

  lemma {:induction false} InvOnRun(states: seq<State>, actions: seq<Action>, i: nat)
    requires IsRun(states, actions) && i < |states|
    ensures Inv(states[i])
  {
    if i == 0 {
      InvInit(states[0]);
    } else {
      InvOnRun(states, actions, i - 1);
      InvStep(states[i - 1], actions[i - 1], states[i]);
    }
  }

  // ----- what the mutex promises, over every run of any number of threads -----

  // Never two holders, not even in the window between an unlocker's fetch_sub and its store of 0.
  lemma MutualExclusion(states: seq<State>, actions: seq<Action>, i: nat, t: Tid, u: Tid)
    requires IsRun(states, actions) && i < |states|
    requires Owns(states[i], t) && Owns(states[i], u)
    ensures t == u && states[i].word != 0
  {
    InvOnRun(states, actions, i);
  }

  // A sleeper is always covered: the word is 2 under a holder, so its unlock will wake, or an unlocker
  // has yet to store or wake, or an awake contender is about to exchange in 2.
  lemma SleeperCovered(states: seq<State>, actions: seq<Action>, i: nat, sleeper: Tid)
    requires IsRun(states, actions) && i < |states|
    requires At(states[i], sleeper, Sleeping)
    ensures
      || (states[i].word == 2 && exists t :: At(states[i], t, Holding))
      || (exists t :: At(states[i], t, Storing) || At(states[i], t, Waking))
      || (exists t :: At(states[i], t, Exchanging))
  {
    InvOnRun(states, actions, i);
    var s := states[i];
    if s.word == 2 {
      var o :| Owns(s, o);
      assert At(s, o, Holding) || At(s, o, Storing);
    } else {
      var u :| Rescues(s, u);
      assert At(s, u, Storing) || At(s, u, Waking) || At(s, u, Exchanging);
    }
  }

  // A try-lock gets the mutex exactly if nobody owns it, and otherwise changes nothing.
  lemma TryLockExact(states: seq<State>, actions: seq<Action>, i: nat)
    requires IsRun(states, actions) && i < |actions| && actions[i].TryLock?
    ensures At(states[i + 1], actions[i].t, Holding) <==> forall u :: !Owns(states[i], u)
    ensures !At(states[i + 1], actions[i].t, Holding) ==> states[i + 1] == states[i]
  {
    InvOnRun(states, actions, i);
  }

  // ----- a lock call ends with the mutex -----

  // The thread has called lock and does not have the mutex yet.
  predicate Contends(s: State, t: Tid) {
    t in s.pc && s.pc[t] in {Exchanging, AboutToWait, Sleeping}
  }

  lemma ContendsStep(s: State, a: Action, s': State, t: Tid)
    requires Step(s, a, s') && Contends(s, t)
    ensures Contends(s', t) || At(s', t, Holding)
  {
  }

  lemma CallStep(s: State, a: Action, s': State)
    requires Step(s, a, s') && a.Lock?
    ensures Contends(s', a.t) || At(s', a.t, Holding)
  {
  }

  // From a state in which a thread contends on, it contends until it holds.
  lemma {:induction false} ContendsUntil(states: seq<State>, actions: seq<Action>, i: nat, j: nat, t: Tid)
    requires IsRun(states, actions) && i <= j < |states| && Contends(states[i], t)
    ensures Contends(states[j], t) || exists k :: i < k <= j && At(states[k], t, Holding)
  {
    if i < j {
      ContendsUntil(states, actions, i, j - 1, t);
      if Contends(states[j - 1], t) { ContendsStep(states[j - 1], actions[j - 1], states[j], t); }
    }
  }

  // In every run, a thread that has called lock and is outside the mutex code again has held the mutex in between.
  lemma LockEndsHolding(states: seq<State>, actions: seq<Action>, i: nat, j: nat, t: Tid)
    requires IsRun(states, actions) && i < j < |states| && i < |actions| && actions[i] == Lock(t)
    requires At(states[j], t, Idle)
    ensures exists k :: i < k < j && At(states[k], t, Holding)
  {
    CallStep(states[i], actions[i], states[i + 1]);
    if Contends(states[i + 1], t) {
      ContendsUntil(states, actions, i + 1, j, t);
      var k :| i < k <= j && At(states[k], t, Holding);
      assert k != j;
    } else {
      assert At(states[i + 1], t, Holding) && i + 1 != j;
    }
  }

  // ----- progress: once no new caller arrives, every schedule empties the mutex -----

  predicate Quiet(s: State) {
    forall t <- s.pc :: s.pc[t] == Idle
  }

  // Neither a new call nor an early return of a futex wait.
  predicate Internal(a: Action) {
    a.Exchange? || (a.Wait? && !a.interrupted) || a.Unlock? || a.Store? || a.WakeOne? || a.WakeNobody?
  }

  ghost predicate Stuck(s: State) {
    forall a, s' :: Internal(a) ==> !Step(s, a, s')
  }

  ghost function Contenders(s: State): set<Tid> {
    set t | t in s.pc && Contends(s, t)
  }

  function UnlockSteps(p: Pc): nat {
    if p == Holding then 3 else if p == Storing then 2 else if p == Waking then 1 else 0
  }

  // While the word is 2 contenders go to sleep; while it is not, they go back and put 2 there.
  function RetrySteps(word: nat, p: Pc): nat {
    if p == Exchanging then 2 else if p == AboutToWait then (if word == 2 then 1 else 3) else 0
  }

  // The work left, as sets of (thread, step) pairs: a smaller set is less work.
  ghost function UnlockWork(s: State): set<(Tid, nat)> {
    set t, n: nat | t in s.pc && n < UnlockSteps(s.pc[t]) :: (t, n)
  }

  ghost function RetryWork(s: State): set<(Tid, nat)> {
    set t, n: nat | t in s.pc && n < RetrySteps(s.word, s.pc[t]) :: (t, n)
  }

  // There is less work left in s' than in s.
  ghost predicate Less(s': State, s: State) {
    || Contenders(s') < Contenders(s)
    || (Contenders(s') == Contenders(s) && UnlockWork(s') < UnlockWork(s))
    || (Contenders(s') == Contenders(s) && UnlockWork(s') == UnlockWork(s) && RetryWork(s') < RetryWork(s))
  }

  lemma InternalStepDecreases(s: State, a: Action, s': State)
    requires Inv(s) && Internal(a) && Step(s, a, s')
    ensures Less(s', s)
  {
    var t := a.t;
    if a.Exchange? && s.word == 0 {
      assert t in Contenders(s) && t !in Contenders(s');
    } else if a.Exchange? || a.Wait? {
      assert (t, RetrySteps(s.word, s.pc[t]) - 1) in RetryWork(s);
      assert (t, RetrySteps(s.word, s.pc[t]) - 1) !in RetryWork(s');
    } else {
      assert (t, UnlockSteps(s.pc[t]) - 1) in UnlockWork(s) && (t, UnlockSteps(s.pc[t]) - 1) !in UnlockWork(s');
    }
  }

  // If everyone not idle is asleep, the invariant still yields the owner of the word or a rescuer.
  lemma FindAwake(s: State) returns (t: Tid)
    requires Inv(s) && !Quiet(s)
    ensures t in s.pc && s.pc[t] != Idle && s.pc[t] != Sleeping
  {
    var u :| u in s.pc && s.pc[u] != Idle;
    if At(s, u, Sleeping) {
      if s.word == 2 { t :| Owns(s, t); } else { t :| Rescues(s, t); }
    } else {
      t := u;
    }
  }

  lemma FindInternalStep(s: State) returns (a: Action, s': State)
    requires Inv(s) && !Quiet(s)
    ensures Internal(a) && Step(s, a, s')
  {
    var t := FindAwake(s);
    var p := s.pc[t];
    match p
    case Exchanging =>
      a, s' := Exchange(t), State(2, s.pc[t := if s.word == 0 then Holding else AboutToWait]);
    case AboutToWait =>
      a, s' := Wait(t, false), State(s.word, s.pc[t := if s.word == 2 then Sleeping else Exchanging]);
    case Holding =>
      a, s' := Unlock(t),
        State((s.word + WORD32 - 1) % WORD32, s.pc[t := if s.word == 2 then Storing else Idle]);
    case Storing =>
      a, s' := Store(t), State(0, s.pc[t := Waking]);
    case Waking =>
      if u :| At(s, u, Sleeping) {
        a, s' := WakeOne(t, u), State(s.word, s.pc[t := Idle][u := Exchanging]);
      } else {
        forall u | u in s.pc ensures s.pc[u] != Sleeping { assert !At(s, u, Sleeping); }
        a, s' := WakeNobody(t), State(s.word, s.pc[t := Idle]);
      }
  }

  lemma NotStuck(s: State)
    requires Inv(s) && !Quiet(s)
    ensures !Stuck(s)
  {
    var a, s' := FindInternalStep(s);
  }

  // The k-th transition of an infinite run without arrivals; it stutters only where nothing can move.
  ghost predicate Follows(run: nat -> State, acts: nat -> Action, k: nat) {
    if Stuck(run(k)) then run(k + 1) == run(k) else Internal(acts(k)) && Step(run(k), acts(k), run(k + 1))
  }

  lemma Progress(run: nat -> State, acts: nat -> Action, i: nat)
    requires Inv(run(i)) && !Quiet(run(i)) && Follows(run, acts, i)
    ensures Inv(run(i + 1)) && Less(run(i + 1), run(i))
  {
    NotStuck(run(i));
    InternalStepDecreases(run(i), acts(i), run(i + 1));
    InvStep(run(i), acts(i), run(i + 1));
  }

  lemma EverybodyReturns(run: nat -> State, acts: nat -> Action, i: nat)
    requires Inv(run(i))
    requires forall k: nat :: i <= k ==> Follows(run, acts, k)
    ensures exists j: nat :: i <= j && Quiet(run(j))
    decreases Contenders(run(i)), UnlockWork(run(i)), RetryWork(run(i))
  {
    if !Quiet(run(i)) {
      Progress(run, acts, i);
      EverybodyReturns(run, acts, i + 1);
    }
  }

  lemma {:induction false} HoldsBefore(run: nat -> State, acts: nat -> Action, i: nat, j: nat, t: Tid)
    requires forall k: nat :: i <= k ==> Follows(run, acts, k)
    requires i <= j && Contends(run(i), t) && !Contends(run(j), t)
    ensures exists k: nat :: i <= k <= j && At(run(k), t, Holding)
    decreases j - i
  {
    assert Follows(run, acts, i);
    if Contends(run(i + 1), t) {
      HoldsBefore(run, acts, i + 1, j, t);
    } else {
      assert !Stuck(run(i));
      ContendsStep(run(i), acts(i), run(i + 1), t);
    }
  }

  // From any reachable state on, if callers stop arriving, whatever the scheduler does every thread that waits for
  // the mutex gets it, and all return: no sleeper is ever stranded.
  lemma EveryContenderServed(run: nat -> State, acts: nat -> Action, i: nat)
    requires Inv(run(i))
    requires forall k: nat :: i <= k ==> Follows(run, acts, k)
    ensures forall t :: Contends(run(i), t) ==> exists j: nat :: i <= j && At(run(j), t, Holding)
    ensures exists j: nat :: i <= j && Quiet(run(j))
  {
    EverybodyReturns(run, acts, i);
    var j: nat :| i <= j && Quiet(run(j));
    forall t | Contends(run(i), t) ensures exists k: nat :: i <= k && At(run(k), t, Holding) {
      HoldsBefore(run, acts, i, j, t);
    }
  }
}
