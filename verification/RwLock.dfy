/** The futex reader-writer lock: bit 31 of the word is the writer, bits 0-30 count the readers.

    Steps and kernel contract are as in the mutex model: one atomic operation or futex call per step.  The number
    of threads is arbitrary. */
module RwLock {
  import opened Common

  const WRITE_BIT := 0x8000_0000
  const WAKE_MAX := 2147483647     // the number of sleepers that the unlocking writer asks to wake

  datatype Pc =
    | Idle
    | ReadLoad            // read_lock: about to load the word
    | ReadWait(seen: nat) // saw the writer bit, about to call futex_wait(word, seen)
    | ReadCas(seen: nat)  // saw no writer, about to CAS seen -> seen + 1
    | ReadSleep
    | Reading
    | ReadWake            // last reader left, about to wake one
    | WriteCas            // write_lock: about to CAS 0 -> WRITE_BIT
    | WriteWait(seen: nat)
    | WriteSleep
    | Writing
    | WriteWake           // stored 0, about to wake all

  datatype State = State(word: nat, pc: map<Tid, Pc>)

  datatype Action =
    | StartRead(t: Tid) | StartWrite(t: Tid)
    | Load(t: Tid)
    | CasRead(t: Tid, spurious: bool)
    | CasWrite(t: Tid)
    | Wait(t: Tid, interrupted: bool)
    | SpuriousWake(t: Tid)
    | UnlockRead(t: Tid) | UnlockWrite(t: Tid)
    | WakeOne(t: Tid, woken: Tid) | WakeNobody(t: Tid) | WakeAll(t: Tid, those: set<Tid>)

  predicate Init(s: State) {
    && s.word == 0
    && forall t <- s.pc :: s.pc[t] == Idle
  }

  predicate Asleep(p: Pc) {
    p.ReadSleep? || p.WriteSleep?
  }

  function Sleepers(s: State): set<Tid> {
    set t | t in s.pc && Asleep(s.pc[t])
  }

  // Where a thread resumes after futex_wait returns.
  function Retry(p: Pc): Pc {
    if p.ReadSleep? || p.ReadWait? then ReadLoad else if p.WriteSleep? || p.WriteWait? then WriteCas else p
  }

  function Roused(pc: map<Tid, Pc>, woken: set<Tid>): map<Tid, Pc> {
    map u | u in pc :: if u in woken then Retry(pc[u]) else pc[u]
  }

  function AfterWait(s: State, p: Pc, interrupted: bool): Pc
    requires p.ReadWait? || p.WriteWait?
  {
    if s.word != p.seen || interrupted then Retry(p) else if p.ReadWait? then ReadSleep else WriteSleep
  }

  predicate Step(s: State, a: Action, s': State) {
    a.t in s.pc &&
    var p := s.pc[a.t];
    match a
    case StartRead(t) => p == Idle && s' == State(s.word, s.pc[t := ReadLoad])
    case StartWrite(t) => p == Idle && s' == State(s.word, s.pc[t := WriteCas])
    case Load(t) =>
      && p == ReadLoad
      && s' == State(s.word, s.pc[t := if s.word >= WRITE_BIT then ReadWait(s.word) else ReadCas(s.word)])
    case CasRead(t, spurious) =>
      && p.ReadCas?
      && s' == (if s.word == p.seen && !spurious
                then State((p.seen + 1) % WORD32, s.pc[t := Reading])
                else State(s.word, s.pc[t := ReadLoad]))
    case CasWrite(t) =>
      && p == WriteCas
      && s' == (if s.word == 0
                then State(WRITE_BIT, s.pc[t := Writing])
                else State(s.word, s.pc[t := WriteWait(s.word)]))
    case Wait(t, interrupted) =>
      && (p.ReadWait? || p.WriteWait?)
      && s' == State(s.word, s.pc[t := AfterWait(s, p, interrupted)])
    case SpuriousWake(t) => Asleep(p) && s' == State(s.word, s.pc[t := Retry(p)])
    case UnlockRead(t) =>
      && p == Reading
      && s' == State((s.word + WORD32 - 1) % WORD32, s.pc[t := if s.word == 1 then ReadWake else Idle])
    case UnlockWrite(t) => p == Writing && s' == State(0, s.pc[t := WriteWake])
    case WakeOne(t, woken) =>
      && p == ReadWake && woken in s.pc && Asleep(s.pc[woken])
      && s' == State(s.word, s.pc[t := Idle][woken := Retry(s.pc[woken])])
    case WakeNobody(t) =>
      && p == ReadWake && (forall u <- s.pc :: !Asleep(s.pc[u]))
      && s' == State(s.word, s.pc[t := Idle])
    case WakeAll(t, woken) =>
      && p == WriteWake && woken <= Sleepers(s) && |woken| == Min(WAKE_MAX, |Sleepers(s)|)
      && s' == State(s.word, Roused(s.pc, woken)[t := Idle])
  }

  ghost predicate IsRun(states: seq<State>, actions: seq<Action>) {
    && |states| == |actions| + 1
    && Init(states[0])
    && forall i :: 0 <= i < |actions| ==> Step(states[i], actions[i], states[i + 1])
  }

  // ----- the inductive invariant -----

  predicate At(s: State, t: Tid, p: Pc) {
    t in s.pc && s.pc[t] == p
  }

  predicate Sleeps(s: State, t: Tid) {
    t in s.pc && Asleep(s.pc[t])
  }

  // Holding the lock, about to wake, or trying to get in without sleeping.
  predicate Awake(s: State, t: Tid) {
    t in s.pc && s.pc[t] != Idle && !Asleep(s.pc[t])
  }

  ghost function Readers(s: State): set<Tid> {
    set t | t in s.pc && s.pc[t] == Reading
  }

  ghost predicate WordExact(s: State) {
    && (forall t, u :: At(s, t, Writing) && At(s, u, Writing) ==> t == u)
    && if exists w :: At(s, w, Writing) then s.word == WRITE_BIT && Readers(s) == {} else s.word == |Readers(s)|
  }

  // What a contender has seen is a word that made it wait or go on.
  predicate SeenOk(p: Pc) {
    && (p.ReadWait? ==> p.seen >= WRITE_BIT)
    && (p.ReadCas? ==> p.seen < WRITE_BIT)
    && (p.WriteWait? ==> p.seen != 0)
  }

  ghost predicate Inv(s: State) {
    && s.word <= WRITE_BIT && WordExact(s)
    && (forall t <- s.pc :: SeenOk(s.pc[t]))
    && ((exists t :: Sleeps(s, t)) ==> exists u :: Awake(s, u))
  }

  lemma InvInit(s: State)
    requires Init(s)
    ensures Inv(s)
  {
    assert Readers(s) == {};
  }

  // The threads an action does not mention keep their program counter, except that wake-all wakes sleepers.
  lemma Unmentioned(s: State, a: Action, s': State)
    requires Step(s, a, s')
    ensures s'.pc.Keys == s.pc.Keys
    ensures forall u <- s.pc :: u != a.t && !Asleep(s.pc[u]) ==> s'.pc[u] == s.pc[u]
    ensures forall u <- s.pc :: u != a.t && Asleep(s.pc[u]) ==> s'.pc[u] in {s.pc[u], Retry(s.pc[u])}
  {
  }

  // Only a successful reader CAS adds to the readers, only a reader unlock removes from them.
  lemma ReadersStep(s: State, a: Action, s': State)
    requires Step(s, a, s')
    ensures Readers(s') == if s'.pc[a.t] == Reading then Readers(s) + {a.t} else Readers(s) - {a.t}
  {
    Unmentioned(s, a, s');
  }

  lemma WritersStep(s: State, a: Action, s': State)
    requires Step(s, a, s')
    ensures forall u :: u != a.t ==> (At(s', u, Writing) <==> At(s, u, Writing))
    ensures At(s, a.t, Writing) <==> a.UnlockWrite?
    ensures At(s', a.t, Writing) <==> a.CasWrite? && s.word == 0
    ensures At(s, a.t, Reading) <==> a.UnlockRead?
    ensures At(s', a.t, Reading) <==> a.CasRead? && !a.spurious && s.word == s.pc[a.t].seen
  {
    Unmentioned(s, a, s');
  }

  lemma WordExactStep(s: State, a: Action, s': State)
    requires Inv(s) && Step(s, a, s')
    ensures s'.word <= WRITE_BIT && WordExact(s')
  {
    WritersStep(s, a, s');
    if w :| At(s', w, Writing) {
      if w != a.t {
        WordKeptByOthers(s, a, s', w);
      } else {
        WriterEnters(s, a, s');
      }
    } else {
      NoWriterWord(s, a, s');
    }
  }

  lemma WriterEnters(s: State, a: Action, s': State)
    requires Inv(s) && Step(s, a, s') && At(s', a.t, Writing)
    ensures s'.word == WRITE_BIT && Readers(s') == {}
    ensures forall u :: At(s', u, Writing) ==> u == a.t
  {
    WritersStep(s, a, s');
    ReadersStep(s, a, s');
  }

  lemma NoWriterWord(s: State, a: Action, s': State)
    requires Inv(s) && Step(s, a, s') && forall u :: !At(s', u, Writing)
    ensures s'.word == |Readers(s')| <= WRITE_BIT
  {
    WritersStep(s, a, s');
    ReadersStep(s, a, s');
    if a.UnlockWrite? {
      assert At(s, a.t, Writing);
      assert Readers(s') == {};
    } else {
      assert !exists u :: At(s, u, Writing);
      ReaderCounted(s, a, s');
    }
  }

  // Without a writer the word follows the readers that come and go.  It stops at the write bit, because nobody
  // joins there.
  lemma ReaderCounted(s: State, a: Action, s': State)
    requires Step(s, a, s') && !a.UnlockWrite? && SeenOk(s.pc[a.t]) && !At(s', a.t, Writing)
    requires s.word == |Readers(s)| <= WRITE_BIT
    ensures s'.word == |Readers(s')| <= WRITE_BIT
  {
    hide Step;
    WritersStep(s, a, s');
    ReadersStep(s, a, s');
    if a.UnlockRead? { assert a.t in Readers(s); }
    WordMoves(s, a, s');
    if At(s', a.t, Reading) {
      assert a.t !in Readers(s);
    } else if !a.UnlockRead? {
      assert Readers(s') == Readers(s);
    }
  }

  lemma WordMoves(s: State, a: Action, s': State)
    requires Step(s, a, s') && !a.UnlockWrite? && SeenOk(s.pc[a.t]) && !At(s', a.t, Writing)
    requires s.word <= WRITE_BIT && (a.UnlockRead? ==> s.word > 0)
    ensures s'.word == if At(s', a.t, Reading) then s.word + 1 else if a.UnlockRead? then s.word - 1 else s.word
    ensures s'.word <= WRITE_BIT
  {
  }

  // While one thread writes, no other thread's step changes the word.
  lemma WordKeptByOthers(s: State, a: Action, s': State, w: Tid)
    requires Inv(s) && Step(s, a, s') && At(s, w, Writing) && w != a.t
    ensures s'.word == s.word && Readers(s') == {}
  {
    WritersStep(s, a, s');
    ReadersStep(s, a, s');
    assert SeenOk(s.pc[a.t]);
    assert At(s, a.t, Reading) ==> a.t in Readers(s);
  }

  // A reader that leaves without waking anybody is not the last one.
  lemma ReaderRemains(s: State, a: Action, s': State)
    requires Inv(s) && Step(s, a, s') && a.UnlockRead? && !Awake(s', a.t)
    ensures exists u :: Awake(s', u)
  {
    Unmentioned(s, a, s');
    assert At(s, a.t, Reading);
    assert !At(s, a.t, Writing) && |Readers(s)| != 1 && a.t in Readers(s);
    var r := PickOther(Readers(s), a.t);
    assert Awake(s', r);
  }

  lemma SomebodyAwakeStep(s: State, a: Action, s': State)
    requires Inv(s) && Step(s, a, s')
    requires exists t :: Sleeps(s', t)
    ensures exists u :: Awake(s', u)
  {
    Unmentioned(s, a, s');
    if a.WakeOne? {
      assert Awake(s', a.woken);
    } else if !Awake(s', a.t) {
      if a.UnlockRead? {
        ReaderRemains(s, a, s');
      } else if a.Wait? {
        HeldMeansAwake(s, a.t);
        var u :| Awake(s, u) && u != a.t;
        assert Awake(s', u);
      } else if a.WakeAll? {
        RousedAwake(s, a, s');
      } else {
        // wake-nobody leaves no sleeper
        assert false;
      }
    }
  }

  // Wake-all leaves nobody asleep, or has woken somebody.
  lemma RousedAwake(s: State, a: Action, s': State)
    requires Step(s, a, s') && a.WakeAll? && exists t :: Sleeps(s', t)
    ensures exists u :: Awake(s', u)
  {
    var t :| Sleeps(s', t);
    assert t in Sleepers(s);
    var u := PickFrom(a.those);
    assert u in Sleepers(s) && Awake(s', u);
  }

  // A thread about to sleep has seen the current, non-zero word, so somebody else holds the lock.
  lemma HeldMeansAwake(s: State, t: Tid)
    requires Inv(s) && t in s.pc && (s.pc[t].ReadWait? || s.pc[t].WriteWait?) && s.word != 0
    ensures exists u :: Awake(s, u) && u != t
  {
    if w :| At(s, w, Writing) {
      assert Awake(s, w) && w != t;
    } else {
      var r := PickFrom(Readers(s));
      assert Awake(s, r) && r != t;
    }
  }

  lemma PickFrom<T>(ts: set<T>) returns (t: T)
    requires |ts| > 0
    ensures t in ts
  {
    t :| t in ts;
  }

  lemma PickOther<T>(ts: set<T>, x: T) returns (t: T)
    requires x in ts && |ts| > 1
    ensures t in ts && t != x
  {
    t := PickFrom(ts - {x});
  }

  lemma InvStep(s: State, a: Action, s': State)
    requires Inv(s) && Step(s, a, s')
    ensures Inv(s')
  {
    ThreadsStep(s, a, s');
    WordExactStep(s, a, s');
    if exists t :: Sleeps(s', t) {
      SomebodyAwakeStep(s, a, s');
    }
  }

  lemma ThreadsStep(s: State, a: Action, s': State)
    requires Step(s, a, s') && forall t <- s.pc :: SeenOk(s.pc[t])
    ensures |s'.pc| == |s.pc| && forall t <- s'.pc :: SeenOk(s'.pc[t])
  {
    Unmentioned(s, a, s');
    assert |s'.pc| == |s'.pc.Keys| == |s.pc.Keys| == |s.pc|;
    forall t | t in s'.pc ensures SeenOk(s'.pc[t]) { assert SeenOk(s.pc[t]); }
  }

  lemma {:induction false} InvOnRun(states: seq<State>, actions: seq<Action>, i: nat)
    requires IsRun(states, actions) && i < |states|
    ensures Inv(states[i])
  {
    if i == 0 {
      InvInit(states[0]);
    } else {
      InvOnRun(states, actions, i - 1);
      InvStep(states[i - 1], actions[i - 1], states[i]);
    }
  }

  // ----- what the lock promises, over every run -----

  // The word is the number of readers, or exactly the writer bit with one writer and no reader.
  lemma WordIsExact(states: seq<State>, actions: seq<Action>, i: nat)
    requires IsRun(states, actions) && i < |states|
    ensures
      var s := states[i];
      var writers := set t | t in s.pc && s.pc[t] == Writing;
      || (writers == {} && s.word == |Readers(s)|)
      || ((exists w :: writers == {w}) && Readers(s) == {} && s.word == WRITE_BIT)
  {
    InvOnRun(states, actions, i);
    var s := states[i];
    if w :| At(s, w, Writing) {
      assert forall t <- s.pc :: s.pc[t] == Writing ==> At(s, t, Writing);
      assert (set t | t in s.pc && s.pc[t] == Writing) == {w};
    } else {
      assert forall t <- s.pc :: !At(s, t, Writing);
    }
  }

  // A sleeper is always covered: the lock is held, or a wake is pending, or a contender is awake.
  lemma SleeperCovered(states: seq<State>, actions: seq<Action>, i: nat, sleeper: Tid)
    requires IsRun(states, actions) && i < |states|
    requires Sleeps(states[i], sleeper)
    ensures exists t :: Awake(states[i], t)
  {
    InvOnRun(states, actions, i);
  }

  // ----- a lock call ends with the lock -----

  // The thread has called read_lock, or write_lock, and does not have the lock yet.
  predicate WantsRead(s: State, t: Tid) {
    t in s.pc && (s.pc[t] in {ReadLoad, ReadSleep} || s.pc[t].ReadWait? || s.pc[t].ReadCas?)
  }

  predicate WantsWrite(s: State, t: Tid) {
    t in s.pc && (s.pc[t] in {WriteCas, WriteSleep} || s.pc[t].WriteWait?)
  }

  lemma WantsStep(s: State, a: Action, s': State, t: Tid)
    requires Step(s, a, s')
    ensures WantsRead(s, t) ==> WantsRead(s', t) || At(s', t, Reading)
    ensures WantsWrite(s, t) ==> WantsWrite(s', t) || At(s', t, Writing)
    ensures a == StartRead(t) ==> WantsRead(s', t)
    ensures a == StartWrite(t) ==> WantsWrite(s', t)
  {
  }

  lemma {:induction false} WantsUntil(states: seq<State>, actions: seq<Action>, i: nat, j: nat, t: Tid)
    requires IsRun(states, actions) && i <= j < |states|
    ensures WantsRead(states[i], t) ==> WantsRead(states[j], t) || exists k :: i < k <= j && At(states[k], t, Reading)
    ensures WantsWrite(states[i], t) ==> WantsWrite(states[j], t) || exists k :: i < k <= j && At(states[k], t, Writing)
  {
    if i < j {
      WantsUntil(states, actions, i, j - 1, t);
      WantsStep(states[j - 1], actions[j - 1], states[j], t);
    }
  }

  // In every run, a thread that has called read_lock, or write_lock, and is outside the lock's code again has had the
  // lock for reading, or writing, in between.
  lemma LockEndsInside(states: seq<State>, actions: seq<Action>, i: nat, j: nat, t: Tid)
    requires IsRun(states, actions) && i < j < |states| && i < |actions| && At(states[j], t, Idle)
    ensures actions[i] == StartRead(t) ==> exists k :: i < k < j && At(states[k], t, Reading)
    ensures actions[i] == StartWrite(t) ==> exists k :: i < k < j && At(states[k], t, Writing)
  {
    WantsStep(states[i], actions[i], states[i + 1], t);
    WantsUntil(states, actions, i + 1, j, t);
  }

  // ----- how many readers there can be -----

  function Start(ts: set<Tid>): State { State(0, map t | t in ts :: Idle) }

  // The threads rs read, and the others have not called yet.
  function AllReading(ts: set<Tid>, rs: set<Tid>): State {
    State(|rs|, map t | t in ts :: if t in rs then Reading else Idle)
  }

  // One by one, up to 2^31 readers come in.
  lemma {:induction false} ReadersComeIn(ts: set<Tid>, rs: set<Tid>) returns (states: seq<State>, actions: seq<Action>)
    requires rs <= ts && |rs| <= WRITE_BIT
    ensures IsRun(states, actions) && states[0] == Start(ts) && states[|actions|] == AllReading(ts, rs)
    decreases |rs|
  {
    if rs == {} {
      states, actions := [Start(ts)], [];
    } else {
      var t :| t in rs;
      states, actions := ReadersComeIn(ts, rs - {t});
      states, actions := OneComesIn(states, actions, ts, rs - {t}, t);
      assert rs - {t} + {t} == rs;
    }
  }

  lemma OneComesIn(states: seq<State>, actions: seq<Action>, ts: set<Tid>, rs: set<Tid>, t: Tid)
    returns (states': seq<State>, actions': seq<Action>)
    requires IsRun(states, actions) && states[|actions|] == AllReading(ts, rs)
    requires |rs| < WRITE_BIT && t in ts && t !in rs
    ensures IsRun(states', actions') && states'[0] == states[0] && states'[|actions'|] == AllReading(ts, rs + {t})
  {
    hide Step;
    var s1, s2 := ComesIn(ts, rs, t);
    states', actions' := Extend(states, actions, StartRead(t), s1);
    states', actions' := Extend(states', actions', Load(t), s2);
    states', actions' := Extend(states', actions', CasRead(t, false), AllReading(ts, rs + {t}));
  }

  lemma ComesIn(ts: set<Tid>, rs: set<Tid>, t: Tid) returns (s1: State, s2: State)
    requires |rs| < WRITE_BIT && t in ts && t !in rs
    ensures Step(AllReading(ts, rs), StartRead(t), s1) && Step(s1, Load(t), s2)
    ensures Step(s2, CasRead(t, false), AllReading(ts, rs + {t}))
  {
    var s, s3 := AllReading(ts, rs), AllReading(ts, rs + {t});
    s1 := s.(pc := s.pc[t := ReadLoad]);
    s2 := s.(pc := s.pc[t := ReadCas(s.word)]);
    assert s1.pc[t := ReadCas(s.word)] == s2.pc && s2.pc[t := Reading] == s3.pc;
  }

  lemma Extend(states: seq<State>, actions: seq<Action>, a: Action, s': State)
    returns (states': seq<State>, actions': seq<Action>)
    requires IsRun(states, actions) && Step(states[|actions|], a, s')
    ensures IsRun(states', actions') && states'[0] == states[0] && states'[|actions'|] == s'
  {
    states', actions' := states + [s'], actions + [a];
  }

  // With 2^31 threads or more the readers alone can make the word look like a writer's.
  lemma ReaderOverflow(ts: set<Tid>) returns (states: seq<State>, actions: seq<Action>)
    requires |ts| >= WRITE_BIT
    ensures IsRun(states, actions) && states[0] == Start(ts)
    ensures var s := states[|actions|]; s.word == WRITE_BIT == |Readers(s)| && forall t :: !At(s, t, Writing)
  {
    var rs := PickSome(ts, WRITE_BIT);
    states, actions := ReadersComeIn(ts, rs);
    assert Readers(states[|actions|]) == rs;
  }

  // The test for the write bit tells whether somebody writes.
  ghost predicate BitExact(s: State) {
    s.word >= WRITE_BIT <==> exists t :: At(s, t, Writing)
  }

  // It does so in every run if and only if there are fewer than 2^31 threads.
  lemma BitExactly(ts: set<Tid>)
    ensures |ts| < WRITE_BIT <==>
      forall states: seq<State>, actions: seq<Action>, i: nat ::
        IsRun(states, actions) && states[0] == Start(ts) && i < |states| ==> BitExact(states[i])
  {
    if |ts| < WRITE_BIT {
      forall states: seq<State>, actions, i: nat | IsRun(states, actions) && states[0] == Start(ts) && i < |states|
        ensures BitExact(states[i])
      {
        InvOnRun(states, actions, i);
        SameThreads(states, actions, i);
        assert states[0].pc.Keys == ts;
        SubsetSize(Readers(states[i]), states[i].pc.Keys);
      }
    } else {
      var states, actions := ReaderOverflow(ts);
      assert !BitExact(states[|actions|]);
    }
  }

  lemma {:induction false} SameThreads(states: seq<State>, actions: seq<Action>, i: nat)
    requires IsRun(states, actions) && i < |states|
    ensures states[i].pc.Keys == states[0].pc.Keys
  {
    if i > 0 {
      SameThreads(states, actions, i - 1);
      Unmentioned(states[i - 1], actions[i - 1], states[i]);
    }
  }

  // ----- progress: once no new caller arrives, every schedule empties the lock -----

  predicate Quiet(s: State) {
    forall t <- s.pc :: s.pc[t] == Idle
  }

  predicate Internal(a: Action) {
    && !a.StartRead? && !a.StartWrite? && !a.SpuriousWake?
    && (a.CasRead? ==> !a.spurious) && (a.Wait? ==> !a.interrupted)
  }

  ghost predicate Stuck(s: State) {
    forall a, s' :: Internal(a) ==> !Step(s, a, s')
  }

  predicate Contends(p: Pc) {
    p in {ReadLoad, ReadSleep, WriteCas, WriteSleep} || p.ReadWait? || p.ReadCas? || p.WriteWait?
  }

  function UnlockSteps(p: Pc): nat {
    if p in {Reading, Writing} then 2 else if p in {ReadWake, WriteWake} then 1 else 0
  }

  // A contender whose observed word is out of date goes back and looks again.
  function RetrySteps(word: nat, p: Pc): nat {
    if p == ReadLoad || p == WriteCas then 2
    else if p.ReadWait? || p.ReadCas? || p.WriteWait? then (if p.seen == word then 1 else 3)
    else 0
  }

  ghost function Contenders(s: State): set<Tid> {
    set t | t in s.pc && Contends(s.pc[t])
  }

  ghost function UnlockWork(s: State): set<(Tid, nat)> {
    set t, n: nat | t in s.pc && n < UnlockSteps(s.pc[t]) :: (t, n)
  }

  ghost function RetryWork(s: State): set<(Tid, nat)> {
    set t, n: nat | t in s.pc && n < RetrySteps(s.word, s.pc[t]) :: (t, n)
  }

  // There is less work left in s' than in s.
  ghost predicate Less(s': State, s: State) {
    || Contenders(s') < Contenders(s)
    || (Contenders(s') == Contenders(s) && UnlockWork(s') < UnlockWork(s))
    || (Contenders(s') == Contenders(s) && UnlockWork(s') == UnlockWork(s) && RetryWork(s') < RetryWork(s))
  }

  lemma InternalStepDecreases(s: State, a: Action, s': State)
    requires Inv(s) && Internal(a) && Step(s, a, s')
    ensures Less(s', s)
  {
    if !Contends(s.pc[a.t]) {
      UnlockDecreases(s, a, s');
    } else if Contends(s'.pc[a.t]) {
      RetryDecreases(s, a, s');
    } else {
      OthersKeepWork(s, a, s');
      assert a.t in Contenders(s) && a.t !in Contenders(s');
    }
  }

  lemma UnlockDecreases(s: State, a: Action, s': State)
    requires Internal(a) && Step(s, a, s') && !Contends(s.pc[a.t])
    ensures Contenders(s') == Contenders(s) && UnlockWork(s') < UnlockWork(s)
  {
    OthersKeepWork(s, a, s');
    var n := UnlockSteps(s.pc[a.t]) - 1;
    assert UnlockSteps(s'.pc[a.t]) <= n;
    assert (a.t, n) in UnlockWork(s) && (a.t, n) !in UnlockWork(s');
  }

  lemma RetryDecreases(s: State, a: Action, s': State)
    requires Internal(a) && Step(s, a, s') && Contends(s.pc[a.t]) && Contends(s'.pc[a.t])
    ensures Contenders(s') == Contenders(s) && UnlockWork(s') == UnlockWork(s) && RetryWork(s') < RetryWork(s)
  {
    OthersKeepWork(s, a, s');
    var n := RetrySteps(s.word, s.pc[a.t]) - 1;
    assert s'.word == s.word && RetrySteps(s'.word, s'.pc[a.t]) <= n;
    assert (a.t, n) in RetryWork(s) && (a.t, n) !in RetryWork(s');
  }

  lemma OthersKeepWork(s: State, a: Action, s': State)
    requires Step(s, a, s')
    ensures s'.pc.Keys == s.pc.Keys
    ensures forall u <- s.pc | u != a.t ::
      && (Contends(s'.pc[u]) <==> Contends(s.pc[u]))
      && UnlockSteps(s'.pc[u]) == UnlockSteps(s.pc[u])
      && (!a.WakeOne? && !a.WakeAll? ==> s'.pc[u] == s.pc[u])
  {
    Unmentioned(s, a, s');
  }

  lemma FindAwake(s: State) returns (t: Tid)
    requires Inv(s) && !Quiet(s)
    ensures Awake(s, t)
  {
    var u :| u in s.pc && s.pc[u] != Idle;
    if Asleep(s.pc[u]) {
      assert Sleeps(s, u);
      t :| Awake(s, t);
    } else {
      t := u;
    }
  }

  lemma FindInternalStep(s: State) returns (a: Action, s': State)
    requires Inv(s) && !Quiet(s)
    ensures Internal(a) && Step(s, a, s')
  {
    var t := FindAwake(s);
    var p := s.pc[t];
    match p
    case ReadLoad =>
      a, s' := Load(t), State(s.word, s.pc[t := if s.word >= WRITE_BIT then ReadWait(s.word) else ReadCas(s.word)]);
    case ReadCas(v) =>
      a := CasRead(t, false);
      s' := if s.word == v then State((v + 1) % WORD32, s.pc[t := Reading]) else State(s.word, s.pc[t := ReadLoad]);
    case WriteCas =>
      a := CasWrite(t);
      s' := if s.word == 0 then State(WRITE_BIT, s.pc[t := Writing]) else State(s.word, s.pc[t := WriteWait(s.word)]);
    case ReadWait(v) => a, s' := Wait(t, false), State(s.word, s.pc[t := AfterWait(s, p, false)]);
    case WriteWait(v) => a, s' := Wait(t, false), State(s.word, s.pc[t := AfterWait(s, p, false)]);
    case Reading =>
      a, s' := UnlockRead(t), State((s.word + WORD32 - 1) % WORD32, s.pc[t := if s.word == 1 then ReadWake else Idle]);
    case Writing => a, s' := UnlockWrite(t), State(0, s.pc[t := WriteWake]);
    case ReadWake =>
      if u :| u in s.pc && Asleep(s.pc[u]) {
        a, s' := WakeOne(t, u), State(s.word, s.pc[t := Idle][u := Retry(s.pc[u])]);
      } else {
        a, s' := WakeNobody(t), State(s.word, s.pc[t := Idle]);
      }
    case WriteWake =>
      var woken := PickSome(Sleepers(s), Min(WAKE_MAX, |Sleepers(s)|));
      a, s' := WakeAll(t, woken), State(s.word, Roused(s.pc, woken)[t := Idle]);
  }

  lemma NotStuck(s: State)
    requires Inv(s) && !Quiet(s)
    ensures !Stuck(s)
  {
    var a, s' := FindInternalStep(s);
  }

  ghost predicate Follows(run: nat -> State, acts: nat -> Action, k: nat) {
    if Stuck(run(k)) then run(k + 1) == run(k) else Internal(acts(k)) && Step(run(k), acts(k), run(k + 1))
  }

  lemma Progress(run: nat -> State, acts: nat -> Action, i: nat)
    requires Inv(run(i)) && !Quiet(run(i)) && Follows(run, acts, i)
    ensures Inv(run(i + 1)) && Less(run(i + 1), run(i))
  {
    NotStuck(run(i));
    InternalStepDecreases(run(i), acts(i), run(i + 1));
    InvStep(run(i), acts(i), run(i + 1));
  }

  lemma EverybodyReturns(run: nat -> State, acts: nat -> Action, i: nat)
    requires Inv(run(i))
    requires forall k: nat :: i <= k ==> Follows(run, acts, k)
    ensures exists j: nat :: i <= j && Quiet(run(j))
    decreases Contenders(run(i)), UnlockWork(run(i)), RetryWork(run(i))
  {
    if !Quiet(run(i)) {
      Progress(run, acts, i);
      EverybodyReturns(run, acts, i + 1);
    }
  }

  lemma {:induction false} HasBefore(run: nat -> State, acts: nat -> Action, i: nat, j: nat, t: Tid)
    requires forall k: nat :: i <= k ==> Follows(run, acts, k)
    requires i <= j && Quiet(run(j))
    ensures WantsRead(run(i), t) ==> exists k: nat :: i <= k <= j && At(run(k), t, Reading)
    ensures WantsWrite(run(i), t) ==> exists k: nat :: i <= k <= j && At(run(k), t, Writing)
    decreases j - i
  {
    if i < j {
      assert Follows(run, acts, i);
      HasBefore(run, acts, i + 1, j, t);
      if !Stuck(run(i)) { WantsStep(run(i), acts(i), run(i + 1), t); }
    }
  }

  // From any reachable state on, if callers stop arriving, every schedule lets every reader and
  // writer in and out again, whatever mix of them wake-one and wake-all found asleep.
  lemma EveryContenderServed(run: nat -> State, acts: nat -> Action, i: nat)
    requires Inv(run(i))
    requires forall k: nat :: i <= k ==> Follows(run, acts, k)
    ensures forall t :: WantsRead(run(i), t) ==> exists j: nat :: i <= j && At(run(j), t, Reading)
    ensures forall t :: WantsWrite(run(i), t) ==> exists j: nat :: i <= j && At(run(j), t, Writing)
    ensures exists j: nat :: i <= j && Quiet(run(j))
  {
    EverybodyReturns(run, acts, i);
    var j: nat :| i <= j && Quiet(run(j));
    forall t | WantsRead(run(i), t) ensures exists k: nat :: i <= k && At(run(k), t, Reading) {
      HasBefore(run, acts, i, j, t);
    }
    forall t | WantsWrite(run(i), t) ensures exists k: nat :: i <= k && At(run(k), t, Writing) {
      HasBefore(run, acts, i, j, t);
    }
  }
}
