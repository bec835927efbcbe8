/** The cooperative scheduler: round-robin choice among the coroutines that have not finished.

    A context switch is a transfer of control.  A turn of a coroutine goes from the switch to it up to its
    next yield or its end; what a coroutine does is how often it yields before it ends, which is a
    parameter.  No coroutine is created while the scheduler runs. */
module Scheduler {
  import opened Common
  import Bits

  datatype CoState = Ready | Running | Finished

  // A turn: who was switched to, and which coroutines had finished by then.
  datatype Turn = Turn(who: nat, fin: seq<bool>)

  const MAX_COUNT := 0x8000_0000

  // ----- round robin, on values -----

  // The index d places after c, in a circle of n.
  function Circle(c: nat, d: nat, n: nat): nat
    requires c < n && d <= n
  {
    if c + d < n then c + d else c + d - n
  }

  lemma CircleIsModulo(c: nat, d: nat, n: nat)
    requires c < n && d <= n
    ensures (c + d) % n == Circle(c, d, n) < n
  {
    if c + d < n {
      Bits.DivModUnique(c + d, n, 0, c + d);
    } else if c + d < 2 * n {
      Bits.DivModUnique(c + d, n, 1, c + d - n);
    }
  }

  // How many places after c the index j comes; c itself comes last.
  function Places(c: nat, j: nat, n: nat): (d: nat)
    requires c < n && j < n
    ensures 1 <= d <= n && Circle(c, d, n) == j
  {
    if j > c then j - c else j + n - c
  }

  // next is the first index after c that has not finished; c itself is the last choice.
  ghost predicate IsNext(fin: seq<bool>, c: nat, next: nat) {
    && c < |fin| && next < |fin| && !fin[next]
    && forall j: nat :: j < |fin| && Places(c, j, |fin|) < Places(c, next, |fin|) ==> fin[j]
  }

  // A coroutine yields or finishes, and the next one gets its turn.
  ghost predicate Follows(t: Turn, t': Turn) {
    && t.who < |t.fin| && (t'.fin == t.fin || t'.fin == t.fin[t.who := true])
    && IsNext(t'.fin, t.who, t'.who)
  }

  ghost predicate IsTrace(trace: seq<Turn>, n: nat) {
    && (forall k :: 0 <= k < |trace| ==> trace[k].who < n == |trace[k].fin| && !trace[k].fin[trace[k].who])
    && (forall k: nat :: k + 1 < |trace| ==> StepAt(trace, k))
  }

  ghost predicate StepAt(trace: seq<Turn>, k: nat) {
    k + 1 < |trace| && Follows(trace[k], trace[k + 1])
  }

  // Turns of j after turn p and before turn q.
  function Between(trace: seq<Turn>, p: nat, q: nat, j: nat): nat
    requires q <= |trace|
    decreases q
  {
    if q <= p + 1 then 0 else Between(trace, p, q - 1, j) + if trace[q - 1].who == j then 1 else 0
  }

  // ----- fairness -----

  // What has finished stays finished, and gets no turn.
  lemma {:induction false} StaysFinished(trace: seq<Turn>, n: nat, p: nat, q: nat, j: nat)
    requires IsTrace(trace, n) && p <= q < |trace| && j < n && trace[p].fin[j]
    ensures trace[q].fin[j] && Between(trace, p, q, j) == 0
    decreases q
  {
    if p < q {
      StaysFinished(trace, n, p, q - 1, j);
      assert StepAt(trace, q - 1);
    }
  }

  // Between turns p and r, no turn of whoever has turn p in between: those who have come round so far got
  // one turn each, if they had not finished, and the others none yet.
  ghost predicate Round(trace: seq<Turn>, n: nat, p: nat, r: nat)
    requires IsTrace(trace, n) && p < r < |trace|
  {
    var i, at := trace[p].who, Places(trace[p].who, trace[r].who, n);
    forall j: nat :: j < n && !trace[p].fin[j] ==>
      && Between(trace, p, r, j) == (if Places(i, j, n) < at then 1 else 0)
      && (Places(i, j, n) >= at && j != i ==> !trace[r].fin[j])
  }

  // Going round from i past a.
  lemma PlacesPast(i: nat, a: nat, j: nat, n: nat)
    requires i < n && a < n && j < n && a != i && Places(i, a, n) < Places(i, j, n)
    ensures Places(a, j, n) == Places(i, j, n) - Places(i, a, n)
  {
  }

  // If i has not finished, the turn after a's goes to someone on the way from a to i.
  lemma NextOnTheWay(fin: seq<bool>, i: nat, a: nat, b: nat)
    requires i < |fin| && !fin[i] && a != i && IsNext(fin, a, b)
    ensures Places(i, a, |fin|) < Places(i, b, |fin|)
    ensures forall j: nat :: j < |fin| && Places(i, a, |fin|) < Places(i, j, |fin|) < Places(i, b, |fin|) ==> fin[j]
  {
    var n := |fin|;
    PlacesPast(i, a, i, n);
    forall j: nat | j < n && Places(i, a, n) < Places(i, j, n) < Places(i, b, n) ensures fin[j] {
      PlacesPast(i, a, j, n);
      PlacesPast(i, a, b, n);
    }
  }

  lemma RoundStep(trace: seq<Turn>, n: nat, p: nat, r: nat, j: nat)
    requires IsTrace(trace, n) && p < r < |trace| - 1 && Round(trace, n, p, r) && j < n && !trace[p].fin[j]
    requires trace[r].who != trace[p].who && !trace[r + 1].fin[trace[p].who]
    ensures var i, at := trace[p].who, Places(trace[p].who, trace[r + 1].who, n);
      && Between(trace, p, r + 1, j) == (if Places(i, j, n) < at then 1 else 0)
      && (Places(i, j, n) >= at && j != i ==> !trace[r + 1].fin[j])
  {
    assert StepAt(trace, r);
    NextOnTheWay(trace[r + 1].fin, trace[p].who, trace[r].who, trace[r + 1].who);
    assert Between(trace, p, r + 1, j) == Between(trace, p, r, j) + if trace[r].who == j then 1 else 0;
  }

  lemma {:induction false} Rounds(trace: seq<Turn>, n: nat, p: nat, r: nat, q: nat)
    requires IsTrace(trace, n) && p < r <= q < |trace| && trace[q].who == trace[p].who
    requires forall k :: p < k < q ==> trace[k].who != trace[p].who
    ensures Round(trace, n, p, r)
    decreases r
  {
    var i := trace[p].who;
    if r == p + 1 {
      assert StepAt(trace, p);
    } else {
      Rounds(trace, n, p, r - 1, q);
      if trace[r].fin[i] { StaysFinished(trace, n, r, q, i); }
      forall j: nat | j < n && !trace[p].fin[j]
        ensures Between(trace, p, r, j) == (if Places(i, j, n) < Places(i, trace[r].who, n) then 1 else 0)
        ensures Places(i, j, n) >= Places(i, trace[r].who, n) && j != i ==> !trace[r].fin[j]
      {
        RoundStep(trace, n, p, r - 1, j);
      }
    }
  }

  // Between two consecutive turns of one coroutine, every other one that had not finished gets one turn.
  lemma Fair(trace: seq<Turn>, n: nat, p: nat, q: nat, j: nat)
    requires IsTrace(trace, n) && p < q < |trace| && trace[q].who == trace[p].who
    requires forall k :: p < k < q ==> trace[k].who != trace[p].who
    requires j < n && j != trace[p].who
    ensures Between(trace, p, q, j) == if trace[p].fin[j] then 0 else 1
  {
    Rounds(trace, n, p, q, q);
    if trace[p].fin[j] { StaysFinished(trace, n, p, q, j); }
  }

  // ----- the scheduler -----

  function Flags(states: seq<CoState>): seq<bool> {
    seq(|states|, i requires 0 <= i < |states| => states[i] == Finished)
  }

  predicate IsUnfinished(c: CoState) { c != Finished }

  function Unfinished(states: seq<CoState>): nat { Count(states, IsUnfinished) }

  function Sum(s: seq<nat>): nat {
    if s == [] then 0 else Sum(s[..|s| - 1]) + s[|s| - 1]
  }

  lemma {:induction false} SumUpdate(s: seq<nat>, i: nat, x: nat)
    requires i < |s|
    ensures Sum(s[i := x]) == Sum(s) - s[i] + x
  {
    var n := |s| - 1;
    if i == n {
      assert s[i := x][..n] == s[..n];
    } else {
      assert s[i := x][..n] == s[..n][i := x];
      SumUpdate(s[..n], i, x);
    }
  }

  // All turns of j in the trace.
  function Turns(trace: seq<Turn>, j: nat): nat {
    if trace == [] then 0 else Turns(trace[..|trace| - 1], j) + if trace[|trace| - 1].who == j then 1 else 0
  }

  lemma TurnsAppend(trace: seq<Turn>, t: Turn, j: nat)
    ensures Turns(trace + [t], j) == Turns(trace, j) + if t.who == j then 1 else 0
  {
    assert (trace + [t])[..|trace|] == trace;
  }

  // How many turns each coroutine has had, when coroutine i yields `pauses[i]` times in all and `left[i]` times still.
  ghost predicate TurnsDone(trace: seq<Turn>, before: seq<CoState>, states: seq<CoState>,
                            pauses: seq<nat>, left: seq<nat>)
  {
    && |before| == |states| == |pauses| == |left|
    && forall i: nat :: i < |states| ==> TurnsOf(trace, before, states, pauses, left, i)
  }

  ghost predicate TurnsOf(trace: seq<Turn>, before: seq<CoState>, states: seq<CoState>,
                          pauses: seq<nat>, left: seq<nat>, i: nat)
    requires |before| == |states| == |pauses| == |left| && i < |states|
  {
    && left[i] <= pauses[i] && (before[i] == Finished ==> states[i] == Finished)
    && Turns(trace, i) ==
         if before[i] == Finished then 0
         else match states[i]
           case Ready => pauses[i] - left[i]
           case Running => pauses[i] - left[i] + 1
           case Finished => pauses[i] + 1
  }

  // The states after coroutine c, which was running, has yielded or finished and b is switched to.
  function Switched(states: seq<CoState>, c: nat, finishes: bool, b: nat): seq<CoState>
    requires c < |states| && b < |states|
  {
    states[c := if finishes then Finished else Ready][b := Running]
  }

  lemma TurnsStep(trace: seq<Turn>, before: seq<CoState>, states: seq<CoState>, pauses: seq<nat>, left: seq<nat>,
                  c: nat, b: nat, t: Turn)
    requires TurnsDone(trace, before, states, pauses, left) && c < |states| && b < |states| && t.who == b
    requires states[c] == Running && (b == c ==> left[c] > 0) && (b != c ==> states[b] == Ready)
    ensures var left' := if left[c] > 0 then left[c := left[c] - 1] else left;
      TurnsDone(trace + [t], before, Switched(states, c, left[c] == 0, b), pauses, left')
  {
    var states', left' := Switched(states, c, left[c] == 0, b), if left[c] > 0 then left[c := left[c] - 1] else left;
    forall i: nat | i < |states| ensures TurnsOf(trace + [t], before, states', pauses, left', i) {
      TurnsAppend(trace, t, i);
      assert TurnsOf(trace, before, states, pauses, left, i);
    }
  }

  lemma TurnsEnd(trace: seq<Turn>, before: seq<CoState>, states: seq<CoState>, pauses: seq<nat>, left: seq<nat>, c: nat)
    requires TurnsDone(trace, before, states, pauses, left) && c < |states| && states[c] == Running && left[c] == 0
    ensures TurnsDone(trace, before, states[c := Finished], pauses, left)
  {
    var states' := states[c := Finished];
    forall i: nat | i < |states| ensures TurnsOf(trace, before, states', pauses, left, i) {
      assert TurnsOf(trace, before, states, pauses, left, i);
    }
  }

  lemma TurnsStart(before: seq<CoState>, first: nat, pauses: seq<nat>, t: Turn)
    requires first < |before| == |pauses| && before[first] == Ready && t.who == first
    requires forall i :: 0 <= i < |before| ==> before[i] != Running
    ensures TurnsDone([t], before, before[first := Running], pauses, pauses)
  {
    var trace, states := [t], before[first := Running];
    forall i: nat | i < |before| ensures TurnsOf(trace, before, states, pauses, pauses, i) {
      TurnsAppend([], t, i);
      assert [] + [t] == [t];
    }
  }

  lemma TurnsTotal(trace: seq<Turn>, before: seq<CoState>, states: seq<CoState>, pauses: seq<nat>, left: seq<nat>)
    requires TurnsDone(trace, before, states, pauses, left) && forall i :: 0 <= i < |states| ==> states[i] == Finished
    ensures forall i: nat :: i < |states| ==> Turns(trace, i) == if before[i] == Finished then 0 else pauses[i] + 1
  {
    forall i: nat | i < |states| ensures Turns(trace, i) == if before[i] == Finished then 0 else pauses[i] + 1 {
      assert TurnsOf(trace, before, states, pauses, left, i);
    }
  }

  lemma TraceAppend(trace: seq<Turn>, n: nat, t: Turn)
    requires IsTrace(trace, n) && |trace| > 0 && |t.fin| == n && Follows(trace[|trace| - 1], t)
    ensures IsTrace(trace + [t], n)
  {
    var trace' := trace + [t];
    forall k: nat | k + 1 < |trace'| ensures StepAt(trace', k) {
      assert k + 1 < |trace| ==> StepAt(trace, k);
    }
  }

  class Scheduler {
    var states: seq<CoState>     // the states of the coroutines created so far
    var current: nat
    var activeCount: nat
    const capacity: nat

    // Between runs nothing is running.
    ghost predicate Idle()
      reads this
    {
      |states| <= capacity <= MAX_COUNT && forall i :: 0 <= i < |states| ==> states[i] != Running
    }

    // During a run the current coroutine alone is running, and the counter is exact.
    ghost predicate Active()
      reads this
    {
      && |states| <= capacity <= MAX_COUNT && current < |states| && states[current] == Running
      && (forall i :: 0 <= i < |states| && i != current ==> states[i] != Running)
      && activeCount == Unfinished(states)
    }

    constructor (maxCoroutines: nat)
      requires maxCoroutines <= MAX_COUNT
      ensures Idle() && states == [] && capacity == maxCoroutines
    {
      states, current, activeCount, capacity := [], 0, 0, maxCoroutines;
    }

    // lc_coroutine_create; `stackOk` is whether the kernel gave a guarded stack.
    method Create(stackOk: bool) returns (ok: bool)
      requires Idle()
      modifies this`states
      ensures Idle() && ok == (|old(states)| < capacity && stackOk)
      ensures states == if ok then old(states) + [Ready] else old(states)
    {
      if |states| >= capacity || !stackOk { return false; }
      states := states + [Ready];
      return true;
    }

    // The search of lc_coroutine_yield: the first unfinished coroutine after the current one.
    method FindNext() returns (found: bool, next: nat)
      requires current < |states| <= MAX_COUNT
      ensures found ==> IsNext(Flags(states), current, next)
      ensures !found ==> forall i :: 0 <= i < |states| ==> states[i] == Finished
    {
      var n := |states|;
      var i := 1;
      while i <= n
        invariant 1 <= i <= n + 1
        invariant forall j: nat :: j < n && Places(current, j, n) < i ==> states[j] == Finished
      {
        CircleIsModulo(current, i, n);
        var candidate := (current + i) % n;
        if states[candidate] != Finished {
          return true, candidate;
        }
        i := i + 1;
      }
      assert forall j: nat :: j < n ==> Places(current, j, n) < n + 1;
      return false, current;
    }

    // lc_coroutine_yield, called by the current coroutine or at its end: control goes to the next
    // unfinished coroutine, or back to lc_scheduler_run if there is none.
    method Yield() returns (toMain: bool)
      requires |states| <= capacity <= MAX_COUNT && current < |states| && states[current] != Ready
      requires forall i :: 0 <= i < |states| && i != current ==> states[i] != Running
      requires activeCount == Unfinished(states)
      modifies this`states, this`current
      ensures Flags(states) == old(Flags(states)) && |states| == |old(states)|
      ensures toMain <==> forall i :: 0 <= i < |states| ==> old(states)[i] == Finished
      ensures toMain ==> states == old(states)
      ensures !toMain ==>
        && Active() && IsNext(Flags(states), old(current), current)
        && states == Switched(old(states), old(current), old(states)[old(current)] == Finished, current)
    {
      if states[current] == Running {
        CountUpdate(states, IsUnfinished, current, Ready);
        states := states[current := Ready];
      }
      assert Flags(states) == old(Flags(states));
      var found, next := FindNext();
      if !found {
        assert states[current] == Finished;
        return true;
      }
      CountUpdate(states, IsUnfinished, next, Running);
      states := states[next := Running];
      current := next;
      assert Flags(states) == old(Flags(states));
      return false;
    }

    // The first unfinished coroutine, or the number of coroutines, and how many there are.
    method CountRunnable() returns (first: nat, runnable: nat)
      requires Idle()
      ensures runnable == Unfinished(states) && first <= |states|
      ensures first == |states| <==> runnable == 0
      ensures first < |states| ==> states[first] != Finished
      ensures forall i :: 0 <= i < first ==> states[i] == Finished
    {
      first, runnable := |states|, 0;
      for i := 0 to |states|
        invariant runnable == Unfinished(states[..i])
        invariant if first == |states| then runnable == 0 else first < i && states[first] != Finished && runnable > 0
        invariant forall j :: 0 <= j < i && j < first ==> states[j] == Finished
      {
        assert states[..i + 1][..i] == states[..i];
        if states[i] != Finished {
          if first == |states| { first := i; }
          runnable := runnable + 1;
        }
      }
      assert states[..|states|] == states;
    }

    // A turn of the current coroutine, up to the switch away from it; coroutine_trampoline marks its end.
    method TakeTurn(ends: bool) returns (toMain: bool)
      requires Active()
      modifies this
      ensures |states| == |old(states)|
      ensures toMain ==> ends && states == old(states)[old(current) := Finished] && activeCount == 0
      ensures toMain ==> forall i :: 0 <= i < |states| ==> states[i] == Finished
      ensures !toMain ==>
        && Active() && states == Switched(old(states), old(current), ends, current)
        && activeCount == old(activeCount) - (if ends then 1 else 0) && (ends ==> current != old(current))
        && Follows(Turn(old(current), old(Flags(states))), Turn(current, Flags(states)))
    {
      if ends {
        CountUpdate(states, IsUnfinished, current, Finished);
        states := states[current := Finished];
        activeCount := activeCount - 1;
        assert Flags(states) == old(Flags(states))[current := true];
      }
      toMain := Yield();
      if toMain {
        CountBounds(states, IsUnfinished);
      } else {
        assert states == Switched(old(states), old(current), ends, current);
      }
    }

    // lc_scheduler_run, with the coroutines' own steps: coroutine i yields `pauses[i]` times and then returns.
    method Run(pauses: seq<nat>) returns (ghost trace: seq<Turn>)
      requires Idle() && |pauses| == |states|
      modifies this
      ensures Idle() && |states| == |old(states)| && forall i :: 0 <= i < |states| ==> states[i] == Finished
      ensures trace != [] ==> activeCount == 0
      // the turns follow round robin, so Fair applies to them, and nobody who has finished is switched to
      ensures IsTrace(trace, |states|)
      // the first turn goes to the first coroutine that has not finished, if there is one
      ensures trace == [] <==> forall i :: 0 <= i < |states| ==> old(states)[i] == Finished
      ensures trace != [] ==> trace[0].fin == old(Flags(states)) && !trace[0].fin[trace[0].who]
      ensures trace != [] ==> forall i :: 0 <= i < trace[0].who ==> trace[0].fin[i]
      // every coroutine that had not finished runs to its end, the others not at all
      ensures forall i: nat :: i < |states| ==>
        Turns(trace, i) == if old(states)[i] == Finished then 0 else pauses[i] + 1
    {
      trace := [];
      if |states| == 0 { return; }
      var first, runnable := CountRunnable();
      CountBounds(states, IsUnfinished);
      if runnable == 0 { return; }
      activeCount := runnable;
      current := first;
      CountUpdate(states, IsUnfinished, first, Running);
      states := states[first := Running];
      assert Flags(states) == old(Flags(states));
      trace := [Turn(first, Flags(states))];
      TurnsStart(old(states), first, pauses, trace[0]);
      trace := RunToEnd(pauses, old(states), trace);
    }

    // Control stays among the coroutines until none is left.
    method RunToEnd(pauses: seq<nat>, ghost before: seq<CoState>, ghost soFar: seq<Turn>)
      returns (ghost trace: seq<Turn>)
      requires Active() && IsTrace(soFar, |states|) && |soFar| > 0 && soFar[|soFar| - 1] == Turn(current, Flags(states))
      requires TurnsDone(soFar, before, states, pauses, pauses)
      modifies this
      ensures soFar <= trace && activeCount == 0
      ensures |states| == |old(states)| <= capacity && forall i :: 0 <= i < |states| ==> states[i] == Finished
      ensures IsTrace(trace, |states|)
      ensures forall i: nat :: i < |states| ==> Turns(trace, i) == if before[i] == Finished then 0 else pauses[i] + 1
    {
      trace := soFar;
      var left, toMain := pauses, false;
      ghost var n := |states|;
      while !toMain
        invariant |states| == n <= capacity && IsTrace(trace, n) && soFar <= trace
        invariant TurnsDone(trace, before, states, pauses, left)
        invariant !toMain ==> Active() && trace[|trace| - 1] == Turn(current, Flags(states))
        invariant toMain ==> activeCount == 0 && forall i :: 0 <= i < |states| ==> states[i] == Finished
        decreases !toMain, activeCount, Sum(left)
      {
        ghost var ss, leftBefore := states, left;
        var c := current;
        toMain := TakeTurn(left[c] == 0);
        if left[c] > 0 {
          SumUpdate(left, c, left[c] - 1);
          left := left[c := left[c] - 1];
        }
        if toMain {
          TurnsEnd(trace, before, ss, pauses, leftBefore, c);
        } else {
          ghost var turn := Turn(current, Flags(states));
          TurnsStep(trace, before, ss, pauses, leftBefore, c, current, turn);
          TraceAppend(trace, n, turn);
          trace := trace + [turn];
        }
      }
      TurnsTotal(trace, before, states, pauses, left);
    }
  }
}
