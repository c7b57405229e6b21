/**
 * The ITRON SpinMutex as interleaved atomic steps of any number of threads: reading
 * sns_dsp, the swap of the spin loop, entering and leaving the closure, and the store.
 */
module SpinMutex {
  type Tid = nat

  /**
   * Where a thread is in with_locked. `took` is its took_lock, and seen is the value of the
   * data when the closure began.
   */
  datatype Place =
    | Outside
    | Spinning
    | Ready(took: bool)
    | Inside(took: bool, seen: int)
    | Leaving(took: bool)

  /** threads run with_locked; history lists the threads whose closures have finished, in that order. */
  datatype State = State(locked: bool, data: int, places: map<Tid, Place>, history: seq<Tid>)

  /** What the closure of a thread makes of the data. */
  type Closure = (Tid, int) -> int

  datatype System = System(threads: set<Tid>, bypassers: set<Tid>, closure: Closure)

  ghost predicate Init(sys: System, s: State) {
    && !s.locked && s.places.Keys == sys.threads && s.history == []
    && forall t <- sys.threads :: s.places[t] == Outside
  }

  // ------------------------------------------------------------------- steps

  datatype Step = See(dispatchDisabled: bool) | Swap | Enter | Leave | Finish

  /**
   * One atomic step of thread t. Only a bypasser can see sns_dsp() != 0; it goes on to the
   * closure without the lock. A swap that finds the lock taken leaves the thread spinning.
   */
  ghost predicate Next(sys: System, s: State, t: Tid, step: Step, s': State) {
    && t in sys.threads && s.places.Keys == sys.threads
    && match (step, s.places[t])
       case (See(disabled), Outside) =>
         && (disabled ==> t in sys.bypassers)
         && s' == s.(places := s.places[t := if disabled then Ready(false) else Spinning])
       case (Swap, Spinning) =>
         s' == s.(locked := true, places := s.places[t := if s.locked then Spinning else Ready(true)])
       case (Enter, Ready(took)) =>
         s' == s.(places := s.places[t := Inside(took, s.data)])
       case (Leave, Inside(took, seen)) =>
         s' == s.(data := sys.closure(t, seen), places := s.places[t := Leaving(took)], history := s.history + [t])
       case (Finish, Leaving(took)) =>
         s' == s.(locked := s.locked && !took, places := s.places[t := Outside])
       case _ => false
  }

  /** The state with thread t moved to p. */
  ghost function With(s: State, t: Tid, p: Place): State {
    s.(places := s.places[t := p])
  }

  lemma NextIsDeterministic(sys: System, s: State, t: Tid, step: Step, s1: State, s2: State)
    requires Next(sys, s, t, step, s1) && Next(sys, s, t, step, s2)
    ensures s1 == s2
  {
  }

  /** Thread t takes these steps one after the other, from the first of the states to the last. */
  ghost predicate Takes(sys: System, t: Tid, steps: seq<Step>, states: seq<State>) {
    && |states| == |steps| + 1
    && forall i :: 0 <= i < |steps| ==> Next(sys, states[i], t, steps[i], states[i + 1])
  }

  ghost predicate IsOutside(sys: System, s: State, t: Tid) {
    t in sys.threads && s.places.Keys == sys.threads && s.places[t] == Outside
  }

  /** The state after the closure of t has run, and nothing else. */
  ghost function AfterClosure(sys: System, s: State, t: Tid): State {
    s.(data := sys.closure(t, s.data), history := s.history + [t])
  }

  /** On a free lock and undisturbed, with_locked runs the closure once and leaves the lock free. */
  lemma LockedCall(sys: System, s: State, t: Tid) returns (states: seq<State>)
    requires IsOutside(sys, s, t) && !s.locked
    ensures Takes(sys, t, [See(false), Swap, Enter, Leave, Finish], states)
    ensures states[0] == s && states[5] == AfterClosure(sys, s, t)
  {
    var held := s.(locked := true);
    var after := AfterClosure(sys, held, t);
    states := [s, With(s, t, Spinning), With(held, t, Ready(true)), With(held, t, Inside(true, s.data)),
               With(after, t, Leaving(true)), AfterClosure(sys, s, t)];
    assert s.places[t := Outside] == s.places;
  }

  /** A bypasser's call does the same whether the lock is taken or free, and leaves it as it is. */
  lemma BypassingCall(sys: System, s: State, t: Tid) returns (states: seq<State>)
    requires IsOutside(sys, s, t) && t in sys.bypassers
    ensures Takes(sys, t, [See(true), Enter, Leave, Finish], states)
    ensures states[0] == s && states[4] == AfterClosure(sys, s, t)
  {
    var after := AfterClosure(sys, s, t);
    states := [s, With(s, t, Ready(false)), With(s, t, Inside(false, s.data)), With(after, t, Leaving(false)), after];
    assert s.places[t := Outside] == s.places;
  }

  /** The swap of a taken lock changes nothing. */
  lemma LockedOutSpins(sys: System, s: State, t: Tid, s': State)
    requires t in sys.threads && s.places.Keys == sys.threads && s.places[t] == Spinning && s.locked
    ensures Next(sys, s, t, Swap, s') <==> s' == s
  {
    assert s.places[t := Spinning] == s.places;
  }

  datatype Event = Event(t: Tid, step: Step)

  /** A run: states joined by the steps of the events. */
  ghost predicate IsRun(sys: System, states: seq<State>, events: seq<Event>) {
    && |states| == |events| + 1 && Init(sys, states[0])
    && forall i :: 0 <= i < |events| ==> Next(sys, states[i], events[i].t, events[i].step, states[i + 1])
  }

  // ------------------------------------------------------------------ safety

  /** t is between its winning swap and its store. */
  predicate Owns(p: Place) {
    (p.Ready? || p.Inside? || p.Leaving?) && p.took
  }

  /** At most one thread is inside its closure. */
  ghost predicate Exclusive(s: State) {
    forall t, u :: t in s.places && u in s.places && s.places[t].Inside? && s.places[u].Inside? ==> t == u
  }

  /** The lock is set exactly while there is an owner, and the owner is unique. */
  ghost predicate OneOwner(s: State) {
    && (s.locked <==> exists t :: t in s.places && Owns(s.places[t]))
    && forall t, u :: t in s.places && u in s.places && Owns(s.places[t]) && Owns(s.places[u]) ==> t == u
  }

  /** Nobody has got past the spin loop without the lock. */
  ghost predicate NoTrespass(s: State) {
    forall t :: t in s.places ==>
      (s.places[t].Ready? || s.places[t].Inside? || s.places[t].Leaving? ==> Owns(s.places[t]))
  }

  /** No closure is working on stale data. */
  ghost predicate Fresh(s: State) {
    forall t :: t in s.places && s.places[t].Inside? ==> s.places[t].seen == s.data
  }

  ghost predicate Invariant(s: State) {
    OneOwner(s) && NoTrespass(s) && Fresh(s)
  }

  /** The data after the closures of history have run one after the other. */
  ghost function Replay(sys: System, start: int, history: seq<Tid>): int {
    if history == [] then start
    else sys.closure(history[|history| - 1], Replay(sys, start, history[..|history| - 1]))
  }

  /** Every entrant of the run has seen dispatching enabled. */
  ghost predicate Locking(events: seq<Event>) {
    forall i :: 0 <= i < |events| ==> events[i].step != See(true)
  }

  /** No step, not even of a bypasser, takes the lock away from its owner. */
  lemma StepKeepsOwner(sys: System, s: State, t: Tid, step: Step, s': State)
    requires Next(sys, s, t, step, s') && OneOwner(s)
    ensures OneOwner(s')
  {
    assert forall u :: u in s.places && u != t ==> s'.places[u] == s.places[u];
    if Owns(s'.places[t]) {
      assert s'.locked;
    } else if s'.locked {
      assert s.locked;
      var u :| u in s.places && Owns(s.places[u]);
      assert Owns(s'.places[u]);
    }
  }

  /** In every run, bypassed or not, the lock is set exactly while one thread owns it. */
  lemma {:induction false} RunHasOneOwner(sys: System, states: seq<State>, events: seq<Event>, i: nat)
    requires IsRun(sys, states, events) && i < |states|
    ensures OneOwner(states[i])
  {
    if i == 0 {
    } else {
      RunHasOneOwner(sys, states, events, i - 1);
      StepKeepsOwner(sys, states[i - 1], events[i - 1].t, events[i - 1].step, states[i]);
    }
  }

  lemma StepKeepsInvariant(sys: System, s: State, t: Tid, step: Step, s': State)
    requires step != See(true) && Next(sys, s, t, step, s') && Invariant(s)
    ensures Invariant(s')
  {
    StepKeepsOwner(sys, s, t, step, s');
    assert forall u :: u in s.places && u != t ==> s'.places[u] == s.places[u];
  }

  /** A closure that finishes works on the data that the one before it left. */
  lemma StepKeepsReplay(sys: System, start: int, s: State, t: Tid, step: Step, s': State)
    requires Next(sys, s, t, step, s') && Fresh(s)
    requires s.data == Replay(sys, start, s.history)
    ensures s'.data == Replay(sys, start, s'.history)
  {
    if step == Leave { assert (s.history + [t])[..|s.history|] == s.history; }
  }

  lemma InvariantIsExclusive(s: State)
    requires Invariant(s)
    ensures Exclusive(s)
  {
  }

  /**
   * In every run in which each entrant sees dispatching enabled, the lock has exactly one
   * owner while it is set, at most one thread is inside its closure, and no update is lost.
   */
  lemma {:induction false} RunIsSafe(sys: System, states: seq<State>, events: seq<Event>, i: nat)
    requires IsRun(sys, states, events) && Locking(events) && i < |states|
    ensures Invariant(states[i]) && Exclusive(states[i])
    ensures states[i].data == Replay(sys, states[0].data, states[i].history)
  {
    if i == 0 {
    } else {
      RunIsSafe(sys, states, events, i - 1);
      StepKeepsInvariant(sys, states[i - 1], events[i - 1].t, events[i - 1].step, states[i]);
      StepKeepsReplay(sys, states[0].data, states[i - 1], events[i - 1].t, events[i - 1].step, states[i]);
    }
    InvariantIsExclusive(states[i]);
  }

  // ----------------------------------------------- the bypass breaks exclusion

  /** No two threads share the mutex of which one can bypass it. */
  ghost predicate NobodyBypassed(sys: System) {
    forall t, u :: t in sys.threads && u in sys.threads && t != u ==> t !in sys.bypassers
  }

  ghost predicate AlwaysExclusive(sys: System) {
    forall states: seq<State>, events: seq<Event> :: IsRun(sys, states, events) ==>
      forall i :: 0 <= i < |states| ==> Exclusive(states[i])
  }

  ghost predicate NeverLosesUpdates(sys: System) {
    forall states: seq<State>, events: seq<Event> :: IsRun(sys, states, events) ==>
      forall i :: 0 <= i < |states| ==> states[i].data == Replay(sys, states[0].data, states[i].history)
  }

  lemma LonelyStep(sys: System, only: Tid, s: State, t: Tid, step: Step, s': State)
    requires sys.threads == {only} && Next(sys, s, t, step, s') && Fresh(s)
    ensures s'.places.Keys == sys.threads && Fresh(s')
  {
    assert t == only;
  }

  /** A thread that is alone is exclusive and never loses an update, with or without the lock. */
  lemma {:induction false} LonelyRun(sys: System, only: Tid, states: seq<State>, events: seq<Event>, i: nat)
    requires sys.threads == {only} && IsRun(sys, states, events) && i < |states|
    ensures states[i].places.Keys == sys.threads && Fresh(states[i]) && Exclusive(states[i])
    ensures states[i].data == Replay(sys, states[0].data, states[i].history)
  {
    if i == 0 {
    } else {
      LonelyRun(sys, only, states, events, i - 1);
      LonelyStep(sys, only, states[i - 1], events[i - 1].t, events[i - 1].step, states[i]);
      StepKeepsReplay(sys, states[0].data, states[i - 1], events[i - 1].t, events[i - 1].step, states[i]);
    }
  }

  lemma UnbypassedRun(sys: System, states: seq<State>, events: seq<Event>, i: nat)
    requires NobodyBypassed(sys) && IsRun(sys, states, events) && i < |states|
    ensures Exclusive(states[i]) && states[i].data == Replay(sys, states[0].data, states[i].history)
  {
    if sys.threads !! sys.bypassers {
      assert Locking(events) by {
        forall k | 0 <= k < |events| ensures events[k].step != See(true) {
          assert Next(sys, states[k], events[k].t, events[k].step, states[k + 1]);
        }
      }
      RunIsSafe(sys, states, events, i);
    } else {
      var t :| t in sys.threads && t in sys.bypassers;
      assert sys.threads == {t};
      LonelyRun(sys, t, states, events, i);
    }
  }

  lemma CanSee(sys: System, s: State, t: Tid, disabled: bool)
    requires t in sys.threads && s.places.Keys == sys.threads && s.places[t] == Outside
    requires disabled ==> t in sys.bypassers
    ensures Next(sys, s, t, See(disabled), With(s, t, if disabled then Ready(false) else Spinning))
  {
  }

  lemma CanSwap(sys: System, s: State, t: Tid)
    requires t in sys.threads && s.places.Keys == sys.threads && s.places[t] == Spinning && !s.locked
    ensures Next(sys, s, t, Swap, With(s, t, Ready(true)).(locked := true))
  {
  }

  lemma CanEnter(sys: System, s: State, t: Tid, took: bool)
    requires t in sys.threads && s.places.Keys == sys.threads && s.places[t] == Ready(took)
    ensures Next(sys, s, t, Enter, With(s, t, Inside(took, s.data)))
  {
  }

  lemma CanLeave(sys: System, s: State, t: Tid, took: bool, seen: int)
    requires t in sys.threads && s.places.Keys == sys.threads && s.places[t] == Inside(took, seen)
    ensures Next(sys, s, t, Leave,
                 With(s, t, Leaving(took)).(data := sys.closure(t, seen), history := s.history + [t]))
  {
  }

  /** u takes the lock and enters; t passes by it and enters as well; then both leave. */
  lemma BypassRun(sys: System, t: Tid, u: Tid) returns (states: seq<State>, events: seq<Event>)
    requires t in sys.threads && u in sys.threads && t != u && t in sys.bypassers
    ensures IsRun(sys, states, events) && |states| == 8 && !Exclusive(states[5])
    ensures states[7].history == [u, t] && states[7].data == sys.closure(t, states[0].data)
  {
    hide Next;
    var s0 := State(false, 0, map v | v in sys.threads :: Outside, []);
    CanSee(sys, s0, u, false);
    var s1 := With(s0, u, Spinning);
    CanSwap(sys, s1, u);
    var s2 := With(s1, u, Ready(true)).(locked := true);
    CanEnter(sys, s2, u, true);
    var s3 := With(s2, u, Inside(true, 0));
    CanSee(sys, s3, t, true);
    var s4 := With(s3, t, Ready(false));
    CanEnter(sys, s4, t, false);
    var s5 := With(s4, t, Inside(false, 0));
    CanLeave(sys, s5, u, true, 0);
    var s6 := With(s5, u, Leaving(true)).(data := sys.closure(u, 0), history := s5.history + [u]);
    CanLeave(sys, s6, t, false, 0);
    var s7 := With(s6, t, Leaving(false)).(data := sys.closure(t, 0), history := s6.history + [t]);
    states := [s0, s1, s2, s3, s4, s5, s6, s7];
    events := [Event(u, See(false)), Event(u, Swap), Event(u, Enter), Event(t, See(true)),
               Event(t, Enter), Event(u, Leave), Event(t, Leave)];
    assert s5.places[u].Inside? && s5.places[t].Inside?;
    assert s7.history == [u, t];
  }

  /** The mutex excludes in all runs exactly when no two threads share it of which one can bypass it. */
  lemma ExclusiveExactly(sys: System)
    ensures AlwaysExclusive(sys) <==> NobodyBypassed(sys)
  {
    if NobodyBypassed(sys) {
      forall states: seq<State>, events: seq<Event>, i | IsRun(sys, states, events) && 0 <= i < |states|
        ensures Exclusive(states[i])
      {
        UnbypassedRun(sys, states, events, i);
      }
    } else {
      var t, u :| t in sys.threads && u in sys.threads && t != u && t in sys.bypassers;
      var states, events := BypassRun(sys, t, u);
    }
  }

  /** A counter incremented under the lock loses updates in some run exactly when the lock can be bypassed. */
  lemma CounterExactly(sys: System)
    requires forall t, x :: sys.closure(t, x) == x + 1
    ensures NeverLosesUpdates(sys) <==> NobodyBypassed(sys)
  {
    if NobodyBypassed(sys) {
      forall states: seq<State>, events: seq<Event>, i | IsRun(sys, states, events) && 0 <= i < |states|
        ensures states[i].data == Replay(sys, states[0].data, states[i].history)
      {
        UnbypassedRun(sys, states, events, i);
      }
    } else {
      var t, u :| t in sys.threads && u in sys.threads && t != u && t in sys.bypassers;
      var states, events := BypassRun(sys, t, u);
      assert [u, t][..1] == [u] && [u][..0] == [];
      assert Replay(sys, states[0].data, [u]) == states[0].data + 1;
      assert Replay(sys, states[0].data, [u, t]) == states[0].data + 2;
    }
  }
}
