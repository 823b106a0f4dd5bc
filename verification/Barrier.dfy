// The phased thread barrier: its three critical sections, and all interleavings of the threads using it.

module BarrierFields {

  /** The fields that `lock_` guards. */
  datatype Fields = Fields(running: int, phase: int, entered: int)

  /** How a thread goes on after a critical section of `wait`. */
  datatype Outcome = MustSleep(cp: int) | LeaveFalse | LeaveTrue

  /** The predicate a waiter of phase `cp` waits for. */
  predicate MayProceed(f: Fields, cp: int) {
    f.phase > cp || f.entered == f.running
  }

  function Complete(f: Fields): Fields {
    f.(phase := f.phase + 1, entered := 0)
  }

  function EnterSection(f: Fields): (Fields, Outcome) {
    var g := f.(entered := f.entered + 1);
    if g.entered < g.running then (g, MustSleep(g.phase)) else (Complete(g), LeaveTrue)
  }

  /** The condition variable woke a waiter of phase `cp`, and it holds the lock again. */
  function RecheckSection(f: Fields, cp: int): (Fields, Outcome) {
    if !MayProceed(f, cp) then (f, MustSleep(cp))
    else if f.phase > cp then (f, LeaveFalse)
    else (Complete(f), LeaveTrue)
  }

  /** removeThread: the new fields, and whether it notifies. */
  function RemoveSection(f: Fields): (Fields, bool) {
    (f.(running := f.running - 1), f.entered != 0)
  }

  class Barrier {
    var runningThreads: int
    var phaseNumber: int
    var entered: int

    function View(): Fields
      reads this
    {
      Fields(runningThreads, phaseNumber, entered)
    }

    constructor (numThreads: int)
      ensures View() == Fields(numThreads, 0, 0)
    {
      runningThreads, phaseNumber, entered := numThreads, 0, 0;
    }

    /** createBarrier up to the first sleep, under the lock. */
    method Enter() returns (outcome: Outcome)
      requires entered < runningThreads
      modifies this
      ensures (View(), outcome) == EnterSection(old(View()))
      ensures runningThreads == old(runningThreads)
      ensures old(entered) + 1 < runningThreads ==>
                outcome == MustSleep(phaseNumber) && phaseNumber == old(phaseNumber) && entered == old(entered) + 1
      ensures old(entered) + 1 == runningThreads ==>
                outcome == LeaveTrue && phaseNumber == old(phaseNumber) + 1 && entered == 0
    {
      entered := entered + 1;
      if entered < runningThreads {
        var phaseNumberCp := phaseNumber;
        return MustSleep(phaseNumberCp);
      }
      phaseNumber := phaseNumber + 1;
      entered := 0;
      return LeaveTrue;
    }

    /** createBarrier from a wake-up to the next sleep or to its end, under the lock. */
    method Recheck(phaseNumberCp: int) returns (outcome: Outcome)
      modifies this
      ensures (View(), outcome) == RecheckSection(old(View()), phaseNumberCp)
      ensures runningThreads == old(runningThreads)
      ensures old(phaseNumber) > phaseNumberCp ==>
                outcome == LeaveFalse && phaseNumber == old(phaseNumber) && entered == old(entered)
      ensures old(phaseNumber) <= phaseNumberCp && old(entered) == runningThreads ==>
                outcome == LeaveTrue && phaseNumber == old(phaseNumber) + 1 && entered == 0
      ensures old(phaseNumber) <= phaseNumberCp && old(entered) != runningThreads ==>
                outcome == MustSleep(phaseNumberCp) && phaseNumber == old(phaseNumber) && entered == old(entered)
    {
      if !(phaseNumber > phaseNumberCp || entered == runningThreads) {
        return MustSleep(phaseNumberCp);
      }
      if phaseNumber > phaseNumberCp {
        return LeaveFalse;
      }
      phaseNumber := phaseNumber + 1;
      entered := 0;
      return LeaveTrue;
    }

    /** removeThread; `notify` says whether it notifies, still holding the lock. */
    method RemoveThread() returns (notify: bool)
      modifies this
      ensures (View(), notify) == RemoveSection(old(View()))
      ensures runningThreads == old(runningThreads) - 1 && phaseNumber == old(phaseNumber) && entered == old(entered)
      ensures notify <==> old(entered) != 0
    {
      runningThreads := runningThreads - 1;
      notify := entered != 0;
    }
  }
}

module BarrierProtocol {
  import opened FiniteSets
  import opened BarrierFields

  /**
    * Where a thread is: outside the barrier; asleep on the condition variable; woken and waiting for
    * the lock; past the lock with `last_thread` set, about to notify; or removed.
    */
  datatype Pc = Outside | Sleeping(cp: int) | Woken(cp: int) | Notifying | Removed

  /**
    * `returned[t]` records what thread t's calls of `wait` have returned so far, and `winners[p]` the
    * thread that completed phase p.
    */
  datatype State = State(f: Fields, pc: seq<Pc>, returned: seq<seq<bool>>, winners: seq<int>)

  datatype Step = Enter(t: int) | Recheck(t: int) | Spurious(t: int) | Notify(t: int) | Remove(t: int)

  function Initial(n: nat): State {
    State(Fields(n, 0, 0), seq(n, _ => Outside), seq(n, _ => []), [])
  }

  ghost predicate Shaped(s: State) {
    |s.pc| == |s.returned|
  }

  ghost predicate Enabled(s: State, step: Step)
    requires Shaped(s)
  {
    && 0 <= step.t < |s.pc|
    && match step
       case Enter(t) => s.pc[t] == Outside
       case Recheck(t) => s.pc[t].Woken?
       case Spurious(t) => s.pc[t].Sleeping?
       case Notify(t) => s.pc[t] == Notifying
       case Remove(t) => s.pc[t] == Outside
  }

  function WakeAll(pc: seq<Pc>): (woken: seq<Pc>)
    ensures |woken| == |pc|
    ensures forall t :: 0 <= t < |pc| ==> woken[t] == if pc[t].Sleeping? then Woken(pc[t].cp) else pc[t]
  {
    seq(|pc|, t requires 0 <= t < |pc| => if pc[t].Sleeping? then Woken(pc[t].cp) else pc[t])
  }

  /** A thread leaves a critical section of `wait`. */
  function Leave(s: State, t: int, f: Fields, outcome: Outcome): State
    requires 0 <= t < |s.pc| == |s.returned|
  {
    match outcome
    case MustSleep(cp) => s.(f := f, pc := s.pc[t := Sleeping(cp)])
    case LeaveFalse => s.(f := f, pc := s.pc[t := Outside], returned := s.returned[t := s.returned[t] + [false]])
    case LeaveTrue => s.(f := f, pc := s.pc[t := Notifying], winners := s.winners + [t])
  }

  function Apply(s: State, step: Step): State
    requires Shaped(s) && Enabled(s, step)
  {
    var t := step.t;
    match step
    case Enter(_) => var (f, outcome) := EnterSection(s.f); Leave(s, t, f, outcome)
    case Recheck(_) => var (f, outcome) := RecheckSection(s.f, s.pc[t].cp); Leave(s, t, f, outcome)
    case Spurious(_) => s.(pc := s.pc[t := Woken(s.pc[t].cp)])
    case Notify(_) =>
      s.(pc := WakeAll(s.pc)[t := Outside], returned := s.returned[t := s.returned[t] + [true]])
    case Remove(_) =>
      var (f, notify) := RemoveSection(s.f);
      s.(f := f, pc := (if notify then WakeAll(s.pc) else s.pc)[t := Removed])
  }

  // ---- the invariant ----------------------------------------------------------------------------

  predicate Waiting(pc: Pc) { pc.Sleeping? || pc.Woken? }

  /** The thread is parked in the current phase. */
  predicate Parked(pc: Pc, phase: int) {
    Waiting(pc) && pc.cp == phase
  }

  /** The thread is still inside a call whose phase is over. */
  predicate Passed(pc: Pc, phase: int) {
    pc == Notifying || (Waiting(pc) && pc.cp < phase)
  }

  ghost function ParkedSet(s: State): set<int> {
    set t | 0 <= t < |s.pc| && Parked(s.pc[t], s.f.phase)
  }

  ghost function RunningSet(s: State): set<int> {
    set t | 0 <= t < |s.pc| && s.pc[t] != Removed
  }

  ghost predicate Counts(s: State) {
    s.f.running == |RunningSet(s)| && s.f.entered == |ParkedSet(s)| && s.f.phase == |s.winners|
  }

  /**
    * The k-th call of a running thread belongs to phase k. It has returned, or is about to return,
    * true exactly if the thread completed that phase.
    */
  ghost predicate InStep(t: int, pc: Pc, ret: seq<bool>, winners: seq<int>) {
    var phase := |winners|;
    && |ret| <= phase
    && (pc != Removed ==> |ret| == phase - (if Passed(pc, phase) then 1 else 0))
    && (Waiting(pc) ==> pc.cp == |ret|)
    && (forall p :: 0 <= p < |ret| ==> (ret[p] <==> winners[p] == t))
    && (Passed(pc, phase) && |ret| < phase ==> (pc == Notifying <==> winners[|ret|] == t))
  }

  ghost predicate AllInStep(s: State)
    requires Shaped(s)
  {
    forall t :: 0 <= t < |s.pc| ==> InStep(t, s.pc[t], s.returned[t], s.winners)
  }

  /** The thread that completed phase p has returned from it or is about to notify. */
  ghost predicate WinnerKnows(s: State, p: int)
    requires Shaped(s) && 0 <= p < |s.winners|
  {
    var w := s.winners[p];
    0 <= w < |s.pc| && (s.pc[w] == Notifying || |s.returned[w]| > p)
  }

  ghost predicate WinnersKnow(s: State)
    requires Shaped(s)
  {
    forall p :: 0 <= p < |s.winners| ==> WinnerKnows(s, p)
  }

  /** While a sleeper could proceed, somebody is about to notify. */
  ghost predicate NoLostWakeup(s: State) {
    forall t :: 0 <= t < |s.pc| && s.pc[t].Sleeping? && MayProceed(s.f, s.pc[t].cp) ==> SomeNotifier(s.pc)
  }

  ghost predicate SomeNotifier(pc: seq<Pc>) {
    exists u :: 0 <= u < |pc| && pc[u] == Notifying
  }

  ghost predicate Inv(s: State) {
    Shaped(s) && Counts(s) && AllInStep(s) && WinnersKnow(s) && NoLostWakeup(s)
  }

  lemma InitialInv(n: nat)
    ensures Inv(Initial(n))
  {
    var s := Initial(n);
    assert RunningSet(s) == Range(n);
    assert ParkedSet(s) == {};
  }

  // ---- every step keeps it ----------------------------------------------------------------------

  /** The CHECK_LT in createBarrier never fails: a thread outside is counted as running, not as entered. */
  lemma EnterCheckHolds(s: State, t: int)
    requires Inv(s) && 0 <= t < |s.pc| && s.pc[t] == Outside
    ensures s.f.entered < s.f.running
    ensures s.f.entered + 1 == s.f.running ==>
              forall u :: 0 <= u < |s.pc| && s.pc[u] != Removed && u != t ==> Parked(s.pc[u], s.f.phase)
  {
    assert t in RunningSet(s) && t !in ParkedSet(s);
    SubsetCardinality(ParkedSet(s), RunningSet(s) - {t});
    assert forall u :: 0 <= u < |s.pc| && s.pc[u] != Removed && u != t ==> u in RunningSet(s) - {t};
  }

  lemma AllParked(s: State)
    requires Inv(s) && s.f.entered == s.f.running
    ensures forall u :: 0 <= u < |s.pc| && s.pc[u] != Removed ==> Parked(s.pc[u], s.f.phase)
  {
    SubsetCardinality(ParkedSet(s), RunningSet(s));
    assert forall u :: 0 <= u < |s.pc| && s.pc[u] != Removed ==> u in RunningSet(s);
  }

  ghost function Completed(s: State, t: int): State
    requires 0 <= t < |s.pc|
  {
    s.(f := Fields(s.f.running, s.f.phase + 1, 0), pc := s.pc[t := Notifying], winners := s.winners + [t])
  }

  /** The last thread completes the phase: all others are parked in it. */
  ghost predicate CanComplete(s: State, t: int)
    requires Shaped(s)
  {
    && 0 <= t < |s.pc| && s.pc[t] != Removed && !Passed(s.pc[t], s.f.phase)
    && forall u :: 0 <= u < |s.pc| && s.pc[u] != Removed && u != t ==> Parked(s.pc[u], s.f.phase)
  }

  lemma CompletedCounts(s: State, t: int)
    requires Inv(s) && CanComplete(s, t)
    ensures Counts(Completed(s, t)) && NoLostWakeup(Completed(s, t))
  {
    var n := Completed(s, t);
    assert RunningSet(n) == RunningSet(s);
    assert ParkedSet(n) == {};
    assert n.pc[t] == Notifying;
  }

  lemma CompletedInStep(s: State, t: int)
    requires Inv(s) && CanComplete(s, t)
    ensures AllInStep(Completed(s, t)) && WinnersKnow(Completed(s, t))
  {
    var n := Completed(s, t);
    forall u | 0 <= u < |n.pc| ensures InStep(u, n.pc[u], n.returned[u], n.winners) {
      assert InStep(u, s.pc[u], s.returned[u], s.winners);
    }
    forall p | 0 <= p < |n.winners| ensures WinnerKnows(n, p) {
      if p < |s.winners| {
        assert WinnerKnows(s, p);
        assert InStep(s.winners[p], s.pc[s.winners[p]], s.returned[s.winners[p]], s.winners);
      }
    }
  }

  lemma CompletedKeepsInv(s: State, t: int)
    requires Inv(s) && CanComplete(s, t)
    ensures Inv(Completed(s, t))
  {
    CompletedCounts(s, t);
    CompletedInStep(s, t);
  }

  /** A step that moves one thread within its call, or into one, and completes no phase. */
  lemma MovedKeepsHistory(s: State, n: State)
    requires Inv(s) && |n.pc| == |s.pc| && n.returned == s.returned && n.winners == s.winners
    requires forall u :: 0 <= u < |s.pc| && n.pc[u] != s.pc[u] ==>
               && n.pc[u] != Notifying && s.pc[u] != Notifying
               && (n.pc[u] != Removed ==> s.pc[u] != Removed)
               && (Passed(n.pc[u], s.f.phase) <==> Passed(s.pc[u], s.f.phase))
               && (Waiting(n.pc[u]) ==> n.pc[u].cp == |s.returned[u]|)
    ensures Shaped(n) && AllInStep(n) && WinnersKnow(n)
  {
    forall u | 0 <= u < |n.pc| ensures InStep(u, n.pc[u], n.returned[u], n.winners) {
      assert InStep(u, s.pc[u], s.returned[u], s.winners);
    }
    forall p | 0 <= p < |n.winners| ensures WinnerKnows(n, p) {
      assert WinnerKnows(s, p);
    }
  }

  /** A step that ends the call of thread t with result `b`. */
  lemma ReturnedKeepsHistory(s: State, n: State, t: int, b: bool)
    requires Inv(s) && |n.pc| == |s.pc| && n.winners == s.winners
    requires 0 <= t < |s.pc| && Passed(s.pc[t], s.f.phase) && (b <==> s.pc[t] == Notifying)
    requires n.pc[t] == Outside && n.returned == s.returned[t := s.returned[t] + [b]]
    requires forall u :: 0 <= u < |s.pc| && u != t && n.pc[u] != s.pc[u] ==>
               s.pc[u].Sleeping? && n.pc[u] == Woken(s.pc[u].cp)
    ensures Shaped(n) && AllInStep(n) && WinnersKnow(n)
  {
    forall u | 0 <= u < |n.pc| ensures InStep(u, n.pc[u], n.returned[u], n.winners) {
      assert InStep(u, s.pc[u], s.returned[u], s.winners);
    }
    forall p | 0 <= p < |n.winners| ensures WinnerKnows(n, p) {
      assert WinnerKnows(s, p);
      assert InStep(t, s.pc[t], s.returned[t], s.winners);
    }
  }

  lemma SameCounts(s: State, n: State)
    requires Shaped(s) && Counts(s) && |n.pc| == |s.pc| && n.f == s.f && n.winners == s.winners
    requires forall u :: 0 <= u < |s.pc| ==>
               && (n.pc[u] == Removed <==> s.pc[u] == Removed)
               && (Parked(n.pc[u], s.f.phase) <==> Parked(s.pc[u], s.f.phase))
    ensures Counts(n)
  {
    assert RunningSet(n) == RunningSet(s) && ParkedSet(n) == ParkedSet(s);
  }

  lemma EnterKeepsInv(s: State, t: int)
    requires Inv(s) && Enabled(s, Enter(t))
    ensures Inv(Apply(s, Enter(t)))
  {
    EnterCheckHolds(s, t);
    var n := Apply(s, Enter(t));
    if s.f.entered + 1 < s.f.running {
      assert InStep(t, s.pc[t], s.returned[t], s.winners);
      MovedKeepsHistory(s, n);
      assert RunningSet(n) == RunningSet(s);
      assert ParkedSet(n) == ParkedSet(s) + {t};
      NotifiersStay(s, n);
    } else {
      CompletedKeepsInv(s, t);
      assert n == Completed(s, t);
    }
  }

  lemma NotifiersStay(s: State, n: State)
    requires |n.pc| == |s.pc| && forall u :: 0 <= u < |s.pc| && s.pc[u] == Notifying ==> n.pc[u] == Notifying
    ensures SomeNotifier(s.pc) ==> SomeNotifier(n.pc)
  {
    if SomeNotifier(s.pc) {
      var u :| 0 <= u < |s.pc| && s.pc[u] == Notifying;
      assert n.pc[u] == Notifying;
    }
  }

  lemma RecheckKeepsInv(s: State, t: int)
    requires Inv(s) && Enabled(s, Recheck(t))
    ensures Inv(Apply(s, Recheck(t)))
  {
    var cp := s.pc[t].cp;
    var n := Apply(s, Recheck(t));
    assert InStep(t, s.pc[t], s.returned[t], s.winners);
    if !MayProceed(s.f, cp) {
      MovedKeepsHistory(s, n);
      SameCounts(s, n);
      NotifiersStay(s, n);
    } else if s.f.phase > cp {
      ReturnedKeepsHistory(s, n, t, false);
      SameCounts(s, n);
      NotifiersStay(s, n);
    } else {
      AllParked(s);
      CompletedKeepsInv(s, t);
      assert n == Completed(s, t);
    }
  }

  lemma SpuriousKeepsInv(s: State, t: int)
    requires Inv(s) && Enabled(s, Spurious(t))
    ensures Inv(Apply(s, Spurious(t)))
  {
    var n := Apply(s, Spurious(t));
    assert InStep(t, s.pc[t], s.returned[t], s.winners);
    MovedKeepsHistory(s, n);
    SameCounts(s, n);
    NotifiersStay(s, n);
  }

  lemma NotifyKeepsInv(s: State, t: int)
    requires Inv(s) && Enabled(s, Notify(t))
    ensures Inv(Apply(s, Notify(t)))
  {
    var n := Apply(s, Notify(t));
    ReturnedKeepsHistory(s, n, t, true);
    SameCounts(s, n);
  }

  lemma RemoveKeepsInv(s: State, t: int)
    requires Inv(s) && Enabled(s, Remove(t))
    ensures Inv(Apply(s, Remove(t)))
  {
    EnterCheckHolds(s, t);
    var n := Apply(s, Remove(t));
    forall u | 0 <= u < |s.pc| ensures Waiting(s.pc[u]) ==> s.pc[u].cp == |s.returned[u]| {
      assert InStep(u, s.pc[u], s.returned[u], s.winners);
    }
    MovedKeepsHistory(s, n);
    assert t in RunningSet(s);
    assert RunningSet(n) == RunningSet(s) - {t} && ParkedSet(n) == ParkedSet(s);
    NotifiersStay(s, n);
    RemoveKeepsWakeups(s, n, t);
  }

  lemma RemoveKeepsWakeups(s: State, n: State, t: int)
    requires Inv(s) && Enabled(s, Remove(t)) && n == Apply(s, Remove(t)) && s.f.entered < s.f.running
    requires SomeNotifier(s.pc) ==> SomeNotifier(n.pc)
    ensures NoLostWakeup(n)
  {
    if s.f.entered == 0 {
      forall u | 0 <= u < |n.pc| && n.pc[u].Sleeping? && MayProceed(n.f, n.pc[u].cp) ensures SomeNotifier(n.pc) {
        assert u in RunningSet(s) && t in RunningSet(s) && u != t && {u, t} <= RunningSet(s);
        SubsetCardinality({u, t}, RunningSet(s));
        assert MayProceed(s.f, s.pc[u].cp);
      }
    }
  }

  lemma StepKeepsInv(s: State, step: Step)
    requires Inv(s) && Enabled(s, step)
    ensures Inv(Apply(s, step))
  {
    match step
    case Enter(t) => EnterKeepsInv(s, t);
    case Recheck(t) => RecheckKeepsInv(s, t);
    case Spurious(t) => SpuriousKeepsInv(s, t);
    case Notify(t) => NotifyKeepsInv(s, t);
    case Remove(t) => RemoveKeepsInv(s, t);
  }

  // ---- whole runs -------------------------------------------------------------------------------

  /** `states` is an execution from `states[0]` by `steps`, in any interleaving of the threads. */
  ghost predicate Execution(states: seq<State>, steps: seq<Step>) {
    && |states| == |steps| + 1
    && forall i :: 0 <= i < |steps| ==>
         Shaped(states[i]) && Enabled(states[i], steps[i]) && states[i + 1] == Apply(states[i], steps[i])
  }

  lemma {:induction false} InvAlongExecution(states: seq<State>, steps: seq<Step>, i: nat)
    requires Execution(states, steps) && Inv(states[0]) && i < |states|
    ensures Inv(states[i])
  {
    if i > 0 {
      InvAlongExecution(states, steps, i - 1);
      StepKeepsInv(states[i - 1], steps[i - 1]);
    }
  }

  /** How many calls of `wait` the thread has made. */
  function Arrivals(s: State, t: int): int
    requires 0 <= t < |s.pc| == |s.returned|
  {
    |s.returned[t]| + if s.pc[t] == Notifying || Waiting(s.pc[t]) then 1 else 0
  }

  /** `entered_` counts the threads parked in the current phase and never exceeds `running_threads_`. */
  lemma EnteredIsBounded(n: nat, states: seq<State>, steps: seq<Step>, i: nat)
    requires Execution(states, steps) && states[0] == Initial(n) && i < |states|
    ensures var s := states[i];
            s.f.entered == |ParkedSet(s)| && s.f.running == |RunningSet(s)| && s.f.entered <= s.f.running
  {
    InitialInv(n);
    InvAlongExecution(states, steps, i);
    SubsetCardinality(ParkedSet(states[i]), RunningSet(states[i]));
  }

  /** No call of phase p has returned before every thread still running has entered phase p. */
  lemma NobodyLeavesEarly(n: nat, states: seq<State>, steps: seq<Step>, i: nat, u: int, p: nat, t: int)
    requires Execution(states, steps) && states[0] == Initial(n) && i < |states|
    requires Shaped(states[i]) && 0 <= u < |states[i].pc| && |states[i].returned[u]| > p
    requires 0 <= t < |states[i].pc| && states[i].pc[t] != Removed
    ensures Arrivals(states[i], t) > p
  {
    InitialInv(n);
    InvAlongExecution(states, steps, i);
    var s := states[i];
    assert InStep(u, s.pc[u], s.returned[u], s.winners) && InStep(t, s.pc[t], s.returned[t], s.winners);
  }

  /** Of the calls of a completed phase exactly one returns true. */
  lemma ExactlyOneReturnsTrue(n: nat, states: seq<State>, steps: seq<Step>, i: nat, p: nat) returns (w: int)
    requires Execution(states, steps) && states[0] == Initial(n) && i < |states|
    requires p < states[i].f.phase
    ensures var s := states[i];
            && Shaped(s) && 0 <= w < |s.pc|
            && (forall t :: 0 <= t < |s.pc| && |s.returned[t]| > p ==> (s.returned[t][p] <==> t == w))
            && (|s.returned[w]| > p || s.pc[w] == Notifying)
  {
    InitialInv(n);
    InvAlongExecution(states, steps, i);
    var s := states[i];
    w := s.winners[p];
    assert WinnerKnows(s, p);
    forall t | 0 <= t < |s.pc| && |s.returned[t]| > p ensures s.returned[t][p] <==> t == w {
      assert InStep(t, s.pc[t], s.returned[t], s.winners);
    }
  }

  // ---- progress ---------------------------------------------------------------------------------

  ghost function InsideSet(pc: seq<Pc>): set<int> {
    set t | 0 <= t < |pc| && (Waiting(pc[t]) || pc[t] == Notifying)
  }

  ghost function WokenSet(pc: seq<Pc>): set<int> {
    set t | 0 <= t < |pc| && pc[t].Woken?
  }

  /** Bounds the steps that the threads inside can still take on their own. */
  ghost function Fuel(pc: seq<Pc>): nat {
    (|pc| + 1) * |InsideSet(pc)| + |WokenSet(pc)|
  }

  /** No wakeup is lost: when every running thread is inside, not all of them are asleep. */
  lemma NoDeadlock(n: nat, states: seq<State>, steps: seq<Step>, i: nat) returns (t: int)
    requires Execution(states, steps) && states[0] == Initial(n) && i < |states|
    requires RunningSet(states[i]) != {}
    requires forall u :: 0 <= u < |states[i].pc| ==> states[i].pc[u] != Outside
    ensures 0 <= t < |states[i].pc| && (states[i].pc[t].Woken? || states[i].pc[t] == Notifying)
  {
    InitialInv(n);
    InvAlongExecution(states, steps, i);
    var s := states[i];
    if u: int :| 0 <= u < |s.pc| && s.pc[u].Woken? {
      t := u;
    } else {
      SleepersHaveNotifier(s);
      t :| 0 <= t < |s.pc| && s.pc[t] == Notifying;
    }
  }

  lemma SleepersHaveNotifier(s: State)
    requires Inv(s) && RunningSet(s) != {}
    requires forall u :: 0 <= u < |s.pc| ==> s.pc[u] != Outside && !s.pc[u].Woken?
    ensures SomeNotifier(s.pc)
  {
    if s.f.entered == s.f.running {
      var u :| u in RunningSet(s);
      assert s.pc[u].Sleeping? ==> MayProceed(s.f, s.pc[u].cp);
    } else {
      SubsetCardinality(ParkedSet(s), RunningSet(s));
      var u := ElementOutside(RunningSet(s), ParkedSet(s));
      assert InStep(u, s.pc[u], s.returned[u], s.winners);
      assert s.pc[u].Sleeping? ==> MayProceed(s.f, s.pc[u].cp);
    }
  }

  lemma RecheckBurnsFuel(s: State, t: int)
    requires Shaped(s) && Enabled(s, Recheck(t))
    ensures Fuel(Apply(s, Recheck(t)).pc) < Fuel(s.pc)
  {
    var pc := Apply(s, Recheck(t)).pc;
    assert WokenSet(pc) == WokenSet(s.pc) - {t};
    assert InsideSet(pc) == if pc[t] == Outside then InsideSet(s.pc) - {t} else InsideSet(s.pc);
    assert |InsideSet(pc)| <= |InsideSet(s.pc)|;
    MulLe(|pc| + 1, |InsideSet(pc)|, |InsideSet(s.pc)|);
  }

  lemma NotifyBurnsFuel(s: State, t: int)
    requires Shaped(s) && Enabled(s, Notify(t))
    ensures Fuel(Apply(s, Notify(t)).pc) < Fuel(s.pc)
  {
    var pc := Apply(s, Notify(t)).pc;
    assert InsideSet(pc) == InsideSet(s.pc) - {t};
    SubsetCardinality(WokenSet(pc), Range(|pc|));
    assert (|pc| + 1) * (|InsideSet(s.pc)| - 1) == (|pc| + 1) * |InsideSet(s.pc)| - (|pc| + 1);
  }

  lemma MulLe(k: nat, a: nat, b: nat)
    requires a <= b
    ensures k * a <= k * b
  {
  }

  /** Left alone, the threads inside take finitely many steps; NoDeadlock says one can be taken until one leaves. */
  lemma {:induction false} InsideStepsAreBounded(states: seq<State>, steps: seq<Step>)
    requires Execution(states, steps) && Shaped(states[0])
    requires forall i :: 0 <= i < |steps| ==> steps[i].Recheck? || steps[i].Notify?
    ensures |steps| <= Fuel(states[0].pc)
    decreases |steps|
  {
    if steps != [] {
      assert Shaped(states[0]) && Enabled(states[0], steps[0]) && states[1] == Apply(states[0], steps[0]);
      match steps[0] {
        case Recheck(t) => RecheckBurnsFuel(states[0], t);
        case Notify(t) => NotifyBurnsFuel(states[0], t);
        case _ =>
      }
      assert Execution(states[1..], steps[1..]) by {
        forall i | 0 <= i < |steps[1..]|
          ensures Shaped(states[1..][i]) && Enabled(states[1..][i], steps[1..][i])
          ensures states[1..][i + 1] == Apply(states[1..][i], steps[1..][i])
        {
          assert states[1..][i] == states[i + 1] && states[1..][i + 1] == states[i + 2] && steps[1..][i] == steps[i + 1];
        }
      }
      InsideStepsAreBounded(states[1..], steps[1..]);
    }
  }
}
