// How the main thread waits for the workers: an atomic counter decremented outside the mutex, and a
// condition variable notified under it.

module ThreadManagerProtocol {
  import opened FiniteSets

  datatype Holder = Free | ByMain | ByWorker(t: int)

  /**
    * A worker is benchmarking; has left the start-stop barrier (removeThread); has decremented
    * `alive_threads_` to zero and needs `end_cond_mutex_`; holds it; has notified; is finished.
    */
  datatype WorkerPc = Benchmarking | LeftBarrier | NeedsLock | Holding | Notified | Finished

  /**
    * The main thread wants the mutex; holds it and evaluates the predicate; found it false and is
    * about to sleep, still holding the mutex; is asleep; has returned from WaitForAllThreads.
    */
  datatype MainPc = WantsLock | Checking | AboutToSleep | Asleep | Returned

  datatype State = State(alive: int, lock: Holder, workers: seq<WorkerPc>, main: MainPc)

  datatype Step =
    | LeaveBarrier(t: int) | Decrement(t: int) | Lock(t: int) | NotifyAll(t: int) | Unlock(t: int)
    | MainLock | MainCheck | MainSleep | MainSpurious

  function Initial(n: nat): State {
    State(n, Free, seq(n, _ => Benchmarking), WantsLock)
  }

  predicate At(s: State, t: int, pc: WorkerPc) {
    0 <= t < |s.workers| && s.workers[t] == pc
  }

  ghost predicate Enabled(s: State, step: Step) {
    match step
    case LeaveBarrier(t) => At(s, t, Benchmarking)
    case Decrement(t) => At(s, t, LeftBarrier)
    case Lock(t) => At(s, t, NeedsLock) && s.lock == Free
    case NotifyAll(t) => At(s, t, Holding)
    case Unlock(t) => At(s, t, Notified)
    case MainLock => s.main == WantsLock && s.lock == Free
    case MainCheck => s.main == Checking
    case MainSleep => s.main == AboutToSleep
    case MainSpurious => s.main == Asleep
  }

  function Move(s: State, t: int, pc: WorkerPc): State
    requires 0 <= t < |s.workers|
  {
    s.(workers := s.workers[t := pc])
  }

  function Apply(s: State, step: Step): State
    requires Enabled(s, step)
  {
    match step
    case LeaveBarrier(t) => Move(s, t, LeftBarrier)
    case Decrement(t) =>
      var d := s.(alive := s.alive - 1);
      Move(d, t, if d.alive == 0 then NeedsLock else Finished)
    case Lock(t) => Move(s, t, Holding).(lock := ByWorker(t))
    case NotifyAll(t) => Move(s, t, Notified).(main := if s.main == Asleep then WantsLock else s.main)
    case Unlock(t) => Move(s, t, Finished).(lock := Free)
    case MainLock => s.(main := Checking, lock := ByMain)
    case MainCheck => if s.alive == 0 then s.(main := Returned, lock := Free) else s.(main := AboutToSleep)
    case MainSleep => s.(main := Asleep, lock := Free)
    case MainSpurious => s.(main := WantsLock)
  }

  /** The workers that have not decremented the counter yet. */
  ghost function AliveSet(s: State): set<int> {
    set t | 0 <= t < |s.workers| && (s.workers[t] == Benchmarking || s.workers[t] == LeftBarrier)
  }

  ghost predicate MutexHeldOnce(s: State) {
    && (s.lock == ByMain <==> s.main == Checking || s.main == AboutToSleep)
    && (s.lock.ByWorker? ==> At(s, s.lock.t, Holding) || At(s, s.lock.t, Notified))
    && (forall t :: At(s, t, Holding) || At(s, t, Notified) ==> s.lock == ByWorker(t))
  }

  ghost predicate NotifierComing(s: State) {
    exists t :: At(s, t, NeedsLock) || At(s, t, Holding)
  }

  ghost predicate Inv(s: State) {
    && s.alive == |AliveSet(s)|
    && MutexHeldOnce(s)
    && (s.alive == 0 && (s.main == AboutToSleep || s.main == Asleep) ==> NotifierComing(s))
    && (s.main == Returned ==> s.alive == 0)
    && (forall t :: At(s, t, NeedsLock) || At(s, t, Holding) || At(s, t, Notified) ==> s.alive == 0)
  }

  lemma InitialInv(n: nat)
    ensures Inv(Initial(n))
  {
    assert AliveSet(Initial(n)) == Range(n);
  }

  lemma NotifierStays(s: State, n: State)
    requires |n.workers| == |s.workers|
    requires forall t :: At(s, t, NeedsLock) || At(s, t, Holding) ==> At(n, t, NeedsLock) || At(n, t, Holding)
    ensures NotifierComing(s) ==> NotifierComing(n)
  {
    if NotifierComing(s) {
      var t :| At(s, t, NeedsLock) || At(s, t, Holding);
      assert At(n, t, NeedsLock) || At(n, t, Holding);
    }
  }

  lemma WorkerStepKeepsInv(s: State, step: Step)
    requires Inv(s) && Enabled(s, step)
    requires step.LeaveBarrier? || step.Lock? || step.NotifyAll? || step.Unlock?
    ensures Inv(Apply(s, step))
  {
    var n := Apply(s, step);
    assert AliveSet(n) == AliveSet(s);
    if !step.NotifyAll? {
      NotifierStays(s, n);
    }
  }

  lemma DecrementKeepsInv(s: State, t: int)
    requires Inv(s) && Enabled(s, Decrement(t))
    ensures Inv(Apply(s, Decrement(t)))
  {
    var n := Apply(s, Decrement(t));
    assert t in AliveSet(s);
    assert AliveSet(n) == AliveSet(s) - {t};
    assert n.alive == 0 ==> At(n, t, NeedsLock);
    NobodyNotifiesYet(s);
  }

  lemma NobodyNotifiesYet(s: State)
    requires Inv(s) && s.alive > 0
    ensures forall u :: 0 <= u < |s.workers| ==>
              s.workers[u] != NeedsLock && s.workers[u] != Holding && s.workers[u] != Notified
  {
    forall u | 0 <= u < |s.workers|
      ensures s.workers[u] != NeedsLock && s.workers[u] != Holding && s.workers[u] != Notified
    {
      assert !At(s, u, NeedsLock) && !At(s, u, Holding) && !At(s, u, Notified);
    }
  }

  lemma StepKeepsInv(s: State, step: Step)
    requires Inv(s) && Enabled(s, step)
    ensures Inv(Apply(s, step))
  {
    match step
    case Decrement(t) => DecrementKeepsInv(s, t);
    case LeaveBarrier(_) => WorkerStepKeepsInv(s, step);
    case Lock(_) => WorkerStepKeepsInv(s, step);
    case NotifyAll(_) => WorkerStepKeepsInv(s, step);
    case Unlock(_) => WorkerStepKeepsInv(s, step);
    case _ =>
      assert AliveSet(Apply(s, step)) == AliveSet(s);
      NotifierStays(s, Apply(s, step));
  }

  ghost predicate Execution(states: seq<State>, steps: seq<Step>) {
    && |states| == |steps| + 1
    && forall i :: 0 <= i < |steps| ==> Enabled(states[i], steps[i]) && states[i + 1] == Apply(states[i], steps[i])
  }

  lemma {:induction false} InvAlongExecution(states: seq<State>, steps: seq<Step>, i: nat)
    requires Execution(states, steps) && Inv(states[0]) && i < |states|
    ensures Inv(states[i])
  {
    if i > 0 {
      InvAlongExecution(states, steps, i - 1);
      StepKeepsInv(states[i - 1], steps[i - 1]);
    }
  }

  /** WaitForAllThreads returns only after every worker has reported completion. */
  lemma ReturnsOnlyWhenAllDone(n: nat, states: seq<State>, steps: seq<Step>, i: nat, t: int)
    requires Execution(states, steps) && states[0] == Initial(n) && i < |states|
    requires states[i].main == Returned && 0 <= t < |states[i].workers|
    ensures states[i].workers[t] != Benchmarking && states[i].workers[t] != LeftBarrier
  {
    InitialInv(n);
    InvAlongExecution(states, steps, i);
    assert t !in AliveSet(states[i]);
  }

  // ---- the main thread is always woken ----------------------------------------------------------

  /** Only the thread whose decrement reaches zero goes on to notify. */
  lemma NotifiesOnlyAtZero(n: nat, states: seq<State>, steps: seq<Step>, i: nat, t: int)
    requires Execution(states, steps) && states[0] == Initial(n) && i < |states|
    requires At(states[i], t, NeedsLock) || At(states[i], t, Holding) || At(states[i], t, Notified)
    ensures states[i].alive == 0
  {
    InitialInv(n);
    InvAlongExecution(states, steps, i);
  }

  predicate Spontaneous(step: Step) { step.MainSpurious? }

  /** Once the counter is zero, some step other than a spurious wake-up is possible until main returns. */
  lemma NeverStranded(n: nat, states: seq<State>, steps: seq<Step>, i: nat) returns (step: Step)
    requires Execution(states, steps) && states[0] == Initial(n) && i < |states|
    requires states[i].alive == 0 && states[i].main != Returned
    ensures Enabled(states[i], step) && !Spontaneous(step)
  {
    InitialInv(n);
    InvAlongExecution(states, steps, i);
    var s := states[i];
    if s.main == Checking {
      step := MainCheck;
    } else if s.main == AboutToSleep {
      step := MainSleep;
    } else if s.lock.ByWorker? {
      var t := s.lock.t;
      step := if At(s, t, Holding) then NotifyAll(t) else Unlock(t);
    } else if s.main == WantsLock {
      step := MainLock;
    } else {
      var t :| At(s, t, NeedsLock) || At(s, t, Holding);
      step := Lock(t);
    }
  }

  function WorkerStage(pc: WorkerPc): nat {
    match pc case NeedsLock => 3 case Holding => 2 case Notified => 1 case _ => 0
  }

  function MainStage(pc: MainPc): nat {
    match pc case AboutToSleep => 4 case Asleep => 3 case WantsLock => 2 case Checking => 1 case Returned => 0
  }

  ghost function StageSet(workers: seq<WorkerPc>, k: nat): set<int> {
    set t | 0 <= t < |workers| && WorkerStage(workers[t]) >= k
  }

  lemma StageDrops(workers: seq<WorkerPc>, t: int, pc: WorkerPc)
    requires 0 <= t < |workers| && WorkerStage(workers[t]) == WorkerStage(pc) + 1
    ensures var k := WorkerStage(workers[t]);
            && |StageSet(workers[t := pc], k)| == |StageSet(workers, k)| - 1
            && forall j: nat :: j != k ==> |StageSet(workers[t := pc], j)| == |StageSet(workers, j)|
  {
    var k := WorkerStage(workers[t]);
    assert StageSet(workers[t := pc], k) == StageSet(workers, k) - {t};
    forall j: nat | j != k ensures |StageSet(workers[t := pc], j)| == |StageSet(workers, j)| {
      assert StageSet(workers[t := pc], j) == StageSet(workers, j);
    }
  }

  ghost function ToGo(s: State): nat {
    |StageSet(s.workers, 1)| + |StageSet(s.workers, 2)| + |StageSet(s.workers, 3)| + MainStage(s.main)
  }

  /** And every such step brings the end nearer, so that main does return. */
  lemma ZeroMeansProgress(s: State, step: Step)
    requires Inv(s) && s.alive == 0 && Enabled(s, step) && !Spontaneous(step)
    ensures Apply(s, step).alive == 0 && ToGo(Apply(s, step)) < ToGo(s)
  {
    assert AliveSet(s) == {};
    forall t | 0 <= t < |s.workers| ensures !At(s, t, Benchmarking) && !At(s, t, LeftBarrier) {
      assert t !in AliveSet(s);
    }
    if step.Lock? {
      StageDrops(s.workers, step.t, Holding);
    } else if step.NotifyAll? {
      StageDrops(s.workers, step.t, Notified);
    } else if step.Unlock? {
      StageDrops(s.workers, step.t, Finished);
    }
  }
}
