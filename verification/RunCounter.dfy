// The iteration accounting of a benchmark's State, in error-free runs.

module RunCounter {

  /** The counting fields of State. */
  datatype Counter = Counter(total: nat, leftover: nat, started: bool, finished: bool)

  /** One call of KeepRunning (a single iteration) or of KeepRunningBatch. */
  datatype Call = Call(n: nat, isBatch: bool)

  /** The assertions at the head of KeepRunningInternal. */
  predicate Admissible(c: Call) {
    c.n > 0 && (c.isBatch || c.n == 1)
  }

  const INITIAL: Counter := Counter(0, 0, false, false)

  function Started(maxIterations: nat, c: Counter): Counter {
    c.(started := true, total := maxIterations)
  }

  function Finished(c: Counter): Counter {
    c.(total := 0, finished := true)
  }

  function Iterations(maxIterations: nat, c: Counter): int {
    if !c.started then 0 else maxIterations - c.total + c.leftover
  }

  /** KeepRunningInternal: the new fields and the answer. */
  function KeepRunningStep(maxIterations: nat, c: Counter, call: Call): (Counter, bool) {
    if c.total >= call.n then (c.(total := c.total - call.n), true)
    else
      var s := if c.started then c else Started(maxIterations, c);
      if !c.started && s.total >= call.n then (s.(total := s.total - call.n), true)
      else if call.isBatch && s.total != 0 then (s.(leftover := call.n - s.total, total := 0), true)
      else (Finished(s), false)
  }

  class State {
    var totalIterations: nat
    var batchLeftover: nat
    const maxIterations: nat
    var started: bool
    var finished: bool

    function View(): Counter
      reads this
    {
      Counter(totalIterations, batchLeftover, started, finished)
    }

    constructor (maxIters: nat)
      requires maxIters != 0
      ensures View() == INITIAL && maxIterations == maxIters
    {
      totalIterations, batchLeftover, maxIterations := 0, 0, maxIters;
      started, finished := false, false;
    }

    method StartKeepRunning()
      requires !started && !finished
      modifies this
      ensures View() == Started(maxIterations, old(View()))
    {
      started := true;
      totalIterations := maxIterations;
    }

    method FinishKeepRunning()
      requires started && !finished
      modifies this
      ensures View() == Finished(old(View()))
    {
      totalIterations := 0;
      finished := true;
    }

    method KeepRunningInternal(n: nat, isBatch: bool) returns (more: bool)
      requires Admissible(Call(n, isBatch)) && !finished
      requires !started ==> totalIterations == 0
      modifies this
      ensures (View(), more) == KeepRunningStep(maxIterations, old(View()), Call(n, isBatch))
    {
      if totalIterations >= n {
        totalIterations := totalIterations - n;
        return true;
      }
      if !started {
        StartKeepRunning();
        if totalIterations >= n {
          totalIterations := totalIterations - n;
          return true;
        }
      }
      if isBatch && totalIterations != 0 {
        batchLeftover := n - totalIterations;
        totalIterations := 0;
        return true;
      }
      FinishKeepRunning();
      return false;
    }

    method KeepRunning() returns (more: bool)
      requires !finished && (!started ==> totalIterations == 0)
      modifies this
      ensures (View(), more) == KeepRunningStep(maxIterations, old(View()), Call(1, false))
    {
      more := KeepRunningInternal(1, false);
    }

    method KeepRunningBatch(n: nat) returns (more: bool)
      requires n > 0 && !finished && (!started ==> totalIterations == 0)
      modifies this
      ensures (View(), more) == KeepRunningStep(maxIterations, old(View()), Call(n, true))
    {
      more := KeepRunningInternal(n, true);
    }

    /**
      * `for (auto _ : state)`: the iterator counts down on its own, so the fields do not move and
      * iterations() stays 0 until the loop is over.
      */
    method RangedFor() returns (rounds: nat)
      requires View() == INITIAL
      modifies this
      ensures rounds == maxIterations
      ensures finished && Iterations(maxIterations, View()) == maxIterations
    {
      var cached := maxIterations;
      StartKeepRunning();
      rounds := 0;
      while cached != 0
        invariant rounds + cached == maxIterations
        invariant started && !finished && Iterations(maxIterations, View()) == 0
      {
        rounds := rounds + 1;
        cached := cached - 1;
      }
      FinishKeepRunning();
    }
  }

  // ---- whole runs -------------------------------------------------------------------------------

  function Sum(calls: seq<Call>): nat {
    if calls == [] then 0 else Sum(calls[..|calls| - 1]) + calls[|calls| - 1].n
  }

  predicate AllAdmissible(calls: seq<Call>) {
    forall i :: 0 <= i < |calls| ==> Admissible(calls[i])
  }

  /** The fields after a run of calls. */
  function After(maxIterations: nat, calls: seq<Call>): Counter {
    if calls == [] then INITIAL
    else KeepRunningStep(maxIterations, After(maxIterations, calls[..|calls| - 1]), calls[|calls| - 1]).0
  }

  /** Does the call after the run `calls` return true? */
  predicate Granted(maxIterations: nat, calls: seq<Call>, call: Call) {
    KeepRunningStep(maxIterations, After(maxIterations, calls), call).1
  }

  predicate AllGranted(maxIterations: nat, calls: seq<Call>) {
    forall k :: 0 <= k < |calls| ==> Granted(maxIterations, calls[..k], calls[k])
  }

  lemma AllGrantedPrefix(maxIterations: nat, calls: seq<Call>)
    requires calls != [] && AllGranted(maxIterations, calls) && AllAdmissible(calls)
    ensures var front := calls[..|calls| - 1];
            AllGranted(maxIterations, front) && AllAdmissible(front)
            && Granted(maxIterations, front, calls[|calls| - 1])
  {
    var front := calls[..|calls| - 1];
    forall k | 0 <= k < |front| ensures Granted(maxIterations, front[..k], front[k]) {
      assert front[..k] == calls[..k];
      assert Granted(maxIterations, calls[..k], calls[k]);
    }
    assert Granted(maxIterations, calls[..|calls| - 1], calls[|calls| - 1]);
  }

  /** Where the fields stand after a run of calls that all returned true. */
  lemma {:induction false} FieldsAfter(maxIterations: nat, calls: seq<Call>)
    requires maxIterations > 0 && AllAdmissible(calls) && AllGranted(maxIterations, calls)
    ensures var c, s := After(maxIterations, calls), Sum(calls);
            && c.started == (calls != []) && !c.finished
            && (calls != [] ==> c.total == if s <= maxIterations then maxIterations - s else 0)
            && (calls == [] ==> c.total == 0 && s == 0)
            && c.leftover == if s <= maxIterations then 0 else s - maxIterations
  {
    if calls != [] {
      AllGrantedPrefix(maxIterations, calls);
      FieldsAfter(maxIterations, calls[..|calls| - 1]);
    }
  }

  /** iterations() is the sum of the batch sizes granted so far. */
  lemma IterationsIsSum(maxIterations: nat, calls: seq<Call>)
    requires maxIterations > 0 && AllAdmissible(calls) && AllGranted(maxIterations, calls)
    ensures Iterations(maxIterations, After(maxIterations, calls)) == Sum(calls)
  {
    FieldsAfter(maxIterations, calls);
  }

  /** A call is granted exactly while fewer than max_iterations have been granted. */
  lemma GrantedWhileBelowMax(maxIterations: nat, calls: seq<Call>, call: Call)
    requires maxIterations > 0 && AllAdmissible(calls) && AllGranted(maxIterations, calls) && Admissible(call)
    ensures Granted(maxIterations, calls, call) <==> Sum(calls) < maxIterations
  {
    FieldsAfter(maxIterations, calls);
  }

  /** A finished run has granted at least max_iterations, and less than one batch too many. */
  lemma OvershootBelowLastBatch(maxIterations: nat, calls: seq<Call>, call: Call)
    requires maxIterations > 0 && AllAdmissible(calls) && AllGranted(maxIterations, calls) && Admissible(call)
    requires !Granted(maxIterations, calls, call)
    ensures calls != []
    ensures maxIterations <= Sum(calls) < maxIterations + calls[|calls| - 1].n
    ensures var c := After(maxIterations, calls + [call]);
            c.finished && Iterations(maxIterations, c) == Sum(calls)
  {
    GrantedWhileBelowMax(maxIterations, calls, call);
    assert calls != [];
    var front := calls[..|calls| - 1];
    AllGrantedPrefix(maxIterations, calls);
    GrantedWhileBelowMax(maxIterations, front, calls[|calls| - 1]);
    FieldsAfter(maxIterations, calls);
    assert (calls + [call])[..|calls|] == calls;
  }

  lemma {:induction false} SumOfSingles(calls: seq<Call>)
    requires forall i :: 0 <= i < |calls| ==> calls[i].n == 1
    ensures Sum(calls) == |calls|
  {
    if calls != [] {
      SumOfSingles(calls[..|calls| - 1]);
    }
  }

  /** Plain KeepRunning returns true exactly max_iterations times. */
  lemma {:induction false} PlainRunLength(maxIterations: nat, calls: seq<Call>)
    requires maxIterations > 0 && forall i :: 0 <= i < |calls| ==> calls[i] == Call(1, false)
    ensures AllGranted(maxIterations, calls) <==> |calls| <= maxIterations
    decreases |calls|
  {
    if calls != [] {
      var front := calls[..|calls| - 1];
      PlainRunLength(maxIterations, front);
      SumOfSingles(front);
      assert forall k :: 0 <= k < |front| ==> calls[..k] == front[..k];
      if AllGranted(maxIterations, calls) {
        AllGrantedPrefix(maxIterations, calls);
        GrantedWhileBelowMax(maxIterations, front, calls[|calls| - 1]);
      }
      if |calls| <= maxIterations {
        GrantedWhileBelowMax(maxIterations, front, calls[|calls| - 1]);
        forall k | 0 <= k < |calls| ensures Granted(maxIterations, calls[..k], calls[k]) {
          if k < |front| {
            assert Granted(maxIterations, front[..k], front[k]);
          }
        }
      }
    }
  }
}
