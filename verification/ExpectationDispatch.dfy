// Setting and calling expectations: every interleaving of EXPECT_CALL clauses and mock function calls.

module ExpectationDispatch {
  import opened Wrappers
  import opened PrerequisiteGraph
  import opened ExpectationWorklists
  import opened ExpectationSequences

  datatype Cardinality = Cardinality(min: nat, max: nat) {
    predicate IsSatisfiedByCallCount(calls: nat) { min <= calls <= max }

    predicate IsSaturatedByCallCount(calls: nat) { calls >= max }
  }

  /** Between(min, max), which mends bounds that make no sense. */
  function Between(min: int, max: int): (c: Cardinality)
    ensures min <= c.min <= c.max && max <= c.max
    ensures c.min == min || c.min == 0
    ensures c.max == max || c.max == c.min
    ensures 0 <= min <= max ==> c == Cardinality(min, max)
  {
    var low := if min >= 0 then min else 0;
    Cardinality(low, if max >= low then max else low)
  }

  /** All expectations, in the order in which they were set, and the last one of each sequence. */
  datatype Mock = Mock(
    graph: Graph,
    cards: seq<Cardinality>,
    retiresOnSaturation: seq<bool>,
    calls: seq<nat>,
    retired: seq<bool>,
    lasts: seq<Option<int>>)

  /** An EXPECT_CALL statement starts, or has another clause; or a call is handled by expectation `e`. */
  datatype Step =
    | Expect(card: Cardinality, retires: bool)
    | InSequence(s: nat)
    | After(p: nat)
    | Call(e: nat)

  function Initial(sequences: nat): Mock {
    Mock([], [], [], [], [], seq(sequences, _ => None))
  }

  predicate Shaped(m: Mock) {
    |m.graph| == |m.cards| == |m.retiresOnSaturation| == |m.calls| == |m.retired|
  }

  /** The answers of IsSatisfied. */
  function Satisfied(m: Mock): (satisfied: seq<bool>)
    requires Shaped(m)
    ensures |satisfied| == |m.graph|
  {
    seq(|m.graph|, a requires 0 <= a < |m.graph| => m.cards[a].IsSatisfiedByCallCount(m.calls[a]))
  }

  /** ShouldHandleArguments, for arguments that match. */
  ghost predicate ShouldHandle(m: Mock, e: nat)
    requires Shaped(m) && e < |m.graph|
  {
    !m.retired[e] && forall y :: 0 <= y < |m.graph| && Reaches(m.graph, e, y) ==> Satisfied(m)[y]
  }

  /** Clauses are for the newest expectation, as long as it has not been called. */
  predicate InStatement(m: Mock)
    requires Shaped(m)
  {
    |m.graph| > 0 && m.calls[|m.graph| - 1] == 0
  }

  ghost predicate Enabled(m: Mock, step: Step)
    requires Shaped(m)
  {
    match step
    case Expect(card, _) => card.min <= card.max
    case InSequence(s) => s < |m.lasts| && InStatement(m)
    case After(p) => InStatement(m) && p < |m.graph| - 1
    case Call(e) => e < |m.graph| && ShouldHandle(m, e)
  }

  /** GetActionForArguments. */
  ghost function Called(m: Mock, e: nat): Mock
    requires Shaped(m) && e < |m.graph|
  {
    var counted := m.(calls := m.calls[e := m.calls[e] + 1]);
    if m.cards[e].IsSaturatedByCallCount(m.calls[e]) then counted else counted.(retired := RetiredBy(m, e))
  }

  ghost function RetiredBy(m: Mock, e: nat): (retired: seq<bool>)
    requires Shaped(m) && e < |m.graph|
    ensures |retired| == |m.graph|
  {
    seq(|m.graph|, y requires 0 <= y < |m.graph| =>
      || m.retired[y] || Reaches(m.graph, e, y)
      || (y == e && m.retiresOnSaturation[e] && m.cards[e].IsSaturatedByCallCount(m.calls[e] + 1)))
  }

  ghost function Apply(m: Mock, step: Step): Mock
    requires Shaped(m) && Enabled(m, step)
  {
    var newest := |m.graph| - 1;
    match step
    case Expect(card, retires) =>
      Mock(m.graph + [[]], m.cards + [card], m.retiresOnSaturation + [retires], m.calls + [0], m.retired + [false], m.lasts)
    case InSequence(s) =>
      m.(graph := Joined(m.graph, m.lasts[s], newest), lasts := m.lasts[s := Some(newest)])
    case After(p) => m.(graph := WithEdge(m.graph, newest, p))
    case Call(e) => Called(m, e)
  }

  // ---- the invariant ------------------------------------------------------------------------------

  /** Prerequisites are older. */
  ghost predicate Older(g: Graph) {
    forall a, b :: Edge(g, a, b) ==> 0 <= b < a
  }

  ghost predicate Inv(m: Mock) {
    && Shaped(m) && Older(m.graph)
    && (forall s :: 0 <= s < |m.lasts| && m.lasts[s].Some? ==> 0 <= m.lasts[s].value < |m.graph|)
    && (forall a :: 0 <= a < |m.graph| ==> m.cards[a].min <= m.cards[a].max)
    && (forall a, b :: Edge(m.graph, a, b) && m.retired[a] ==> m.retired[b])
    && (forall a :: 0 <= a < |m.graph| && m.retired[a] ==> m.cards[a].IsSatisfiedByCallCount(m.calls[a]))
    && (forall a :: 0 <= a < |m.graph| && m.retired[a] ==> m.calls[a] > 0 || a < |m.graph| - 1)
    && (forall a, b :: Edge(m.graph, a, b) && 0 < m.calls[a] <= m.cards[a].max ==> m.retired[b])
  }

  lemma OlderIsAcyclic(g: Graph)
    requires Older(g)
    ensures ValidGraph(g) && Acyclic(g)
  {
    var rank: seq<nat> := seq(|g|, a => a);
    forall a, j | 0 <= a < |g| && 0 <= j < |g[a]| ensures 0 <= g[a][j] < a {
      assert Edge(g, a, g[a][j]);
    }
    assert Ranked(g, rank);
  }

  lemma ReachesOlder(g: Graph, a: int, b: int)
    requires Older(g) && Reaches(g, a, b)
    ensures 0 <= b < a < |g|
  {
    OlderIsAcyclic(g);
    var rank: seq<nat> := seq(|g|, x => x);
    var p :| IsPath(g, p, a, b);
    forall x, j | 0 <= x < |g| && 0 <= j < |g[x]| ensures 0 <= g[x][j] < x {
      assert Edge(g, x, g[x][j]);
    }
    RankDescends(g, rank, p, a, b);
  }

  lemma InitialInv(sequences: nat)
    ensures Inv(Initial(sequences))
  {
  }

  lemma ExpectKeepsInv(m: Mock, card: Cardinality, retires: bool)
    requires Inv(m) && card.min <= card.max
    ensures Inv(Apply(m, Expect(card, retires)))
  {
    var n := Apply(m, Expect(card, retires));
    assert forall a, b :: Edge(n.graph, a, b) ==> Edge(m.graph, a, b);
  }

  /** A new prerequisite of an expectation that was never called. */
  lemma EdgeKeepsInv(m: Mock, p: int)
    requires Inv(m) && InStatement(m) && 0 <= p < |m.graph| - 1
    ensures Inv(m.(graph := WithEdge(m.graph, |m.graph| - 1, p)))
  {
  }

  lemma InSequenceKeepsInv(m: Mock, s: nat)
    requires Inv(m) && Enabled(m, InSequence(s))
    ensures Inv(Apply(m, InSequence(s)))
  {
    var newest := |m.graph| - 1;
    if m.lasts[s].Some? && m.lasts[s].value != newest {
      EdgeKeepsInv(m, m.lasts[s].value);
    }
  }

  lemma CallKeepsInv(m: Mock, e: nat)
    requires Inv(m) && Enabled(m, Call(e))
    ensures Inv(Apply(m, Call(e)))
  {
    var n := Apply(m, Call(e));
    if !m.cards[e].IsSaturatedByCallCount(m.calls[e]) {
      forall a, b | Edge(m.graph, a, b) && n.retired[a] ensures n.retired[b] {
        if a == e {
          EdgeReaches(m.graph, e, b);
        } else if Reaches(m.graph, e, a) {
          ReachesThenEdge(m.graph, e, a, b);
        }
      }
      forall a | 0 <= a < |m.graph| && Reaches(m.graph, e, a) ensures a < e && Satisfied(m)[a] {
        ReachesOlder(m.graph, e, a);
      }
      forall b | Edge(m.graph, e, b) ensures n.retired[b] {
        EdgeReaches(m.graph, e, b);
      }
    }
  }

  lemma StepKeepsInv(m: Mock, step: Step)
    requires Inv(m) && Enabled(m, step)
    ensures Inv(Apply(m, step))
  {
    match step
    case Expect(card, retires) => ExpectKeepsInv(m, card, retires);
    case InSequence(s) => InSequenceKeepsInv(m, s);
    case After(p) => EdgeKeepsInv(m, p);
    case Call(e) => CallKeepsInv(m, e);
  }

  // ---- runs ---------------------------------------------------------------------------------------

  ghost predicate Execution(states: seq<Mock>, steps: seq<Step>) {
    && |states| == |steps| + 1
    && forall i :: 0 <= i < |steps| ==>
         Shaped(states[i]) && Enabled(states[i], steps[i]) && states[i + 1] == Apply(states[i], steps[i])
  }

  lemma {:induction false} InvAlongExecution(states: seq<Mock>, steps: seq<Step>, i: nat)
    requires Execution(states, steps) && Inv(states[0]) && i < |states|
    ensures Inv(states[i])
  {
    if i > 0 {
      InvAlongExecution(states, steps, i - 1);
      StepKeepsInv(states[i - 1], steps[i - 1]);
    }
  }

  /** Both walks can always be made: the graph is acyclic, and the retired set closed. */
  lemma WalksAreReady(sequences: nat, states: seq<Mock>, steps: seq<Step>, i: nat)
    requires Execution(states, steps) && states[0] == Initial(sequences) && i < |states|
    ensures var m := states[i];
            Shaped(m) && ValidGraph(m.graph) && Acyclic(m.graph) && RetiredClosed(m.graph, m.retired)
  {
    InvAlongExecution(states, steps, i);
    OlderIsAcyclic(states[i].graph);
  }

  /** Whatever is behind an expectation that has been called within its limits stays satisfied. */
  lemma InvMeansOrder(m: Mock)
    requires Inv(m)
    ensures CalledInOrder(m.graph, Satisfied(m), m.calls)
  {
    OlderIsAcyclic(m.graph);
    forall a, y | 0 <= a < |m.graph| && m.calls[a] > 0 && Satisfied(m)[a] && Reaches(m.graph, a, y)
      ensures 0 <= y < |m.graph| && Satisfied(m)[y]
    {
      forall c, b | (c == a || (0 <= c < |m.graph| && m.retired[c])) && Edge(m.graph, c, b) ensures m.retired[b] {
      }
      RetiredReach(m.graph, m.retired, a, y);
    }
  }

  /**
    * In every run, the list of unsatisfied prerequisites that a failure message gives is empty exactly
    * when all prerequisites are satisfied.
    */
  lemma ListIsEmptyIffAllSatisfied(sequences: nat, states: seq<Mock>, steps: seq<Step>, i: nat, x: nat)
    requires Execution(states, steps) && states[0] == Initial(sequences) && i < |states|
    requires Shaped(states[i]) && x < |states[i].graph|
    ensures var m := states[i];
            (forall y :: !Collected(m.graph, Satisfied(m), m.calls, x, y))
            <==> (forall y :: 0 <= y < |m.graph| && Reaches(m.graph, x, y) ==> Satisfied(m)[y])
  {
    InvAlongExecution(states, steps, i);
    InvMeansOrder(states[i]);
    OlderIsAcyclic(states[i].graph);
    NothingCollectedIffAllSatisfied(states[i].graph, Satisfied(states[i]), states[i].calls, x);
  }

  // ---- what sequences and After() order -----------------------------------------------------------

  /** Nothing is taken back: expectations, prerequisites and cardinalities stay. */
  ghost predicate Grows(m: Mock, n: Mock)
    requires Shaped(m) && Shaped(n)
  {
    && |m.graph| <= |n.graph|
    && (forall a, b :: Edge(m.graph, a, b) ==> Edge(n.graph, a, b))
    && (forall a :: 0 <= a < |m.graph| ==> n.cards[a] == m.cards[a] && n.retiresOnSaturation[a] == m.retiresOnSaturation[a])
  }

  lemma StepGrows(m: Mock, step: Step)
    requires Inv(m) && Enabled(m, step)
    ensures Shaped(Apply(m, step)) && Grows(m, Apply(m, step))
  {
    StepKeepsInv(m, step);
  }

  lemma GrownReaches(m: Mock, n: Mock, a: int, b: int)
    requires Shaped(m) && Shaped(n) && Grows(m, n) && ReachesOrIs(m.graph, a, b)
    ensures ReachesOrIs(n.graph, a, b)
  {
    if a != b {
      var p :| IsPath(m.graph, p, a, b);
      forall i | 0 <= i < |p| - 1 ensures Edge(n.graph, p[i], p[i + 1]) {
        assert Edge(m.graph, p[i], p[i + 1]);
      }
      assert IsPath(n.graph, p, a, b);
    }
  }

  lemma {:induction false} ExecutionGrows(states: seq<Mock>, steps: seq<Step>, i: nat, j: nat)
    requires Execution(states, steps) && Inv(states[0]) && i <= j < |states|
    ensures Shaped(states[i]) && Shaped(states[j]) && Grows(states[i], states[j])
  {
    InvAlongExecution(states, steps, i);
    if i < j {
      ExecutionGrows(states, steps, i, j - 1);
      InvAlongExecution(states, steps, j - 1);
      StepGrows(states[j - 1], steps[j - 1]);
    }
  }

  /** `a` has joined the sequence, and nobody has joined it since but expectations behind `a`. */
  ghost predicate SequenceBehind(m: Mock, s: nat, a: int) {
    s < |m.lasts| && m.lasts[s].Some? && ReachesOrIs(m.graph, m.lasts[s].value, a)
  }

  lemma JoinStaysBehind(m: Mock, step: Step, s: nat, a: int)
    requires Inv(m) && Enabled(m, step) && SequenceBehind(m, s, a)
    ensures SequenceBehind(Apply(m, step), s, a)
  {
    var n := Apply(m, step);
    StepGrows(m, step);
    GrownReaches(m, n, m.lasts[s].value, a);
    if step == InSequence(s) && m.lasts[s].value != |m.graph| - 1 {
      JoinAddsEdge(m, s);
      PrependEdge(n.graph, |m.graph| - 1, m.lasts[s].value, a);
    }
  }

  lemma JoinAddsEdge(m: Mock, s: nat)
    requires Inv(m) && Enabled(m, InSequence(s)) && m.lasts[s].Some? && m.lasts[s].value != |m.graph| - 1
    ensures Edge(Apply(m, InSequence(s)).graph, |m.graph| - 1, m.lasts[s].value)
  {
  }

  lemma {:induction false} SequenceStaysBehind(states: seq<Mock>, steps: seq<Step>, i: nat, j: nat, s: nat)
    requires Execution(states, steps) && Inv(states[0]) && i < j < |states| && steps[i] == InSequence(s)
    ensures Shaped(states[i]) && SequenceBehind(states[j], s, |states[i].graph| - 1)
  {
    InvAlongExecution(states, steps, j - 1);
    if i < j - 1 {
      SequenceStaysBehind(states, steps, i, j - 1, s);
      JoinStaysBehind(states[j - 1], steps[j - 1], s, |states[i].graph| - 1);
    }
  }

  /** In every run, of two expectations that join one sequence the later depends on the earlier, for good. */
  lemma SequenceOrders(sequences: nat, states: seq<Mock>, steps: seq<Step>, i: nat, j: nat, k: nat, s: nat)
    requires Execution(states, steps) && states[0] == Initial(sequences) && i < j < k < |states|
    requires steps[i] == InSequence(s) && steps[j] == InSequence(s)
    requires Shaped(states[i]) && Shaped(states[j]) && |states[i].graph| < |states[j].graph|
    ensures Reaches(states[k].graph, |states[j].graph| - 1, |states[i].graph| - 1)
  {
    var earlier, later := |states[i].graph| - 1, |states[j].graph| - 1;
    InvAlongExecution(states, steps, j);
    SequenceStaysBehind(states, steps, i, j, s);
    var l := states[j].lasts[s].value;
    if l != later {
      JoinAddsEdge(states[j], s);
      StepGrows(states[j], steps[j]);
      GrownReaches(states[j], states[j + 1], l, earlier);
      PrependEdge(states[j + 1].graph, later, l, earlier);
    } else {
      StepGrows(states[j], steps[j]);
      GrownReaches(states[j], states[j + 1], later, earlier);
    }
    ExecutionGrows(states, steps, j + 1, k);
    GrownReaches(states[j + 1], states[k], later, earlier);
  }

  /** In every run, After(p) makes p a prerequisite of the newest expectation, for good. */
  lemma AfterOrders(sequences: nat, states: seq<Mock>, steps: seq<Step>, j: nat, k: nat, p: nat)
    requires Execution(states, steps) && states[0] == Initial(sequences) && j < k < |states|
    requires Shaped(states[j]) && steps[j] == After(p)
    ensures Edge(states[k].graph, |states[j].graph| - 1, p)
  {
    InvAlongExecution(states, steps, j);
    ExecutionGrows(states, steps, j + 1, k);
  }

  /** Nothing is handled while something it depends on has had too few calls, or too many. */
  lemma HandledInOrder(m: Mock, e: nat, y: nat)
    requires Inv(m) && e < |m.graph| && Reaches(m.graph, e, y) && ShouldHandle(m, e)
    ensures y < |m.graph| && m.cards[y].min <= m.calls[y] <= m.cards[y].max
  {
    ReachesOlder(m.graph, e, y);
    assert Satisfied(m)[y];
  }

  /** So in every run, a later expectation of a sequence is called only after the earlier has had its minimum. */
  lemma CallsFollowSequence(sequences: nat, states: seq<Mock>, steps: seq<Step>, i: nat, j: nat, k: nat, s: nat)
    requires Execution(states, steps) && states[0] == Initial(sequences) && i < j < k < |steps|
    requires steps[i] == InSequence(s) && steps[j] == InSequence(s)
    requires Shaped(states[i]) && Shaped(states[j]) && |states[i].graph| < |states[j].graph|
    requires steps[k] == Call(|states[j].graph| - 1)
    ensures var earlier, m := |states[i].graph| - 1, states[k];
            Shaped(m) && 0 <= earlier < |m.graph| && m.cards[earlier].min <= m.calls[earlier] <= m.cards[earlier].max
  {
    SequenceOrders(sequences, states, steps, i, j, k, s);
    InvAlongExecution(states, steps, k);
    HandledInOrder(states[k], |states[j].graph| - 1, |states[i].graph| - 1);
  }

  // ---- how often an expectation is handled ---------------------------------------------------------

  /** The number of calls that expectation `e` has handled. */
  function Handled(steps: seq<Step>, e: nat): nat {
    if steps == [] then 0
    else Handled(steps[..|steps| - 1], e) + if steps[|steps| - 1] == Call(e) then 1 else 0
  }

  lemma {:induction false} CallsAreCounted(states: seq<Mock>, steps: seq<Step>, i: nat, e: nat)
    requires Execution(states, steps) && Inv(states[0]) && |states[0].graph| == 0 && i < |states|
    ensures Shaped(states[i])
    ensures if e < |states[i].graph| then states[i].calls[e] == Handled(steps[..i], e) else Handled(steps[..i], e) == 0
  {
    InvAlongExecution(states, steps, i);
    if i > 0 {
      CallsAreCounted(states, steps, i - 1, e);
      InvAlongExecution(states, steps, i - 1);
      assert steps[..i][..i - 1] == steps[..i - 1] && steps[..i][i - 1] == steps[i - 1];
      StepCounts(states[i - 1], steps[i - 1], e);
    }
  }

  lemma StepCounts(m: Mock, step: Step, e: nat)
    requires Inv(m) && Enabled(m, step)
    ensures var n := Apply(m, step);
            && Shaped(n) && |m.graph| <= |n.graph|
            && (e < |m.graph| ==> n.calls[e] == m.calls[e] + if step == Call(e) then 1 else 0)
            && (|m.graph| <= e ==> step != Call(e) && (e < |n.graph| ==> n.calls[e] == 0))
  {
    StepGrows(m, step);
  }

  /** An expectation that retires on saturation has not been called too often, and is retired when it is saturated. */
  ghost predicate RetiresInTime(m: Mock) {
    && Shaped(m)
    && forall e :: 0 <= e < |m.graph| && m.retiresOnSaturation[e] && m.cards[e].max >= 1 ==>
         m.calls[e] <= m.cards[e].max && (m.calls[e] == m.cards[e].max ==> m.retired[e])
  }

  lemma StepRetiresInTime(m: Mock, step: Step)
    requires Inv(m) && RetiresInTime(m) && Enabled(m, step)
    ensures RetiresInTime(Apply(m, step))
  {
    StepKeepsInv(m, step);
  }

  lemma {:induction false} RetiresInTimeAlong(states: seq<Mock>, steps: seq<Step>, i: nat)
    requires Execution(states, steps) && Inv(states[0]) && RetiresInTime(states[0]) && i < |states|
    ensures RetiresInTime(states[i])
  {
    if i > 0 {
      RetiresInTimeAlong(states, steps, i - 1);
      InvAlongExecution(states, steps, i - 1);
      StepRetiresInTime(states[i - 1], steps[i - 1]);
    }
  }

  /** In every run, an expectation that retires on saturation handles at most max calls. */
  lemma HandledAtMostMax(sequences: nat, states: seq<Mock>, steps: seq<Step>, e: nat)
    requires Execution(states, steps) && states[0] == Initial(sequences)
    requires var m := states[|steps|]; Shaped(m) && e < |m.graph| && m.retiresOnSaturation[e] && m.cards[e].max >= 1
    ensures Handled(steps, e) <= states[|steps|].cards[e].max
  {
    CallsAreCounted(states, steps, |steps|, e);
    RetiresInTimeAlong(states, steps, |steps|);
    assert steps[..|steps|] == steps;
  }

  // ---- the critical section -----------------------------------------------------------------------

  class Expectations {
    const graph: Graph
    const cards: seq<Cardinality>
    const retiresOnSaturation: seq<bool>
    const lasts: seq<Option<int>>
    const calls: array<nat>
    const retired: array<bool>

    ghost function View(): Mock
      reads calls, retired
    {
      Mock(graph, cards, retiresOnSaturation, calls[..], retired[..], lasts)
    }

    /** For arguments that match. */
    method ShouldHandleArguments(e: nat) returns (b: bool)
      requires Inv(View()) && e < |graph|
      ensures b <==> ShouldHandle(View(), e)
      ensures b <==> !retired[e] && forall y :: 0 <= y < |graph| && Reaches(graph, e, y) ==>
                       cards[y].min <= calls[y] <= cards[y].max
    {
      OlderIsAcyclic(graph);
      if retired[e] {
        return false;
      }
      var satisfied := seq(|graph|, a requires 0 <= a < |graph| reads calls =>
        cards[a].IsSatisfiedByCallCount(calls[a]));
      assert satisfied == Satisfied(View());
      b := AllPrerequisitesAreSatisfied(graph, e, satisfied);
    }

    /** `excessive` when the default action is taken instead of the expectation's own. */
    method GetActionForArguments(e: nat) returns (excessive: bool)
      requires Inv(View()) && e < |graph|
      modifies calls, retired
      ensures View() == Called(old(View()), e)
      ensures excessive <==> old(calls[e]) >= cards[e].max
      ensures forall y :: 0 <= y < |graph| ==> calls[y] == old(calls[y]) + if y == e then 1 else 0
      ensures forall y :: 0 <= y < |graph| ==>
                (retired[y] <==>
                 || old(retired[y])
                 || (!excessive && Reaches(graph, e, y))
                 || (!excessive && y == e && retiresOnSaturation[e] && old(calls[e]) + 1 >= cards[e].max))
    {
      OlderIsAcyclic(graph);
      if cards[e].IsSaturatedByCallCount(calls[e]) {
        calls[e] := calls[e] + 1;
        return true;
      }
      calls[e] := calls[e] + 1;
      RetireAllPreRequisites(graph, e, retired);
      if retiresOnSaturation[e] && cards[e].IsSaturatedByCallCount(calls[e]) {
        retired[e] := true;
      }
      assert retired[..] == RetiredBy(old(View()), e);
      return false;
    }
  }
}
