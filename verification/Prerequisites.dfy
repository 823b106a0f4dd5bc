// The prerequisite graph of mock expectations and the three worklists that walk it.

module PrerequisiteGraph {

  /** `g[a]` lists the immediate prerequisites of expectation a. */
  type Graph = seq<seq<int>>

  ghost predicate ValidGraph(g: Graph) {
    forall a, j :: 0 <= a < |g| && 0 <= j < |g[a]| ==> 0 <= g[a][j] < |g|
  }

  ghost predicate Edge(g: Graph, a: int, b: int) {
    0 <= a < |g| && b in g[a]
  }

  ghost predicate IsPath(g: Graph, p: seq<int>, a: int, b: int) {
    && |p| >= 2 && p[0] == a && p[|p| - 1] == b
    && forall i :: 0 <= i < |p| - 1 ==> Edge(g, p[i], p[i + 1])
  }

  /** `b` is a (transitive) prerequisite of `a`. */
  ghost predicate Reaches(g: Graph, a: int, b: int) {
    exists p :: IsPath(g, p, a, b)
  }

  ghost predicate ReachesOrIs(g: Graph, a: int, b: int) {
    a == b || Reaches(g, a, b)
  }

  lemma EdgeReaches(g: Graph, a: int, b: int)
    requires Edge(g, a, b)
    ensures Reaches(g, a, b)
  {
    assert IsPath(g, [a, b], a, b);
  }

  lemma ReachesThenEdge(g: Graph, a: int, b: int, c: int)
    requires ReachesOrIs(g, a, b) && Edge(g, b, c)
    ensures Reaches(g, a, c)
  {
    if a == b {
      EdgeReaches(g, a, c);
    } else {
      var p :| IsPath(g, p, a, b);
      assert IsPath(g, p + [c], a, c);
    }
  }

  /** The first step of a path. */
  lemma FirstStep(g: Graph, a: int, b: int) returns (c: int)
    requires Reaches(g, a, b)
    ensures Edge(g, a, c) && ReachesOrIs(g, c, b)
  {
    var p :| IsPath(g, p, a, b);
    c := p[1];
    assert Edge(g, p[0], p[1]);
    if |p| > 2 {
      var q := p[1..];
      forall i | 0 <= i < |q| - 1 ensures Edge(g, q[i], q[i + 1]) {
        assert Edge(g, p[i + 1], p[i + 2]);
      }
      assert IsPath(g, q, c, b);
    }
  }

  /** A set of nodes that every edge out of it stays in holds everything it reaches. */
  lemma {:induction false} ClosedUnderPaths(g: Graph, inside: set<int>, p: seq<int>, a: int, b: int)
    requires IsPath(g, p, a, b)
    requires forall c, d :: (c == a || c in inside) && Edge(g, c, d) ==> d in inside
    ensures b in inside
    decreases |p|
  {
    assert Edge(g, p[0], p[1]);
    if |p| > 2 {
      var q := p[1..];
      forall i | 0 <= i < |q| - 1 ensures Edge(g, q[i], q[i + 1]) {
        assert Edge(g, p[i + 1], p[i + 2]);
      }
      ClosedUnderPaths(g, inside, q, p[1], b);
    }
  }

  // ---- acyclicity and weights -------------------------------------------------------------------

  /** Prerequisites have smaller ranks, so there is no cycle. */
  ghost predicate Ranked(g: Graph, rank: seq<nat>) {
    && |rank| == |g|
    && forall a, j :: 0 <= a < |g| && 0 <= j < |g[a]| ==> 0 <= g[a][j] < |g| && rank[g[a][j]] < rank[a]
  }

  ghost predicate Acyclic(g: Graph) {
    exists rank :: Ranked(g, rank)
  }

  ghost predicate InRange(g: Graph, xs: seq<int>) {
    forall i :: 0 <= i < |xs| ==> 0 <= xs[i] < |g|
  }

  ghost function Sum(w: seq<nat>, xs: seq<int>): nat
    requires forall i :: 0 <= i < |xs| ==> 0 <= xs[i] < |w|
  {
    if xs == [] then 0 else Sum(w, xs[..|xs| - 1]) + w[xs[|xs| - 1]]
  }

  /** The weight of a node: one more than the weights of its prerequisites together. */
  ghost predicate IsWeight(g: Graph, w: seq<nat>) {
    && |w| == |g| && ValidGraph(g)
    && forall a :: 0 <= a < |g| ==> w[a] == 1 + Sum(w, g[a])
  }

  ghost function Weight(g: Graph, rank: seq<nat>, a: int): nat
    requires Ranked(g, rank) && 0 <= a < |g|
    decreases rank[a], 0
  {
    1 + WeightSum(g, rank, g[a], rank[a])
  }

  ghost function WeightSum(g: Graph, rank: seq<nat>, xs: seq<int>, bound: nat): nat
    requires Ranked(g, rank) && forall i :: 0 <= i < |xs| ==> 0 <= xs[i] < |g| && rank[xs[i]] < bound
    decreases bound, 0, |xs|
  {
    if xs == [] then 0 else WeightSum(g, rank, xs[..|xs| - 1], bound) + Weight(g, rank, xs[|xs| - 1])
  }

  lemma {:induction false} WeightSumIsSum(g: Graph, rank: seq<nat>, xs: seq<int>, bound: nat, w: seq<nat>)
    requires Ranked(g, rank) && forall i :: 0 <= i < |xs| ==> 0 <= xs[i] < |g| && rank[xs[i]] < bound
    requires |w| == |g| && forall a :: 0 <= a < |g| ==> w[a] == Weight(g, rank, a)
    ensures WeightSum(g, rank, xs, bound) == Sum(w, xs)
  {
    if xs != [] {
      WeightSumIsSum(g, rank, xs[..|xs| - 1], bound, w);
    }
  }

  lemma AcyclicHasWeights(g: Graph) returns (w: seq<nat>)
    requires Acyclic(g)
    ensures IsWeight(g, w)
  {
    var rank :| Ranked(g, rank);
    w := seq(|g|, a requires 0 <= a < |g| => Weight(g, rank, a));
    forall a | 0 <= a < |g| ensures w[a] == 1 + Sum(w, g[a]) {
      WeightSumIsSum(g, rank, g[a], rank[a], w);
    }
  }
}

module ExpectationWorklists {
  import opened PrerequisiteGraph

  /** Retirement respects prerequisites: whatever a retired expectation needs is retired too. */
  ghost predicate RetiredClosed(g: Graph, retired: seq<bool>)
    requires ValidGraph(g) && |retired| == |g|
  {
    forall a, b :: 0 <= a < |g| && retired[a] && Edge(g, a, b) ==> retired[b]
  }

  ghost function Unretired(retired: seq<bool>): set<int> {
    set a | 0 <= a < |retired| && !retired[a]
  }

  ghost function RetiredSet(retired: seq<bool>): set<int> {
    set a | 0 <= a < |retired| && retired[a]
  }

  lemma RetiredReach(g: Graph, retired: seq<bool>, x: int, b: int)
    requires ValidGraph(g) && |retired| == |g|
    requires forall a, c :: (a == x || (0 <= a < |g| && retired[a])) && Edge(g, a, c) ==> retired[c]
    requires Reaches(g, x, b)
    ensures 0 <= b < |g| && retired[b]
  {
    var p :| IsPath(g, p, x, b);
    forall c, d | (c == x || c in RetiredSet(retired)) && Edge(g, c, d) ensures d in RetiredSet(retired) {
      var j :| 0 <= j < |g[c]| && g[c][j] == d;
    }
    ClosedUnderPaths(g, RetiredSet(retired), p, x, b);
  }

  /** The nodes whose prerequisites the walk may not have retired yet: those on the stack. */
  ghost predicate Pending(g: Graph, retired: seq<bool>, x: int, stack: seq<int>)
    requires ValidGraph(g) && |retired| == |g|
  {
    forall a, b :: (a == x || (0 <= a < |g| && retired[a])) && a !in stack && Edge(g, a, b) ==> retired[b]
  }

  method RetireAllPreRequisites(g: Graph, x: nat, retired: array<bool>)
    requires ValidGraph(g) && x < |g| == retired.Length
    requires RetiredClosed(g, retired[..])
    modifies retired
    ensures forall y :: 0 <= y < |g| ==> (retired[y] <==> old(retired[y]) || Reaches(g, x, y))
    ensures RetiredClosed(g, retired[..])
  {
    if retired[x] {
      forall y | 0 <= y < |g| && Reaches(g, x, y) ensures retired[y] {
        RetiredReach(g, retired[..], x, y);
      }
      return;
    }
    var expectations: seq<int> := [x];
    while expectations != []
      invariant forall i :: 0 <= i < |expectations| ==> 0 <= expectations[i] < |g| && ReachesOrIs(g, x, expectations[i])
      invariant forall y :: 0 <= y < |g| ==> (old(retired[y]) ==> retired[y])
      invariant forall y :: 0 <= y < |g| && retired[y] && !old(retired[y]) ==> Reaches(g, x, y)
      invariant Pending(g, retired[..], x, expectations)
      decreases Unretired(retired[..]), |expectations|
    {
      var exp := expectations[|expectations| - 1];
      ghost var before, stack0 := retired[..], expectations;
      expectations := expectations[..|expectations| - 1];
      for it := 0 to |g[exp]|
        invariant forall i :: 0 <= i < |expectations| ==> 0 <= expectations[i] < |g| && ReachesOrIs(g, x, expectations[i])
        invariant forall y :: 0 <= y < |g| ==> (old(retired[y]) ==> retired[y])
        invariant forall y :: 0 <= y < |g| && before[y] ==> retired[y]
        invariant forall y :: 0 <= y < |g| && retired[y] && !old(retired[y]) ==> Reaches(g, x, y)
        invariant Pending(g, retired[..], x, expectations + [exp])
        invariant forall j :: 0 <= j < it ==> retired[g[exp][j]]
        invariant retired[..] == before ==> expectations == stack0[..|stack0| - 1]
      {
        var next := g[exp][it];
        if !retired[next] {
          ReachesThenEdge(g, x, exp, next);
          ghost var now := retired[..];
          retired[next] := true;
          expectations := expectations + [next];
          assert retired[..] == now[next := true];
        }
      }
      assert Unretired(retired[..]) <= Unretired(before);
      if retired[..] != before {
        var y :| 0 <= y < |g| && retired[y] != before[y];
        assert y in Unretired(before) && y !in Unretired(retired[..]);
      }
      assert forall b :: Edge(g, exp, b) ==> retired[b];
    }
    forall y | 0 <= y < |g| && Reaches(g, x, y) ensures retired[y] {
      RetiredReach(g, retired[..], x, y);
    }
  }

  // ---- the two walks without a visited set --------------------------------------------------------

  /** What is still to be visited: everything reachable from the stack, or from `rest` inclusive. */
  ghost predicate Ahead(g: Graph, stack: seq<int>, rest: seq<int>, y: int) {
    || (exists i :: 0 <= i < |stack| && Reaches(g, stack[i], y))
    || (exists j :: 0 <= j < |rest| && ReachesOrIs(g, rest[j], y))
  }

  /** Popping a node leaves its prerequisites to be visited. */
  lemma PopAhead(g: Graph, stack: seq<int>, y: int)
    requires ValidGraph(g) && stack != [] && InRange(g, stack) && Ahead(g, stack, [], y)
    ensures Ahead(g, stack[..|stack| - 1], g[stack[|stack| - 1]], y)
  {
    var i :| 0 <= i < |stack| && Reaches(g, stack[i], y);
    if i < |stack| - 1 {
      assert stack[..|stack| - 1][i] == stack[i];
    } else {
      var c := FirstStep(g, stack[i], y);
      var j :| 0 <= j < |g[stack[i]]| && g[stack[i]][j] == c;
    }
  }

  /** Pushing the next prerequisite, which is thereby visited itself, keeps the rest ahead. */
  lemma PushAhead(g: Graph, stack: seq<int>, rest: seq<int>, y: int)
    requires rest != [] && Ahead(g, stack, rest, y) && y != rest[0]
    ensures Ahead(g, stack + [rest[0]], rest[1..], y)
  {
    var longer := stack + [rest[0]];
    if i :| 0 <= i < |stack| && Reaches(g, stack[i], y) {
      assert longer[i] == stack[i];
    } else {
      var j :| 0 <= j < |rest| && ReachesOrIs(g, rest[j], y);
      if j == 0 {
        assert longer[|stack|] == rest[0];
      } else {
        assert rest[1..][j - 1] == rest[j];
      }
    }
  }

  lemma {:induction false} SumDrop(w: seq<nat>, xs: seq<int>, j: nat)
    requires forall i :: 0 <= i < |xs| ==> 0 <= xs[i] < |w|
    requires j < |xs|
    ensures Sum(w, xs[j..]) == w[xs[j]] + Sum(w, xs[j + 1..])
    decreases |xs|
  {
    if j == |xs| - 1 {
      assert xs[j..][..0] == [];
    } else {
      var front := xs[..|xs| - 1];
      SumDrop(w, front, j);
      assert xs[j..][..|xs[j..]| - 1] == front[j..];
      assert xs[j + 1..][..|xs[j + 1..]| - 1] == front[j + 1..];
    }
  }

  /** `satisfied[a]` is the answer of IsSatisfied. */
  method AllPrerequisitesAreSatisfied(g: Graph, x: nat, satisfied: seq<bool>) returns (all: bool)
    requires Acyclic(g) && ValidGraph(g) && x < |g| == |satisfied|
    ensures all <==> forall y :: 0 <= y < |g| && Reaches(g, x, y) ==> satisfied[y]
  {
    ghost var w := AcyclicHasWeights(g);
    var expectations: seq<int> := [x];
    assert forall y :: Reaches(g, x, y) ==> Reaches(g, expectations[0], y);
    while expectations != []
      invariant InRange(g, expectations)
      invariant forall i :: 0 <= i < |expectations| ==> ReachesOrIs(g, x, expectations[i])
      invariant forall y :: 0 <= y < |g| && Reaches(g, x, y) && !satisfied[y] ==> Ahead(g, expectations, [], y)
      decreases Sum(w, expectations)
    {
      var exp := expectations[|expectations| - 1];
      ghost var stack0 := expectations;
      forall y | 0 <= y < |g| && Reaches(g, x, y) && !satisfied[y]
        ensures Ahead(g, stack0[..|stack0| - 1], g[exp], y)
      {
        PopAhead(g, stack0, y);
      }
      expectations := expectations[..|expectations| - 1];
      assert g[exp][0..] == g[exp];
      for it := 0 to |g[exp]|
        invariant InRange(g, expectations)
        invariant forall i :: 0 <= i < |expectations| ==> ReachesOrIs(g, x, expectations[i])
        invariant forall y :: 0 <= y < |g| && Reaches(g, x, y) && !satisfied[y] ==> Ahead(g, expectations, g[exp][it..], y)
        invariant Sum(w, expectations) + Sum(w, g[exp][it..]) < Sum(w, stack0)
      {
        var next := g[exp][it];
        ReachesThenEdge(g, x, exp, next);
        if !satisfied[next] {
          return false;
        }
        forall y | 0 <= y < |g| && Reaches(g, x, y) && !satisfied[y]
          ensures Ahead(g, expectations + [next], g[exp][it + 1..], y)
        {
          PushAhead(g, expectations, g[exp][it..], y);
          assert g[exp][it..][1..] == g[exp][it + 1..];
        }
        SumDrop(w, g[exp], it);
        assert (expectations + [next])[..|expectations|] == expectations;
        expectations := expectations + [next];
      }
      assert g[exp][|g[exp]|..] == [];
    }
    return true;
  }

  /** FindUnsatisfiedPrerequisites looks behind satisfied expectations that were never called. */
  predicate LooksBehind(satisfied: seq<bool>, calls: seq<nat>, b: int) {
    0 <= b < |satisfied| && 0 <= b < |calls| && satisfied[b] && calls[b] == 0
  }

  function Filtered(satisfied: seq<bool>, calls: seq<nat>, xs: seq<int>): (r: seq<int>)
    ensures forall b :: b in r <==> b in xs && LooksBehind(satisfied, calls, b)
  {
    if xs == [] then []
    else
      var front := Filtered(satisfied, calls, xs[..|xs| - 1]);
      assert xs == xs[..|xs| - 1] + [xs[|xs| - 1]];
      if LooksBehind(satisfied, calls, xs[|xs| - 1]) then front + [xs[|xs| - 1]] else front
  }

  /** The edges along which the walk goes on. */
  function Passing(g: Graph, satisfied: seq<bool>, calls: seq<nat>): (h: Graph)
    ensures |h| == |g|
    ensures forall a, b :: Edge(h, a, b) <==> Edge(g, a, b) && LooksBehind(satisfied, calls, b)
  {
    seq(|g|, a requires 0 <= a < |g| => Filtered(satisfied, calls, g[a]))
  }

  /** `y` is unsatisfied and reached from `x` through satisfied, never called expectations. */
  ghost predicate Collected(g: Graph, satisfied: seq<bool>, calls: seq<nat>, x: int, y: int) {
    && 0 <= y < |satisfied| && !satisfied[y]
    && exists a :: CollectedVia(g, satisfied, calls, x, a, y)
  }

  ghost predicate CollectedVia(g: Graph, satisfied: seq<bool>, calls: seq<nat>, x: int, a: int, y: int) {
    ReachesOrIs(Passing(g, satisfied, calls), x, a) && Edge(g, a, y)
  }

  /** The edge from `a` to the unsatisfied `b` has still to be looked at. */
  ghost predicate Todo(h: Graph, stack: seq<int>, exp: int, rest: seq<int>, a: int, b: int) {
    || (exists i :: 0 <= i < |stack| && ReachesOrIs(h, stack[i], a))
    || (exists j :: 0 <= j < |rest| && Edge(h, exp, rest[j]) && ReachesOrIs(h, rest[j], a))
    || (a == exp && b in rest)
  }

  lemma PopTodo(g: Graph, h: Graph, stack: seq<int>, exp0: int, a: int, b: int)
    requires stack != [] && InRange(g, stack) && Edge(g, a, b) && Todo(h, stack, exp0, [], a, b)
    requires |h| == |g| && forall c, d :: Edge(h, c, d) ==> Edge(g, c, d)
    ensures Todo(h, stack[..|stack| - 1], stack[|stack| - 1], g[stack[|stack| - 1]], a, b)
  {
    var i :| 0 <= i < |stack| && ReachesOrIs(h, stack[i], a);
    if i < |stack| - 1 {
      assert stack[..|stack| - 1][i] == stack[i];
    } else if stack[i] != a {
      var c := FirstStep(h, stack[i], a);
      assert Edge(g, stack[i], c);
      var j :| 0 <= j < |g[stack[i]]| && g[stack[i]][j] == c;
    }
  }

  lemma StepTodo(h: Graph, stack: seq<int>, exp: int, rest: seq<int>, a: int, b: int)
    requires rest != [] && Todo(h, stack, exp, rest, a, b)
    ensures b == rest[0] || Todo(h, stack + [rest[0]], exp, rest[1..], a, b)
    ensures b == rest[0] || Edge(h, exp, rest[0]) || Todo(h, stack, exp, rest[1..], a, b)
  {
    var longer := stack + [rest[0]];
    assert longer[|stack|] == rest[0];
    if i :| 0 <= i < |stack| && ReachesOrIs(h, stack[i], a) {
      assert longer[i] == stack[i];
    } else if j :| 0 <= j < |rest| && Edge(h, exp, rest[j]) && ReachesOrIs(h, rest[j], a) {
      if j > 0 {
        assert rest[1..][j - 1] == rest[j];
      }
    } else {
      assert b in rest;
      if b != rest[0] {
        var j :| 0 <= j < |rest| && rest[j] == b;
        assert rest[1..][j - 1] == b;
      }
    }
  }

  /** What holds all along the walk; `rest` are the prerequisites of `exp` still to be looked at. */
  ghost predicate Walk(g: Graph, satisfied: seq<bool>, calls: seq<nat>, x: int, result: set<int>, found: set<int>,
                       stack: seq<int>, exp: int, rest: seq<int>)
    requires |satisfied| == |g|
  {
    && InRange(g, stack)
    && (forall i :: 0 <= i < |stack| ==> ReachesOrIs(Passing(g, satisfied, calls), x, stack[i]))
    && result <= found
    && (forall y :: y in found ==> y in result || Collected(g, satisfied, calls, x, y))
    && (forall a, b :: ReachesOrIs(Passing(g, satisfied, calls), x, a) && Edge(g, a, b) ==>
          Settled(g, satisfied, calls, found, stack, exp, rest, a, b))
  }

  ghost predicate Settled(g: Graph, satisfied: seq<bool>, calls: seq<nat>, found: set<int>,
                          stack: seq<int>, exp: int, rest: seq<int>, a: int, b: int)
  {
    (0 <= b < |satisfied| && satisfied[b]) || b in found || Todo(Passing(g, satisfied, calls), stack, exp, rest, a, b)
  }

  lemma WalkStarts(g: Graph, satisfied: seq<bool>, calls: seq<nat>, x: int, result: set<int>)
    requires |satisfied| == |g| && 0 <= x < |g|
    ensures Walk(g, satisfied, calls, x, result, result, [x], -1, [])
  {
    var h := Passing(g, satisfied, calls);
    forall a, b | ReachesOrIs(h, x, a) ensures Todo(h, [x], -1, [], a, b) {
      assert ReachesOrIs(h, [x][0], a);
    }
  }

  lemma WalkPops(g: Graph, satisfied: seq<bool>, calls: seq<nat>, x: int, result: set<int>, found: set<int>,
                 stack: seq<int>, exp0: int)
    requires |satisfied| == |g| && stack != [] && Walk(g, satisfied, calls, x, result, found, stack, exp0, [])
    ensures var exp := stack[|stack| - 1];
            Walk(g, satisfied, calls, x, result, found, stack[..|stack| - 1], exp, g[exp])
  {
    var exp := stack[|stack| - 1];
    var h := Passing(g, satisfied, calls);
    forall a, b | ReachesOrIs(h, x, a) && Edge(g, a, b)
      ensures Settled(g, satisfied, calls, found, stack[..|stack| - 1], exp, g[exp], a, b)
    {
      assert Settled(g, satisfied, calls, found, stack, exp0, [], a, b);
      if Todo(h, stack, exp0, [], a, b) {
        PopTodo(g, h, stack, exp0, a, b);
      }
    }
  }

  /** The next prerequisite is pushed, passed over or collected. */
  lemma WalkSteps(g: Graph, satisfied: seq<bool>, calls: seq<nat>, x: int, result: set<int>, found: set<int>,
                  stack: seq<int>, exp: int, rest: seq<int>)
    requires ValidGraph(g) && |calls| == |satisfied| == |g| && rest != [] && Edge(g, exp, rest[0])
    requires 0 <= rest[0] < |g| && ReachesOrIs(Passing(g, satisfied, calls), x, exp)
    requires Walk(g, satisfied, calls, x, result, found, stack, exp, rest)
    ensures var next := rest[0];
            Walk(g, satisfied, calls, x, result,
                 if satisfied[next] then found else found + {next},
                 if LooksBehind(satisfied, calls, next) then stack + [next] else stack,
                 exp, rest[1..])
  {
    var next := rest[0];
    var h := Passing(g, satisfied, calls);
    var found' := if satisfied[next] then found else found + {next};
    var stack' := if LooksBehind(satisfied, calls, next) then stack + [next] else stack;
    forall a, b | ReachesOrIs(h, x, a) && Edge(g, a, b)
      ensures Settled(g, satisfied, calls, found', stack', exp, rest[1..], a, b)
    {
      assert Settled(g, satisfied, calls, found, stack, exp, rest, a, b);
      if Todo(h, stack, exp, rest, a, b) {
        StepTodo(h, stack, exp, rest, a, b);
      }
    }
    if LooksBehind(satisfied, calls, next) {
      ReachesThenEdge(h, x, exp, next);
    }
    assert CollectedVia(g, satisfied, calls, x, exp, next);
  }

  lemma WalkEnds(g: Graph, satisfied: seq<bool>, calls: seq<nat>, x: int, result: set<int>, found: set<int>, exp: int)
    requires |satisfied| == |g| && Walk(g, satisfied, calls, x, result, found, [], exp, [])
    ensures forall y :: y in found <==> y in result || Collected(g, satisfied, calls, x, y)
  {
    forall y | Collected(g, satisfied, calls, x, y) ensures y in found {
      var a :| CollectedVia(g, satisfied, calls, x, a, y);
      assert Settled(g, satisfied, calls, found, [], exp, [], a, y);
    }
  }

  method FindUnsatisfiedPrerequisites(g: Graph, x: nat, satisfied: seq<bool>, calls: seq<nat>, result: set<int>)
    returns (found: set<int>)
    requires Acyclic(g) && ValidGraph(g) && x < |g| == |satisfied| == |calls|
    ensures forall y :: y in found <==> y in result || Collected(g, satisfied, calls, x, y)
  {
    ghost var w := AcyclicHasWeights(g);
    found := result;
    var expectations: seq<int> := [x];
    ghost var last := -1;
    WalkStarts(g, satisfied, calls, x, result);
    while expectations != []
      invariant Walk(g, satisfied, calls, x, result, found, expectations, last, [])
      decreases Sum(w, expectations)
    {
      var exp := expectations[|expectations| - 1];
      ghost var stack0 := expectations;
      WalkPops(g, satisfied, calls, x, result, found, expectations, last);
      expectations := expectations[..|expectations| - 1];
      last := exp;
      assert g[exp][0..] == g[exp];
      for it := 0 to |g[exp]|
        invariant Walk(g, satisfied, calls, x, result, found, expectations, exp, g[exp][it..])
        invariant Sum(w, expectations) + Sum(w, g[exp][it..]) < Sum(w, stack0)
      {
        var next := g[exp][it];
        WalkSteps(g, satisfied, calls, x, result, found, expectations, exp, g[exp][it..]);
        assert g[exp][it..][1..] == g[exp][it + 1..];
        SumDrop(w, g[exp], it);
        if satisfied[next] {
          if calls[next] == 0 {
            assert (expectations + [next])[..|expectations|] == expectations;
            expectations := expectations + [next];
          }
        } else {
          found := found + {next};
        }
      }
      assert g[exp][|g[exp]|..] == [];
    }
    WalkEnds(g, satisfied, calls, x, result, found, last);
  }

  // ---- how the two answers agree ------------------------------------------------------------------

  /** Behind an expectation that has been called, and is satisfied, everything is satisfied. */
  ghost predicate CalledInOrder(g: Graph, satisfied: seq<bool>, calls: seq<nat>) {
    |satisfied| == |calls| == |g| &&
    forall a, y :: 0 <= a < |g| && calls[a] > 0 && satisfied[a] && Reaches(g, a, y) ==> 0 <= y < |g| && satisfied[y]
  }

  /** Along any path to an unsatisfied node there is one that is collected. */
  lemma {:induction false} CollectedOnPath(g: Graph, satisfied: seq<bool>, calls: seq<nat>, x: int, p: seq<int>, a: int, y: int)
    returns (z: int)
    requires ValidGraph(g) && CalledInOrder(g, satisfied, calls)
    requires IsPath(g, p, a, y) && ReachesOrIs(Passing(g, satisfied, calls), x, a)
    requires 0 <= y < |g| && !satisfied[y]
    ensures Collected(g, satisfied, calls, x, z)
    decreases |p|
  {
    var b := p[1];
    assert Edge(g, a, b);
    if !satisfied[b] {
      assert CollectedVia(g, satisfied, calls, x, a, b);
      z := b;
    } else {
      var q := p[1..];
      forall i | 0 <= i < |q| - 1 ensures Edge(g, q[i], q[i + 1]) {
        assert Edge(g, p[i + 1], p[i + 2]);
      }
      assert IsPath(g, q, b, y);
      assert Reaches(g, b, y);
      assert calls[b] == 0;
      ReachesThenEdge(Passing(g, satisfied, calls), x, a, b);
      z := CollectedOnPath(g, satisfied, calls, x, q, b, y);
    }
  }

  lemma {:induction false} PassingPathIsPath(g: Graph, satisfied: seq<bool>, calls: seq<nat>, x: int, a: int)
    requires Reaches(Passing(g, satisfied, calls), x, a)
    ensures Reaches(g, x, a)
  {
    var h := Passing(g, satisfied, calls);
    var p :| IsPath(h, p, x, a);
    forall i | 0 <= i < |p| - 1 ensures Edge(g, p[i], p[i + 1]) {
      assert Edge(h, p[i], p[i + 1]);
    }
    assert IsPath(g, p, x, a);
  }

  /** Nothing is collected exactly when all transitive prerequisites are satisfied. */
  lemma NothingCollectedIffAllSatisfied(g: Graph, satisfied: seq<bool>, calls: seq<nat>, x: int)
    requires ValidGraph(g) && 0 <= x < |g| && CalledInOrder(g, satisfied, calls)
    ensures (forall y :: !Collected(g, satisfied, calls, x, y))
       <==> (forall y :: 0 <= y < |g| && Reaches(g, x, y) ==> satisfied[y])
  {
    if y :| 0 <= y < |g| && Reaches(g, x, y) && !satisfied[y] {
      var p :| IsPath(g, p, x, y);
      var z := CollectedOnPath(g, satisfied, calls, x, p, x, y);
    }
    if y :| Collected(g, satisfied, calls, x, y) {
      var a :| CollectedVia(g, satisfied, calls, x, a, y);
      if a != x {
        PassingPathIsPath(g, satisfied, calls, x, a);
      }
      ReachesThenEdge(g, x, a, y);
    }
  }

  /** Without that order, which every run of the dispatch keeps, nothing may be collected in vain. */
  lemma CalledOutOfOrder()
    ensures var g: Graph, satisfied, calls := [[1], [2], []], [true, true, false], [0, 1, 0];
            && Acyclic(g) && !CalledInOrder(g, satisfied, calls) && Reaches(g, 0, 2) && !satisfied[2]
            && forall y :: !Collected(g, satisfied, calls, 0, y)
  {
    var g: Graph, satisfied, calls := [[1], [2], []], [true, true, false], [0, 1, 0];
    assert Ranked(g, [2, 1, 0]);
    assert Edge(g, 0, 1) && Edge(g, 1, 2);
    EdgeReaches(g, 0, 1);
    EdgeReaches(g, 1, 2);
    ReachesThenEdge(g, 0, 1, 2);
    forall y | Collected(g, satisfied, calls, 0, y) ensures false {
      var a :| CollectedVia(g, satisfied, calls, 0, a, y);
      var h := Passing(g, satisfied, calls);
      assert y == 2 && a == 1;
      var c := FirstStep(h, 0, 1);
    }
  }
}

/** How sequences build the graph. */
module ExpectationSequences {
  import opened Wrappers
  import opened PrerequisiteGraph

  function WithEdge(g: Graph, e: int, l: int): (h: Graph)
    requires 0 <= e < |g|
    ensures |h| == |g|
    ensures forall a, b :: Edge(h, a, b) <==> Edge(g, a, b) || (a == e && b == l)
  {
    if l in g[e] then g else g[e := g[e] + [l]]
  }

  /** The graph after `e` has joined a sequence whose last expectation is `last`. */
  function Joined(g: Graph, last: Option<int>, e: int): Graph
    requires 0 <= e < |g|
  {
    if last.Some? && last.value != e then WithEdge(g, e, last.value) else g
  }

  class Sequence {
    var last: Option<int>

    constructor ()
      ensures last == None
    {
      last := None;
    }

    /** Makes the previous expectation of this sequence a prerequisite of `e`. */
    method AddExpectation(g: Graph, e: int) returns (h: Graph)
      requires ValidGraph(g) && 0 <= e < |g| && (last.Some? ==> 0 <= last.value < |g|)
      modifies this
      ensures last == Some(e)
      ensures h == Joined(g, old(last), e) && |h| == |g|
      ensures forall a, b :: Edge(h, a, b) <==> Edge(g, a, b) || (a == e && old(last) == Some(b) && b != e)
    {
      h := g;
      if last != Some(e) {
        if last.Some? {
          h := WithEdge(g, e, last.value);
        }
        last := Some(e);
      }
    }
  }

  lemma {:induction false} RankDescends(g: Graph, rank: seq<nat>, p: seq<int>, a: int, b: int)
    requires Ranked(g, rank) && IsPath(g, p, a, b)
    ensures 0 <= a < |g| && 0 <= b < |g| && rank[b] < rank[a]
    decreases |p|
  {
    assert Edge(g, p[0], p[1]);
    var j :| 0 <= j < |g[a]| && g[a][j] == p[1];
    if |p| > 2 {
      var q := p[1..];
      forall i | 0 <= i < |q| - 1 ensures Edge(g, q[i], q[i + 1]) {
        assert Edge(g, p[i + 1], p[i + 2]);
      }
      RankDescends(g, rank, q, p[1], b);
    }
  }

  /** A new prerequisite `l` of `e` keeps the graph acyclic exactly when `l` does not depend on `e`. */
  lemma NewEdgeKeepsAcyclic(g: Graph, e: int, l: int)
    requires Acyclic(g) && 0 <= e < |g| && 0 <= l < |g|
    ensures Acyclic(WithEdge(g, e, l)) <==> !ReachesOrIs(g, l, e)
  {
    var h := WithEdge(g, e, l);
    if !ReachesOrIs(g, l, e) {
      var rank :| Ranked(g, rank);
      RaisedRank(g, rank, e, l);
    }
    if Acyclic(h) {
      NoWayBack(g, e, l);
    }
  }

  /** Everything that depends on `e` is lifted above `l`. */
  lemma RaisedRank(g: Graph, rank: seq<nat>, e: int, l: int)
    requires Ranked(g, rank) && 0 <= e < |g| && 0 <= l < |g| && !ReachesOrIs(g, l, e)
    ensures Acyclic(WithEdge(g, e, l))
  {
    var h := WithEdge(g, e, l);
    var raised := seq(|g|, a requires 0 <= a < |g| => if ReachesOrIs(g, a, e) then rank[a] + rank[l] + 1 else rank[a]);
    forall a, j | 0 <= a < |h| && 0 <= j < |h[a]| ensures 0 <= h[a][j] < |h| && raised[h[a][j]] < raised[a] {
      var b := h[a][j];
      assert Edge(h, a, b);
      if Edge(g, a, b) {
        var i :| 0 <= i < |g[a]| && g[a][i] == b;
        if ReachesOrIs(g, b, e) {
          PrependEdge(g, a, b, e);
        }
      }
    }
    assert Ranked(h, raised);
  }

  lemma PrependEdge(g: Graph, a: int, b: int, c: int)
    requires Edge(g, a, b) && ReachesOrIs(g, b, c)
    ensures Reaches(g, a, c)
  {
    if b == c {
      EdgeReaches(g, a, c);
    } else {
      var p :| IsPath(g, p, b, c);
      var q := [a] + p;
      forall i | 0 <= i < |q| - 1 ensures Edge(g, q[i], q[i + 1]) {
        if i > 0 {
          assert Edge(g, p[i - 1], p[i]);
        }
      }
      assert IsPath(g, q, a, c);
    }
  }

  lemma NoWayBack(g: Graph, e: int, l: int)
    requires 0 <= e < |g| && Acyclic(WithEdge(g, e, l))
    ensures !ReachesOrIs(g, l, e)
  {
    var h := WithEdge(g, e, l);
    var rank :| Ranked(h, rank);
    assert Edge(h, e, l);
    assert IsPath(h, [e, l], e, l);
    RankDescends(h, rank, [e, l], e, l);
    forall p ensures !IsPath(g, p, l, e) {
      if IsPath(g, p, l, e) {
        forall i | 0 <= i < |p| - 1 ensures Edge(h, p[i], p[i + 1]) {
          assert Edge(g, p[i], p[i + 1]);
        }
        RankDescends(h, rank, p, l, e);
      }
    }
  }
}
