// Maximum bipartite matching between elements (left) and matchers (right).

module BipartiteGraph {
  import opened FiniteSets

  /** The connectivity matrix, row by row: `matched[l][r]` says whether element l satisfies matcher r. */
  datatype MatchMatrix = MatchMatrix(lhsSize: nat, rhsSize: nat, matched: seq<seq<bool>>) {

    ghost predicate Valid() {
      |matched| == lhsSize && forall row :: row in matched ==> |row| == rhsSize
    }

    predicate HasEdge(ilhs: nat, irhs: nat)
      requires Valid()
      requires ilhs < lhsSize && irhs < rhsSize
    {
      matched[ilhs][irhs]
    }

    /** HasEdge made total: an edge outside the matrix does not exist. */
    ghost predicate Edge(l: int, r: int)
      requires Valid()
    {
      0 <= l < lhsSize && 0 <= r < rhsSize && HasEdge(l, r)
    }
  }

  type Pair = (int, int)

  /** All pairs are edges, and no left or right node occurs in two pairs. */
  ghost predicate IsMatching(g: MatchMatrix, m: set<Pair>)
    requires g.Valid()
  {
    && (forall p :: p in m ==> g.Edge(p.0, p.1))
    && (forall p, q :: p in m && q in m && (p.0 == q.0 || p.1 == q.1) ==> p == q)
  }

  ghost predicate CoversLeft(m: set<Pair>, l: int) {
    exists p :: p in m && p.0 == l
  }

  ghost predicate CoversRight(m: set<Pair>, r: int) {
    exists p :: p in m && p.1 == r
  }

  ghost predicate SaturatesLhs(g: MatchMatrix, m: set<Pair>) {
    forall l :: 0 <= l < g.lhsSize ==> CoversLeft(m, l)
  }

  ghost predicate SaturatesRhs(g: MatchMatrix, m: set<Pair>) {
    forall r :: 0 <= r < g.rhsSize ==> CoversRight(m, r)
  }

  ghost predicate IsMaximum(g: MatchMatrix, m: set<Pair>)
    requires g.Valid()
  {
    && IsMatching(g, m)
    && forall other :: IsMatching(g, other) ==> |other| <= |m|
  }

  /** Every edge touches one of these nodes. */
  ghost predicate IsCover(g: MatchMatrix, ls: set<int>, rs: set<int>)
    requires g.Valid()
  {
    && ls <= Range(g.lhsSize) && rs <= Range(g.rhsSize)
    && forall l, r :: g.Edge(l, r) ==> l in ls || r in rs
  }

  ghost predicate LhsSaturable(g: MatchMatrix)
    requires g.Valid()
  {
    exists m :: IsMatching(g, m) && SaturatesLhs(g, m)
  }

  ghost predicate RhsSaturable(g: MatchMatrix)
    requires g.Valid()
  {
    exists m :: IsMatching(g, m) && SaturatesRhs(g, m)
  }

  /** One matching saturates both sides. */
  ghost predicate BothSaturable(g: MatchMatrix)
    requires g.Valid()
  {
    exists m :: IsMatching(g, m) && SaturatesLhs(g, m) && SaturatesRhs(g, m)
  }

  function Lefts(m: set<Pair>): set<int> { set p | p in m :: p.0 }

  function Rights(m: set<Pair>): set<int> { set p | p in m :: p.1 }

  lemma ProjectionSizes(g: MatchMatrix, m: set<Pair>)
    requires g.Valid() && IsMatching(g, m)
    ensures |Lefts(m)| == |m| == |Rights(m)|
    ensures Lefts(m) <= Range(g.lhsSize) && Rights(m) <= Range(g.rhsSize)
  {
    var first, second := (p: Pair) => p.0, (p: Pair) => p.1;
    InjectiveImageSize(m, first);
    InjectiveImageSize(m, second);
    assert Lefts(m) == Image(m, first);
    assert Rights(m) == Image(m, second);
  }

  /** A matching covers a whole side exactly when it has as many pairs as that side has nodes. */
  lemma SaturationBySize(g: MatchMatrix, m: set<Pair>)
    requires g.Valid() && IsMatching(g, m)
    ensures |m| <= g.lhsSize && |m| <= g.rhsSize
    ensures SaturatesLhs(g, m) <==> |m| == g.lhsSize
    ensures SaturatesRhs(g, m) <==> |m| == g.rhsSize
  {
    ProjectionSizes(g, m);
    SubsetCardinality(Lefts(m), Range(g.lhsSize));
    SubsetCardinality(Rights(m), Range(g.rhsSize));
    assert forall l :: l in Lefts(m) <==> CoversLeft(m, l);
    assert SaturatesLhs(g, m) <==> Lefts(m) == Range(g.lhsSize);
    assert forall r :: r in Rights(m) <==> CoversRight(m, r);
    assert SaturatesRhs(g, m) <==> Rights(m) == Range(g.rhsSize);
  }
}

/** The Ford-Fulkerson state: two mutually referent vectors updated by depth-first augmentation. */
module MaxBipartiteMatch {
  import opened BipartiteGraph
  import opened FiniteSets

  const UNUSED: int := -1

  /** Every used left node points at a right node that points back at it. */
  ghost predicate LeftsReferent(g: MatchMatrix, left: seq<int>, right: seq<int>)
    requires g.Valid()
  {
    && |left| == g.lhsSize && |right| == g.rhsSize
    && (forall l :: 0 <= l < |left| && left[l] != UNUSED ==>
          g.Edge(l, left[l]) && right[left[l]] == l)
  }

  /** The same from the right, except at the node `stale` (UNUSED when there is none). */
  ghost predicate RightsReferent(g: MatchMatrix, left: seq<int>, right: seq<int>, stale: int)
    requires g.Valid()
  {
    && |left| == g.lhsSize && |right| == g.rhsSize
    && (forall r :: 0 <= r < |right| && right[r] != UNUSED ==> 0 <= right[r] < |left|)
    && (forall r :: 0 <= r < |right| && right[r] != UNUSED && r != stale ==> left[right[r]] == r)
  }

  ghost predicate MutuallyReferent(g: MatchMatrix, left: seq<int>, right: seq<int>)
    requires g.Valid()
  {
    LeftsReferent(g, left, right) && RightsReferent(g, left, right, UNUSED)
  }

  /** All neighbours of `l` lie in `rs`. */
  ghost predicate Confined(g: MatchMatrix, l: int, rs: set<int>)
    requires g.Valid()
  {
    forall r :: g.Edge(l, r) ==> r in rs
  }

  /** A set of right nodes that are all used and whose partners have no neighbours outside it. */
  ghost predicate Trap(g: MatchMatrix, right: seq<int>, rs: set<int>)
    requires g.Valid() && |right| == g.rhsSize
  {
    forall r :: r in rs ==> 0 <= r < |right| && right[r] != UNUSED && Confined(g, right[r], rs)
  }

  ghost function SeenSet(seen: seq<bool>): set<int> {
    set r | 0 <= r < |seen| && seen[r]
  }

  ghost function UnseenSet(seen: seq<bool>): set<int> {
    set r | 0 <= r < |seen| && !seen[r]
  }

  /**
    * What a failed search from `l` leaves: every neighbour of `l` has been seen, and every right
    * node seen during the search is used by a left node all of whose neighbours have been seen.
    */
  ghost predicate Exhausted(g: MatchMatrix, right: seq<int>, l: int, seen0: seq<bool>, seen1: seq<bool>)
    requires g.Valid() && |right| == |seen0| == |seen1| == g.rhsSize
  {
    && Confined(g, l, SeenSet(seen1))
    && Swept(g, right, seen0, seen1)
  }

  ghost predicate Swept(g: MatchMatrix, right: seq<int>, seen0: seq<bool>, seen1: seq<bool>)
    requires g.Valid() && |right| == |seen0| == |seen1| == g.rhsSize
  {
    forall r :: 0 <= r < |right| && seen1[r] && !seen0[r] ==>
      right[r] != UNUSED && Confined(g, right[r], SeenSet(seen1))
  }

  /** The node of `s` that leaves UNUSED between `s` and `t`; no other node changes its usedness. */
  ghost predicate OnlyOneMoreUsed(s: seq<int>, t: seq<int>, k: int) {
    && |s| == |t| && 0 <= k < |s| && s[k] == UNUSED && t[k] != UNUSED
    && forall i :: 0 <= i < |s| && i != k ==> (s[i] == UNUSED <==> t[i] == UNUSED)
  }

  ghost predicate SameUsedExcept(s: seq<int>, t: seq<int>, k: int) {
    && |s| == |t|
    && forall i :: 0 <= i < |s| && i != k ==> (s[i] == UNUSED <==> t[i] == UNUSED)
  }

  /**
    * What a successful search from `l` leaves. The vectors are mutually referent again, except that
    * the right node `l` used before (if any) still refers to `l`: the caller repairs it. Only nodes
    * reached through right nodes unseen before the search have been redirected.
    */
  ghost predicate Augmented(g: MatchMatrix, l: int, left0: seq<int>, right0: seq<int>, seen0: seq<bool>,
                            left1: seq<int>, right1: seq<int>, trap: set<int>)
    requires g.Valid() && 0 <= l < g.lhsSize
    requires |left0| == |left1| == g.lhsSize && |right0| == |right1| == |seen0| == g.rhsSize
  {
    && LeftsReferent(g, left1, right1)
    && RightsReferent(g, left1, right1, left0[l])
    && left1[l] != UNUSED && !seen0[left1[l]]
    && SameUsedExcept(left0, left1, l)
    && (exists r :: OnlyOneMoreUsed(right0, right1, r))
    && (forall x :: 0 <= x < |left0| && x != l && left1[x] != left0[x] ==>
          0 <= left0[x] < |seen0| && !seen0[left0[x]])
    && (forall r :: 0 <= r < |right0| && right1[r] != right0[r] ==> !seen0[r] && r !in trap)
  }

  /** The path ends at once: the right node `r` is unused. */
  lemma AugmentAtSink(g: MatchMatrix, l: int, r: int, left: seq<int>, right: seq<int>, seen: seq<bool>, trap: set<int>)
    requires g.Valid() && MutuallyReferent(g, left, right) && |seen| == |right|
    requires g.Edge(l, r) && !seen[r] && right[r] == UNUSED && Trap(g, right, trap)
    ensures Augmented(g, l, left, right, seen, left[l := r], right[r := l], trap)
    ensures r !in trap
  {
    var left1, right1 := left[l := r], right[r := l];
    assert OnlyOneMoreUsed(right, right1, r);
  }

  /** The path goes on through `r`, whose partner found an augmentation of its own. */
  lemma AugmentThrough(g: MatchMatrix, l: int, r: int, left0: seq<int>, right0: seq<int>, seen0: seq<bool>,
                       marked: seq<bool>, left1: seq<int>, right1: seq<int>, trap: set<int>)
    requires g.Valid() && MutuallyReferent(g, left0, right0) && |seen0| == |right0| == |marked|
    requires g.Edge(l, r) && !seen0[r] && right0[r] != UNUSED
    requires left0[l] != UNUSED ==> seen0[left0[l]]
    requires marked[r] && forall s :: 0 <= s < |seen0| && seen0[s] ==> marked[s]
    requires |left1| == |left0| && |right1| == |right0| && r !in trap
    requires Augmented(g, right0[r], left0, right0, marked, left1, right1, trap)
    ensures Augmented(g, l, left0, right0, seen0, left1[l := r], right1[r := l], trap)
  {
    var left2, right2 := left1[l := r], right1[r := l];
    var k :| OnlyOneMoreUsed(right0, right1, k);
    assert OnlyOneMoreUsed(right0, right2, k);
    RepairedReferences(g, l, r, right0[r], left1, right1, left0[l]);
  }

  /** Between the inner success and the outer assignment only `r` was stale. */
  lemma RepairedReferences(g: MatchMatrix, l: int, r: int, mid: int, left1: seq<int>, right1: seq<int>, stale: int)
    requires g.Valid() && LeftsReferent(g, left1, right1) && RightsReferent(g, left1, right1, r)
    requires g.Edge(l, r) && right1[r] == mid && l != mid && stale == left1[l]
    requires 0 <= mid < |left1| && left1[mid] != r
    ensures LeftsReferent(g, left1[l := r], right1[r := l])
    ensures RightsReferent(g, left1[l := r], right1[r := l], stale)
  {
    forall s | 0 <= s < |right1| && s != r && right1[s] != UNUSED && s != stale
      ensures left1[l := r][right1[s]] == s
    {
      assert left1[right1[s]] == s;
    }
  }

  lemma SweptExtends(g: MatchMatrix, right: seq<int>, seen0: seq<bool>, before: seq<bool>, irhs: int, after: seq<bool>)
    requires g.Valid() && |right| == |seen0| == |before| == |after| == g.rhsSize
    requires 0 <= irhs < |right| && right[irhs] != UNUSED
    requires Swept(g, right, seen0, before)
    requires Exhausted(g, right, right[irhs], before[irhs := true], after)
    requires forall r :: 0 <= r < |after| && before[r] ==> after[r]
    ensures Swept(g, right, seen0, after)
  {
    assert SeenSet(before) <= SeenSet(after);
  }

  /** Every unused left node below `n` is confined to the trap: searching it again would fail again. */
  ghost predicate Settled(g: MatchMatrix, left: seq<int>, n: nat, trap: set<int>)
    requires g.Valid() && n <= |left|
  {
    forall l :: 0 <= l < n && left[l] == UNUSED ==> Confined(g, l, trap)
  }

  ghost function UsedLefts(left: seq<int>): set<int> {
    set l | 0 <= l < |left| && left[l] != UNUSED
  }

  ghost function MatchedPairs(left: seq<int>): set<Pair> {
    set l | 0 <= l < |left| && left[l] != UNUSED :: (l, left[l])
  }

  /** The left node that pays for a pair of any other matching. */
  ghost function Charge(right: seq<int>, trap: set<int>, p: Pair): int {
    if p.1 in trap && 0 <= p.1 < |right| then right[p.1] else p.0
  }

  /**
    * The right nodes in the trap and the used left nodes matched outside it form a vertex cover as
    * large as the current matching, so every pair of any matching can be charged to its own used node.
    */
  lemma NoLargerMatching(g: MatchMatrix, left: seq<int>, right: seq<int>, trap: set<int>, other: set<Pair>)
    requires g.Valid() && MutuallyReferent(g, left, right)
    requires Trap(g, right, trap) && Settled(g, left, |left|, trap)
    requires IsMatching(g, other)
    ensures |other| <= |UsedLefts(left)|
  {
    var f := (p: Pair) => Charge(right, trap, p);
    forall p | p in other
      ensures f(p) in UsedLefts(left)
      ensures p.1 !in trap ==> left[p.0] !in trap
    {
      assert g.Edge(p.0, p.1);
      if p.1 !in trap {
        assert !Confined(g, p.0, trap);
      }
    }
    InjectiveImageSize(other, f);
    SubsetCardinality(Image(other, f), UsedLefts(left));
  }

  lemma PairsOfState(g: MatchMatrix, left: seq<int>, right: seq<int>)
    requires g.Valid() && MutuallyReferent(g, left, right)
    ensures IsMatching(g, MatchedPairs(left))
    ensures |MatchedPairs(left)| == |UsedLefts(left)|
  {
    var m := MatchedPairs(left);
    assert Lefts(m) == UsedLefts(left) by {
      forall l | l in UsedLefts(left) ensures l in Lefts(m) {
        assert (l, left[l]) in m && (l, left[l]).0 == l;
      }
    }
    ProjectionSizes(g, m);
  }

  function PairSet(pairs: seq<Pair>): set<Pair> {
    set p | p in pairs
  }

  lemma {:induction false} DistinctLefts(pairs: seq<Pair>)
    requires forall i, j :: 0 <= i < j < |pairs| ==> pairs[i].0 < pairs[j].0
    ensures |PairSet(pairs)| == |pairs|
  {
    if pairs != [] {
      var rest := pairs[..|pairs| - 1];
      DistinctLefts(rest);
      assert PairSet(pairs) == PairSet(rest) + {pairs[|pairs| - 1]};
    }
  }

  lemma MatchedPairsOfPrefix(left: seq<int>, irhs: int)
    ensures MatchedPairs(left + [irhs]) == MatchedPairs(left) + if irhs == UNUSED then {} else {(|left|, irhs)}
  {
    var longer := left + [irhs];
    forall p | p in MatchedPairs(left) ensures p in MatchedPairs(longer) {
      assert longer[p.0] == left[p.0];
    }
    forall p | p in MatchedPairs(longer) && p.0 < |left| ensures p in MatchedPairs(left) {
      assert longer[p.0] == left[p.0];
    }
    if irhs != UNUSED {
      assert longer[|left|] == irhs;
      assert (|left|, longer[|left|]) in MatchedPairs(longer);
    }
  }

  /** A success leaves the trap alone. */
  lemma TrapSurvives(g: MatchMatrix, l: nat, left0: seq<int>, right0: seq<int>, seen0: seq<bool>,
                     left1: seq<int>, right1: seq<int>, trap: set<int>)
    requires g.Valid() && l < g.lhsSize
    requires |left0| == |left1| == g.lhsSize && |right0| == |right1| == |seen0| == g.rhsSize
    requires Augmented(g, l, left0, right0, seen0, left1, right1, trap)
    requires Trap(g, right0, trap) && Settled(g, left0, l, trap)
    ensures Trap(g, right1, trap) && Settled(g, left1, l + 1, trap)
  {
  }

  /** A failure adds the right nodes it has seen to the trap. */
  lemma TrapGrows(g: MatchMatrix, l: nat, left: seq<int>, right: seq<int>, seen0: seq<bool>, seen1: seq<bool>,
                  trap: set<int>)
    requires g.Valid() && MutuallyReferent(g, left, right) && l < |left|
    requires |seen0| == |seen1| == g.rhsSize && SeenSet(seen0) == {}
    requires Exhausted(g, right, l, seen0, seen1)
    requires Trap(g, right, trap) && Settled(g, left, l, trap)
    ensures Trap(g, right, trap + SeenSet(seen1)) && Settled(g, left, l + 1, trap + SeenSet(seen1))
  {
    forall r | r in SeenSet(seen1)
      ensures right[r] != UNUSED && Confined(g, right[r], SeenSet(seen1))
    {
      assert r !in SeenSet(seen0);
    }
  }

  lemma MaximumAtEnd(g: MatchMatrix, left: seq<int>, right: seq<int>, trap: set<int>)
    requires g.Valid() && MutuallyReferent(g, left, right)
    requires Trap(g, right, trap) && Settled(g, left, |left|, trap)
    ensures IsMaximum(g, MatchedPairs(left))
  {
    PairsOfState(g, left, right);
    forall other | IsMatching(g, other) ensures |other| <= |MatchedPairs(left)| {
      NoLargerMatching(g, left, right, trap, other);
    }
  }

  ghost function Unconfined(g: MatchMatrix, trap: set<int>): set<int>
    requires g.Valid()
  {
    set l | 0 <= l < g.lhsSize && !Confined(g, l, trap)
  }

  /** Koenig's theorem: the trap and the left nodes not confined to it cover every edge, one node for each pair. */
  lemma CoverAtEnd(g: MatchMatrix, left: seq<int>, right: seq<int>, trap: set<int>)
    requires g.Valid() && MutuallyReferent(g, left, right)
    requires Trap(g, right, trap) && Settled(g, left, |left|, trap)
    ensures IsCover(g, Unconfined(g, trap), trap)
    ensures |Unconfined(g, trap)| + |trap| == |MatchedPairs(left)|
  {
    PairsOfState(g, left, right);
    var partner := (r: int) => if 0 <= r < |right| then right[r] else UNUSED;
    var partners := Image(trap, partner);
    InjectiveImageSize(trap, partner);
    forall l | l in UsedLefts(left) && Confined(g, l, trap) ensures l in partners {
      assert g.Edge(l, left[l]) && partner(left[l]) == l;
    }
    assert UsedLefts(left) == Unconfined(g, trap) + partners;
    assert Unconfined(g, trap) * partners == {};
  }

  class MaxBipartiteMatchState {
    const graph: MatchMatrix
    const left: array<int>
    const right: array<int>

    constructor (g: MatchMatrix)
      requires g.Valid()
      ensures graph == g && fresh(left) && fresh(right) && left != right
      ensures MutuallyReferent(graph, left[..], right[..])
      ensures forall l :: 0 <= l < left.Length ==> left[l] == UNUSED
    {
      graph := g;
      left := new int[g.lhsSize](_ => UNUSED);
      right := new int[g.rhsSize](_ => UNUSED);
    }

    /**
      * Depth-first search for an augmenting path from `ilhs`, writing the path on the way back.
      * `trap` is any set of right nodes that can hold an augmentation captive.
      */
    method TryAugment(ilhs: nat, seen: array<bool>, ghost trap: set<int>) returns (found: bool)
      requires graph.Valid() && left != right
      requires MutuallyReferent(graph, left[..], right[..])
      requires ilhs < left.Length && seen.Length == right.Length
      requires left[ilhs] != UNUSED ==> seen[left[ilhs]]
      requires Trap(graph, right[..], trap)
      modifies left, right, seen
      ensures forall r :: 0 <= r < seen.Length && old(seen[r]) ==> seen[r]
      ensures !found ==> left[..] == old(left[..]) && right[..] == old(right[..])
      ensures !found ==> Exhausted(graph, right[..], ilhs, old(seen[..]), seen[..])
      ensures found ==>
                Augmented(graph, ilhs, old(left[..]), old(right[..]), old(seen[..]), left[..], right[..], trap)
      ensures found ==> !Confined(graph, ilhs, trap)
      decreases UnseenSet(seen[..])
    {
      ghost var left0, right0, seen0 := left[..], right[..], seen[..];
      for irhs := 0 to graph.rhsSize
        invariant left[..] == left0 && right[..] == right0
        invariant forall r :: 0 <= r < seen.Length && seen0[r] ==> seen[r]
        invariant forall r :: 0 <= r < irhs && graph.Edge(ilhs, r) ==> seen[r]
        invariant Swept(graph, right0, seen0, seen[..])
      {
        if seen[irhs] { continue; }
        if !graph.HasEdge(ilhs, irhs) { continue; }
        ghost var before := seen[..];
        seen[irhs] := true;
        ghost var marked := seen[..];
        assert marked == before[irhs := true];
        var augmented := right[irhs] == UNUSED;
        if augmented {
          AugmentAtSink(graph, ilhs, irhs, left0, right0, seen0, trap);
        } else {
          assert irhs in UnseenSet(seen0) && UnseenSet(marked) <= UnseenSet(seen0);
          augmented := TryAugment(right[irhs], seen, trap);
          if augmented {
            assert irhs !in trap;
            AugmentThrough(graph, ilhs, irhs, left0, right0, seen0, marked, left[..], right[..], trap);
          } else {
            SweptExtends(graph, right0, seen0, before, irhs, seen[..]);
          }
        }
        if augmented {
          left[ilhs] := irhs;
          right[irhs] := ilhs;
          return true;
        }
      }
      return false;
    }

    /** Searches every left node once and returns the pairs found, in ascending order of left node. */
    method Compute() returns (result: seq<Pair>, ghost coverLhs: set<int>, ghost coverRhs: set<int>)
      requires graph.Valid() && left != right
      requires MutuallyReferent(graph, left[..], right[..])
      requires forall l :: 0 <= l < left.Length ==> left[l] == UNUSED
      modifies left, right
      ensures forall i, j :: 0 <= i < j < |result| ==> result[i].0 < result[j].0
      ensures IsMaximum(graph, PairSet(result)) && |PairSet(result)| == |result|
      ensures IsCover(graph, coverLhs, coverRhs) && |coverLhs| + |coverRhs| == |result|
    {
      ghost var trap: set<int> := {};
      for ilhs := 0 to graph.lhsSize
        invariant MutuallyReferent(graph, left[..], right[..])
        invariant forall l :: ilhs <= l < left.Length ==> left[l] == UNUSED
        invariant Trap(graph, right[..], trap)
        invariant Settled(graph, left[..], ilhs, trap)
      {
        ghost var left0, right0 := left[..], right[..];
        assert left[ilhs] == UNUSED;
        var seen := new bool[graph.rhsSize](_ => false);
        ghost var seen0 := seen[..];
        var found := TryAugment(ilhs, seen, trap);
        if found {
          TrapSurvives(graph, ilhs, left0, right0, seen0, left[..], right[..], trap);
        } else {
          TrapGrows(graph, ilhs, left0, right0, seen0, seen[..], trap);
          trap := trap + SeenSet(seen[..]);
        }
      }
      MaximumAtEnd(graph, left[..], right[..], trap);
      CoverAtEnd(graph, left[..], right[..], trap);
      coverLhs, coverRhs := Unconfined(graph, trap), trap;
      result := CollectPairs();
    }

    /** The second loop of Compute: the used left nodes with their partners. */
    method CollectPairs() returns (result: seq<Pair>)
      ensures forall i, j :: 0 <= i < j < |result| ==> result[i].0 < result[j].0
      ensures PairSet(result) == MatchedPairs(left[..]) && |PairSet(result)| == |result|
    {
      result := [];
      for ilhs := 0 to left.Length
        invariant forall i :: 0 <= i < |result| ==> result[i].0 < ilhs
        invariant forall i, j :: 0 <= i < j < |result| ==> result[i].0 < result[j].0
        invariant PairSet(result) == MatchedPairs(left[..ilhs])
      {
        var irhs := left[ilhs];
        assert left[..ilhs + 1] == left[..ilhs] + [irhs];
        MatchedPairsOfPrefix(left[..ilhs], irhs);
        if irhs == UNUSED { continue; }
        assert forall p :: p in PairSet(result + [(ilhs, irhs)]) <==> p in PairSet(result) || p == (ilhs, irhs);
        result := result + [(ilhs, irhs)];
      }
      assert left[..left.Length] == left[..];
      DistinctLefts(result);
    }
  }
}

/** Hall's marriage theorem for the matrix, both ways round. */
module HallsCondition {
  import opened BipartiteGraph
  import opened FiniteSets

  ghost predicate NextToLhs(g: MatchMatrix, ls: set<int>, r: int)
    requires g.Valid()
  {
    exists l :: l in ls && g.Edge(l, r)
  }

  ghost predicate NextToRhs(g: MatchMatrix, rs: set<int>, l: int)
    requires g.Valid()
  {
    exists r :: r in rs && g.Edge(l, r)
  }

  /** The right nodes next to a set of left nodes. */
  ghost function RhsOf(g: MatchMatrix, ls: set<int>): set<int>
    requires g.Valid()
  {
    set r | 0 <= r < g.rhsSize && NextToLhs(g, ls, r)
  }

  ghost function LhsOf(g: MatchMatrix, rs: set<int>): set<int>
    requires g.Valid()
  {
    set l | 0 <= l < g.lhsSize && NextToRhs(g, rs, l)
  }

  /** No set of elements has fewer matchers to choose from than it has elements. */
  ghost predicate HallLhs(g: MatchMatrix)
    requires g.Valid()
  {
    forall ls :: ls <= Range(g.lhsSize) ==> |RhsOf(g, ls)| >= |ls|
  }

  ghost predicate HallRhs(g: MatchMatrix)
    requires g.Valid()
  {
    forall rs :: rs <= Range(g.rhsSize) ==> |LhsOf(g, rs)| >= |rs|
  }

  /** A matching that saturates the left side gives each set of left nodes as many neighbours. */
  lemma SaturatedLhsMeansHall(g: MatchMatrix, m: set<Pair>)
    requires g.Valid() && IsMatching(g, m) && SaturatesLhs(g, m)
    ensures HallLhs(g)
  {
    forall ls | ls <= Range(g.lhsSize) ensures |RhsOf(g, ls)| >= |ls| {
      var part := set p | p in m && p.0 in ls;
      ProjectionSizes(g, part);
      forall l | l in ls ensures l in Lefts(part) {
        assert CoversLeft(m, l);
        var p: Pair :| p in m && p.0 == l;
        assert p in part;
      }
      assert Lefts(part) == ls;
      forall r | r in Rights(part) ensures r in RhsOf(g, ls) {
        var p: Pair :| p in part && p.1 == r;
        assert g.Edge(p.0, r) && NextToLhs(g, ls, r);
      }
      SubsetCardinality(Rights(part), RhsOf(g, ls));
    }
  }

  lemma SaturatedRhsMeansHall(g: MatchMatrix, m: set<Pair>)
    requires g.Valid() && IsMatching(g, m) && SaturatesRhs(g, m)
    ensures HallRhs(g)
  {
    forall rs | rs <= Range(g.rhsSize) ensures |LhsOf(g, rs)| >= |rs| {
      var part := set p | p in m && p.1 in rs;
      ProjectionSizes(g, part);
      forall r | r in rs ensures r in Rights(part) {
        assert CoversRight(m, r);
        var p: Pair :| p in m && p.1 == r;
        assert p in part;
      }
      assert Rights(part) == rs;
      forall l | l in Lefts(part) ensures l in LhsOf(g, rs) {
        var p: Pair :| p in part && p.0 == l;
        assert g.Edge(l, p.1) && NextToRhs(g, rs, l);
      }
      SubsetCardinality(Lefts(part), LhsOf(g, rs));
    }
  }

  /** A cover smaller than a side leaves out more nodes of that side than their neighbours. */
  lemma SmallCoverBreaksHall(g: MatchMatrix, ls: set<int>, rs: set<int>)
    requires g.Valid() && IsCover(g, ls, rs)
    ensures |ls| + |rs| < g.lhsSize ==> !HallLhs(g)
    ensures |ls| + |rs| < g.rhsSize ==> !HallRhs(g)
  {
    var outL, outR := Range(g.lhsSize) - ls, Range(g.rhsSize) - rs;
    assert Range(g.lhsSize) == outL + ls && Range(g.rhsSize) == outR + rs;
    SubsetCardinality(RhsOf(g, outL), rs);
    SubsetCardinality(LhsOf(g, outR), ls);
    assert |outL| == g.lhsSize - |ls| && |outR| == g.rhsSize - |rs|;
  }

  /** With a matching and a cover of one size, a side can be saturated exactly under Hall's condition. */
  lemma HallDecides(g: MatchMatrix, m: set<Pair>, ls: set<int>, rs: set<int>)
    requires g.Valid() && IsMatching(g, m) && IsCover(g, ls, rs) && |ls| + |rs| == |m|
    ensures HallLhs(g) <==> |m| >= g.lhsSize
    ensures HallRhs(g) <==> |m| >= g.rhsSize
  {
    SaturationBySize(g, m);
    SmallCoverBreaksHall(g, ls, rs);
    if |m| >= g.lhsSize {
      SaturatedLhsMeansHall(g, m);
    }
    if |m| >= g.rhsSize {
      SaturatedRhsMeansHall(g, m);
    }
  }
}

/** What UnorderedElementsAre, IsSupersetOf and IsSubsetOf decide. */
module UnorderedElements {
  import opened BipartiteGraph
  import opened FiniteSets
  import opened MaxBipartiteMatch
  import opened HallsCondition

  datatype UnorderedMatcherRequire = Superset | Subset | ExactMatch {
    /** The bit that asks for every matcher to be matched. */
    predicate SupersetBit() { this != Subset }

    /** The bit that asks for every element to be matched. */
    predicate SubsetBit() { this != Superset }
  }

  /** Some matching covers every side that the flags require. */
  ghost predicate Satisfiable(flags: UnorderedMatcherRequire, g: MatchMatrix)
    requires g.Valid()
  {
    exists m :: Satisfies(flags, g, m)
  }

  ghost predicate Satisfies(flags: UnorderedMatcherRequire, g: MatchMatrix, m: set<Pair>)
    requires g.Valid()
  {
    && IsMatching(g, m)
    && (flags.SupersetBit() ==> SaturatesRhs(g, m))
    && (flags.SubsetBit() ==> SaturatesLhs(g, m))
  }

  /** What each flag asks for: IsSupersetOf a match for every matcher, IsSubsetOf one for every element. */
  lemma FlagsMean(flags: UnorderedMatcherRequire, g: MatchMatrix)
    requires g.Valid()
    ensures flags == Superset ==> (Satisfiable(flags, g) <==> RhsSaturable(g))
    ensures flags == Subset ==> (Satisfiable(flags, g) <==> LhsSaturable(g))
    ensures flags == ExactMatch ==> (Satisfiable(flags, g) <==> BothSaturable(g))
  {
    if Satisfiable(flags, g) {
      var m :| Satisfies(flags, g, m);
      assert IsMatching(g, m);
    }
    if m :| IsMatching(g, m) && SaturatesRhs(g, m) && flags == Superset {
      assert Satisfies(flags, g, m);
    }
    if m :| IsMatching(g, m) && SaturatesLhs(g, m) && flags == Subset {
      assert Satisfies(flags, g, m);
    }
    if m :| IsMatching(g, m) && SaturatesLhs(g, m) && SaturatesRhs(g, m) && flags == ExactMatch {
      assert Satisfies(flags, g, m);
    }
  }

  ghost predicate HasLhsEdge(g: MatchMatrix, l: int) requires g.Valid() { exists r :: g.Edge(l, r) }

  ghost predicate HasRhsEdge(g: MatchMatrix, r: int) requires g.Valid() { exists l :: g.Edge(l, r) }

  ghost predicate NoIdleMatcher(g: MatchMatrix)
    requires g.Valid()
  {
    forall r :: 0 <= r < g.rhsSize ==> HasRhsEdge(g, r)
  }

  ghost predicate NoIdleElement(g: MatchMatrix)
    requires g.Valid()
  {
    forall l :: 0 <= l < g.lhsSize ==> HasLhsEdge(g, l)
  }

  /** The quick check: no required node is isolated. */
  ghost predicate NoIsolatedNode(flags: UnorderedMatcherRequire, g: MatchMatrix)
    requires g.Valid()
  {
    (flags.SupersetBit() ==> NoIdleMatcher(g)) && (flags.SubsetBit() ==> NoIdleElement(g))
  }

  /** The size of a maximum matching decides satisfiability. */
  lemma SatisfiableBySize(flags: UnorderedMatcherRequire, g: MatchMatrix, best: set<Pair>)
    requires g.Valid() && IsMaximum(g, best)
    ensures Satisfiable(flags, g) <==>
              && (flags.SupersetBit() ==> |best| >= g.rhsSize)
              && (flags.SubsetBit() ==> |best| >= g.lhsSize)
  {
    SaturationBySize(g, best);
    if Satisfiable(flags, g) {
      var m :| Satisfies(flags, g, m);
      SaturationBySize(g, m);
    } else {
      assert !Satisfies(flags, g, best);
    }
  }

  /** The quick check never rejects a satisfiable matrix. */
  lemma QuickCheckIsSound(flags: UnorderedMatcherRequire, g: MatchMatrix)
    requires g.Valid() && Satisfiable(flags, g)
    ensures NoIsolatedNode(flags, g)
  {
    var m: set<Pair> :| Satisfies(flags, g, m);
    if flags.SupersetBit() {
      forall r | 0 <= r < g.rhsSize ensures HasRhsEdge(g, r) {
        assert CoversRight(m, r);
        var p: Pair :| p in m && p.1 == r;
        assert g.Edge(p.0, r);
      }
    }
    if flags.SubsetBit() {
      forall l | 0 <= l < g.lhsSize ensures HasLhsEdge(g, l) {
        assert CoversLeft(m, l);
        var p: Pair :| p in m && p.0 == l;
        assert g.Edge(l, p.1);
      }
    }
  }

  /** It is only a necessary condition: two elements may compete for one matcher. */
  lemma QuickCheckIsNotComplete()
    ensures var g := MatchMatrix(2, 2, [[true, false], [true, true]]);
            var h := MatchMatrix(2, 1, [[true], [true]]);
            && g.Valid() && h.Valid()
            && NoIsolatedNode(Subset, h) && !Satisfiable(Subset, h)
            && Satisfiable(ExactMatch, g)
  {
    var h := MatchMatrix(2, 1, [[true], [true]]);
    assert h.Edge(0, 0) && h.Edge(1, 0);
    if Satisfiable(Subset, h) {
      var m :| Satisfies(Subset, h, m);
      SaturationBySize(h, m);
      assert false;
    }
    var g := MatchMatrix(2, 2, [[true, false], [true, true]]);
    var m: set<Pair> := {(0, 0), (1, 1)};
    assert g.Edge(0, 0) && g.Edge(1, 1);
    assert (0, 0) in m && (1, 1) in m;
    assert IsMatching(g, m);
    assert SaturatesLhs(g, m) && SaturatesRhs(g, m) by {
      assert |m| == 2;
      SaturationBySize(g, m);
    }
    assert Satisfies(ExactMatch, g, m);
  }

  method VerifyMatchMatrix(flags: UnorderedMatcherRequire, matrix: MatchMatrix) returns (result: bool)
    requires matrix.Valid()
    ensures result <==> NoIsolatedNode(flags, matrix)
    ensures flags == Superset ==> (result <==> NoIdleMatcher(matrix))
    ensures flags == Subset ==> (result <==> NoIdleElement(matrix))
    ensures flags == ExactMatch ==> (result <==> NoIdleMatcher(matrix) && NoIdleElement(matrix))
  {
    result := true;
    var elementMatched := new bool[matrix.lhsSize](_ => false);
    var matcherMatched := new bool[matrix.rhsSize](_ => false);
    for ilhs := 0 to matrix.lhsSize
      invariant forall l :: 0 <= l < ilhs ==> (elementMatched[l] <==> HasLhsEdge(matrix, l))
      invariant forall l :: ilhs <= l < elementMatched.Length ==> !elementMatched[l]
      invariant forall r :: 0 <= r < matcherMatched.Length ==>
                  (matcherMatched[r] <==> exists l :: 0 <= l < ilhs && matrix.Edge(l, r))
    {
      for irhs := 0 to matrix.rhsSize
        invariant forall l :: 0 <= l < ilhs ==> (elementMatched[l] <==> HasLhsEdge(matrix, l))
        invariant forall l :: ilhs < l < elementMatched.Length ==> !elementMatched[l]
        invariant elementMatched[ilhs] <==> exists r :: 0 <= r < irhs && matrix.Edge(ilhs, r)
        invariant forall r :: 0 <= r < irhs ==>
                    (matcherMatched[r] <==> exists l :: 0 <= l < ilhs + 1 && matrix.Edge(l, r))
        invariant forall r :: irhs <= r < matcherMatched.Length ==>
                    (matcherMatched[r] <==> exists l :: 0 <= l < ilhs && matrix.Edge(l, r))
      {
        var matched := matrix.HasEdge(ilhs, irhs);
        assert matched <==> matrix.Edge(ilhs, irhs);
        elementMatched[ilhs] := elementMatched[ilhs] || matched;
        matcherMatched[irhs] := matcherMatched[irhs] || matched;
      }
      assert elementMatched[ilhs] <==> HasLhsEdge(matrix, ilhs);
    }
    assert forall r :: 0 <= r < matcherMatched.Length ==> (matcherMatched[r] <==> HasRhsEdge(matrix, r));
    if flags.SupersetBit() {
      for mi := 0 to matcherMatched.Length
        invariant result <==> forall r :: 0 <= r < mi ==> HasRhsEdge(matrix, r)
      {
        if matcherMatched[mi] { continue; }
        result := false;
      }
    }
    if flags.SubsetBit() {
      ghost var supersetOk := result;
      for ei := 0 to elementMatched.Length
        invariant result <==> supersetOk && forall l :: 0 <= l < ei ==> HasLhsEdge(matrix, l)
      {
        if elementMatched[ei] { continue; }
        result := false;
      }
    }
  }

  /** Hall's condition on every side that the flags require. */
  ghost predicate HallHolds(flags: UnorderedMatcherRequire, g: MatchMatrix)
    requires g.Valid()
  {
    (flags.SupersetBit() ==> HallRhs(g)) && (flags.SubsetBit() ==> HallLhs(g))
  }

  /** The quick check is Hall's condition for sets of one node. */
  lemma QuickCheckIsHallForOne(flags: UnorderedMatcherRequire, g: MatchMatrix)
    requires g.Valid()
    ensures NoIsolatedNode(flags, g) <==>
              && (flags.SupersetBit() ==> forall r :: 0 <= r < g.rhsSize ==> |LhsOf(g, {r})| >= |{r}|)
              && (flags.SubsetBit() ==> forall l :: 0 <= l < g.lhsSize ==> |RhsOf(g, {l})| >= |{l}|)
  {
    forall l | 0 <= l < g.lhsSize ensures HasLhsEdge(g, l) <==> |RhsOf(g, {l})| >= 1 {
      if r :| g.Edge(l, r) {
        assert r in RhsOf(g, {l});
      } else {
        assert RhsOf(g, {l}) == {};
      }
    }
    forall r | 0 <= r < g.rhsSize ensures HasRhsEdge(g, r) <==> |LhsOf(g, {r})| >= 1 {
      if l :| g.Edge(l, r) {
        assert l in LhsOf(g, {r});
      } else {
        assert LhsOf(g, {r}) == {};
      }
    }
  }

  method FindPairing(flags: UnorderedMatcherRequire, matrix: MatchMatrix) returns (result: bool)
    requires matrix.Valid()
    ensures result <==> Satisfiable(flags, matrix)
    ensures result <==> HallHolds(flags, matrix)
    ensures flags == Superset ==> (result <==> RhsSaturable(matrix))
    ensures flags == Subset ==> (result <==> LhsSaturable(matrix))
    ensures flags == ExactMatch ==> (result <==> BothSaturable(matrix))
  {
    FlagsMean(flags, matrix);
    var state := new MaxBipartiteMatchState(matrix);
    var matches, coverLhs, coverRhs := state.Compute();
    HallDecides(matrix, PairSet(matches), coverLhs, coverRhs);
    SatisfiableBySize(flags, matrix, PairSet(matches));
    var maxFlow := |matches|;
    if flags.SupersetBit() && maxFlow < matrix.rhsSize {
      return false;
    }
    if flags.SubsetBit() && maxFlow < matrix.lhsSize {
      return false;
    }
    return true;
  }

  /** The size test and the quick check in front of the search do not change the verdict. */
  method MatchAndExplain(flags: UnorderedMatcherRequire, matrix: MatchMatrix) returns (result: bool)
    requires matrix.Valid()
    ensures result <==> Satisfiable(flags, matrix)
    ensures flags == Superset ==> (result <==> RhsSaturable(matrix))
    ensures flags == Subset ==> (result <==> LhsSaturable(matrix))
    ensures flags == ExactMatch ==> (result <==> BothSaturable(matrix))
  {
    FlagsMean(flags, matrix);
    if matrix.lhsSize == 0 && matrix.rhsSize == 0 {
      assert Satisfies(flags, matrix, {});
      return true;
    }
    if flags == ExactMatch && matrix.lhsSize != matrix.rhsSize {
      if Satisfiable(flags, matrix) {
        ghost var m :| Satisfies(flags, matrix, m);
        SaturationBySize(matrix, m);
      }
      return false;
    }
    if Satisfiable(flags, matrix) {
      QuickCheckIsSound(flags, matrix);
    }
    var plausible := VerifyMatchMatrix(flags, matrix);
    if !plausible {
      return false;
    }
    result := FindPairing(flags, matrix);
  }
}
