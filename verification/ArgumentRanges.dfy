// Benchmark arguments: the spaced range list, and the product of several such lists.

module ArgumentRanges {

  function Pow(base: nat, e: nat): nat {
    if e == 0 then 1 else base * Pow(base, e - 1)
  }

  ghost predicate IsPower(base: nat, x: int) {
    exists e: nat :: Pow(base, e) == x
  }

  ghost predicate Ascending(s: seq<int>) {
    forall i, j :: 0 <= i < j < |s| ==> s[i] < s[j]
  }

  /** What AddRange appends: the bounds, and the powers strictly between them that it gets to see. */
  ghost predicate IsRangeList(s: seq<int>, lo: int, hi: int, mult: int, kmax: int)
    requires mult > 0
  {
    && Ascending(s)
    && s != [] && s[0] == lo && s[|s| - 1] == hi
    && forall x :: x in s <==> x == lo || x == hi || Between(x, lo, hi, mult, kmax)
  }

  ghost predicate Between(x: int, lo: int, hi: int, mult: int, kmax: int)
    requires mult > 0
  {
    lo < x < hi && x < kmax / mult && IsPower(mult, x)
  }

  lemma {:induction false} PowMonotone(base: nat, d: nat, e: nat)
    requires base >= 2 && d < e
    ensures Pow(base, d) < Pow(base, e)
    decreases e
  {
    PowPositive(base, e - 1);
    assert Pow(base, e) == base * Pow(base, e - 1);
    TwiceAtMost(base, Pow(base, e - 1));
    if d < e - 1 {
      PowMonotone(base, d, e - 1);
    }
  }

  lemma TwiceAtMost(base: nat, p: nat)
    requires base >= 2
    ensures base * p >= 2 * p
  {
  }

  lemma {:induction false} PowPositive(base: nat, e: nat)
    requires base >= 2
    ensures Pow(base, e) >= 1
  {
    if e > 0 {
      PowPositive(base, e - 1);
      TwiceAtMost(base, Pow(base, e - 1));
    }
  }

  /** A number below floor(kmax / mult) can be multiplied by mult without exceeding kmax. */
  lemma NoOverflow(i: nat, mult: nat, kmax: nat)
    requires mult > 0 && i < kmax / mult
    ensures i * mult <= kmax
  {
    assert (kmax / mult) * mult <= kmax;
    ProductOrder(i, kmax / mult, mult);
  }

  lemma ProductOrder(i: nat, j: nat, m: nat)
    requires i <= j
    ensures i * m <= j * m
  {
  }

  /** `kmax` is the largest value of the argument type. */
  method AddRange(dst: seq<int>, lo: int, hi: int, mult: int, kmax: int) returns (longer: seq<int>)
    requires 0 <= lo <= hi <= kmax && mult >= 2
    ensures dst <= longer && IsRangeList(longer[|dst|..], lo, hi, mult, kmax)
  {
    longer := dst + [lo];
    ghost var added := [lo];
    var i := 1;
    ghost var e: nat := 0;
    while i < kmax / mult
      invariant i == Pow(mult, e) && i >= 1
      invariant longer == dst + added
      invariant Ascending(added) && added != [] && added[0] == lo
      invariant hi == lo ==> |added| == 1
      invariant forall k :: 0 < k < |added| ==> Between(added[k], lo, hi, mult, kmax) && added[k] < i
      invariant forall d: nat :: d < e && Between(Pow(mult, d), lo, hi, mult, kmax) ==> Pow(mult, d) in added
      decreases kmax - i
    {
      if i >= hi {
        break;
      }
      if i > lo {
        assert IsPower(mult, i);
        longer := longer + [i];
        added := added + [i];
      }
      NoOverflow(i, mult, kmax);
      PowMonotone(mult, e, e + 1);
      assert Pow(mult, e + 1) == mult * i;
      i := i * mult;
      e := e + 1;
    }
    forall x | Between(x, lo, hi, mult, kmax) ensures x in added {
      var d: nat :| Pow(mult, d) == x;
      if d >= e {
        if d > e {
          PowMonotone(mult, e, d);
        }
        assert false;
      }
    }
    assert forall k :: 0 <= k < |added| && lo != hi ==> added[k] < hi;
    if hi != lo {
      longer := longer + [hi];
      added := added + [hi];
    }
    assert longer[|dst|..] == added;
  }

  /** The contract of AddRange leaves one list only. */
  lemma RangeListUnique(s: seq<int>, t: seq<int>, lo: int, hi: int, mult: int, kmax: int)
    requires mult > 0 && IsRangeList(s, lo, hi, mult, kmax) && IsRangeList(t, lo, hi, mult, kmax)
    ensures s == t
  {
    AscendingUnique(s, t);
  }

  lemma {:induction false} AscendingUnique(s: seq<int>, t: seq<int>)
    requires Ascending(s) && Ascending(t) && forall x :: x in s <==> x in t
    ensures s == t
  {
    if t != [] {
      assert t[|t| - 1] in t;
    }
    if s != [] {
      var s', x := s[..|s| - 1], s[|s| - 1];
      assert x in t;
      var t', y := t[..|t| - 1], t[|t| - 1];
      assert y in s;
      assert x == y;
      forall z ensures z in s' <==> z in t' {
        assert z in s' <==> z in s && z != x;
        assert z in t' <==> z in t && z != y;
      }
      AscendingUnique(s', t');
      assert s == s' + [x] && t == t' + [y];
    }
  }

  // ---- which powers the loop does not get to -----------------------------------------------------

  /** The least power of `mult` from `p` on that is at least `bound`. */
  function PowerFrom(mult: nat, p: nat, bound: int): (q: nat)
    requires mult >= 2 && p >= 1
    ensures q >= bound && q >= p
    decreases bound - p
  {
    if p >= bound then p else
      assert mult * p > p by { TwiceAtMost(mult, p); }
      PowerFrom(mult, mult * p, bound)
  }

  /** The first power that the loop never appends. */
  function FirstLeftOut(mult: nat, kmax: nat): nat
    requires mult >= 2
  {
    PowerFrom(mult, 1, kmax / mult)
  }

  lemma {:induction false} PowerFromIsLeast(mult: nat, d: nat, bound: int) returns (e: nat)
    requires mult >= 2 && Pow(mult, d) >= 1
    ensures e >= d && PowerFrom(mult, Pow(mult, d), bound) == Pow(mult, e)
    ensures forall c: nat :: d <= c ==> (Pow(mult, c) >= bound <==> c >= e)
    decreases bound - Pow(mult, d)
  {
    var p := Pow(mult, d);
    PowMonotone(mult, d, d + 1);
    if p >= bound {
      e := d;
      AllFrom(mult, d, bound);
    } else {
      PowerFromNext(mult, d, bound);
      e := PowerFromIsLeast(mult, d + 1, bound);
    }
  }

  lemma PowerFromNext(mult: nat, d: nat, bound: int)
    requires mult >= 2 && 1 <= Pow(mult, d) < bound && Pow(mult, d + 1) >= 1
    ensures PowerFrom(mult, Pow(mult, d), bound) == PowerFrom(mult, Pow(mult, d + 1), bound)
  {
  }

  lemma AllFrom(mult: nat, d: nat, bound: int)
    requires mult >= 2 && Pow(mult, d) >= bound
    ensures forall c: nat :: d <= c ==> Pow(mult, c) >= bound
  {
    forall c: nat | d <= c ensures Pow(mult, c) >= bound {
      if c > d {
        PowMonotone(mult, d, c);
      }
    }
  }

  /**
    * Every power strictly between the bounds is listed, unless one of the two powers that lie between
    * floor(kmax / mult) and kmax does.
    */
  lemma ListsEveryPowerExactly(s: seq<int>, lo: int, hi: int, mult: int, kmax: int)
    requires 0 <= lo <= hi <= kmax && mult >= 2 && IsRangeList(s, lo, hi, mult, kmax)
    ensures var q := FirstLeftOut(mult, kmax);
            (forall x :: lo < x < hi && IsPower(mult, x) ==> x in s) <==> !(lo < q < hi) && !(lo < mult * q < hi)
  {
    var q := FirstLeftOut(mult, kmax);
    assert Pow(mult, 0) == 1;
    var e := PowerFromIsLeast(mult, 0, kmax / mult);
    assert Pow(mult, e + 1) == mult * q;
    PowMonotone(mult, e, e + 1);
    assert IsPower(mult, q) && IsPower(mult, mult * q);
    forall x | lo < x < hi && IsPower(mult, x) ensures x in s || x == q || x == mult * q {
      var d: nat :| Pow(mult, d) == x;
      if d >= e + 2 {
        PastTheTop(mult, e, d, kmax);
      }
    }
  }

  /** The third such power is beyond the type. */
  lemma PastTheTop(mult: nat, e: nat, d: nat, kmax: nat)
    requires mult >= 2 && Pow(mult, e) >= kmax / mult && d >= e + 2
    ensures Pow(mult, d) > kmax
  {
    PowPositive(mult, e);
    BeyondTop(mult, Pow(mult, e), kmax);
    if d > e + 2 {
      PowMonotone(mult, e + 2, d);
    }
  }

  lemma BeyondTop(mult: nat, q: nat, kmax: nat)
    requires mult >= 2 && q >= 1 && q >= kmax / mult
    ensures mult * (mult * q) > kmax
  {
    ProductOrder(kmax / mult, q, mult);
    ProductOrder(1, q, mult);
    assert kmax < (kmax / mult) * mult + mult;
    TwiceAtMost(mult, mult * q);
    assert mult * q == q * mult;
  }

  const INT64_MAX: nat := 0x7FFF_FFFF_FFFF_FFFF

  /** With 64-bit arguments and multiplier 2 the only power left out is 2^62. */
  lemma Int64PowersOfTwo(s: seq<int>, lo: int, hi: int)
    requires 0 <= lo <= hi <= INT64_MAX && IsRangeList(s, lo, hi, 2, INT64_MAX)
    ensures (forall x :: lo < x < hi && IsPower(2, x) ==> x in s) <==> !(lo < 0x4000_0000_0000_0000 < hi)
  {
    PowersOfTwo();
    assert Pow(2, 0) == 1;
    var e := PowerFromIsLeast(2, 0, INT64_MAX / 2);
    assert Pow(2, 62) == 2 * Pow(2, 61);
    assert e == 62;
    ListsEveryPowerExactly(s, lo, hi, 2, INT64_MAX);
  }

  /** For instance from 0 to the largest value. */
  lemma LargestPowerLeftOut(s: seq<int>)
    requires IsRangeList(s, 0, INT64_MAX, 2, INT64_MAX)
    ensures IsPower(2, 0x4000_0000_0000_0000) && 0x4000_0000_0000_0000 !in s
  {
    PowersOfTwo();
    assert Pow(2, 62) == 0x4000_0000_0000_0000;
  }

  lemma PowersOfTwo()
    ensures Pow(2, 62) == 0x4000_0000_0000_0000
  {
    assert Pow(2, 8) == 0x100;
    PowSum(2, 8, 8);
    PowSum(2, 16, 16);
    PowSum(2, 32, 16);
    PowSum(2, 48, 8);
    assert Pow(2, 6) == 64;
    PowSum(2, 56, 6);
  }

  lemma {:induction false} PowSum(base: nat, d: nat, e: nat)
    ensures Pow(base, d + e) == Pow(base, d) * Pow(base, e)
    decreases e
  {
    if e > 0 {
      PowSum(base, d, e - 1);
      assert Pow(base, d + e) == base * Pow(base, d + (e - 1));
      Shuffle(base, Pow(base, d), Pow(base, e - 1));
    }
  }

  lemma Shuffle(b: int, x: int, y: int)
    ensures b * (x * y) == x * (b * y)
  {
  }
}

module ArgumentProduct {
  import opened ArgumentRanges

  function Product(sizes: seq<nat>): nat {
    if sizes == [] then 1 else sizes[0] * Product(sizes[1..])
  }

  lemma {:induction false} ProductAppend(sizes: seq<nat>, n: nat)
    ensures Product(sizes + [n]) == Product(sizes) * n
  {
    if sizes == [] {
      assert sizes + [n] == [n];
      assert Product([n]) == n * Product([]);
    } else {
      assert (sizes + [n])[1..] == sizes[1..] + [n];
      ProductAppend(sizes[1..], n);
      Associate(sizes[0], Product(sizes[1..]), n);
    }
  }

  lemma Associate(x: int, y: int, z: int)
    ensures x * (y * z) == (x * y) * z
  {
  }

  /** A counter vector has one digit per list, each an index of that list. */
  predicate IsCounter(sizes: seq<nat>, c: seq<nat>) {
    |c| == |sizes| && forall j :: 0 <= j < |c| ==> c[j] < sizes[j]
  }

  /** The number a counter vector stands for: mixed radix, first digit least significant. */
  ghost function Rank(sizes: seq<nat>, c: seq<nat>): nat
    requires |c| == |sizes|
  {
    if c == [] then 0 else c[0] + sizes[0] * Rank(sizes[1..], c[1..])
  }

  /** One turn of the odometer: the first digit that can go up does, and those before it restart. */
  ghost function Next(sizes: seq<nat>, c: seq<nat>): (next: seq<nat>)
    requires |c| == |sizes|
    ensures |next| == |c|
  {
    if c == [] then
      []
    else if c[0] + 1 < sizes[0] then
      [c[0] + 1] + c[1..]
    else
      [0] + Next(sizes[1..], c[1..])
  }

  lemma TailIsCounter(sizes: seq<nat>, c: seq<nat>)
    requires IsCounter(sizes, c) && c != []
    ensures c[0] < sizes[0] && IsCounter(sizes[1..], c[1..])
  {
  }

  lemma {:induction false} RankBelowProduct(sizes: seq<nat>, c: seq<nat>)
    requires IsCounter(sizes, c)
    ensures Rank(sizes, c) < Product(sizes)
  {
    if c != [] {
      TailIsCounter(sizes, c);
      RankBelowProduct(sizes[1..], c[1..]);
      DigitsFit(c[0], sizes[0], Rank(sizes[1..], c[1..]), Product(sizes[1..]));
    }
  }

  lemma DigitsFit(d: nat, n: nat, r: nat, p: nat)
    requires d < n && r < p
    ensures d + n * r < n * p
  {
    assert n * r + n == n * (r + 1);
    RightFactor(n, r + 1, p);
  }

  lemma RightFactor(n: nat, x: nat, y: nat)
    requires x <= y
    ensures n * x <= n * y
  {
  }

  /** Different counter vectors stand for different numbers. */
  lemma {:induction false} RankIsInjective(sizes: seq<nat>, c: seq<nat>, d: seq<nat>)
    requires IsCounter(sizes, c) && IsCounter(sizes, d) && Rank(sizes, c) == Rank(sizes, d)
    ensures c == d
  {
    if c != [] {
      TailIsCounter(sizes, c);
      TailIsCounter(sizes, d);
      DigitsUnique(sizes[0], c[0], Rank(sizes[1..], c[1..]), d[0], Rank(sizes[1..], d[1..]));
      RankIsInjective(sizes[1..], c[1..], d[1..]);
      assert c == [c[0]] + c[1..] && d == [d[0]] + d[1..];
    }
  }

  lemma DigitsUnique(n: nat, d: nat, r: nat, e: nat, s: nat)
    requires d < n && e < n && d + n * r == e + n * s
    ensures d == e && r == s
  {
    if r < s {
      OneMoreTurn(n, r, s);
    } else if s < r {
      OneMoreTurn(n, s, r);
    }
  }

  lemma OneMoreTurn(n: nat, r: nat, s: nat)
    requires r < s
    ensures n * r + n <= n * s
  {
    assert n * (r + 1) == n * r + n;
    RightFactor(n, r + 1, s);
  }

  /** The odometer counts: one turn adds one, and the turn after the last number gives zero. */
  lemma {:induction false} NextCounts(sizes: seq<nat>, c: seq<nat>)
    requires IsCounter(sizes, c)
    ensures IsCounter(sizes, Next(sizes, c))
    ensures Rank(sizes, Next(sizes, c))
         == if Rank(sizes, c) + 1 < Product(sizes) then Rank(sizes, c) + 1 else 0
  {
    if c != [] {
      TailIsCounter(sizes, c);
      var n, r, p := sizes[0], Rank(sizes[1..], c[1..]), Product(sizes[1..]);
      RankBelowProduct(sizes[1..], c[1..]);
      var next := Next(sizes, c);
      if c[0] + 1 < n {
        assert next[1..] == c[1..];
        DigitsFit(c[0] + 1, n, r, p);
      } else {
        NextCounts(sizes[1..], c[1..]);
        assert next[1..] == Next(sizes[1..], c[1..]);
        Carry(c[0], n, r, p);
        assert IsCounter(sizes, next) by {
          forall j | 0 <= j < |next| ensures next[j] < sizes[j] {
            if j > 0 {
              assert next[j] == next[1..][j - 1] && sizes[j] == sizes[1..][j - 1];
            }
          }
        }
      }
    }
  }

  lemma Carry(d: nat, n: nat, r: nat, p: nat)
    requires d + 1 == n && r < p
    ensures (d + n * r) + 1 == n * (r + 1)
    ensures r + 1 < p ==> (d + n * r) + 1 < n * p
    ensures r + 1 == p ==> (d + n * r) + 1 == n * p
    ensures n * 0 == 0
  {
    if r + 1 < p {
      RightFactor(n, r + 2, p);
      assert n * (r + 2) == n * (r + 1) + n;
    }
  }

  lemma {:induction false} ZeroRank(sizes: seq<nat>, c: seq<nat>)
    requires |c| == |sizes| && forall j :: 0 <= j < |c| ==> c[j] == 0
    ensures Rank(sizes, c) == 0
  {
    if c != [] {
      ZeroRank(sizes[1..], c[1..]);
    }
  }

  function Sizes(lists: seq<seq<int>>): (sizes: seq<nat>)
    ensures |sizes| == |lists| && forall j :: 0 <= j < |lists| ==> sizes[j] == |lists[j]|
  {
    seq(|lists|, j requires 0 <= j < |lists| => |lists[j]|)
  }

  /** The tuple a counter vector picks out of the lists. */
  function Pick(lists: seq<seq<int>>, c: seq<nat>): (tuple: seq<int>)
    requires IsCounter(Sizes(lists), c)
    ensures |tuple| == |lists| && forall j :: 0 <= j < |lists| ==> tuple[j] == lists[j][c[j]]
  {
    seq(|lists|, j requires 0 <= j < |lists| => lists[j][c[j]])
  }

  /** Membership in the Cartesian product. */
  ghost predicate InProduct(lists: seq<seq<int>>, tuple: seq<int>) {
    |tuple| == |lists| && forall j :: 0 <= j < |lists| ==> tuple[j] in lists[j]
  }

  /** All tuples in odometer order: the first list varies fastest. */
  ghost predicate Enumerates(lists: seq<seq<int>>, tuples: seq<seq<int>>) {
    && |tuples| == Product(Sizes(lists))
    && EnumeratesBelow(lists, tuples, |tuples|)
  }

  ghost predicate EnumeratesBelow(lists: seq<seq<int>>, tuples: seq<seq<int>>, n: nat) {
    forall c :: IsCounter(Sizes(lists), c) && Rank(Sizes(lists), c) < n ==>
      Rank(Sizes(lists), c) < |tuples| && tuples[Rank(Sizes(lists), c)] == Pick(lists, c)
  }

  /** The counter vector with a given number: every number below the product has one. */
  lemma {:induction false} CounterOf(sizes: seq<nat>, i: nat) returns (c: seq<nat>)
    requires i < Product(sizes)
    ensures IsCounter(sizes, c) && Rank(sizes, c) == i
  {
    if i == 0 {
      AllPositive(sizes);
      c := seq(|sizes|, _ => 0);
      ZeroRank(sizes, c);
    } else {
      var before := CounterOf(sizes, i - 1);
      NextCounts(sizes, before);
      c := Next(sizes, before);
    }
  }

  lemma {:induction false} AllPositive(sizes: seq<nat>)
    requires Product(sizes) > 0
    ensures forall j :: 0 <= j < |sizes| ==> sizes[j] > 0
  {
    if sizes != [] {
      NonzeroFactors(sizes[0], Product(sizes[1..]));
      AllPositive(sizes[1..]);
      forall j | 0 <= j < |sizes| ensures sizes[j] > 0 {
        if j > 0 {
          assert sizes[j] == sizes[1..][j - 1];
        }
      }
    }
  }

  lemma {:induction false} ProductPositive(sizes: seq<nat>)
    requires forall j :: 0 <= j < |sizes| ==> sizes[j] > 0
    ensures Product(sizes) > 0
  {
    if sizes != [] {
      ProductPositive(sizes[1..]);
      PositiveProduct(sizes[0], Product(sizes[1..]));
    }
  }

  lemma PositiveProduct(x: nat, y: nat)
    requires x > 0 && y > 0
    ensures x * y > 0
  {
  }

  lemma NonzeroFactors(x: nat, y: nat)
    requires x * y > 0
    ensures x > 0 && y > 0
  {
  }

  /** Every tuple of the Cartesian product appears exactly once, and nothing else appears. */
  lemma ExactlyOnce(lists: seq<seq<int>>, tuples: seq<seq<int>>, tuple: seq<int>)
    requires Enumerates(lists, tuples) && forall j :: 0 <= j < |lists| ==> Ascending(lists[j])
    ensures InProduct(lists, tuple) <==> tuple in tuples
    ensures forall i, k :: 0 <= i < |tuples| && 0 <= k < |tuples| && tuples[i] == tuples[k] ==> i == k
  {
    var sizes := Sizes(lists);
    if InProduct(lists, tuple) {
      var c := IndicesOf(lists, tuple);
      RankBelowProduct(sizes, c);
      assert tuples[Rank(sizes, c)] == tuple;
    }
    if tuple in tuples {
      var i: nat :| i < |tuples| && tuples[i] == tuple;
      var c := CounterOf(sizes, i);
      assert tuple == Pick(lists, c);
    }
    forall i, k | 0 <= i < |tuples| && 0 <= k < |tuples| && tuples[i] == tuples[k] ensures i == k {
      var c := CounterOf(sizes, i);
      var d := CounterOf(sizes, k);
      assert tuples[i] == Pick(lists, c) && tuples[k] == Pick(lists, d);
      PickIsInjective(lists, c, d);
    }
  }

  lemma IndicesOf(lists: seq<seq<int>>, tuple: seq<int>) returns (c: seq<nat>)
    requires InProduct(lists, tuple)
    ensures IsCounter(Sizes(lists), c) && Pick(lists, c) == tuple
  {
    c := [];
    for j := 0 to |lists|
      invariant |c| == j
      invariant forall k :: 0 <= k < j ==> c[k] < |lists[k]| && lists[k][c[k]] == tuple[k]
    {
      var k: nat :| k < |lists[j]| && lists[j][k] == tuple[j];
      c := c + [k];
    }
  }

  lemma PickIsInjective(lists: seq<seq<int>>, c: seq<nat>, d: seq<nat>)
    requires forall j :: 0 <= j < |lists| ==> Ascending(lists[j])
    requires IsCounter(Sizes(lists), c) && IsCounter(Sizes(lists), d) && Pick(lists, c) == Pick(lists, d)
    ensures c == d
  {
    forall j | 0 <= j < |lists| ensures c[j] == d[j] {
      assert Ascending(lists[j]);
      assert lists[j][c[j]] == Pick(lists, c)[j] == Pick(lists, d)[j] == lists[j][d[j]];
    }
  }

  /** One single-argument tuple for each of the first n values. */
  ghost function Singles(list: seq<int>, n: nat): (tuples: seq<seq<int>>)
    requires n <= |list|
    ensures |tuples| == n && forall i :: 0 <= i < n ==> tuples[i] == [list[i]]
  {
    if n == 0 then [] else Singles(list, n - 1) + [[list[n - 1]]]
  }

  ghost predicate AreRangeLists(lists: seq<seq<int>>, ranges: seq<(int, int)>, mult: int)
    requires mult > 0
  {
    && |lists| == |ranges|
    && forall j :: 0 <= j < |lists| ==> IsRangeList(lists[j], ranges[j].0, ranges[j].1, mult, INT64_MAX)
  }

  class Benchmark {
    var args: seq<seq<int>>
    var argNames: seq<string>
    var rangeMultiplier: int

    /** The number of arguments per run, or -1 while nothing fixes it. */
    function ArgsCnt(): int
      reads this
    {
      if args == [] then
        if argNames == [] then -1 else |argNames|
      else
        |args[0]|
    }

    method Range(start: int, limit: int) returns (ghost list: seq<int>)
      requires ArgsCnt() == -1 || ArgsCnt() == 1
      requires 0 <= start <= limit <= INT64_MAX && rangeMultiplier >= 2
      modifies this`args
      ensures IsRangeList(list, start, limit, rangeMultiplier, INT64_MAX)
      ensures ArgsCnt() == 1
      ensures args == old(args) + Singles(list, |list|)
    {
      var arglist := AddRange([], start, limit, rangeMultiplier, INT64_MAX);
      assert arglist[0..] == arglist;
      list := arglist;
      PushSingles(arglist);
    }

    method PushSingles(arglist: seq<int>)
      modifies this`args
      ensures args == old(args) + Singles(arglist, |arglist|)
    {
      for k := 0 to |arglist|
        invariant args == old(args) + Singles(arglist, k)
      {
        args := args + [[arglist[k]]];
      }
    }

    method Ranges(ranges: seq<(int, int)>) returns (ghost lists: seq<seq<int>>, ghost added: seq<seq<int>>)
      requires ArgsCnt() == -1 || ArgsCnt() == |ranges|
      requires rangeMultiplier >= 2
      requires forall j :: 0 <= j < |ranges| ==> 0 <= ranges[j].0 <= ranges[j].1 <= INT64_MAX
      modifies this`args
      ensures AreRangeLists(lists, ranges, rangeMultiplier)
      ensures args == old(args) + added && Enumerates(lists, added)
      ensures ArgsCnt() == |ranges|
    {
      var arglists, total := BuildLists(ranges, rangeMultiplier);
      var ctr := new nat[|arglists|](_ => 0);
      lists, added := arglists, [];
      ghost var sizes := Sizes(lists);
      ZeroRank(sizes, ctr[..]);
      for i := 0 to total
        invariant args == old(args) + added && |added| == i
        invariant IsCounter(sizes, ctr[..])
        invariant i < total ==> Rank(sizes, ctr[..]) == i
        invariant EnumeratesBelow(lists, added, i)
      {
        var tmp := PickTuple(arglists, ctr);
        NextEnumerated(lists, added, ctr[..]);
        args := args + [tmp];
        added := added + [tmp];
        NextCounts(sizes, ctr[..]);
        Advance(arglists, ctr);
      }
      ProductPositive(sizes);
      var first := CounterOf(sizes, 0);
      assert added[0] == Pick(lists, first);
    }
  }

  lemma NextEnumerated(lists: seq<seq<int>>, tuples: seq<seq<int>>, c: seq<nat>)
    requires IsCounter(Sizes(lists), c) && Rank(Sizes(lists), c) == |tuples|
    requires EnumeratesBelow(lists, tuples, |tuples|)
    ensures EnumeratesBelow(lists, tuples + [Pick(lists, c)], |tuples| + 1)
  {
    var sizes := Sizes(lists);
    forall d | IsCounter(sizes, d) && Rank(sizes, d) < |tuples| + 1
      ensures (tuples + [Pick(lists, c)])[Rank(sizes, d)] == Pick(lists, d)
    {
      if Rank(sizes, d) == |tuples| {
        RankIsInjective(sizes, c, d);
      }
    }
  }

  method BuildLists(ranges: seq<(int, int)>, mult: int) returns (lists: seq<seq<int>>, total: nat)
    requires mult >= 2 && forall j :: 0 <= j < |ranges| ==> 0 <= ranges[j].0 <= ranges[j].1 <= INT64_MAX
    ensures AreRangeLists(lists, ranges, mult) && total == Product(Sizes(lists))
    ensures forall j :: 0 <= j < |lists| ==> lists[j] != []
  {
    lists, total := [], 1;
    for i := 0 to |ranges|
      invariant |lists| == i && total == Product(Sizes(lists))
      invariant forall j :: 0 <= j < i ==> IsRangeList(lists[j], ranges[j].0, ranges[j].1, mult, INT64_MAX)
    {
      var list := AddRange([], ranges[i].0, ranges[i].1, mult, INT64_MAX);
      assert list[0..] == list;
      ProductAppend(Sizes(lists), |list|);
      assert Sizes(lists + [list]) == Sizes(lists) + [|list|];
      lists := lists + [list];
      total := total * |list|;
    }
  }

  method PickTuple(lists: seq<seq<int>>, ctr: array<nat>) returns (tmp: seq<int>)
    requires IsCounter(Sizes(lists), ctr[..])
    ensures tmp == Pick(lists, ctr[..])
  {
    tmp := [];
    for j := 0 to |lists|
      invariant |tmp| == j && forall k :: 0 <= k < j ==> tmp[k] == lists[k][ctr[..][k]]
    {
      assert ctr[..][j] == ctr[j];
      tmp := tmp + [lists[j][ctr[j]]];
    }
  }

  method Advance(lists: seq<seq<int>>, ctr: array<nat>)
    requires ctr.Length == |lists|
    modifies ctr
    ensures ctr[..] == Next(Sizes(lists), old(ctr[..]))
  {
    ghost var sizes, was := Sizes(lists), ctr[..];
    var j: nat := 0;
    while j < |lists|
      invariant j <= |lists|
      invariant forall k :: 0 <= k < j ==> ctr[k] == 0
      invariant forall k :: j <= k < |lists| ==> ctr[k] == was[k]
      invariant Restarted(sizes, was, j)
    {
      if ctr[j] + 1 < |lists[j]| {
        ctr[j] := ctr[j] + 1;
        StopsHere(sizes, was, j, ctr[..]);
        return;
      }
      ctr[j] := 0;
      j := j + 1;
    }
    AllRestarted(sizes, was, ctr[..]);
  }

  /** The first j digits are all at their last value. */
  ghost predicate Restarted(sizes: seq<nat>, c: seq<nat>, j: nat)
    requires j <= |c| == |sizes|
  {
    forall k :: 0 <= k < j ==> c[k] + 1 >= sizes[k]
  }

  lemma {:induction false} StopsHere(sizes: seq<nat>, c: seq<nat>, j: nat, now: seq<nat>)
    requires j < |c| == |sizes| == |now|
    requires Restarted(sizes, c, j) && c[j] + 1 < sizes[j]
    requires forall k :: 0 <= k < |c| ==> now[k] == if k < j then 0 else if k == j then c[j] + 1 else c[k]
    ensures now == Next(sizes, c)
  {
    if j == 0 {
      assert now == [c[0] + 1] + c[1..];
    } else {
      StopsHere(sizes[1..], c[1..], j - 1, now[1..]);
      assert now == [0] + now[1..];
    }
  }

  lemma {:induction false} AllRestarted(sizes: seq<nat>, c: seq<nat>, now: seq<nat>)
    requires |c| == |sizes| == |now| && Restarted(sizes, c, |c|)
    requires forall k :: 0 <= k < |c| ==> now[k] == 0
    ensures now == Next(sizes, c)
  {
    if c != [] {
      AllRestarted(sizes[1..], c[1..], now[1..]);
      assert now == [0] + now[1..];
    }
  }
}
