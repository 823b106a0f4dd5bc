// The probe sequence of the hash table and the set of slots it can reach.

module ProbeOrbit {
  import opened FiniteSets

  /** The triangular numbers (i^2 + i) / 2, by the increments the probe loops apply. */
  function Tri(i: nat): nat {
    if i == 0 then 0 else Tri(i - 1) + i
  }

  /** The position probed after `i` steps from hash `h` in a table of `m` slots. */
  function Probe(h: nat, m: nat, i: nat): (pos: nat)
    requires m > 0
  {
    (h + Tri(i)) % m
  }

  /** All slots that the first `m` probes visit. */
  ghost function Orbit(h: nat, m: nat): set<int>
    requires m > 0
  {
    set i | 0 <= i < m :: Probe(h, m, i)
  }

  // ---- arithmetic -----------------------------------------------------------------------------

  lemma {:induction false} TriClosedForm(i: nat)
    ensures 2 * Tri(i) == i * (i + 1)
  {
    if i > 0 {
      TriClosedForm(i - 1);
    }
  }

  lemma TriSum(i: nat, d: nat)
    ensures Tri(i + d) == Tri(i) + i * d + Tri(d)
  {
    TriClosedForm(i);
    TriClosedForm(d);
    TriClosedForm(i + d);
    calc {
      (i + d) * (i + d + 1);
      i * (i + 1) + 2 * (i * d) + d * (d + 1);
    }
  }

  lemma SmallMultiple(k: int, m: int)
    requires m > 0 && -m < k * m < m
    ensures k == 0
  {
    assert k >= 1 ==> k * m >= m;
    assert k <= -1 ==> k * m <= -m;
  }

  lemma UniqueDivision(d: int, r: int, d': int, r': int, m: int)
    requires m > 0 && d * m + r == d' * m + r' && 0 <= r < m && 0 <= r' < m
    ensures d == d' && r == r'
  {
    assert (d - d') * m == d * m - d' * m;
    SmallMultiple(d - d', m);
  }

  lemma Division(x: int, m: int)
    requires m > 0
    ensures x == (x / m) * m + x % m && 0 <= x % m < m
  {
  }

  lemma ModOfMultiple(x: int, q: int, m: int)
    requires m > 0
    ensures (x + q * m) % m == x % m
  {
    Division(x, m);
    Division(x + q * m, m);
    assert (x / m + q) * m == (x / m) * m + q * m;
    UniqueDivision(x / m + q, x % m, (x + q * m) / m, (x + q * m) % m, m);
  }

  lemma ModAdd(x: int, y: int, m: int)
    requires m > 0
    ensures (x % m + y) % m == (x + y) % m
  {
    Division(x, m);
    ModOfMultiple(x % m + y, x / m, m);
  }

  /** Two numbers closer than `m` with the same remainder are equal. */
  lemma ModSeparates(x: int, y: int, m: int)
    requires m > 0 && x % m == y % m && -m < x - y < m
    ensures x == y
  {
    Division(x, m);
    Division(y, m);
    assert (x / m - y / m) * m == (x / m) * m - (y / m) * m;
    SmallMultiple(x / m - y / m, m);
  }

  // ---- the probe loop -------------------------------------------------------------------------

  /** One turn of the probe loops: `i++; pos += i; pos = pos % table_count`. */
  lemma ProbeStep(h: nat, m: nat, i: nat)
    requires m > 0
    ensures (Probe(h, m, i) + (i + 1)) % m == Probe(h, m, i + 1)
  {
    ModAdd(h + Tri(i), i + 1, m);
  }

  lemma TriEven(x: nat)
    ensures Tri(2 * x) == x * (2 * x + 1)
  {
    TriClosedForm(2 * x);
    assert 2 * x * (2 * x + 1) == 2 * (x * (2 * x + 1));
  }

  lemma FullTurns(h: nat, m: nat, r: nat, t: nat)
    requires m > 0
    ensures Probe(h, m, r + 2 * (m * t)) == Probe(h, m, r)
  {
    var x := m * t;
    TriSum(r, 2 * x);
    TriEven(x);
    var q := 2 * (r * t) + t * (2 * x + 1);
    assert q * m == r * (2 * x) + x * (2 * x + 1) by { TurnProduct(m, t, r, 2 * x + 1); }
    ModOfMultiple(h + Tri(r), q, m);
  }

  lemma TurnProduct(m: int, t: int, r: int, z: int)
    ensures (2 * (r * t) + t * z) * m == r * (2 * (m * t)) + (m * t) * z
  {
    assert (2 * (r * t)) * m == r * (2 * (m * t));
    assert (t * z) * m == (m * t) * z;
  }

  lemma Reflected(h: nat, m: nat, j: nat)
    requires m > 0 && j < 2 * m
    ensures Probe(h, m, 2 * m - 1 - j) == Probe(h, m, j)
  {
    var r, q := 2 * m - 1 - j, 2 * m - 2 * j - 1;
    TriClosedForm(r);
    TriClosedForm(j);
    ReflectedProduct(m, j, r, q);
    ModOfMultiple(h + Tri(j), q, m);
  }

  lemma ReflectedProduct(m: int, j: int, r: int, q: int)
    requires r == 2 * m - 1 - j && q == 2 * m - 2 * j - 1
    ensures r * (r + 1) == j * (j + 1) + 2 * (q * m)
  {
    var mm, mj, jj := m * m, m * j, j * j;
    assert q * m == 2 * mm - 2 * mj - m;
    assert r * (r + 1) == 4 * mm - 4 * mj + jj - 2 * m + j;
  }

  /** Whatever slot is ever reached is reached within the first `m` probes. */
  lemma ReachedWithinTable(h: nat, m: nat, i: nat) returns (j: nat)
    requires m > 0
    ensures j < m && Probe(h, m, j) == Probe(h, m, i)
    ensures Probe(h, m, i) in Orbit(h, m)
  {
    var r, t := SplitTurns(i, m);
    FullTurns(h, m, r, t);
    if r < m {
      j := r;
    } else {
      j := 2 * m - 1 - r;
      Reflected(h, m, r);
    }
  }

  lemma {:induction false} SplitTurns(i: nat, m: nat) returns (r: nat, t: nat)
    requires m > 0
    ensures r < 2 * m && i == r + 2 * (m * t)
    decreases i
  {
    if i < 2 * m {
      r, t := i, 0;
    } else {
      r, t := SplitTurns(i - 2 * m, m);
      assert m * (t + 1) == m * t + m;
      t := t + 1;
    }
  }

  // ---- which residues are triangular ----------------------------------------------------------

  /** 2^k * 3^n: the sizes a table takes that starts at a power of two and grows by HM_EXPAND_FACTOR. */
  function Smooth(k: nat, n: nat): (m: nat)
    ensures m > 0
  {
    if k > 0 then 2 * Smooth(k - 1, n) else if n > 0 then 3 * Smooth(0, n - 1) else 1
  }

  lemma {:induction false} GrowthKeepsSmooth(k: nat, n: nat)
    ensures Smooth(k, n + 1) == 3 * Smooth(k, n)
  {
    if k > 0 {
      GrowthKeepsSmooth(k - 1, n);
    }
  }

  /** a * Tri(y) + c * y: every quadratic needed below. */
  function Quad(a: int, c: int, y: nat): int {
    a * Tri(y) + c * y
  }

  function Slope(a: int, c: int, y: nat, x: nat): int {
    2 * (a * y) + a * (2 * x + 1) + 2 * c
  }

  lemma QuadStep(a: int, c: int, y: nat, x: nat)
    ensures Quad(a, c, y + 2 * x) == Quad(a, c, y) + x * Slope(a, c, y, x)
  {
    TriSum(y, 2 * x);
    TriEven(x);
    QuadAlgebra(a, c, y, x, Tri(y), 2 * x + 1);
  }

  lemma QuadAlgebra(a: int, c: int, y: int, x: int, t: int, z: int)
    ensures a * (t + y * (2 * x) + x * z) + c * (y + 2 * x) == a * t + c * y + x * (2 * (a * y) + a * z + 2 * c)
  {
    Distribute3(a, t, y * (2 * x), x * z);
    Distribute3(x, 2 * (a * y), a * z, 2 * c);
    Rotate(a, x, z);
    Rotate(a, 2 * x, y);
    assert (2 * x) * (a * y) == x * (2 * (a * y));
    assert c * (y + 2 * x) == c * y + x * (2 * c);
  }

  lemma Rotate(a: int, x: int, z: int)
    ensures a * (x * z) == x * (a * z)
    ensures a * (z * x) == x * (a * z)
  {
  }

  lemma Distribute3(x: int, u: int, v: int, w: int)
    ensures x * (u + v + w) == x * u + x * v + x * w
  {
  }

  lemma SlopeParity(a: int, c: int, y: nat, x: nat)
    requires a % 2 == 1
    ensures Slope(a, c, y, x) % 2 == 1
  {
    assert a * (2 * x + 1) == 2 * (a * x) + a;
  }

  lemma SlopeModThree(a: int, c: int, y: nat, x: nat)
    requires a % 3 == 0 && c % 3 == 2
    ensures Slope(a, c, y, x) % 3 == 1
  {
    var b := a / 3;
    assert a == 3 * b;
    assert a * y == 3 * (b * y);
    assert a * (2 * x + 1) == 3 * (b * (2 * x + 1));
  }

  /** Lifting: such a quadratic takes every value modulo 2^k * 3^n. */
  lemma {:induction false} Solve(a: int, c: int, k: nat, n: nat, p: int) returns (y: nat, q: int)
    requires a % 2 == 1
    requires n > 0 ==> a % 3 == 0 && c % 3 == 2
    ensures Quad(a, c, y) == p + q * Smooth(k, n)
    decreases k, n
  {
    if k > 0 {
      var y0, q0 := Solve(a, c, k - 1, n, p);
      var m := Smooth(k - 1, n);
      var e := q0 % 2;
      var s := Slope(a, c, y0, m * e);
      QuadStep(a, c, y0, m * e);
      SlopeParity(a, c, y0, m * e);
      y, q := y0 + 2 * (m * e), (q0 + e * s) / 2;
      LiftByTwo(q0, e, s);
      Lifted(m, q0, e, s, 2, q);
    } else if n > 0 {
      var y0, q0 := Solve(a, c, 0, n - 1, p);
      var m := Smooth(0, n - 1);
      var e := (-q0) % 3;
      var s := Slope(a, c, y0, m * e);
      QuadStep(a, c, y0, m * e);
      SlopeModThree(a, c, y0, m * e);
      y, q := y0 + 2 * (m * e), (q0 + e * s) / 3;
      LiftByThree(q0, e, s);
      Lifted(m, q0, e, s, 3, q);
    } else {
      y, q := 0, -p;
    }
  }

  lemma Lifted(m: int, q0: int, e: int, s: int, f: int, q: int)
    requires q0 + e * s == f * q
    ensures q0 * m + (m * e) * s == q * (f * m)
  {
    assert (q0 + e * s) * m == q0 * m + (e * s) * m;
    assert (m * e) * s == (e * s) * m;
    assert (f * q) * m == q * (f * m);
  }

  lemma LiftByTwo(q: int, e: int, s: int)
    requires e == q % 2 && s % 2 == 1
    ensures (q + e * s) % 2 == 0
  {
    assert e == 0 || e == 1;
  }

  lemma LiftByThree(q: int, e: int, s: int)
    requires e == (-q) % 3 && s % 3 == 1
    ensures (q + e * s) % 3 == 0
  {
    assert e == 0 || e == 1 || e == 2;
  }

  // ---- the orbit theorems ---------------------------------------------------------------------

  lemma OrbitReaches(h: nat, m: nat, i: nat, x: int, q: int)
    requires m > 0 && Tri(i) == x + q * m
    ensures (h + x) % m in Orbit(h, m)
  {
    var j := ReachedWithinTable(h, m, i);
    ModOfMultiple(h + x, q, m);
  }

  /** In a table of 2^k slots the first 2^k probes visit every slot exactly once. */
  lemma ProbePrefixIsPermutation(k: nat, h: nat)
    ensures var m := Smooth(k, 0);
            && (forall p :: 0 <= p < m ==> p in Orbit(h, m))
            && (forall i, j :: 0 <= i < m && 0 <= j < m && Probe(h, m, i) == Probe(h, m, j) ==> i == j)
  {
    var m := Smooth(k, 0);
    forall p | 0 <= p < m ensures p in Orbit(h, m) {
      var y, q := Solve(1, 0, k, 0, p - h);
      OrbitReaches(h, m, y, p - h, q);
      ModSelf(p, m);
    }
    forall i, j | 0 <= i < m && 0 <= j < m && Probe(h, m, i) == Probe(h, m, j) ensures i == j {
      FullOrbitSeparates(h, m, i, j);
    }
  }

  lemma FullOrbitSeparates(h: nat, m: nat, i: nat, j: nat)
    requires i < m && j < m && Probe(h, m, i) == Probe(h, m, j)
    requires Range(m) <= Orbit(h, m)
    ensures i == j
  {
    var f := (i: int) => if i >= 0 then Probe(h, m, i) else 0;
    OrbitIsImage(h, m, f);
    SubsetCardinality(Range(m), Orbit(h, m));
    FullImageInjective(Range(m), f, i, j);
  }

  lemma OrbitIsImage(h: nat, m: nat, f: int -> int)
    requires m > 0 && forall i :: 0 <= i < m ==> f(i) == Probe(h, m, i)
    ensures Image(Range(m), f) == Orbit(h, m)
  {
    forall i | 0 <= i < m ensures f(i) in Image(Range(m), f) && f(i) in Orbit(h, m) {
      assert i in Range(m);
    }
  }

  // ---- the residues that a probe sequence reaches -----------------------------------------------

  /** Tri(3y) = 3(3Tri(y) - y) and Tri(3y + 1) = 9Tri(y) + 1. */
  lemma TriOfTriple(y: nat)
    ensures Tri(3 * y) == 3 * Quad(3, -1, y)
    ensures Tri(3 * y + 1) == 3 * Quad(3, 0, y) + 1 == 9 * Tri(y) + 1
    ensures Tri(3 * y + 2) == 3 * Quad(3, 0, y) + 3 * y + 3
  {
    TriClosedForm(3 * y);
    TriClosedForm(y);
    var yy := y * y;
    assert y * (y + 1) == yy + y;
    assert (3 * y) * (3 * y + 1) == 9 * yy + 3 * y;
    assert Tri(3 * y + 1) == Tri(3 * y) + (3 * y + 1);
    assert Tri(3 * y + 2) == Tri(3 * y + 1) + (3 * y + 2);
  }

  /** Whether `x` is a triangular number modulo 2^k * 3^n: only the power of three matters. */
  predicate Triangular(n: nat, x: int) {
    n == 0 || x % 3 == 0 || (x % 3 == 1 && (n == 1 || (x % 9 == 1 && Triangular(n - 2, (x - 1) / 9))))
  }

  lemma SmoothFactors(k: nat, n: nat)
    ensures n >= 1 ==> Smooth(k, n) == 3 * Smooth(k, n - 1)
    ensures n >= 2 ==> Smooth(k, n) == 9 * Smooth(k, n - 2)
  {
    if n >= 1 {
      GrowthKeepsSmooth(k, n - 1);
    }
    if n >= 2 {
      GrowthKeepsSmooth(k, n - 2);
    }
  }

  /** Such a residue is taken by a triangular number. */
  lemma {:induction false} TriangularIsTaken(k: nat, n: nat, x: int) returns (i: nat, q: int)
    requires Triangular(n, x)
    ensures Tri(i) == x + q * Smooth(k, n)
    decreases n
  {
    if n == 0 {
      i, q := Solve(1, 0, k, 0, x);
    } else if x % 3 == 0 {
      i, q := TripleIsTaken(k, n, x / 3);
    } else if n == 1 {
      i, q := Solve(3, 0, k, 0, (x - 1) / 3);
      i := ThirdIsTaken(k, (x - 1) / 3, i, q);
    } else {
      i, q := TriangularIsTaken(k, n - 2, (x - 1) / 9);
      i := CopyIsTaken(k, n, (x - 1) / 9, i, q);
    }
  }

  lemma TripleIsTaken(k: nat, n: nat, v: int) returns (i: nat, q: int)
    requires n > 0
    ensures Tri(i) == 3 * v + q * Smooth(k, n)
  {
    SmoothFactors(k, n);
    i, q := Solve(3, -1, k, n - 1, v);
    TriOfTriple(i);
    ScaledBack(3, 0, Quad(3, -1, i), v, q, Smooth(k, n - 1));
    i := 3 * i;
  }

  lemma ThirdIsTaken(k: nat, v: int, y: nat, q: int) returns (i: nat)
    requires Quad(3, 0, y) == v + q * Smooth(k, 0)
    ensures Tri(i) == 3 * v + 1 + q * Smooth(k, 1)
  {
    SmoothFactors(k, 1);
    TriOfTriple(y);
    ScaledBack(3, 1, Quad(3, 0, y), v, q, Smooth(k, 0));
    i := 3 * y + 1;
  }

  lemma CopyIsTaken(k: nat, n: nat, v: int, y: nat, q: int) returns (i: nat)
    requires n >= 2 && Tri(y) == v + q * Smooth(k, n - 2)
    ensures Tri(i) == 9 * v + 1 + q * Smooth(k, n)
  {
    SmoothFactors(k, n);
    TriOfTriple(y);
    ScaledBack(9, 1, Tri(y), v, q, Smooth(k, n - 2));
    i := 3 * y + 1;
  }

  lemma ScaledBack(f: int, c: int, u: int, v: int, q: int, m: int)
    requires u == v + q * m
    ensures f * u + c == f * v + c + q * (f * m)
  {
    assert f * (v + q * m) == f * v + f * (q * m);
  }

  /** Every triangular number is such a residue. */
  lemma {:induction false} TriIsTriangular(k: nat, n: nat, i: nat, q: int)
    ensures Triangular(n, Tri(i) + q * Smooth(k, n))
    decreases n
  {
    if n > 0 {
      var y, r := i / 3, i % 3;
      TriOfTriple(y);
      SmoothFactors(k, n);
      ScaledBack(3, 0, q * Smooth(k, n - 1), 0, q, Smooth(k, n - 1));
      assert i == 3 * y + r;
      TriModThree(y, r, q * Smooth(k, n - 1));
      if r == 1 && n >= 2 {
        ScaledBack(9, 0, q * Smooth(k, n - 2), 0, q, Smooth(k, n - 2));
        TriIsTriangular(k, n - 2, y, q);
        NinthOf(Tri(y) + q * Smooth(k, n - 2));
      }
    }
  }

  lemma TriModThree(y: nat, r: nat, z: int)
    requires r < 3
    ensures (Tri(3 * y + r) + 3 * z) % 3 == if r == 1 then 1 else 0
  {
    TriOfTriple(y);
    var t := Tri(3 * y + r);
    if r == 0 {
      MultiplePlus(t, Quad(3, -1, y), z, 0);
    } else if r == 1 {
      MultiplePlus(t, Quad(3, 0, y), z, 1);
    } else {
      MultiplePlus(t, Quad(3, 0, y) + y + 1, z, 0);
    }
  }

  lemma MultiplePlus(t: int, q: int, z: int, c: nat)
    requires t == 3 * q + c && c < 3
    ensures (t + 3 * z) % 3 == c
  {
  }

  lemma NinthOf(u: int)
    ensures (9 * u + 1) % 9 == 1 && (9 * u + 1 - 1) / 9 == u
  {
  }

  lemma {:induction false} TriangularIsPeriodic(k: nat, n: nat, x: int, q: int)
    requires Triangular(n, x)
    ensures Triangular(n, x + q * Smooth(k, n))
  {
    var i, r := TriangularIsTaken(k, n, x);
    TriIsTriangular(k, n, i, q - r);
    assert (q - r) * Smooth(k, n) == q * Smooth(k, n) - r * Smooth(k, n);
  }

  /** In a table of 2^k * 3^n slots, which slots a probe sequence ever reaches. */
  lemma OrbitExactly(k: nat, n: nat, h: nat, p: nat)
    requires p < Smooth(k, n)
    ensures p in Orbit(h, Smooth(k, n)) <==> Triangular(n, p - h)
  {
    var m := Smooth(k, n);
    if Triangular(n, p - h) {
      var i, q := TriangularIsTaken(k, n, p - h);
      OrbitReaches(h, m, i, p - h, q);
      ModSelf(p, m);
    }
    if p in Orbit(h, m) {
      var i :| 0 <= i < m && p == Probe(h, m, i);
      Division(h + Tri(i), m);
      var d := (h + Tri(i)) / m;
      TriIsTriangular(k, n, i, -d);
      NegatedProduct(d, m);
    }
  }

  lemma ModSelf(p: int, m: int)
    requires 0 <= p < m
    ensures p % m == p
  {
  }

  // ---- how many slots that is ---------------------------------------------------------------------

  /** The number of slots reached: 1, 2/3, 4/9, 11/27, ... of all. */
  function Reached(k: nat, n: nat): nat {
    if n == 0 then Smooth(k, 0) else if n == 1 then 2 * Smooth(k, 0) else Smooth(k, n - 1) + Reached(k, n - 2)
  }

  ghost function Residues(n: nat, m: nat): set<int> {
    set x | 0 <= x < m && Triangular(n, x)
  }

  /** The multiples of three, and at the numbers 1 modulo 3 a smaller copy. */
  lemma {:induction false} ResidueCount(k: nat, n: nat)
    ensures |Residues(n, Smooth(k, n))| == Reached(k, n)
    decreases n
  {
    SmoothFactors(k, n);
    if n == 0 {
      assert Residues(0, Smooth(k, 0)) == Range(Smooth(k, 0));
    } else if n == 1 {
      ThirdCount(Smooth(k, 1), Smooth(k, 0));
    } else {
      ResidueCount(k, n - 2);
      CopyCount(n, Smooth(k, n), Smooth(k, n - 2));
    }
  }

  lemma ThirdCount(m: nat, w: nat)
    requires m == 3 * w
    ensures |Residues(1, m)| == 2 * w
  {
    var copy := (u: int) => 3 * u + 1;
    forall x | x in Residues(1, m) && x % 3 != 0 ensures x in Image(Range(w), copy) {
      assert copy((x - 1) / 3) == x && (x - 1) / 3 in Range(w);
    }
    ResiduesSplit(1, m, w, Range(w), copy);
  }

  lemma CopyCount(n: nat, m: nat, w: nat)
    requires n >= 2 && m == 9 * w
    ensures |Residues(n, m)| == 3 * w + |Residues(n - 2, w)|
  {
    var inner, copy := Residues(n - 2, w), (u: int) => 9 * u + 1;
    forall x | x in Residues(n, m) && x % 3 != 0 ensures x in Image(inner, copy) {
      assert copy((x - 1) / 9) == x && (x - 1) / 9 in inner;
    }
    forall u | u in inner ensures copy(u) in Residues(n, m) {
      NinthOf(u);
    }
    ResiduesSplit(n, m, 3 * w, inner, copy);
  }

  lemma ResiduesSplit(n: nat, m: nat, w: nat, inner: set<int>, copy: int -> int)
    requires n > 0 && m == 3 * w
    requires forall u :: u in inner ==> copy(u) in Residues(n, m) && copy(u) % 3 == 1
    requires forall u, v :: u in inner && v in inner && copy(u) == copy(v) ==> u == v
    requires forall x :: x in Residues(n, m) && x % 3 != 0 ==> x in Image(inner, copy)
    ensures |Residues(n, m)| == w + |inner|
  {
    var a, b := MultiplesOfThree(m), Image(inner, copy);
    forall u, v | u in inner && v in inner && copy(u) == copy(v) ensures u == v {
    }
    InjectiveImageSize(inner, copy);
    MultiplesCount(m, w);
    assert Residues(n, m) == a + b;
    assert a * b == {};
  }

  ghost function MultiplesOfThree(m: nat): set<int> {
    set x | 0 <= x < m && x % 3 == 0
  }

  lemma MultiplesCount(m: nat, w: nat)
    requires m == 3 * w
    ensures |MultiplesOfThree(m)| == w
  {
    var triple := (t: int) => 3 * t;
    InjectiveImageSize(Range(w), triple);
    forall x | x in MultiplesOfThree(m) ensures x in Image(Range(w), triple) {
      assert triple(x / 3) == x && x / 3 in Range(w);
    }
    assert Image(Range(w), triple) == MultiplesOfThree(m);
  }

  /** In a table of 2^k * 3^n slots every probe sequence reaches the same number of slots. */
  lemma OrbitSize(k: nat, n: nat, h: nat)
    ensures |Orbit(h, Smooth(k, n))| == Reached(k, n)
  {
    var m := Smooth(k, n);
    var shift := (x: int) => Shift(h, m, x);
    ResidueCount(k, n);
    forall x, y | x in Residues(n, m) && y in Residues(n, m) && shift(x) == shift(y) ensures x == y {
      ShiftSeparates(h, m, x, y);
    }
    InjectiveImageSize(Residues(n, m), shift);
    OrbitIsShifted(k, n, m, h, shift);
  }

  function Shift(h: nat, m: nat, x: int): int
    requires m > 0
  {
    (h + x) % m
  }

  lemma ShiftSeparates(h: nat, m: nat, x: int, y: int)
    requires 0 <= x < m && 0 <= y < m && Shift(h, m, x) == Shift(h, m, y)
    ensures x == y
  {
    ModSeparates(h + x, h + y, m);
  }

  lemma OrbitIsShifted(k: nat, n: nat, m: nat, h: nat, shift: int -> int)
    requires m == Smooth(k, n) && forall x :: x in Residues(n, m) ==> shift(x) == Shift(h, m, x)
    ensures Orbit(h, m) == Image(Residues(n, m), shift)
  {
    forall p | p in Orbit(h, m) ensures p in Image(Residues(n, m), shift) {
      OrbitExactly(k, n, h, p);
      var x := Unshifted(k, n, m, h, p);
      assert shift(x) == p;
    }
    forall x | x in Residues(n, m) ensures shift(x) in Orbit(h, m) {
      Shifted(k, n, m, h, x);
    }
  }

  lemma Unshifted(k: nat, n: nat, m: nat, h: nat, p: int) returns (x: int)
    requires m == Smooth(k, n) && 0 <= p < m && Triangular(n, p - h)
    ensures x in Residues(n, m) && Shift(h, m, x) == p
  {
    Division(p - h, m);
    var d := (p - h) / m;
    x := (p - h) % m;
    TriangularIsPeriodic(k, n, p - h, -d);
    NegatedProduct(d, m);
    ModAdd(p - h, h, m);
    ModSelf(p, m);
  }

  lemma NegatedProduct(d: int, m: int)
    ensures (-d) * m == -(d * m)
  {
  }

  lemma Shifted(k: nat, n: nat, m: nat, h: nat, x: int)
    requires m == Smooth(k, n) && x in Residues(n, m)
    ensures Shift(h, m, x) in Orbit(h, m)
  {
    var i, q := TriangularIsTaken(k, n, x);
    OrbitReaches(h, m, i, x, q);
  }

  /** In a table of 3 * 2^k slots a probe sequence reaches exactly two thirds of the slots. */
  lemma TwoThirdsReached(k: nat, h: nat)
    ensures var m := 3 * Smooth(k, 0);
            && |Orbit(h, m)| == 2 * Smooth(k, 0)
            && forall p :: 0 <= p < m ==> (p in Orbit(h, m) <==> (p - h) % 3 != 2)
  {
    GrowthKeepsSmooth(k, 0);
    OrbitSize(k, 1, h);
    forall p | 0 <= p < 3 * Smooth(k, 0) ensures p in Orbit(h, 3 * Smooth(k, 0)) <==> (p - h) % 3 != 2 {
      OrbitExactly(k, 1, h, p);
    }
  }

  /** After growing any table of 2^k * 3^n slots, each orbit has more slots than the old table had. */
  lemma OrbitAfterGrowth(k: nat, n: nat, h: nat)
    ensures |Orbit(h, 3 * Smooth(k, n))| > Smooth(k, n)
  {
    GrowthKeepsSmooth(k, n);
    OrbitSize(k, n + 1, h);
    if n > 0 {
      OrbitSize(k, n - 1, h);
      var j := ReachedWithinTable(h, Smooth(k, n - 1), 0);
      assert Orbit(h, Smooth(k, n - 1)) != {};
    }
  }
}
