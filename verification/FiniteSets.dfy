// Cardinalities of finite sets, shared by the counting arguments of the other modules.

module FiniteSets {

  function Range(n: nat): (s: set<int>)
    ensures |s| == n
    ensures forall i :: i in s <==> 0 <= i < n
  {
    if n == 0 then {} else
      var s := Range(n - 1);
      assert n - 1 !in s;
      s + {n - 1}
  }

  lemma SubsetCardinality<T>(a: set<T>, b: set<T>)
    requires a <= b
    ensures |a| <= |b|
    ensures |a| == |b| ==> a == b
  {
    assert b == a + (b - a);
    assert |b| == |a| + |b - a|;
  }

  lemma ElementOutside<T>(a: set<T>, b: set<T>) returns (x: T)
    requires |a| > |b|
    ensures x in a && x !in b
  {
    if a <= b {
      SubsetCardinality(a, b);
    }
    x :| x in a && x !in b;
  }

  ghost function Image<T, U>(s: set<T>, f: T -> U): set<U> {
    set x | x in s :: f(x)
  }

  lemma {:induction false} InjectiveImageSize<T, U>(s: set<T>, f: T -> U)
    requires forall x, y :: x in s && y in s && f(x) == f(y) ==> x == y
    ensures |Image(s, f)| == |s|
    decreases |s|
  {
    if s == {} {
      assert Image(s, f) == {};
    } else {
      var e :| e in s;
      InjectiveImageSize(s - {e}, f);
      assert Image(s, f) == Image(s - {e}, f) + {f(e)};
    }
  }

  lemma {:induction false} ImageNoLarger<T, U>(s: set<T>, f: T -> U)
    ensures |Image(s, f)| <= |s|
    decreases |s|
  {
    if s == {} {
      assert Image(s, f) == {};
    } else {
      var e :| e in s;
      ImageNoLarger(s - {e}, f);
      assert Image(s, f) == Image(s - {e}, f) + {f(e)};
    }
  }

  /** A map whose image is as large as its domain never takes a value twice. */
  lemma FullImageInjective<T, U>(s: set<T>, f: T -> U, x: T, y: T)
    requires |Image(s, f)| >= |s|
    requires x in s && y in s && f(x) == f(y)
    ensures x == y
  {
    ImageNoLarger(s - {x}, f);
    assert x != y ==> Image(s, f) == Image(s - {x}, f);
  }
}
