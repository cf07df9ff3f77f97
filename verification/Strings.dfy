/** The order of Rust strings (code point order) and sorting a set of strings by it. */
module Strings {

  predicate Le(a: string, b: string)
  {
    a == [] || (b != [] && (a[0] < b[0] || (a[0] == b[0] && Le(a[1..], b[1..]))))
  }

  predicate Lt(a: string, b: string)
  {
    Le(a, b) && a != b
  }

  lemma {:induction false} LeReflexive(a: string)
    ensures Le(a, a)
  {
    if a != [] { LeReflexive(a[1..]); }
  }

  lemma {:induction false} LeAntisymmetric(a: string, b: string)
    requires Le(a, b) && Le(b, a)
    ensures a == b
  {
    if a != [] && b != [] {
      LeAntisymmetric(a[1..], b[1..]);
      assert a == [a[0]] + a[1..] && b == [b[0]] + b[1..];
    }
  }

  lemma {:induction false} LeTransitive(a: string, b: string, c: string)
    requires Le(a, b) && Le(b, c)
    ensures Le(a, c)
  {
    if a != [] && a[0] == b[0] && b[0] == c[0] {
      LeTransitive(a[1..], b[1..], c[1..]);
    }
  }

  lemma {:induction false} LeTotal(a: string, b: string)
    ensures Le(a, b) || Le(b, a)
  {
    if a != [] && b != [] && a[0] == b[0] { LeTotal(a[1..], b[1..]); }
  }

  lemma LtIsNotGe(a: string, b: string)
    ensures Lt(a, b) <==> !Le(b, a)
  {
    LeTotal(a, b);
    LeReflexive(a);
    if Le(a, b) && Le(b, a) { LeAntisymmetric(a, b); }
  }

  lemma LtTransitive(a: string, b: string, c: string)
    requires (Lt(a, b) && Le(b, c)) || (Le(a, b) && Lt(b, c))
    ensures Lt(a, c)
  {
    LeTransitive(a, b, c);
    if a == c { LeAntisymmetric(a, b); }
  }

  ghost predicate IsMin(m: string, s: set<string>)
  {
    m in s && forall x | x in s :: Le(m, x)
  }

  lemma {:induction false} MinExists(s: set<string>)
    requires s != {}
    ensures exists m :: IsMin(m, s)
    decreases |s|
  {
    var x :| x in s;
    if s == {x} {
      LeReflexive(x);
      assert IsMin(x, s);
    } else {
      var rest := s - {x};
      assert rest != {};
      MinExists(rest);
      var m :| IsMin(m, rest);
      LeTotal(m, x);
      LeReflexive(x);
      if Le(m, x) {
        assert IsMin(m, s);
      } else {
        forall y | y in s ensures Le(x, y) {
          if y != x { LeTransitive(x, m, y); }
        }
        assert IsMin(x, s);
      }
    }
  }

  lemma MinUnique(a: string, b: string, s: set<string>)
    requires IsMin(a, s) && IsMin(b, s)
    ensures a == b
  {
    LeAntisymmetric(a, b);
  }

  ghost function Min(s: set<string>): (m: string)
    requires s != {}
    ensures IsMin(m, s)
  {
    MinExists(s);
    var m :| IsMin(m, s);
    m
  }

  ghost predicate StrictlySorted(q: seq<string>)
  {
    forall i, j {:trigger Lt(q[i], q[j])} | 0 <= i < j < |q| :: Lt(q[i], q[j])
  }

  lemma SortedDistinct(q: seq<string>)
    requires StrictlySorted(q)
    ensures forall i, j | 0 <= i < |q| && 0 <= j < |q| && i != j :: q[i] != q[j]
  {
    forall i, j | 0 <= i < j < |q| ensures q[i] != q[j] {
      assert Lt(q[i], q[j]);
    }
  }

  /** In a strictly sorted sequence the order of positions is the order of strings. */
  lemma SortedOrder(q: seq<string>, i: nat, j: nat)
    requires StrictlySorted(q) && i < |q| && j < |q|
    ensures i < j <==> Lt(q[i], q[j])
    ensures i <= j <==> Le(q[i], q[j])
  {
    LeReflexive(q[i]);
    if i < j {
      assert Lt(q[i], q[j]);
      if Le(q[j], q[i]) { LeAntisymmetric(q[i], q[j]); }
    } else if j < i {
      assert Lt(q[j], q[i]);
      if Le(q[i], q[j]) { LeAntisymmetric(q[i], q[j]); }
    }
  }

  /** The elements of `s` in increasing order, each once. */
  ghost function Sorted(s: set<string>): (q: seq<string>)
    ensures |q| == |s|
    ensures forall x :: x in q <==> x in s
    ensures StrictlySorted(q)
    decreases |s|
  {
    if s == {} then []
    else
      var m := Min(s);
      [m] + Sorted(s - {m})
  }

  lemma SameEmptiness<T>(p: seq<T>, q: seq<T>)
    requires (forall x | x in p :: x in q) && (forall x | x in q :: x in p)
    ensures p == [] <==> q == []
  {
    if p != [] { assert p[0] in p; }
    if q != [] { assert q[0] in q; }
  }

  /** A strictly sorted sequence is determined by its elements. */
  lemma {:induction false} SortedUnique(p: seq<string>, q: seq<string>)
    requires StrictlySorted(p) && StrictlySorted(q)
    requires forall x :: x in p <==> x in q
    ensures p == q
  {
    if p == [] || q == [] {
      SameEmptiness(p, q);
    } else {
      assert p[0] in q && q[0] in p;
      var i :| 0 <= i < |q| && q[i] == p[0];
      var j :| 0 <= j < |p| && p[j] == q[0];
      if i > 0 && j > 0 {
        assert Lt(p[0], p[j]) && Lt(q[0], q[i]);
        LeAntisymmetric(p[0], q[0]);
      }
      assert p[0] == q[0];
      SortedDistinct(p);
      SortedDistinct(q);
      forall x ensures x in p[1..] <==> x in q[1..] {
        if x in p[1..] { assert x in p; assert x in q; assert x != p[0]; }
        if x in q[1..] { assert x in q; assert x in p; assert x != q[0]; }
      }
      SortedUnique(p[1..], q[1..]);
      assert p == [p[0]] + p[1..] && q == [q[0]] + q[1..];
    }
  }

  /** `q` lists the elements of `s` in order. */
  ghost predicate Lists(q: seq<string>, s: set<string>)
  {
    StrictlySorted(q) && forall x :: x in q <==> x in s
  }

  /** The first name of an ordered listing. */
  method LeastOf(names: set<string>) returns (first: string)
    requires names != {}
    ensures first == Min(names)
  {
    first :| first in names;
    var left := names - {first};
    LeReflexive(first);
    while left != {}
      invariant left <= names && first in names
      invariant forall x | x in names && x !in left :: Le(first, x)
    {
      var x :| x in left;
      LeReflexive(x);
      LeTotal(first, x);
      if !Le(first, x) {
        forall y | y in names && y !in left ensures Le(x, y) { LeTransitive(x, first, y); }
        first := x;
      }
      left := left - {x};
    }
    MinUnique(first, Min(names), names);
  }

  /** Iterating over an ordered set. */
  method InOrder(names: set<string>) returns (q: seq<string>)
    ensures q == Sorted(names) && Lists(q, names)
  {
    q := [];
    var left := names;
    while left != {}
      invariant left <= names
      invariant forall x :: x in q <==> x in names && x !in left
      invariant StrictlySorted(q)
      invariant forall x, y | x in q && y in left :: Lt(x, y)
    {
      var x := LeastOf(left);
      q := q + [x];
      left := left - {x};
    }
    SortedUnique(q, Sorted(names));
  }
}
