/** Stock result types, map inclusion and flattening. */
module Prelude {

  datatype Option<+T> = None | Some(value: T)

  datatype Result<+T, +E> = Ok(value: T) | Err(error: E)

  /** `b` agrees with `a` wherever `a` is defined. */
  predicate Extends<K, V(==)>(a: map<K, V>, b: map<K, V>)
  {
    forall k | k in a :: k in b && b[k] == a[k]
  }

  /** The results of `f` on every element, one after the other. */
  function FlatMap<A, B>(f: A -> seq<B>, s: seq<A>): seq<B>
  {
    if s == [] then [] else f(s[0]) + FlatMap(f, s[1..])
  }

  lemma FlatMapFirst<A, B>(f: A -> seq<B>, first: A, rest: seq<A>)
    ensures FlatMap(f, [first] + rest) == f(first) + FlatMap(f, rest)
  {
    assert ([first] + rest)[1..] == rest;
  }

  lemma {:induction false} FlatMapConcat<A, B>(f: A -> seq<B>, a: seq<A>, b: seq<A>)
    ensures FlatMap(f, a + b) == FlatMap(f, a) + FlatMap(f, b)
  {
    if a == [] {
      assert a + b == b;
    } else {
      hide FlatMap;
      var head, tail := [a[0]], a[1..];
      FlatMapConcat(f, tail, b);
      FlatMapFirst(f, a[0], tail);
      FlatMapFirst(f, a[0], tail + b);
      assert a == head + tail;
      Regroup(head, tail, b);
      Regroup(f(a[0]), FlatMap(f, tail), FlatMap(f, b));
    }
  }

  lemma Regroup<T>(a: seq<T>, b: seq<T>, c: seq<T>)
    ensures a + (b + c) == (a + b) + c
  {
  }

  lemma FlatMapNext<A, B>(f: A -> seq<B>, s: seq<A>, n: nat)
    requires n < |s|
    ensures FlatMap(f, s[n..]) == f(s[n]) + FlatMap(f, s[n + 1..])
  {
    assert s[n..][1..] == s[n + 1..];
  }

  lemma FlatMapOne<A, B>(f: A -> seq<B>, x: A)
    ensures FlatMap(f, [x]) == f(x)
  {
    assert [x][1..] == [];
  }

  /** The parts one after the other. */
  function Flatten<T>(parts: seq<seq<T>>): seq<T>
  {
    if parts == [] then [] else Flatten(parts[..|parts| - 1]) + parts[|parts| - 1]
  }

  lemma FlattenNext<T>(parts: seq<seq<T>>, last: seq<T>)
    ensures Flatten(parts + [last]) == Flatten(parts) + last
  {
    assert (parts + [last])[..|parts|] == parts;
  }

  lemma TailMultiset<T>(p: seq<T>)
    requires p != []
    ensures multiset(p[1..]) == multiset(p) - multiset{p[0]}
  {
    assert p == [p[0]] + p[1..];
  }
}
