/** Connectivity in a finite undirected graph, and how one more edge changes it. */
module Connectivity {

  ghost predicate Adjacent<T(!new)>(edges: set<(T, T)>, a: T, b: T)
  {
    (a, b) in edges || (b, a) in edges
  }

  ghost predicate IsPath<T(!new)>(edges: set<(T, T)>, p: seq<T>)
  {
    p != [] && forall k | 0 < k < |p| :: Adjacent(edges, p[k - 1], p[k])
  }

  ghost predicate Joins<T(!new)>(edges: set<(T, T)>, p: seq<T>, a: T, b: T)
  {
    IsPath(edges, p) && p[0] == a && p[|p| - 1] == b
  }

  ghost predicate Linked<T(!new)>(edges: set<(T, T)>, a: T, b: T)
  {
    exists p :: Joins(edges, p, a, b)
  }

  lemma LinkedReflexive<T(!new)>(edges: set<(T, T)>, a: T)
    ensures Linked(edges, a, a)
  {
    assert Joins(edges, [a], a, a);
  }

  lemma LinkedStep<T(!new)>(edges: set<(T, T)>, a: T, b: T)
    requires Adjacent(edges, a, b)
    ensures Linked(edges, a, b)
  {
    assert Joins(edges, [a, b], a, b);
  }

  lemma LinkedTransitive<T(!new)>(edges: set<(T, T)>, a: T, b: T, c: T)
    requires Linked(edges, a, b) && Linked(edges, b, c)
    ensures Linked(edges, a, c)
  {
    var p :| Joins(edges, p, a, b);
    var q :| Joins(edges, q, b, c);
    assert Joins(edges, p + q[1..], a, c);
  }

  lemma LinkedSymmetric<T(!new)>(edges: set<(T, T)>, a: T, b: T)
    requires Linked(edges, a, b)
    ensures Linked(edges, b, a)
  {
    var p :| Joins(edges, p, a, b);
    var n := |p|;
    var q := seq(n, i requires 0 <= i < n => p[n - 1 - i]);
    forall k | 0 < k < n ensures Adjacent(edges, q[k - 1], q[k]) {
      assert Adjacent(edges, p[n - 1 - k], p[n - k]);
    }
    assert Joins(edges, q, b, a);
  }

  lemma LinkedMonotone<T(!new)>(edges: set<(T, T)>, more: set<(T, T)>, a: T, b: T)
    requires edges <= more && Linked(edges, a, b)
    ensures Linked(more, a, b)
  {
    var p :| Joins(edges, p, a, b);
    forall k | 0 < k < |p| ensures Adjacent(more, p[k - 1], p[k]) {
      assert Adjacent(edges, p[k - 1], p[k]);
    }
    assert Joins(more, p, a, b);
  }

  /** With the edge `(u, v)` added, a path either avoids it or passes from one of its ends to the other. */
  lemma LinkedAddEdge<T(!new)>(edges: set<(T, T)>, u: T, v: T, a: T, b: T)
    ensures Linked(edges + {(u, v)}, a, b) <==>
      || Linked(edges, a, b)
      || (Linked(edges, a, u) && Linked(edges, v, b))
      || (Linked(edges, a, v) && Linked(edges, u, b))
  {
    var more := edges + {(u, v)};
    if Linked(more, a, b) {
      var p :| Joins(more, p, a, b);
      PathAddEdge(edges, u, v, p);
    }
    LinkedStep(more, u, v);
    LinkedStep(more, v, u);
    if Linked(edges, a, b) { LinkedMonotone(edges, more, a, b); }
    if Linked(edges, a, u) && Linked(edges, v, b) { Through(edges, more, a, u, v, b); }
    if Linked(edges, a, v) && Linked(edges, u, b) { Through(edges, more, a, v, u, b); }
  }

  lemma Through<T(!new)>(edges: set<(T, T)>, more: set<(T, T)>, a: T, u: T, v: T, b: T)
    requires edges <= more && Linked(edges, a, u) && Linked(more, u, v) && Linked(edges, v, b)
    ensures Linked(more, a, b)
  {
    LinkedMonotone(edges, more, a, u);
    LinkedMonotone(edges, more, v, b);
    LinkedTransitive(more, a, u, v);
    LinkedTransitive(more, a, v, b);
  }

  lemma {:induction false} PathAddEdge<T(!new)>(edges: set<(T, T)>, u: T, v: T, p: seq<T>)
    requires IsPath(edges + {(u, v)}, p)
    ensures var a, b := p[0], p[|p| - 1];
      || Linked(edges, a, b)
      || (Linked(edges, a, u) && Linked(edges, v, b))
      || (Linked(edges, a, v) && Linked(edges, u, b))
    decreases |p|
  {
    var a, b := p[0], p[|p| - 1];
    LinkedReflexive(edges, a);
    if |p| > 1 {
      var c := p[1];
      assert Adjacent(edges + {(u, v)}, p[0], p[1]);
      PathAddEdge(edges, u, v, p[1..]);
      LinkedReflexive(edges, c);
      if Adjacent(edges, a, c) {
        LinkedStep(edges, a, c);
        FromFirst(edges, a, c, b);
        FromFirst(edges, a, c, u);
        FromFirst(edges, a, c, v);
      }
    }
  }

  lemma FromFirst<T(!new)>(edges: set<(T, T)>, a: T, c: T, d: T)
    requires Linked(edges, a, c)
    ensures Linked(edges, c, d) ==> Linked(edges, a, d)
  {
    if Linked(edges, c, d) { LinkedTransitive(edges, a, c, d); }
  }

  // ---- forests with path compression

  /**
   * Node `x` of a forest whose trees have the roots `rep`. `depth` falls towards the root, which is
   * what makes following parents terminate when the parents themselves are in no order.
   */
  ghost predicate Node(parent: seq<nat>, rep: seq<nat>, depth: seq<nat>, x: nat)
    requires |rep| == |parent| == |depth| && x < |parent|
  {
    && parent[x] < |parent| && rep[x] < |parent|
    && parent[rep[x]] == rep[x] && rep[rep[x]] == rep[x]
    && rep[parent[x]] == rep[x]
    && (parent[x] == x ==> rep[x] == x)
    && (parent[x] != x ==> depth[parent[x]] < depth[x])
    && (rep[x] != x ==> depth[rep[x]] < depth[x])
  }

  ghost predicate Forest(parent: seq<nat>, rep: seq<nat>, depth: seq<nat>)
  {
    && |rep| == |parent| == |depth|
    && forall x | 0 <= x < |parent| :: Node(parent, rep, depth, x)
  }

  function Iota(n: nat): (r: seq<nat>)
    ensures |r| == n && forall i | 0 <= i < n :: r[i] == i
  {
    seq(n, i => i)
  }

  /** The partition with the classes of roots `from` and `into` united. */
  ghost function Merged(rep: seq<nat>, from: nat, into: nat): (r: seq<nat>)
    ensures |r| == |rep|
    ensures forall x | 0 <= x < |rep| :: r[x] == if rep[x] == from then into else rep[x]
  {
    seq(|rep|, x requires 0 <= x < |rep| => if rep[x] == from then into else rep[x])
  }

  ghost function Deepened(rep: seq<nat>, depth: seq<nat>, from: nat, into: nat): (r: seq<nat>)
    requires |depth| == |rep| && into < |rep|
    ensures |r| == |rep|
    ensures forall x | 0 <= x < |rep| :: r[x] == if rep[x] == from then depth[x] + depth[into] + 1 else depth[x]
  {
    seq(|rep|, x requires 0 <= x < |rep| => if rep[x] == from then depth[x] + depth[into] + 1 else depth[x])
  }

  /** Attaching one root below another unites their classes, whichever way round. */
  lemma AttachKeepsForest(parent: seq<nat>, rep: seq<nat>, depth: seq<nat>, from: nat, into: nat)
    requires Forest(parent, rep, depth)
    requires from < |parent| && into < |parent| && rep[from] == from && rep[into] == into && from != into
    ensures Forest(parent[from := into], Merged(rep, from, into), Deepened(rep, depth, from, into))
    ensures depth == Iota(|rep|) && into < from ==> Forest(parent[from := into], Merged(rep, from, into), depth)
  {
    var next, merged, deeper := parent[from := into], Merged(rep, from, into), Deepened(rep, depth, from, into);
    forall x | 0 <= x < |parent|
      ensures Node(next, merged, deeper, x)
      ensures depth == Iota(|rep|) && into < from ==> Node(next, merged, depth, x)
    {
      assert Node(parent, rep, depth, x);
      assert Node(parent, rep, depth, from) && Node(parent, rep, depth, into);
    }
  }

  /** Pointing a node straight at its root changes no class. */
  lemma CompressKeepsForest(parent: seq<nat>, rep: seq<nat>, depth: seq<nat>, c: nat)
    requires Forest(parent, rep, depth) && c < |parent|
    ensures rep[c] < |parent| && Forest(parent[c := rep[c]], rep, depth)
  {
    assert Node(parent, rep, depth, c);
    var next := parent[c := rep[c]];
    forall x | 0 <= x < |parent| ensures Node(next, rep, depth, x) {
      assert Node(parent, rep, depth, x);
    }
  }

  /** The classes of a forest are the components of the graph `edges` over `nodes`. */
  ghost predicate Matches<T(!new)>(nodes: seq<T>, rep: seq<nat>, edges: set<(T, T)>)
  {
    && |rep| == |nodes|
    && forall i, j {:trigger Linked(edges, nodes[i], nodes[j])} | 0 <= i < |nodes| && 0 <= j < |nodes| :: rep[i] == rep[j] <==> Linked(edges, nodes[i], nodes[j])
  }

  /** Uniting two classes keeps the correspondence when an edge between them is added. */
  lemma MergeMatches<T(!new)>(nodes: seq<T>, rep: seq<nat>, edges: set<(T, T)>, a: nat, b: nat, merged: seq<nat>)
    requires Matches(nodes, rep, edges) && a < |nodes| && b < |nodes|
    requires merged == Merged(rep, rep[a], rep[b]) || merged == Merged(rep, rep[b], rep[a])
    ensures Matches(nodes, merged, edges + {(nodes[a], nodes[b])})
  {
    forall i, j | 0 <= i < |nodes| && 0 <= j < |nodes|
      ensures merged[i] == merged[j] <==> Linked(edges + {(nodes[a], nodes[b])}, nodes[i], nodes[j])
    {
      LinkedAddEdge(edges, nodes[a], nodes[b], nodes[i], nodes[j]);
    }
  }

  // ---- the pairs of two nested loops

  /** The index pairs the nested loops have visited when they stand at `(i, j)`. */
  predicate Visited(i: nat, j: nat, a: nat, b: nat)
  {
    a < b && (a < i || (a == i && b < j))
  }
}
