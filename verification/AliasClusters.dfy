/** Clustering of noun phrases by union-find over their canonical keys (src/alias.rs). */
module AliasClusters {
  import opened Strings
  import opened Text
  import opened Connectivity

  // ---- the disjoint set

  /** Depth is the index itself: parents never exceed their children. */
  class DisjointSet {
    const parent: array<nat>
    ghost var rep: seq<nat>

    ghost predicate Valid()
      reads this, parent
    {
      Forest(parent[..], rep, Iota(|rep|))
    }

    constructor (n: nat)
      ensures Valid() && fresh(parent)
      ensures rep == Iota(n)
    {
      parent := new nat[n](i => i);
      rep := Iota(n);
      new;
      forall x | 0 <= x < n ensures Node(parent[..], rep, Iota(n), x) {
      }
    }

    method Find(x: nat) returns (r: nat)
      requires Valid() && x < |rep|
      modifies parent
      ensures Valid() && r < |rep|
      ensures r == rep[x]
      ensures forall y | 0 <= y < |rep| :: parent[y] <= old(parent[y])
    {
      r := x;
      assert Node(parent[..], rep, Iota(|rep|), x);
      while parent[r] != r
        invariant r < |rep| && rep[r] == rep[x]
        decreases r
      {
        assert Node(parent[..], rep, Iota(|rep|), r);
        r := parent[r];
      }
      assert Node(parent[..], rep, Iota(|rep|), r);
      var c: nat := x;
      while parent[c] != r
        invariant Valid() && c < |rep| && rep[c] == r && parent[r] == r
        invariant forall y | 0 <= y < |rep| :: parent[y] <= old(parent[y])
        decreases c
      {
        assert Node(parent[..], rep, Iota(|rep|), c);
        var next := parent[c];
        assert Node(parent[..], rep, Iota(|rep|), next);
        ghost var before := parent[..];
        CompressKeepsForest(before, rep, Iota(|rep|), c);
        parent[c] := r;
        assert parent[..] == before[c := r];
        c := next;
      }
    }

    method Attach(hi: nat, lo: nat)
      requires Valid() && lo < hi < |rep| && rep[lo] == lo && rep[hi] == hi
      modifies this, parent
      ensures Valid() && rep == Merged(old(rep), hi, lo)
    {
      ghost var before := parent[..];
      AttachKeepsForest(before, rep, Iota(|rep|), hi, lo);
      parent[hi] := lo;
      rep := Merged(rep, hi, lo);
      assert parent[..] == before[hi := lo];
    }

    method Union(a: nat, b: nat)
      requires Valid() && a < |rep| && b < |rep|
      modifies this, parent
      ensures Valid()
      ensures old(rep)[a] <= old(rep)[b] ==> rep == Merged(old(rep), old(rep)[b], old(rep)[a])
      ensures old(rep)[b] <= old(rep)[a] ==> rep == Merged(old(rep), old(rep)[a], old(rep)[b])
    {
      assert Node(parent[..], rep, Iota(|rep|), a) && Node(parent[..], rep, Iota(|rep|), b);
      var ra := Find(a);
      var rb := Find(b);
      if ra < rb {
        Attach(rb, ra);
      } else if rb < ra {
        Attach(ra, rb);
      } else {
        assert Merged(rep, ra, ra) == rep;
      }
    }
  }

  // ---- what a clustering is

  type Similarity = (string, string) -> real

  function Tokens(k: string): set<string>
  {
    set t | t in Words(k)
  }

  /** Token-set similarity of two keys. */
  function TokenJaccard(a: string, b: string): (r: real)
    ensures 0.0 <= r <= 1.0
  {
    var sa, sb := Tokens(a), Tokens(b);
    if sa == {} || sb == {} then 0.0
    else
      SharePart(sa, sb);
      |sa * sb| as real / |sa + sb| as real
  }

  /** The part of the tokens of either key that both have: all of them at 1, none at 0, and the same both ways. */
  lemma JaccardMeans(a: string, b: string)
    ensures var r, sa, sb := TokenJaccard(a, b), Tokens(a), Tokens(b);
      && r == TokenJaccard(b, a)
      && r * (|sa + sb| as real) == |sa * sb| as real
      && (r == 1.0 <==> sa == sb != {})
      && (r == 0.0 <==> sa * sb == {})
  {
    hide Tokens;
    var sa, sb := Tokens(a), Tokens(b);
    assert sa * sb == sb * sa && sa + sb == sb + sa;
    if sa != {} && sb != {} {
      SharePart(sa, sb);
      RatioIs(|sa * sb| as real, |sa + sb| as real);
      AllShared(sa, sb);
    }
  }

  lemma RatioIs(x: real, y: real)
    requires y > 0.0
    ensures x / y * y == x && (x / y == 1.0 <==> x == y) && (x / y == 0.0 <==> x == 0.0)
  {
  }

  lemma AllShared(a: set<string>, b: set<string>)
    ensures |a * b| == |a + b| <==> a == b
  {
    if a == b {
      assert a * b == a && a + b == a;
    } else {
      var x :| x in a + b && x !in a * b;
      SubsetSize(a * b, a + b - {x});
    }
  }

  lemma SharePart(a: set<string>, b: set<string>)
    requires a != {}
    ensures |a + b| > 0 && 0.0 <= |a * b| as real / |a + b| as real <= 1.0
  {
    assert a * b <= a + b && a <= a + b;
    SubsetSize(a * b, a + b);
    SubsetSize(a, a + b);
    AtMostOne(|a * b| as real, |a + b| as real);
  }

  lemma AtMostOne(x: real, y: real)
    requires 0.0 <= x <= y && y > 0.0
    ensures 0.0 <= x / y <= 1.0
  {
  }

  lemma {:induction false} SubsetSize<T>(a: set<T>, b: set<T>)
    requires a <= b
    ensures |a| <= |b|
    decreases |a|
  {
    if a != {} {
      var x :| x in a;
      SubsetSize(a - {x}, b - {x});
    }
  }

  /** The pairs of keys that the similarity pass unites; a threshold of 1 switches the pass off. */
  function SimilarPairs(keys: set<string>, tau: real, sim: Similarity): set<(string, string)>
  {
    if tau < 1.0 then set a, b | a in keys && b in keys && Lt(a, b) && sim(a, b) >= tau :: (a, b) else {}
  }

  ghost function Component(keys: set<string>, tau: real, sim: Similarity, k: string): (c: set<string>)
    requires k in keys
    ensures k in c && c <= keys
  {
    LinkedReflexive(SimilarPairs(keys, tau, sim), k);
    set x | x in keys && Linked(SimilarPairs(keys, tau, sim), k, x)
  }

  /** The id of a key: the smallest key of its component. */
  ghost function IdOf(keys: set<string>, tau: real, sim: Similarity, k: string): string
  {
    if k in keys then Min(Component(keys, tau, sim, k)) else k
  }

  ghost function KeysOf(nouns: seq<string>, key: string -> string): set<string>
  {
    set n | n in nouns :: key(n)
  }

  /** Each noun with the id of its key. */
  ghost function Clustering(nouns: seq<string>, tau: real, key: string -> string, sim: Similarity): map<string, string>
  {
    map n | n in nouns :: IdOf(KeysOf(nouns, key), tau, sim, key(n))
  }

  // ---- the algorithm

  ghost predicate EdgesSoFar(keys: seq<string>, tau: real, sim: Similarity, edges: set<(string, string)>, i: nat, j: nat)
  {
    && (forall e | e in edges :: e.0 in keys && e.1 in keys)
    && forall a, b {:trigger (keys[a], keys[b]) in edges} | 0 <= a < |keys| && 0 <= b < |keys| ::
         (keys[a], keys[b]) in edges <==> Visited(i, j, a, b) && sim(keys[a], keys[b]) >= tau
  }

  lemma AllEdges(names: set<string>, keys: seq<string>, tau: real, sim: Similarity, edges: set<(string, string)>)
    requires keys == Sorted(names) && tau < 1.0 && EdgesSoFar(keys, tau, sim, edges, |keys|, 0)
    ensures edges == SimilarPairs(names, tau, sim)
  {
    forall e ensures e in edges <==> e in SimilarPairs(names, tau, sim) {
      var (x, y) := e;
      if x in keys && y in keys {
        var a :| 0 <= a < |keys| && keys[a] == x;
        var b :| 0 <= b < |keys| && keys[b] == y;
        SortedOrder(keys, a, b);
        assert e in edges <==> Visited(|keys|, 0, a, b) && sim(x, y) >= tau;
        assert e in SimilarPairs(names, tau, sim) <==> Lt(x, y) && sim(x, y) >= tau;
      }
    }
  }

  method UnitePair(keys: seq<string>, ds: DisjointSet, i: nat, j: nat, ghost edges: set<(string, string)>)
    requires ds.Valid() && Matches(keys, ds.rep, edges) && i < |keys| && j < |keys|
    modifies ds, ds.parent
    ensures ds.Valid() && Matches(keys, ds.rep, edges + {(keys[i], keys[j])})
  {
    ghost var before := ds.rep;
    ds.Union(i, j);
    MergeMatches(keys, before, edges, i, j, ds.rep);
  }

  /** The inner loop: key `i` against every later key. */
  method UniteRow(keys: seq<string>, tau: real, sim: Similarity, ds: DisjointSet, i: nat, ghost edges: set<(string, string)>)
    returns (ghost more: set<(string, string)>)
    requires i < |keys| && ds.Valid() && Matches(keys, ds.rep, edges) && EdgesSoFar(keys, tau, sim, edges, i, 0)
    requires forall a, b | 0 <= a < b < |keys| :: keys[a] != keys[b]
    modifies ds, ds.parent
    ensures ds.Valid() && Matches(keys, ds.rep, more) && EdgesSoFar(keys, tau, sim, more, i + 1, 0)
  {
    more := edges;
    for j := i + 1 to |keys|
      invariant ds.Valid() && Matches(keys, ds.rep, more) && EdgesSoFar(keys, tau, sim, more, i, j)
    {
      if sim(keys[i], keys[j]) >= tau {
        UnitePair(keys, ds, i, j, more);
        AddEdge(keys, tau, sim, more, i, j);
        more := more + {(keys[i], keys[j])};
      }
    }
  }

  lemma AddEdge(keys: seq<string>, tau: real, sim: Similarity, edges: set<(string, string)>, i: nat, j: nat)
    requires i < j < |keys| && sim(keys[i], keys[j]) >= tau
    requires forall a, b | 0 <= a < b < |keys| :: keys[a] != keys[b]
    requires EdgesSoFar(keys, tau, sim, edges, i, j)
    ensures EdgesSoFar(keys, tau, sim, edges + {(keys[i], keys[j])}, i, j + 1)
  {
  }

  /** Uniting every similar pair turns the classes into the components. */
  method UniteSimilar(names: set<string>, keys: seq<string>, tau: real, sim: Similarity) returns (ds: DisjointSet)
    requires keys == Sorted(names)
    ensures fresh(ds) && fresh(ds.parent) && ds.Valid()
    ensures Matches(keys, ds.rep, SimilarPairs(names, tau, sim))
  {
    ds := new DisjointSet(|keys|);
    ghost var edges: set<(string, string)> := {};
    SortedDistinct(keys);
    NoEdges(keys);
    if tau < 1.0 {
      for i := 0 to |keys|
        invariant ds.Valid() && Matches(keys, ds.rep, edges) && EdgesSoFar(keys, tau, sim, edges, i, 0)
      {
        edges := UniteRow(keys, tau, sim, ds, i, edges);
      }
      AllEdges(names, keys, tau, sim, edges);
    }
  }

  lemma NoEdges(keys: seq<string>)
    requires forall a, b | 0 <= a < b < |keys| :: keys[a] != keys[b]
    ensures Matches(keys, Iota(|keys|), {})
  {
    forall i, j | 0 <= i < |keys| && 0 <= j < |keys| ensures i == j <==> Linked({}, keys[i], keys[j]) {
      LinkedReflexive({}, keys[i]);
      if Linked({}, keys[i], keys[j]) {
        var p :| Joins({}, p, keys[i], keys[j]);
        assert |p| > 1 ==> Adjacent({}, p[0], p[1]);
      }
    }
  }

  lemma RootBelowClass(keys: seq<string>, rep: seq<nat>, i: nat, j: nat)
    requires StrictlySorted(keys) && LeastRoots(rep) && i < |keys| && j < |keys| == |rep| && rep[i] == rep[j]
    ensures rep[i] < |keys| && Le(keys[rep[i]], keys[j])
  {
    SortedOrder(keys, rep[i], j);
  }

  lemma IsLeastOf(names: set<string>, tau: real, sim: Similarity, k: string, m: string)
    requires k in names && IsMin(m, Component(names, tau, sim, k))
    ensures m == IdOf(names, tau, sim, k)
  {
    hide Component;
    var c := Component(names, tau, sim, k);
    MinUnique(m, Min(c), c);
  }

  /** Since each root is the least index of its class, its key is the least key of its component. */
  lemma RootIsLeastKey(names: set<string>, keys: seq<string>, tau: real, sim: Similarity, rep: seq<nat>, i: nat)
    requires keys == Sorted(names) && Matches(keys, rep, SimilarPairs(names, tau, sim)) && i < |keys|
    requires LeastRoots(rep)
    ensures keys[i] in names && keys[rep[i]] == IdOf(names, tau, sim, keys[i])
  {
    hide Sorted, SimilarPairs, Linked, IdOf, Le, StrictlySorted;
    assert keys[i] in keys && keys[rep[i]] in keys;
    var c := Component(names, tau, sim, keys[i]);
    forall x | x in c ensures Le(keys[rep[i]], x) {
      assert x in keys;
      var j :| 0 <= j < |keys| && keys[j] == x;
      RootBelowClass(keys, rep, i, j);
    }
    assert keys[rep[i]] in c;
    IsLeastOf(names, tau, sim, keys[i], keys[rep[i]]);
  }

  ghost predicate LeastRoots(rep: seq<nat>)
  {
    forall x | 0 <= x < |rep| :: rep[x] <= x && rep[rep[x]] == rep[x]
  }

  lemma RootsAreLeast(parent: seq<nat>, rep: seq<nat>)
    requires Forest(parent, rep, Iota(|rep|))
    ensures LeastRoots(rep)
  {
    forall x | 0 <= x < |rep| ensures rep[x] <= x && rep[rep[x]] == rep[x] {
      assert Node(parent, rep, Iota(|rep|), x);
    }
  }

  /** Folding the keys of each class into its smallest finds the key of the root every time. */
  method SmallestKeys(keys: seq<string>, ds: DisjointSet) returns (rootId: map<nat, string>)
    requires ds.Valid() && |ds.rep| == |keys| && StrictlySorted(keys)
    modifies ds.parent
    ensures ds.Valid()
    ensures LeastRoots(ds.rep)
    ensures forall x | 0 <= x < |keys| :: ds.rep[x] in rootId && rootId[ds.rep[x]] == keys[ds.rep[x]]
  {
    RootsAreLeast(ds.parent[..], ds.rep);
    rootId := map[];
    for i := 0 to |keys|
      invariant ds.Valid() && LeastRoots(ds.rep)
      invariant forall x | 0 <= x < i :: ds.rep[x] in rootId
      invariant forall r | r in rootId :: r < i && rootId[r] == keys[r]
    {
      var r := ds.Find(i);
      assert r <= i && ds.rep[r] == r;
      var k := keys[i];
      if r in rootId {
        if Lt(k, rootId[r]) {
          rootId := rootId[r := k];
        }
      } else {
        rootId := rootId[r := k];
      }
      SortedOrder(keys, i, r);
    }
  }

  /** The canonical key of every noun, and the distinct keys. */
  method CollectKeys(nouns: seq<string>, key: string -> string) returns (keyOf: map<string, string>, names: set<string>)
    ensures keyOf == map n | n in nouns :: key(n)
    ensures names == KeysOf(nouns, key)
  {
    keyOf, names := map[], {};
    for i := 0 to |nouns|
      invariant keyOf == map n | n in nouns[..i] :: key(n)
      invariant names == KeysOf(nouns[..i], key)
    {
      var k := key(nouns[i]);
      assert nouns[..i + 1] == nouns[..i] + [nouns[i]];
      keyOf := keyOf[nouns[i] := k];
      names := names + {k};
    }
    assert nouns[..|nouns|] == nouns;
  }

  /** Each noun gets the key stored for the root of its key's class. */
  method AssignIds(keyOf: map<string, string>, keys: seq<string>, ds: DisjointSet, rootId: map<nat, string>,
                   ghost id: map<string, string>)
    returns (out: map<string, string>)
    requires ds.Valid() && |ds.rep| == |keys| && LeastRoots(ds.rep)
    requires forall n | n in keyOf :: keyOf[n] in keys
    requires forall x | 0 <= x < |keys| :: ds.rep[x] in rootId && keys[x] in id && rootId[ds.rep[x]] == id[keys[x]]
    modifies ds.parent
    ensures out.Keys == keyOf.Keys
    ensures forall n | n in out :: keyOf[n] in id && out[n] == id[keyOf[n]]
  {
    out := map[];
    var left := keyOf.Keys;
    while left != {}
      invariant ds.Valid() && left <= keyOf.Keys && out.Keys == keyOf.Keys - left
      invariant forall n | n in out :: keyOf[n] in id && out[n] == id[keyOf[n]]
    {
      var noun :| noun in left;
      var i := IndexOf(keys, keyOf[noun]);
      var r := ds.Find(i);
      out := out[noun := rootId[r]];
      left := left - {noun};
    }
  }

  /** The disjoint set of all keys, with the id of every class at its root. */
  method ComponentIds(names: set<string>, keys: seq<string>, tau: real, sim: Similarity)
    returns (ds: DisjointSet, rootId: map<nat, string>, ghost id: map<string, string>)
    requires keys == Sorted(names)
    ensures fresh(ds) && fresh(ds.parent) && ds.Valid() && |ds.rep| == |keys| && LeastRoots(ds.rep)
    ensures id == map k | k in names :: IdOf(names, tau, sim, k)
    ensures forall x | 0 <= x < |keys| :: keys[x] in id && ds.rep[x] in rootId && rootId[ds.rep[x]] == id[keys[x]]
  {
    id := map k | k in names :: IdOf(names, tau, sim, k);
    ds := UniteSimilar(names, keys, tau, sim);
    rootId := SmallestKeys(keys, ds);
    forall x | 0 <= x < |keys| ensures keys[x] in id && rootId[ds.rep[x]] == id[keys[x]] {
      RootIsLeastKey(names, keys, tau, sim, ds.rep, x);
    }
  }

  method ClusterBy(nouns: seq<string>, tau: real, key: string -> string, sim: Similarity) returns (out: map<string, string>)
    ensures out == Clustering(nouns, tau, key, sim)
  {
    hide IdOf, StrictlySorted, LeastRoots, IsMin, Clustering;
    var keyOf, names := CollectKeys(nouns, key);
    var keys := InOrder(names);
    var ds, rootId, id := ComponentIds(names, keys, tau, sim);
    assert forall n | n in keyOf :: keyOf[n] in names;
    out := AssignIds(keyOf, keys, ds, rootId, id);
    AssignedIsClustering(nouns, tau, key, sim, keyOf, id, out);
  }

  lemma AssignedIsClustering(
      nouns: seq<string>, tau: real, key: string -> string, sim: Similarity, keyOf: map<string, string>,
      id: map<string, string>, out: map<string, string>)
    requires keyOf == map n | n in nouns :: key(n)
    requires id == map k | k in KeysOf(nouns, key) :: IdOf(KeysOf(nouns, key), tau, sim, k)
    requires out.Keys == keyOf.Keys && forall n | n in out :: keyOf[n] in id && out[n] == id[keyOf[n]]
    ensures out == Clustering(nouns, tau, key, sim)
  {
    hide IdOf;
  }

  /** `cluster_nouns`, with token-set similarity. */
  method ClusterNouns(nouns: seq<string>, tau: real, key: string -> string) returns (out: map<string, string>)
    ensures out == Clustering(nouns, tau, key, TokenJaccard)
  {
    out := ClusterBy(nouns, tau, key, TokenJaccard);
  }

  method IndexOf(keys: seq<string>, k: string) returns (i: nat)
    requires k in keys
    ensures i < |keys| && keys[i] == k
  {
    i := 0;
    while keys[i] != k
      invariant i < |keys| && k in keys[i..]
      decreases |keys| - i
    {
      assert keys[i..] == [keys[i]] + keys[i + 1..];
      i := i + 1;
    }
  }

  // ---- what a clustering promises

  /** Two nouns share an id exactly when a chain of similar keys connects theirs. */
  lemma SameIdIffLinked(nouns: seq<string>, tau: real, key: string -> string, sim: Similarity, m: string, n: string)
    requires m in nouns && n in nouns
    ensures var out := Clustering(nouns, tau, key, sim);
      out[m] == out[n] <==> Linked(SimilarPairs(KeysOf(nouns, key), tau, sim), key(m), key(n))
  {
    var names := KeysOf(nouns, key);
    var edges := SimilarPairs(names, tau, sim);
    var cm, cn := Component(names, tau, sim, key(m)), Component(names, tau, sim, key(n));
    if Linked(edges, key(m), key(n)) {
      LinkedSymmetric(edges, key(m), key(n));
      forall x ensures x in cm <==> x in cn {
        if x in cm { LinkedTransitive(edges, key(n), key(m), x); }
        if x in cn { LinkedTransitive(edges, key(m), key(n), x); }
      }
      assert cm == cn;
    } else if Min(cm) == Min(cn) {
      LinkedSymmetric(edges, key(n), Min(cn));
      LinkedTransitive(edges, key(m), Min(cm), key(n));
    }
  }

  /** An id is the key of some noun of its cluster, and no key of the cluster is smaller. */
  lemma IdIsSmallestKey(nouns: seq<string>, tau: real, key: string -> string, sim: Similarity, n: string)
    requires n in nouns
    ensures var out := Clustering(nouns, tau, key, sim);
      && (exists m :: m in nouns && key(m) == out[n] && out[m] == out[n])
      && forall m | m in nouns && out[m] == out[n] :: Le(out[n], key(m))
  {
    var names := KeysOf(nouns, key);
    var out := Clustering(nouns, tau, key, sim);
    var c := Component(names, tau, sim, key(n));
    assert out[n] in names;
    var m :| m in nouns && key(m) == out[n];
    SameIdIffLinked(nouns, tau, key, sim, n, m);
    forall m | m in nouns && out[m] == out[n] ensures Le(out[n], key(m)) {
      SameIdIffLinked(nouns, tau, key, sim, n, m);
      assert key(m) in c;
    }
  }

  /** Neither the order nor the repetition of the input matters. */
  lemma OrderDoesNotMatter(nouns: seq<string>, other: seq<string>, tau: real, key: string -> string, sim: Similarity)
    requires forall n :: n in nouns <==> n in other
    ensures Clustering(nouns, tau, key, sim) == Clustering(other, tau, key, sim)
  {
    assert KeysOf(nouns, key) == KeysOf(other, key);
  }

  /** A higher threshold only splits clusters. */
  lemma HigherThresholdRefines(
      nouns: seq<string>, low: real, high: real, key: string -> string, sim: Similarity, m: string, n: string)
    requires low <= high && m in nouns && n in nouns
    requires Clustering(nouns, high, key, sim)[m] == Clustering(nouns, high, key, sim)[n]
    ensures Clustering(nouns, low, key, sim)[m] == Clustering(nouns, low, key, sim)[n]
  {
    SameIdIffLinked(nouns, high, key, sim, m, n);
    SameIdIffLinked(nouns, low, key, sim, m, n);
    var names := KeysOf(nouns, key);
    LinkedMonotone(SimilarPairs(names, high, sim), SimilarPairs(names, low, sim), key(m), key(n));
  }

  /** With a threshold of one or more, nouns share an id exactly when they share a key. */
  lemma ExactGroupingAtOne(nouns: seq<string>, tau: real, key: string -> string, sim: Similarity, m: string, n: string)
    requires tau >= 1.0 && m in nouns && n in nouns
    ensures Clustering(nouns, tau, key, sim)[m] == Clustering(nouns, tau, key, sim)[n] <==> key(m) == key(n)
  {
    SameIdIffLinked(nouns, tau, key, sim, m, n);
    if Linked({}, key(m), key(n)) {
      var p :| Joins({}, p, key(m), key(n));
      assert |p| > 1 ==> Adjacent({}, p[0], p[1]);
    }
  }
}
