/** Single-linkage clustering of guides over pairwise cosine (src/doctor.rs). */
module DoctorClusters {
  import opened Prelude
  import opened Strings
  import opened Connectivity

  type Vec = seq<real>
  type Cosine = (Vec, Vec) -> real

  datatype Cluster = Cluster(slugs: seq<string>, minPair: real)

  // ---- what a clustering is

  /** The pairs of guides at or above the threshold. */
  function Links(embs: seq<Vec>, cosine: Cosine, tau: real): set<(nat, nat)>
  {
    set i: nat, j: nat | 0 <= i < j < |embs| && cosine(embs[i], embs[j]) >= tau :: (i, j)
  }

  ghost predicate Within(g: seq<nat>, n: nat)
  {
    forall k | 0 <= k < |g| :: g[k] < n
  }

  /** The guides below `n` in the component of `i`, in increasing order. */
  ghost function Class(links: set<(nat, nat)>, n: nat, i: nat): (g: seq<nat>)
    ensures Within(g, n)
    ensures forall x: nat :: x in g <==> x < n && Linked<nat>(links, i, x)
    ensures forall a, b | 0 <= a < b < |g| :: g[a] < g[b]
  {
    if n == 0 then []
    else
      var below := Class(links, n - 1, i);
      if Linked<nat>(links, i, n - 1) then below + [n - 1] else below
  }

  function Names(slugs: seq<string>, g: seq<nat>): (r: seq<string>)
    requires Within(g, |slugs|)
    ensures |r| == |g| && forall k | 0 <= k < |g| :: r[k] == slugs[g[k]]
  {
    seq(|g|, k requires 0 <= k < |g| => slugs[g[k]])
  }

  ghost predicate NonDecreasing(q: seq<string>)
  {
    forall i, j {:trigger Le(q[i], q[j])} | 0 <= i < j < |q| :: Le(q[i], q[j])
  }

  /** How similar the members at positions `a` and `b` of a group are. */
  function Similarity(embs: seq<Vec>, cosine: Cosine, g: seq<nat>, a: nat, b: nat): real
    requires Within(g, |embs|) && a < |g| && b < |g|
  {
    cosine(embs[g[a]], embs[g[b]])
  }

  /** The lowest similarity within `g`, but never more than one. */
  ghost predicate IsMinPair(embs: seq<Vec>, cosine: Cosine, g: seq<nat>, m: real)
    requires Within(g, |embs|)
  {
    && m <= 1.0
    && (forall a, b | 0 <= a < b < |g| :: m <= Similarity(embs, cosine, g, a, b))
    && (m == 1.0 || exists a, b :: 0 <= a < b < |g| && m == Similarity(embs, cosine, g, a, b))
  }

  ghost predicate Describes(embs: seq<Vec>, cosine: Cosine, slugs: seq<string>, c: Cluster, g: seq<nat>)
  {
    && |slugs| == |embs| && Within(g, |embs|)
    && NonDecreasing(c.slugs) && multiset(c.slugs) == multiset(Names(slugs, g))
    && IsMinPair(embs, cosine, g, c.minPair)
  }

  /** Larger clusters first, then by first slug. */
  predicate Before(a: Cluster, b: Cluster)
  {
    |a.slugs| > |b.slugs| || (|a.slugs| == |b.slugs| && (a.slugs == [] || Le(a.slugs[0], b.slugs[0])))
  }

  /** `groups` are exactly the components of two guides or more, one after the other. */
  ghost predicate AllGroups(links: set<(nat, nat)>, n: nat, groups: seq<seq<nat>>)
  {
    && (forall k | 0 <= k < |groups| :: |groups[k]| >= 2 && groups[k] == Class(links, n, groups[k][0]))
    && (forall j, k | 0 <= j < |groups| && 0 <= k < |groups| && j != k :: groups[j] != groups[k])
    && forall i | 0 <= i < n && |Class(links, n, i)| >= 2 :: Class(links, n, i) in groups
  }

  ghost predicate Clustered(
      embs: seq<Vec>, cosine: Cosine, slugs: seq<string>, tau: real, out: seq<Cluster>, groups: seq<seq<nat>>)
  {
    && |out| == |groups| && AllGroups(Links(embs, cosine, tau), |embs|, groups)
    && (forall k | 0 <= k < |out| :: Describes(embs, cosine, slugs, out[k], groups[k]))
    && forall j, k | 0 <= j < k < |out| :: Before(out[j], out[k])
  }

  // ---- union-find without an order on parents

  method UfFind(parent: array<nat>, x: nat, ghost rep: seq<nat>, ghost depth: seq<nat>) returns (r: nat)
    requires Forest(parent[..], rep, depth) && x < |rep|
    modifies parent
    ensures Forest(parent[..], rep, depth)
    ensures r < |rep| && r == rep[x] && rep[r] == r
  {
    r := x;
    assert Node(parent[..], rep, depth, x);
    while parent[r] != r
      invariant r < |rep| && rep[r] == rep[x]
      decreases depth[r]
    {
      assert Node(parent[..], rep, depth, r);
      r := parent[r];
    }
    assert Node(parent[..], rep, depth, r);
    var c: nat := x;
    while parent[c] != r
      invariant Forest(parent[..], rep, depth) && c < |rep| && rep[c] == r && parent[r] == r
      decreases depth[c]
    {
      assert Node(parent[..], rep, depth, c);
      var next := parent[c];
      ghost var before := parent[..];
      CompressKeepsForest(before, rep, depth, c);
      parent[c] := r;
      assert parent[..] == before[c := r];
      c := next;
    }
  }

  /** Unites the classes of `i` and `j` by hanging the first root below the second. */
  method UniteRoots(parent: array<nat>, i: nat, j: nat, ghost rep: seq<nat>, ghost depth: seq<nat>,
                    ghost links: set<(nat, nat)>)
    returns (ghost rep': seq<nat>, ghost depth': seq<nat>)
    requires Forest(parent[..], rep, depth) && i < |rep| && j < |rep| && Matches(Iota(|rep|), rep, links)
    modifies parent
    ensures Forest(parent[..], rep', depth') && |rep'| == |rep|
    ensures Matches(Iota(|rep|), rep', links + {(i, j)})
  {
    var a := UfFind(parent, i, rep, depth);
    var b := UfFind(parent, j, rep, depth);
    MergeMatches(Iota(|rep|), rep, links, i, j, Merged(rep, a, b));
    rep', depth' := Merged(rep, a, b), depth;
    if a != b {
      ghost var before := parent[..];
      AttachKeepsForest(before, rep, depth, a, b);
      parent[a] := b;
      assert parent[..] == before[a := b];
      depth' := Deepened(rep, depth, a, b);
    } else {
      assert rep' == rep;
    }
  }

  ghost predicate LinksSoFar(embs: seq<Vec>, cosine: Cosine, tau: real, links: set<(nat, nat)>, i: nat, j: nat)
  {
    forall e :: e in links <==>
      e.0 < |embs| && e.1 < |embs| && Visited(i, j, e.0, e.1) && cosine(embs[e.0], embs[e.1]) >= tau
  }

  ghost predicate SimsSoFar(embs: seq<Vec>, cosine: Cosine, sims: map<(nat, nat), real>, i: nat, j: nat)
  {
    forall a: nat, b: nat | a < |embs| && b < |embs| && Visited(i, j, a, b) ::
      (a, b) in sims && sims[(a, b)] == cosine(embs[a], embs[b])
  }

  lemma NextLink(embs: seq<Vec>, cosine: Cosine, tau: real, links: set<(nat, nat)>, i: nat, j: nat)
    requires i < j < |embs| && LinksSoFar(embs, cosine, tau, links, i, j)
    ensures LinksSoFar(embs, cosine, tau, if cosine(embs[i], embs[j]) >= tau then links + {(i, j)} else links, i, j + 1)
  {
  }

  lemma NextSim(embs: seq<Vec>, cosine: Cosine, sims: map<(nat, nat), real>, i: nat, j: nat)
    requires i < j < |embs| && SimsSoFar(embs, cosine, sims, i, j)
    ensures SimsSoFar(embs, cosine, sims[(i, j) := cosine(embs[i], embs[j])], i, j + 1)
  {
  }

  /** The inner loop: guide `i` against every later guide. */
  method CompareRow(embs: seq<Vec>, cosine: Cosine, tau: real, parent: array<nat>, i: nat, sims: map<(nat, nat), real>,
                    ghost rep: seq<nat>, ghost depth: seq<nat>, ghost links: set<(nat, nat)>)
    returns (sims': map<(nat, nat), real>, ghost rep': seq<nat>, ghost depth': seq<nat>, ghost links': set<(nat, nat)>)
    requires i < |embs| == |rep| && Forest(parent[..], rep, depth) && Matches(Iota(|rep|), rep, links)
    requires LinksSoFar(embs, cosine, tau, links, i, 0) && SimsSoFar(embs, cosine, sims, i, 0)
    modifies parent
    ensures |rep'| == |rep| && Forest(parent[..], rep', depth') && Matches(Iota(|rep|), rep', links')
    ensures LinksSoFar(embs, cosine, tau, links', i + 1, 0) && SimsSoFar(embs, cosine, sims', i + 1, 0)
  {
    sims', rep', depth', links' := sims, rep, depth, links;
    for j := i + 1 to |embs|
      invariant |rep'| == |rep| && Forest(parent[..], rep', depth') && Matches(Iota(|rep|), rep', links')
      invariant LinksSoFar(embs, cosine, tau, links', i, j) && SimsSoFar(embs, cosine, sims', i, j)
    {
      var s := cosine(embs[i], embs[j]);
      NextLink(embs, cosine, tau, links', i, j);
      NextSim(embs, cosine, sims', i, j);
      if s >= tau {
        rep', depth' := UniteRoots(parent, i, j, rep', depth', links');
        links' := links' + {(i, j)};
      }
      sims' := sims'[(i, j) := s];
    }
  }

  /** After all comparisons the classes of the forest are the components. */
  method LinkGuides(embs: seq<Vec>, cosine: Cosine, tau: real)
    returns (parent: array<nat>, sims: map<(nat, nat), real>, ghost rep: seq<nat>, ghost depth: seq<nat>)
    ensures fresh(parent) && |rep| == |embs| && Forest(parent[..], rep, depth)
    ensures Matches(Iota(|rep|), rep, Links(embs, cosine, tau))
    ensures SimsSoFar(embs, cosine, sims, |embs|, 0)
  {
    var n := |embs|;
    parent := new nat[n](i => i);
    sims, rep, depth := map[], Iota(n), Iota(n);
    ghost var links: set<(nat, nat)> := {};
    forall x | 0 <= x < n ensures Node(parent[..], rep, depth, x) {
    }
    NoLinks(n);
    for i := 0 to n
      invariant |rep| == n && Forest(parent[..], rep, depth) && Matches(Iota(n), rep, links)
      invariant LinksSoFar(embs, cosine, tau, links, i, 0) && SimsSoFar(embs, cosine, sims, i, 0)
    {
      sims, rep, depth, links := CompareRow(embs, cosine, tau, parent, i, sims, rep, depth, links);
    }
    assert links == Links(embs, cosine, tau);
  }

  lemma NoLinks(n: nat)
    ensures Matches(Iota(n), Iota(n), {})
  {
    var none: set<(nat, nat)> := {};
    forall i: nat, j: nat | i < n && j < n ensures Iota(n)[i] == Iota(n)[j] <==> Linked(none, Iota(n)[i], Iota(n)[j]) {
      LinkedReflexive(none, i);
      if Linked(none, i, j) {
        var p :| Joins(none, p, i, j);
        assert |p| > 1 ==> Adjacent(none, p[0], p[1]);
      }
    }
  }

  // ---- groups and clusters

  /** The guides below `n` whose root is `r`, in increasing order. */
  ghost function Members(rep: seq<nat>, n: nat, r: nat): (g: seq<nat>)
    requires n <= |rep|
  {
    if n == 0 then []
    else
      var below := Members(rep, n - 1, r);
      if rep[n - 1] == r then below + [n - 1] else below
  }

  lemma {:induction false} MembersAreClass(rep: seq<nat>, links: set<(nat, nat)>, n: nat, i: nat)
    requires n <= |rep| && i < |rep| && Matches(Iota(|rep|), rep, links)
    ensures Members(rep, n, rep[i]) == Class(links, n, i)
  {
    if n > 0 {
      MembersAreClass(rep, links, n - 1, i);
      assert Iota(|rep|)[i] == i && Iota(|rep|)[n - 1] == n - 1;
      assert rep[i] == rep[n - 1] <==> Linked<nat>(links, Iota(|rep|)[i], Iota(|rep|)[n - 1]);
    }
  }

  /** The map from each root to its members. */
  method GroupByRoot(parent: array<nat>, n: nat, ghost rep: seq<nat>, ghost depth: seq<nat>)
    returns (groups: map<nat, seq<nat>>)
    requires n == |rep| && Forest(parent[..], rep, depth)
    modifies parent
    ensures forall r | r in groups :: r < n && rep[r] == r && groups[r] == Members(rep, n, r)
    ensures forall x | 0 <= x < n :: rep[x] in groups
  {
    hide Forest, Members;
    groups := map[];
    NobodyYet(rep);
    for i := 0 to n
      invariant Forest(parent[..], rep, depth) && GroupsSoFar(rep, i, groups)
    {
      var r := UfFind(parent, i, rep, depth);
      JoinGroup(rep, i, r, groups);
      groups := groups[r := (if r in groups then groups[r] else []) + [i]];
    }
  }

  ghost predicate GroupsSoFar(rep: seq<nat>, i: nat, groups: map<nat, seq<nat>>)
    requires i <= |rep|
  {
    && (forall r | r in groups :: r < |rep| && rep[r] == r && groups[r] == Members(rep, i, r))
    && (forall r | 0 <= r < |rep| && r !in groups :: Members(rep, i, r) == [])
    && forall x | 0 <= x < i :: rep[x] in groups
  }

  lemma NobodyYet(rep: seq<nat>)
    ensures GroupsSoFar(rep, 0, map[])
  {
  }

  lemma NextMember(rep: seq<nat>, i: nat, r: nat)
    requires i < |rep|
    ensures Members(rep, i + 1, r) == Members(rep, i, r) + if rep[i] == r then [i] else []
  {
  }

  lemma JoinGroup(rep: seq<nat>, i: nat, r: nat, groups: map<nat, seq<nat>>)
    requires i < |rep| && GroupsSoFar(rep, i, groups) && r < |rep| && rep[i] == r == rep[r]
    ensures GroupsSoFar(rep, i + 1, groups[r := (if r in groups then groups[r] else []) + [i]])
  {
    hide Members;
    forall q: nat | q < |rep|
      ensures Members(rep, i + 1, q) == Members(rep, i, q) + if rep[i] == q then [i] else []
    {
      NextMember(rep, i, q);
    }
  }

  function Lower(a: nat, b: nat): nat
  {
    if a <= b then a else b
  }

  function Upper(a: nat, b: nat): nat
  {
    if a <= b then b else a
  }

  /** The recorded similarity of two members of a group. */
  method Recorded(embs: seq<Vec>, cosine: Cosine, sims: map<(nat, nat), real>, members: seq<nat>, a: nat, b: nat)
    returns (s: Option<real>)
    requires Within(members, |embs|) && a < b < |members| && members[a] < members[b]
    requires SimsSoFar(embs, cosine, sims, |embs|, 0)
    ensures s == Some(Similarity(embs, cosine, members, a, b))
  {
    var i, j := Lower(members[a], members[b]), Upper(members[a], members[b]);
    assert Visited(|embs|, 0, i, j);
    s := if (i, j) in sims then Some(sims[(i, j)]) else None;
  }

  /** The smallest similarity among the members, as the nested loops over pairs find it. */
  method LowestPair(embs: seq<Vec>, cosine: Cosine, sims: map<(nat, nat), real>, members: seq<nat>) returns (m: real)
    requires Within(members, |embs|) && forall a, b | 0 <= a < b < |members| :: members[a] < members[b]
    requires SimsSoFar(embs, cosine, sims, |embs|, 0)
    ensures IsMinPair(embs, cosine, members, m)
  {
    m := 1.0;
    for a := 0 to |members|
      invariant m <= 1.0
      invariant forall c, d | 0 <= c < a && c < d < |members| :: m <= Similarity(embs, cosine, members, c, d)
      invariant m == 1.0 || exists c, d :: 0 <= c < d < |members| && m == Similarity(embs, cosine, members, c, d)
    {
      for b := a + 1 to |members|
        invariant m <= 1.0
        invariant forall c, d | 0 <= c < a && c < d < |members| :: m <= Similarity(embs, cosine, members, c, d)
        invariant forall d | a < d < b :: m <= Similarity(embs, cosine, members, a, d)
        invariant m == 1.0 || exists c, d :: 0 <= c < d < |members| && m == Similarity(embs, cosine, members, c, d)
      {
        var s := Recorded(embs, cosine, sims, members, a, b);
        if s.Some? && s.value < m {
          m := s.value;
        }
      }
    }
  }

  method SortStrings(q: seq<string>) returns (s: seq<string>)
    ensures NonDecreasing(s) && multiset(s) == multiset(q)
  {
    s := [];
    for n := 0 to |q|
      invariant NonDecreasing(s) && multiset(s) == multiset(q[..n])
    {
      var x := q[n];
      var k := 0;
      while k < |s| && Le(s[k], x)
        invariant 0 <= k <= |s|
        invariant forall i | 0 <= i < k :: Le(s[i], x)
      {
        k := k + 1;
      }
      InsertKeepsOrder(s, k, x);
      assert s == s[..k] + s[k..];
      assert q[..n + 1] == q[..n] + [x];
      s := s[..k] + [x] + s[k..];
    }
    assert q[..|q|] == q;
  }

  lemma InsertKeepsOrder(s: seq<string>, k: nat, x: string)
    requires NonDecreasing(s) && k <= |s|
    requires forall i | 0 <= i < k :: Le(s[i], x)
    requires k < |s| ==> !Le(s[k], x)
    ensures NonDecreasing(s[..k] + [x] + s[k..])
  {
    var t := s[..k] + [x] + s[k..];
    if k < |s| { LeTotal(s[k], x); }
    forall i, j | 0 <= i < j < |t| ensures Le(t[i], t[j]) {
      if j > k && i == k {
        if j > k + 1 {
          assert Le(s[k], s[j - 1]);
          LeTransitive(x, s[k], s[j - 1]);
        }
      } else if j != k {
        var a, b := if i < k then i else i - 1, if j < k then j else j - 1;
        assert Le(s[a], s[b]);
      }
    }
  }

  // ---- assembling and ordering the result

  ghost predicate DescribesAll(
      embs: seq<Vec>, cosine: Cosine, slugs: seq<string>, out: seq<Cluster>, groups: seq<seq<nat>>)
  {
    |out| == |groups| && forall k | 0 <= k < |out| :: Describes(embs, cosine, slugs, out[k], groups[k])
  }

  ghost predicate Distinct(groups: seq<seq<nat>>)
  {
    forall j, k | 0 <= j < |groups| && 0 <= k < |groups| && j != k :: groups[j] != groups[k]
  }

  ghost predicate Ordered(out: seq<Cluster>)
  {
    forall j, k {:trigger Before(out[j], out[k])} | 0 <= j < k < |out| :: Before(out[j], out[k])
  }

  lemma BeforeTransitive(a: Cluster, b: Cluster, c: Cluster)
    requires Before(a, b) && Before(b, c)
    ensures Before(a, c)
  {
    if |a.slugs| == |b.slugs| == |c.slugs| && a.slugs != [] {
      LeTransitive(a.slugs[0], b.slugs[0], c.slugs[0]);
    }
  }

  lemma BeforeTotal(a: Cluster, b: Cluster)
    ensures Before(a, b) || Before(b, a)
  {
    if |a.slugs| == |b.slugs| && a.slugs != [] {
      LeTotal(a.slugs[0], b.slugs[0]);
    }
  }

  lemma InsertOrdered(s: seq<Cluster>, k: nat, x: Cluster)
    requires Ordered(s) && k <= |s|
    requires forall i | 0 <= i < k :: Before(s[i], x)
    requires k < |s| ==> Before(x, s[k])
    ensures Ordered(s[..k] + [x] + s[k..])
  {
    var t := s[..k] + [x] + s[k..];
    forall i, j | 0 <= i < j < |t| ensures Before(t[i], t[j]) {
      if j > k && i == k {
        if j > k + 1 {
          assert Before(s[k], s[j - 1]);
          BeforeTransitive(x, s[k], s[j - 1]);
        }
      } else if j != k {
        var a, b := if i < k then i else i - 1, if j < k then j else j - 1;
        assert Before(s[a], s[b]);
      }
    }
  }

  lemma InsertDistinct(s: seq<seq<nat>>, k: nat, g: seq<nat>)
    requires Distinct(s) && k <= |s| && g !in s
    ensures Distinct(s[..k] + [g] + s[k..])
    ensures forall x :: x in s[..k] + [g] + s[k..] <==> x in s || x == g
  {
    assert s == s[..k] + s[k..];
  }

  lemma InsertDescribed(embs: seq<Vec>, cosine: Cosine, slugs: seq<string>, out: seq<Cluster>, groups: seq<seq<nat>>,
                        k: nat, c: Cluster, g: seq<nat>)
    requires DescribesAll(embs, cosine, slugs, out, groups) && k <= |out| && Describes(embs, cosine, slugs, c, g)
    ensures DescribesAll(embs, cosine, slugs, out[..k] + [c] + out[k..], groups[..k] + [g] + groups[k..])
  {
  }

  /** Sorting the clusters; each keeps the group it describes. */
  method SortClusters(embs: seq<Vec>, cosine: Cosine, slugs: seq<string>, q: seq<Cluster>, ghost groups: seq<seq<nat>>)
    returns (out: seq<Cluster>, ghost sorted: seq<seq<nat>>)
    requires DescribesAll(embs, cosine, slugs, q, groups) && Distinct(groups)
    ensures DescribesAll(embs, cosine, slugs, out, sorted) && Distinct(sorted) && Ordered(out)
    ensures forall g :: g in sorted <==> g in groups
  {
    out, sorted := [], [];
    for n := 0 to |q|
      invariant DescribesAll(embs, cosine, slugs, out, sorted) && Distinct(sorted) && Ordered(out)
      invariant forall g :: g in sorted <==> g in groups[..n]
    {
      var x := q[n];
      var k := 0;
      while k < |out| && Before(out[k], x)
        invariant 0 <= k <= |out|
        invariant forall i | 0 <= i < k :: Before(out[i], x)
      {
        k := k + 1;
      }
      if k < |out| { BeforeTotal(out[k], x); }
      InsertOrdered(out, k, x);
      assert groups[..n + 1] == groups[..n] + [groups[n]];
      InsertDistinct(sorted, k, groups[n]);
      InsertDescribed(embs, cosine, slugs, out, sorted, k, x, groups[n]);
      out := out[..k] + [x] + out[k..];
      sorted := sorted[..k] + [groups[n]] + sorted[k..];
    }
    assert groups[..|q|] == groups;
  }

  method DescribeGroup(embs: seq<Vec>, cosine: Cosine, slugs: seq<string>, sims: map<(nat, nat), real>, members: seq<nat>)
    returns (c: Cluster)
    requires |slugs| == |embs| && SimsSoFar(embs, cosine, sims, |embs|, 0)
    requires Within(members, |embs|) && forall a, b | 0 <= a < b < |members| :: members[a] < members[b]
    ensures Describes(embs, cosine, slugs, c, members)
  {
    var minPair := LowestPair(embs, cosine, sims, members);
    var names := SortStrings(Names(slugs, members));
    c := Cluster(names, minPair);
  }

  /** `leaders` are the roots of the groups of two or more, among the roots already handled. */
  ghost predicate Led(byRoot: map<nat, seq<nat>>, left: set<nat>, leaders: seq<nat>, groups: seq<seq<nat>>)
  {
    && |leaders| == |groups|
    && (forall k | 0 <= k < |leaders| ::
          leaders[k] in byRoot && leaders[k] !in left && groups[k] == byRoot[leaders[k]] && |groups[k]| >= 2)
    && (forall j, k | 0 <= j < k < |leaders| :: leaders[j] != leaders[k])
    && forall r | r in byRoot && r !in left && |byRoot[r]| >= 2 :: r in leaders
  }

  /** Turns every group of at least two guides into a cluster. */
  method DescribeGroups(
      embs: seq<Vec>, cosine: Cosine, slugs: seq<string>, sims: map<(nat, nat), real>, byRoot: map<nat, seq<nat>>)
    returns (out: seq<Cluster>, ghost leaders: seq<nat>, ghost groups: seq<seq<nat>>)
    requires |embs| == |slugs| && SimsSoFar(embs, cosine, sims, |embs|, 0)
    requires forall r | r in byRoot :: Within(byRoot[r], |embs|)
    requires forall r | r in byRoot :: forall a, b | 0 <= a < b < |byRoot[r]| :: byRoot[r][a] < byRoot[r][b]
    ensures DescribesAll(embs, cosine, slugs, out, groups) && Led(byRoot, {}, leaders, groups)
  {
    out, leaders, groups := [], [], [];
    var roots := byRoot.Keys;
    while roots != {}
      invariant roots <= byRoot.Keys
      invariant DescribesAll(embs, cosine, slugs, out, groups) && Led(byRoot, roots, leaders, groups)
    {
      var root :| root in roots;
      var members := byRoot[root];
      roots := roots - {root};
      if |members| >= 2 {
        var cluster := DescribeGroup(embs, cosine, slugs, sims, members);
        out := out + [cluster];
        leaders, groups := leaders + [root], groups + [members];
      }
    }
  }

  lemma SameMembersSameRoot(rep: seq<nat>, links: set<(nat, nat)>, r: nat, q: nat)
    requires Matches(Iota(|rep|), rep, links) && r < |rep| && q < |rep| && rep[r] == r && rep[q] == q
    requires Members(rep, |rep|, r) == Members(rep, |rep|, q)
    ensures r == q
  {
    MembersAreClass(rep, links, |rep|, r);
    MembersAreClass(rep, links, |rep|, q);
    LinkedReflexive<nat>(links, r);
    assert r in Class(links, |rep|, q);
    assert Iota(|rep|)[r] == r && Iota(|rep|)[q] == q;
    assert rep[q] == rep[r] <==> Linked<nat>(links, Iota(|rep|)[q], Iota(|rep|)[r]);
  }

  method ClusterByCosine(embs: seq<Vec>, slugs: seq<string>, tau: real, cosine: Cosine)
    returns (out: seq<Cluster>, ghost groups: seq<seq<nat>>)
    requires |embs| == |slugs|
    ensures Clustered(embs, cosine, slugs, tau, out, groups)
  {
    ghost var links := Links(embs, cosine, tau);
    ghost var rep, depth;
    var parent, sims;
    parent, sims, rep, depth := LinkGuides(embs, cosine, tau);
    var byRoot := GroupByRoot(parent, |embs|, rep, depth);
    forall r | r in byRoot
      ensures Within(byRoot[r], |embs|) && forall a, b | 0 <= a < b < |byRoot[r]| :: byRoot[r][a] < byRoot[r][b]
    {
      MembersAreClass(rep, links, |rep|, r);
    }
    ghost var leaders;
    out, leaders, groups := DescribeGroups(embs, cosine, slugs, sims, byRoot);
    GroupsAreAll(rep, links, byRoot, leaders, groups);
    ghost var unsorted := groups;
    out, groups := SortClusters(embs, cosine, slugs, out, groups);
    SameGroups(links, |embs|, unsorted, groups);
  }

  lemma SameGroups(links: set<(nat, nat)>, n: nat, groups: seq<seq<nat>>, other: seq<seq<nat>>)
    requires AllGroups(links, n, groups) && Distinct(other)
    requires forall g :: g in other <==> g in groups
    ensures AllGroups(links, n, other)
  {
    forall k | 0 <= k < |other| ensures |other[k]| >= 2 && other[k] == Class(links, n, other[k][0]) {
      assert other[k] in groups;
    }
  }

  lemma GroupsAreAll(
      rep: seq<nat>, links: set<(nat, nat)>, byRoot: map<nat, seq<nat>>, leaders: seq<nat>, groups: seq<seq<nat>>)
    requires Matches(Iota(|rep|), rep, links) && Led(byRoot, {}, leaders, groups)
    requires forall r | r in byRoot :: r < |rep| && rep[r] == r && byRoot[r] == Members(rep, |rep|, r)
    requires forall x | 0 <= x < |rep| :: rep[x] in byRoot
    ensures AllGroups(links, |rep|, groups)
  {
    var n := |rep|;
    forall k | 0 <= k < |groups| ensures |groups[k]| >= 2 && groups[k] == Class(links, n, groups[k][0]) {
      MembersAreClass(rep, links, n, leaders[k]);
      assert groups[k][0] in groups[k];
      ClassOfMember(links, n, leaders[k], groups[k][0]);
    }
    forall j, k | 0 <= j < |groups| && 0 <= k < |groups| && groups[j] == groups[k] ensures j == k {
      SameMembersSameRoot(rep, links, leaders[j], leaders[k]);
    }
    forall i | 0 <= i < n && |Class(links, n, i)| >= 2 ensures Class(links, n, i) in groups {
      MembersAreClass(rep, links, n, i);
      assert rep[i] in leaders;
      var k :| 0 <= k < |leaders| && leaders[k] == rep[i];
      assert groups[k] == Class(links, n, i);
    }
  }

  lemma {:induction false} ClassOfMember(links: set<(nat, nat)>, n: nat, i: nat, x: nat)
    requires Linked<nat>(links, i, x)
    ensures Class(links, n, x) == Class(links, n, i)
  {
    if n > 0 {
      ClassOfMember(links, n - 1, i, x);
      LinkedSymmetric<nat>(links, i, x);
      if Linked<nat>(links, i, n - 1) { LinkedTransitive<nat>(links, x, i, n - 1); }
      if Linked<nat>(links, x, n - 1) { LinkedTransitive<nat>(links, i, x, n - 1); }
    }
  }

  // ---- what the result promises

  /** Two different guides share a group exactly when a chain of similar pairs connects them. */
  lemma TogetherIffLinked(
      embs: seq<Vec>, cosine: Cosine, slugs: seq<string>, tau: real, out: seq<Cluster>, groups: seq<seq<nat>>,
      i: nat, j: nat)
    requires Clustered(embs, cosine, slugs, tau, out, groups) && i < |embs| && j < |embs| && i != j
    ensures (exists k :: 0 <= k < |groups| && i in groups[k] && j in groups[k])
       <==> Linked<nat>(Links(embs, cosine, tau), i, j)
  {
    hide Describes, Before, Links, Linked;
    var links, n := Links(embs, cosine, tau), |embs|;
    if k :| 0 <= k < |groups| && i in groups[k] && j in groups[k] {
      var first := groups[k][0];
      LinkedSymmetric<nat>(links, first, i);
      LinkedTransitive<nat>(links, i, first, j);
    }
    if Linked<nat>(links, i, j) {
      var g := Class(links, n, i);
      LinkedReflexive<nat>(links, i);
      assert i in g && j in g;
      assert |g| >= 2;
      var k :| 0 <= k < |groups| && groups[k] == g;
    }
  }

  /** No guide is in two groups. */
  lemma GroupsAreDisjoint(
      embs: seq<Vec>, cosine: Cosine, slugs: seq<string>, tau: real, out: seq<Cluster>, groups: seq<seq<nat>>,
      j: nat, k: nat, x: nat)
    requires Clustered(embs, cosine, slugs, tau, out, groups)
    requires j < |groups| && k < |groups| && x in groups[j] && x in groups[k]
    ensures j == k
  {
    var links, n := Links(embs, cosine, tau), |embs|;
    ClassOfMember(links, n, groups[j][0], x);
    ClassOfMember(links, n, groups[k][0], x);
  }

  /** A higher threshold only splits groups. */
  lemma HigherThresholdRefines(
      embs: seq<Vec>, cosine: Cosine, slugs: seq<string>, low: real, high: real,
      out: seq<Cluster>, groups: seq<seq<nat>>, out': seq<Cluster>, groups': seq<seq<nat>>, k: nat)
    requires low <= high && k < |groups'|
    requires Clustered(embs, cosine, slugs, low, out, groups) && Clustered(embs, cosine, slugs, high, out', groups')
    ensures exists j :: 0 <= j < |groups| && forall x | x in groups'[k] :: x in groups[j]
  {
    var n := |embs|;
    var first, second := groups'[k][0], groups'[k][1];
    var g := Class(Links(embs, cosine, low), n, first);
    forall x | x in groups'[k] ensures x in g {
      LinkedMonotone<nat>(Links(embs, cosine, high), Links(embs, cosine, low), first, x);
    }
    assert groups'[k][0] in groups'[k] && groups'[k][1] in groups'[k];
    assert |g| >= 2;
    var j :| 0 <= j < |groups| && groups[j] == g;
  }

  // ---- the result is determined by the input

  lemma {:induction false} SortedPermutationUnique(p: seq<string>, q: seq<string>)
    requires NonDecreasing(p) && NonDecreasing(q) && multiset(p) == multiset(q)
    ensures p == q
  {
    assert |p| == |multiset(p)| && |q| == |multiset(q)|;
    if p != [] {
      hide Le, NonDecreasing;
      assert p[0] in multiset(p) && q[0] in multiset(q);
      LeastFirst(p, q[0]);
      LeastFirst(q, p[0]);
      LeAntisymmetric(p[0], q[0]);
      TailMultiset(p);
      TailMultiset(q);
      TailNonDecreasing(p);
      TailNonDecreasing(q);
      SortedPermutationUnique(p[1..], q[1..]);
      assert p == [p[0]] + p[1..] && q == [q[0]] + q[1..];
    }
  }

  lemma LeastFirst(p: seq<string>, x: string)
    requires NonDecreasing(p) && x in p
    ensures Le(p[0], x)
  {
    var i :| 0 <= i < |p| && p[i] == x;
    LeReflexive(x);
    if i > 0 { assert Le(p[0], p[i]); }
  }

  lemma TailNonDecreasing(p: seq<string>)
    requires NonDecreasing(p) && p != []
    ensures NonDecreasing(p[1..])
  {
    forall i, j | 0 <= i < j < |p[1..]| ensures Le(p[1..][i], p[1..][j]) {
      assert Le(p[i + 1], p[j + 1]);
    }
  }

  lemma SameGroupSameCluster(embs: seq<Vec>, cosine: Cosine, slugs: seq<string>, g: seq<nat>, c: Cluster, d: Cluster)
    requires Describes(embs, cosine, slugs, c, g) && Describes(embs, cosine, slugs, d, g)
    ensures c == d
  {
    SortedPermutationUnique(c.slugs, d.slugs);
  }

  lemma SlugIsAMember(embs: seq<Vec>, cosine: Cosine, slugs: seq<string>, c: Cluster, g: seq<nat>, s: string)
    returns (x: nat)
    requires Describes(embs, cosine, slugs, c, g) && s in c.slugs
    ensures x in g && x < |slugs| && slugs[x] == s
  {
    assert s in multiset(c.slugs);
    assert s in multiset(Names(slugs, g));
    var a :| 0 <= a < |g| && Names(slugs, g)[a] == s;
    x := g[a];
  }

  lemma FirstSlugIsAMember(embs: seq<Vec>, cosine: Cosine, slugs: seq<string>, c: Cluster, g: seq<nat>) returns (x: nat)
    requires Describes(embs, cosine, slugs, c, g) && g != []
    ensures c.slugs != [] && x in g && x < |slugs| && slugs[x] == c.slugs[0]
  {
    assert |multiset(c.slugs)| == |multiset(Names(slugs, g))|;
    x := SlugIsAMember(embs, cosine, slugs, c, g, c.slugs[0]);
  }

  /** With distinct slugs, clusters that tie in the order describe the same group. */
  lemma TiesAreEqual(
      embs: seq<Vec>, cosine: Cosine, slugs: seq<string>, tau: real, c: Cluster, g: seq<nat>, d: Cluster, h: seq<nat>)
    requires forall i, j | 0 <= i < j < |slugs| :: slugs[i] != slugs[j]
    requires Describes(embs, cosine, slugs, c, g) && Describes(embs, cosine, slugs, d, h)
    requires |g| >= 2 && |h| >= 2
    requires g == Class(Links(embs, cosine, tau), |embs|, g[0]) && h == Class(Links(embs, cosine, tau), |embs|, h[0])
    requires Before(c, d) && Before(d, c)
    ensures g == h
  {
    var x := FirstSlugIsAMember(embs, cosine, slugs, c, g);
    var y := FirstSlugIsAMember(embs, cosine, slugs, d, h);
    LeAntisymmetric(c.slugs[0], d.slugs[0]);
    assert x == y;
    ClassOfMember(Links(embs, cosine, tau), |embs|, g[0], x);
    ClassOfMember(Links(embs, cosine, tau), |embs|, h[0], x);
  }

  /** For distinct slugs no choice of the algorithm, such as hash-map order, shows in the result. */
  lemma ResultIsDetermined(
      embs: seq<Vec>, cosine: Cosine, slugs: seq<string>, tau: real,
      out: seq<Cluster>, groups: seq<seq<nat>>, out': seq<Cluster>, groups': seq<seq<nat>>)
    requires forall i, j | 0 <= i < j < |slugs| :: slugs[i] != slugs[j]
    requires Clustered(embs, cosine, slugs, tau, out, groups) && Clustered(embs, cosine, slugs, tau, out', groups')
    ensures out == out'
  {
    SameSet(embs, cosine, slugs, tau, out, groups, out', groups');
    SameSet(embs, cosine, slugs, tau, out', groups', out, groups);
    StrictOrder(embs, cosine, slugs, tau, out, groups);
    StrictOrder(embs, cosine, slugs, tau, out', groups');
    StrictlyOrderedUnique(out, out');
  }

  ghost predicate StrictlyOrdered(q: seq<Cluster>)
  {
    forall i, j {:trigger Before(q[i], q[j])} | 0 <= i < j < |q| :: Before(q[i], q[j]) && !Before(q[j], q[i])
  }

  lemma StrictOrder(
      embs: seq<Vec>, cosine: Cosine, slugs: seq<string>, tau: real, out: seq<Cluster>, groups: seq<seq<nat>>)
    requires forall i, j | 0 <= i < j < |slugs| :: slugs[i] != slugs[j]
    requires Clustered(embs, cosine, slugs, tau, out, groups)
    ensures StrictlyOrdered(out)
  {
    forall i, j | 0 <= i < j < |out| ensures Before(out[i], out[j]) && !Before(out[j], out[i]) {
      if Before(out[j], out[i]) {
        TiesAreEqual(embs, cosine, slugs, tau, out[i], groups[i], out[j], groups[j]);
      }
    }
  }

  lemma SameSet(
      embs: seq<Vec>, cosine: Cosine, slugs: seq<string>, tau: real,
      out: seq<Cluster>, groups: seq<seq<nat>>, out': seq<Cluster>, groups': seq<seq<nat>>)
    requires Clustered(embs, cosine, slugs, tau, out, groups) && Clustered(embs, cosine, slugs, tau, out', groups')
    ensures forall c | c in out :: c in out'
  {
    forall c | c in out ensures c in out' {
      var k :| 0 <= k < |out| && out[k] == c;
      assert groups[k][0] < |embs|;
      assert groups[k] in groups';
      var j :| 0 <= j < |groups'| && groups'[j] == groups[k];
      SameGroupSameCluster(embs, cosine, slugs, groups[k], c, out'[j]);
    }
  }

  lemma {:induction false} StrictlyOrderedUnique(p: seq<Cluster>, q: seq<Cluster>)
    requires StrictlyOrdered(p) && StrictlyOrdered(q)
    requires (forall c | c in p :: c in q) && (forall c | c in q :: c in p)
    ensures p == q
    decreases |p|
  {
    SameEmptiness(p, q);
    if p != [] {
      assert p[0] in p && p[0] in q;
      assert q[0] in q && q[0] in p;
      FirstComesFirst(p, q[0]);
      FirstComesFirst(q, p[0]);
      TailOf(p, q);
      TailOf(q, p);
      StrictlyOrderedUnique(p[1..], q[1..]);
      assert p == [p[0]] + p[1..] && q == [q[0]] + q[1..];
    }
  }

  lemma FirstComesFirst(p: seq<Cluster>, c: Cluster)
    requires StrictlyOrdered(p) && c in p
    ensures p[0] == c || (Before(p[0], c) && !Before(c, p[0]))
  {
    var i :| 0 <= i < |p| && p[i] == c;
    if i > 0 { assert Before(p[0], p[i]); }
  }

  lemma TailOf(p: seq<Cluster>, q: seq<Cluster>)
    requires p != [] && q != [] && p[0] == q[0] && StrictlyOrdered(p)
    requires forall c | c in p :: c in q
    ensures StrictlyOrdered(p[1..]) && forall c | c in p[1..] :: c in q[1..]
  {
    forall i, j | 0 <= i < j < |p[1..]| ensures Before(p[1..][i], p[1..][j]) && !Before(p[1..][j], p[1..][i]) {
      assert Before(p[i + 1], p[j + 1]);
    }
    forall c | c in p[1..] ensures c in q[1..] {
      var i :| 0 <= i < |p[1..]| && p[1..][i] == c;
      assert p[i + 1] in p && c in q;
      assert Before(p[0], p[i + 1]) && !Before(p[i + 1], p[0]);
      var j :| 0 <= j < |q| && q[j] == c;
      if j > 0 { assert q[1..][j - 1] == c; }
    }
  }
}
