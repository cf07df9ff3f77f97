/** Clusters of claims with running centroids, and the claim log (src/claims.rs). Embeddings are over the reals. */
module ClaimClusters {
  import opened Prelude

  type Vec = seq<real>
  type Cosine = (Vec, Vec) -> real

  datatype Record = Record(id: string, clusterId: string, confirmedTs: string, body: string)

  /** The clusters table, the map from claim to cluster, and the log. */
  datatype Store = Store(centroids: map<string, Vec>, clusterOf: map<string, string>, log: seq<Record>)

  // ---- running averages

  function Shorter(a: nat, b: nat): nat
  {
    if a <= b then a else b
  }

  /** The centroid after the `n`-th member joined. */
  function Averaged(c: Vec, e: Vec, n: nat): (r: Vec)
    requires n > 0
    ensures |r| == Shorter(|c|, |e|)
    ensures forall k | 0 <= k < |r| :: r[k] == (c[k] * ((n as real) - 1.0) + e[k]) / (n as real)
  {
    seq(Shorter(|c|, |e|), k requires 0 <= k < Shorter(|c|, |e|) => (c[k] * ((n as real) - 1.0) + e[k]) / (n as real))
  }

  /** The claims of a cluster, as the table counts them. */
  function Size(clusterOf: map<string, string>, c: string): nat
  {
    |set id | id in clusterOf && clusterOf[id] == c|
  }

  // ---- one append

  predicate Similar(s: Store, emb: Vec, tau: real, cosine: Cosine, c: string)
  {
    c in s.centroids && cosine(emb, s.centroids[c]) >= tau
  }

  /** A cluster above the threshold that no other is closer than. */
  ghost predicate Closest(s: Store, emb: Vec, tau: real, cosine: Cosine, c: string)
  {
    && Similar(s, emb, tau, cosine, c)
    && forall d | d in s.centroids :: cosine(emb, s.centroids[d]) <= cosine(emb, s.centroids[c])
  }

  function NewCluster(id: string): string
  {
    "cl-" + id
  }

  /** The cluster of a claim and the centroids afterwards. */
  ghost predicate Assigns(
      s: Store, id: string, emb: Vec, tau: real, cosine: Cosine, cid: string, centroids: map<string, Vec>)
  {
    if id in s.clusterOf then cid == s.clusterOf[id] && centroids == s.centroids
    else if exists c :: Similar(s, emb, tau, cosine, c) then
      && Closest(s, emb, tau, cosine, cid)
      && centroids == s.centroids[cid := Averaged(s.centroids[cid], emb, Size(s.clusterOf, cid) + 1)]
    else cid == NewCluster(id) && cid !in s.centroids && centroids == s.centroids[cid := emb]
  }

  /** Creating the cluster of a claim would meet one of that name. */
  ghost predicate Clashes(s: Store, id: string, emb: Vec, tau: real, cosine: Cosine)
  {
    id !in s.clusterOf && (forall c :: !Similar(s, emb, tau, cosine, c)) && NewCluster(id) in s.centroids
  }

  predicate Logged(log: seq<Record>, id: string)
  {
    exists i :: 0 <= i < |log| && log[i].id == id
  }

  ghost predicate Appends(s: Store, id: string, emb: Vec, body: string, tau: real, cosine: Cosine, t: Store)
  {
    exists cid ::
      && Assigns(s, id, emb, tau, cosine, cid, t.centroids)
      && t.log == (if Logged(s.log, id) then s.log else s.log + [Record(id, cid, "", body)])
      && t.clusterOf == s.clusterOf[id := cid]
  }

  function Confirmed(log: seq<Record>, id: string, ts: string): (r: seq<Record>)
    ensures |r| == |log|
    ensures forall i | 0 <= i < |r| :: r[i] == if log[i].id == id then log[i].(confirmedTs := ts) else log[i]
  {
    seq(|log|, i requires 0 <= i < |log| => if log[i].id == id then log[i].(confirmedTs := ts) else log[i])
  }

  class ClaimStore {
    var centroids: map<string, Vec>
    var clusterOf: map<string, string>
    var log: seq<Record>

    ghost function Now(): Store
      reads this
    {
      Store(centroids, clusterOf, log)
    }

    constructor ()
      ensures Now() == Store(map[], map[], [])
    {
      centroids, clusterOf, log := map[], map[], [];
    }

    /** The closest cluster above the threshold; rows come in no particular order. */
    method BestCluster(emb: Vec, tau: real, cosine: Cosine) returns (best: Option<string>)
      ensures best.Some? ==> Closest(Now(), emb, tau, cosine, best.value)
      ensures best.None? ==> forall c :: !Similar(Now(), emb, tau, cosine, c)
    {
      best := None;
      var left := centroids.Keys;
      while left != {}
        invariant left <= centroids.Keys
        invariant best.None? ==> forall c | c in centroids && c !in left :: cosine(emb, centroids[c]) < tau
        invariant best.Some? ==> best.value in centroids && cosine(emb, centroids[best.value]) >= tau
        invariant best.Some? ==> forall c | c in centroids && c !in left ::
          cosine(emb, centroids[c]) <= cosine(emb, centroids[best.value])
      {
        var c :| c in left;
        left := left - {c};
        var score := cosine(emb, centroids[c]);
        if score >= tau && (best.None? || score >= cosine(emb, centroids[best.value])) {
          best := Some(c);
        }
      }
    }

    method FindOrCreateCluster(id: string, emb: Vec, tau: real, cosine: Cosine) returns (r: Result<string, ()>)
      modifies this`centroids
      ensures r.Ok? ==> Assigns(old(Now()), id, emb, tau, cosine, r.value, centroids)
      ensures r.Err? <==> Clashes(old(Now()), id, emb, tau, cosine)
      ensures r.Err? ==> centroids == old(centroids)
    {
      ghost var s := Now();
      if id in clusterOf { return Ok(clusterOf[id]); }
      var best := BestCluster(emb, tau, cosine);
      assert Now() == s;
      if best.Some? {
        var n := Size(clusterOf, best.value) + 1;
        centroids := centroids[best.value := Averaged(centroids[best.value], emb, n)];
        assert Similar(s, emb, tau, cosine, best.value);
        return Ok(best.value);
      }
      var cid := NewCluster(id);
      if cid in centroids { return Err(()); }
      centroids := centroids[cid := emb];
      r := Ok(cid);
    }

    /** Appends to the log unless the id is there already. */
    method AppendOnce(rec: Record) returns (appended: bool)
      modifies this`log
      ensures appended <==> !Logged(old(log), rec.id)
      ensures log == if appended then old(log) + [rec] else old(log)
    {
      for i := 0 to |log|
        invariant log == old(log) && forall k | 0 <= k < i :: log[k].id != rec.id
      {
        if log[i].id == rec.id { return false; }
      }
      log := log + [rec];
      appended := true;
    }

    method AppendClaim(id: string, emb: Vec, body: string, tau: real, cosine: Cosine) returns (ok: bool)
      modifies this
      ensures ok <==> !Clashes(old(Now()), id, emb, tau, cosine)
      ensures ok ==> Appends(old(Now()), id, emb, body, tau, cosine, Now())
      ensures !ok ==> Now() == old(Now())
    {
      var cid := FindOrCreateCluster(id, emb, tau, cosine);
      if cid.Err? { return false; }
      var appended := AppendOnce(Record(id, cid.value, "", body));
      clusterOf := clusterOf[id := cid.value];
      ok := true;
    }

    /** Rewrites the log with the confirmation, if the claim is there. */
    method ConfirmClaim(id: string, ts: string) returns (found: bool)
      modifies this`log
      ensures found <==> Logged(old(log), id)
      ensures log == Confirmed(old(log), id, ts)
    {
      var out: seq<Record> := [];
      found := false;
      for i := 0 to |log|
        invariant log == old(log) && out == Confirmed(log, id, ts)[..i]
        invariant found <==> exists k :: 0 <= k < i && log[k].id == id
      {
        if log[i].id == id {
          found := true;
          out := out + [log[i].(confirmedTs := ts)];
        } else {
          out := out + [log[i]];
        }
      }
      assert out == Confirmed(log, id, ts);
      if found {
        log := out;
      } else {
        assert out == log;
      }
    }
  }

  // ---- what every run keeps

  /** How many logged claims are in a cluster. */
  function Count(log: seq<Record>, c: string): nat
  {
    if log == [] then 0
    else Count(log[..|log| - 1], c) + if log[|log| - 1].clusterId == c then 1 else 0
  }

  /** Coordinate `k` summed over the first embeddings of the claims of a cluster. */
  function Sum(log: seq<Record>, first: map<string, Vec>, c: string, k: nat): real
  {
    if log == [] then 0.0
    else
      var r := log[|log| - 1];
      Sum(log[..|log| - 1], first, c, k)
      + if r.clusterId == c && r.id in first && k < |first[r.id]| then first[r.id][k] else 0.0
  }

  /** The centroid is the mean of the first embeddings of the members. */
  ghost predicate IsMean(s: Store, dim: nat, first: map<string, Vec>, c: string)
    requires c in s.centroids
  {
    && |s.centroids[c]| == dim && Count(s.log, c) > 0
    && forall k | 0 <= k < dim :: s.centroids[c][k] * (Count(s.log, c) as real) == Sum(s.log, first, c, k)
  }

  /** Named after a claim that is in it. */
  ghost predicate Founded(s: Store, c: string)
  {
    exists id :: id in s.clusterOf && c == NewCluster(id) && s.clusterOf[id] == c
  }

  ghost predicate Mapped(s: Store, first: map<string, Vec>)
  {
    && (forall id :: id in s.clusterOf <==> Logged(s.log, id))
    && (forall id :: id in s.clusterOf <==> id in first)
    && (forall id | id in s.clusterOf :: s.clusterOf[id] in s.centroids)
    && (forall i | 0 <= i < |s.log| :: s.log[i].id in s.clusterOf && s.log[i].clusterId == s.clusterOf[s.log[i].id])
  }

  ghost predicate OncePerId(log: seq<Record>)
  {
    forall i, j | 0 <= i < j < |log| :: log[i].id != log[j].id
  }

  ghost predicate Consistent(s: Store, dim: nat, first: map<string, Vec>)
  {
    && OncePerId(s.log) && Mapped(s, first)
    && (forall id | id in first :: |first[id]| == dim)
    && (forall c | c in s.centroids :: Founded(s, c))
    && forall c | c in s.centroids :: IsMean(s, dim, first, c)
  }

  /** Creating a cluster never meets one of that name. */
  lemma NeverClashes(s: Store, dim: nat, first: map<string, Vec>, id: string, emb: Vec, tau: real, cosine: Cosine)
    requires Consistent(s, dim, first)
    ensures !Clashes(s, id, emb, tau, cosine)
  {
    if id !in s.clusterOf && NewCluster(id) in s.centroids {
      assert Founded(s, NewCluster(id));
      var other :| other in s.clusterOf && NewCluster(id) == NewCluster(other);
      SameName(id, other);
    }
  }

  lemma SameName(a: string, b: string)
    requires NewCluster(a) == NewCluster(b)
    ensures a == b
  {
    assert a == NewCluster(a)[3..] && b == NewCluster(b)[3..];
  }

  // ---- counting members

  ghost function MembersOf(log: seq<Record>, c: string): set<string>
  {
    set i | 0 <= i < |log| && log[i].clusterId == c :: log[i].id
  }

  lemma LastMember(log: seq<Record>, c: string)
    requires log != [] && OncePerId(log)
    ensures var before, r := MembersOf(log[..|log| - 1], c), log[|log| - 1];
            r.id !in before && MembersOf(log, c) == if r.clusterId == c then before + {r.id} else before
  {
    var n, r := |log| - 1, log[|log| - 1];
    var before, all := MembersOf(log[..n], c), MembersOf(log, c);
    forall x ensures x in all <==> x in before || (x == r.id && r.clusterId == c) {
      if x in before {
        var i :| 0 <= i < n && log[..n][i].clusterId == c && log[..n][i].id == x;
        assert log[i].id == x && log[i].clusterId == c;
      }
      if i :| 0 <= i < |log| && log[i].clusterId == c && log[i].id == x && i < n {
        assert log[..n][i].id == x;
      }
    }
  }

  lemma {:induction false} CountMembers(log: seq<Record>, c: string)
    requires OncePerId(log)
    ensures |MembersOf(log, c)| == Count(log, c)
  {
    if log != [] {
      var n := |log| - 1;
      CountMembers(log[..n], c);
      LastMember(log, c);
    }
  }

  /** The count of the map is the count of the log. */
  lemma SizeIsCount(s: Store, first: map<string, Vec>, c: string)
    requires OncePerId(s.log) && Mapped(s, first)
    ensures Size(s.clusterOf, c) == Count(s.log, c)
  {
    CountMembers(s.log, c);
    var ids := set id | id in s.clusterOf && s.clusterOf[id] == c;
    forall id ensures id in ids <==> id in MembersOf(s.log, c) {
      if id in ids {
        var i :| 0 <= i < |s.log| && s.log[i].id == id;
      }
    }
    assert ids == MembersOf(s.log, c);
  }

  // ---- one more claim

  lemma {:induction false} SumIgnoresNewId(log: seq<Record>, first: map<string, Vec>, id: string, emb: Vec, c: string, k: nat)
    requires !Logged(log, id)
    ensures Sum(log, first[id := emb], c, k) == Sum(log, first, c, k)
  {
    if log != [] {
      var n := |log| - 1;
      assert forall i | 0 <= i < n :: log[..n][i].id == log[i].id;
      assert log[n].id != id;
      SumIgnoresNewId(log[..n], first, id, emb, c, k);
    }
  }

  lemma OneMore(log: seq<Record>, r: Record, first: map<string, Vec>, emb: Vec, c: string, k: nat)
    requires !Logged(log, r.id)
    ensures Count(log + [r], c) == Count(log, c) + if r.clusterId == c then 1 else 0
    ensures Sum(log + [r], first[r.id := emb], c, k) ==
      Sum(log, first, c, k) + if r.clusterId == c && k < |emb| then emb[k] else 0.0
  {
    assert (log + [r])[..|log|] == log;
    SumIgnoresNewId(log, first, r.id, emb, c, k);
  }

  lemma TimesQuotient(a: real, n: real)
    requires n != 0.0
    ensures a / n * n == a
  {
  }

  /** The running average is the mean over one more member. */
  lemma AverageIsMean(c: Vec, e: Vec, n: nat, k: nat, sum: real)
    requires k < |c| && k < |e| && n > 0 && c[k] * (n as real) == sum
    ensures Averaged(c, e, n + 1)[k] * ((n + 1) as real) == sum + e[k]
  {
    var m := (n + 1) as real;
    assert m - 1.0 == n as real;
    TimesQuotient(c[k] * (m - 1.0) + e[k], m);
  }

  /** A claim that is known keeps its cluster; nothing changes. */
  lemma AppendAgain(s: Store, first: map<string, Vec>, id: string, emb: Vec, body: string, tau: real, cosine: Cosine, t: Store)
    requires Mapped(s, first) && id in s.clusterOf && Appends(s, id, emb, body, tau, cosine, t)
    ensures t == s
  {
    assert s.clusterOf[id := s.clusterOf[id]] == s.clusterOf;
  }

  lemma MeanElsewhere(s: Store, dim: nat, first: map<string, Vec>, r: Record, emb: Vec, t: Store, c: string)
    requires c in s.centroids && IsMean(s, dim, first, c) && !Logged(s.log, r.id) && r.clusterId != c
    requires c in t.centroids && t.centroids[c] == s.centroids[c] && t.log == s.log + [r]
    ensures IsMean(t, dim, first[r.id := emb], c)
  {
    hide Count, Sum;
    OneMore(s.log, r, first, emb, c, 0);
    forall k | 0 <= k < dim
      ensures t.centroids[c][k] * (Count(t.log, c) as real) == Sum(t.log, first[r.id := emb], c, k)
    {
      OneMore(s.log, r, first, emb, c, k);
    }
  }

  lemma MeanJoined(s: Store, dim: nat, first: map<string, Vec>, r: Record, emb: Vec, t: Store, c: string)
    requires c in s.centroids && IsMean(s, dim, first, c) && !Logged(s.log, r.id) && r.clusterId == c && |emb| == dim
    requires c in t.centroids && t.centroids[c] == Averaged(s.centroids[c], emb, Count(s.log, c) + 1)
    requires t.log == s.log + [r]
    ensures IsMean(t, dim, first[r.id := emb], c)
  {
    hide Count, Sum, Averaged;
    OneMore(s.log, r, first, emb, c, 0);
    forall k | 0 <= k < dim
      ensures t.centroids[c][k] * (Count(t.log, c) as real) == Sum(t.log, first[r.id := emb], c, k)
    {
      OneMore(s.log, r, first, emb, c, k);
      AverageIsMean(s.centroids[c], emb, Count(s.log, c), k, Sum(s.log, first, c, k));
    }
  }

  lemma MeanFounded(s: Store, dim: nat, first: map<string, Vec>, r: Record, emb: Vec, t: Store, c: string)
    requires (forall i | 0 <= i < |s.log| :: s.log[i].clusterId != c) && !Logged(s.log, r.id) && r.clusterId == c
    requires |emb| == dim && c in t.centroids && t.centroids[c] == emb && t.log == s.log + [r]
    ensures IsMean(t, dim, first[r.id := emb], c)
  {
    hide Count, Sum;
    OneMore(s.log, r, first, emb, c, 0);
    NobodyIn(s.log, first, c, 0);
    forall k | 0 <= k < dim
      ensures t.centroids[c][k] * (Count(t.log, c) as real) == Sum(t.log, first[r.id := emb], c, k)
    {
      OneMore(s.log, r, first, emb, c, k);
      NobodyIn(s.log, first, c, k);
    }
  }

  lemma {:induction false} NobodyIn(log: seq<Record>, first: map<string, Vec>, c: string, k: nat)
    requires forall i | 0 <= i < |log| :: log[i].clusterId != c
    ensures Count(log, c) == 0 && Sum(log, first, c, k) == 0.0
  {
    if log != [] { NobodyIn(log[..|log| - 1], first, c, k); }
  }

  lemma MeanAfterAppend(s: Store, dim: nat, first: map<string, Vec>, id: string, emb: Vec, body: string, tau: real,
                        cosine: Cosine, cid: string, t: Store, c: string)
    requires Consistent(s, dim, first) && |emb| == dim && id !in s.clusterOf
    requires Assigns(s, id, emb, tau, cosine, cid, t.centroids) && t.log == s.log + [Record(id, cid, "", body)]
    requires c in t.centroids
    ensures IsMean(t, dim, first[id := emb], c)
  {
    hide Founded, IsMean, Size, Averaged, Logged;
    var r := Record(id, cid, "", body);
    assert !Logged(s.log, id);
    if c != cid {
      MeanElsewhere(s, dim, first, r, emb, t, c);
    } else if c in s.centroids {
      SizeIsCount(s, first, c);
      MeanJoined(s, dim, first, r, emb, t, c);
    } else {
      MeanFounded(s, dim, first, r, emb, t, c);
    }
  }

  /** Any append keeps the store consistent; the first embedding of a claim is the one that counts. */
  lemma AppendKeeps(s: Store, dim: nat, first: map<string, Vec>, id: string, emb: Vec, body: string, tau: real,
                    cosine: Cosine, t: Store)
    requires Consistent(s, dim, first) && |emb| == dim && Appends(s, id, emb, body, tau, cosine, t)
    ensures Consistent(t, dim, if id in s.clusterOf then first else first[id := emb])
  {
    if id in s.clusterOf {
      AppendAgain(s, first, id, emb, body, tau, cosine, t);
    } else {
      var cid :| Assigns(s, id, emb, tau, cosine, cid, t.centroids)
        && t.log == (if Logged(s.log, id) then s.log else s.log + [Record(id, cid, "", body)])
        && t.clusterOf == s.clusterOf[id := cid];
      NewClaimKeeps(s, dim, first, id, emb, body, tau, cosine, cid, t);
    }
  }

  lemma NewClaimKeeps(s: Store, dim: nat, first: map<string, Vec>, id: string, emb: Vec, body: string, tau: real,
                      cosine: Cosine, cid: string, t: Store)
    requires Consistent(s, dim, first) && |emb| == dim && id !in s.clusterOf
    requires Assigns(s, id, emb, tau, cosine, cid, t.centroids)
    requires t.log == s.log + [Record(id, cid, "", body)] && t.clusterOf == s.clusterOf[id := cid]
    ensures Consistent(t, dim, first[id := emb])
  {
    hide IsMean, Size, Averaged, Closest, Similar, Founded, OncePerId, Mapped;
    InKnown(s, first, id, emb, tau, cosine, cid, t.centroids);
    forall c | c in t.centroids ensures IsMean(t, dim, first[id := emb], c) {
      MeanAfterAppend(s, dim, first, id, emb, body, tau, cosine, cid, t, c);
    }
    forall c | c in t.centroids ensures Founded(t, c) {
      StillFounded(s, id, cid, t, c);
    }
    LogGrows(s, first, id, emb, Record(id, cid, "", body), t);
  }

  lemma InKnown(s: Store, first: map<string, Vec>, id: string, emb: Vec, tau: real, cosine: Cosine, cid: string,
                centroids: map<string, Vec>)
    requires Mapped(s, first) && id !in s.clusterOf && Assigns(s, id, emb, tau, cosine, cid, centroids)
    ensures id !in first && cid in centroids && (forall c | c in s.centroids :: c in centroids)
    ensures forall c | c in centroids :: c in s.centroids || (c == cid == NewCluster(id))
  {
  }

  lemma StillFounded(s: Store, id: string, cid: string, t: Store, c: string)
    requires id !in s.clusterOf && t.clusterOf == s.clusterOf[id := cid]
    requires Founded(s, c) || (c == NewCluster(id) && cid == c)
    ensures Founded(t, c)
  {
    if Founded(s, c) {
      var f :| f in s.clusterOf && c == NewCluster(f) && s.clusterOf[f] == c;
      assert t.clusterOf[f] == c;
    } else {
      assert t.clusterOf[id] == c;
    }
  }

  lemma LogGrows(s: Store, first: map<string, Vec>, id: string, emb: Vec, r: Record, t: Store)
    requires OncePerId(s.log) && Mapped(s, first) && id !in s.clusterOf && r.id == id
    requires t.log == s.log + [r] && t.clusterOf == s.clusterOf[id := r.clusterId]
    requires r.clusterId in t.centroids && forall c | c in s.centroids :: c in t.centroids
    ensures OncePerId(t.log) && Mapped(t, first[id := emb])
  {
    hide Logged;
    NotLogged(s, first, id);
    forall x ensures Logged(t.log, x) <==> Logged(s.log, x) || x == id { LoggedNext(s.log, r, x); }
    forall i | 0 <= i < |s.log| ensures s.log[i].id != id { LoggedAt(s.log, i); }
  }

  lemma NotLogged(s: Store, first: map<string, Vec>, id: string)
    requires Mapped(s, first) && id !in s.clusterOf
    ensures !Logged(s.log, id)
  {
  }

  lemma LoggedAt(log: seq<Record>, i: nat)
    requires i < |log|
    ensures Logged(log, log[i].id)
  {
  }

  lemma LoggedNext(log: seq<Record>, r: Record, x: string)
    ensures Logged(log + [r], x) <==> Logged(log, x) || x == r.id
  {
    var t := log + [r];
    if i :| 0 <= i < |log| && log[i].id == x { assert t[i].id == x; }
    if x == r.id { assert t[|log|].id == x; }
  }

  // ---- runs

  datatype Op = Append(id: string, emb: Vec, body: string, tau: real) | Confirm(id: string, ts: string)

  ghost predicate Next(s: Store, op: Op, cosine: Cosine, t: Store)
  {
    match op
    case Append(id, emb, body, tau) => Appends(s, id, emb, body, tau, cosine, t)
    case Confirm(id, ts) => t == s.(log := Confirmed(s.log, id, ts))
  }

  ghost predicate Execution(states: seq<Store>, ops: seq<Op>, cosine: Cosine)
  {
    && |states| == |ops| + 1 && states[0] == Store(map[], map[], [])
    && forall i | 0 <= i < |ops| :: Next(states[i], ops[i], cosine, states[i + 1])
  }

  function FirstAfter(first: map<string, Vec>, op: Op): map<string, Vec>
  {
    if op.Append? && op.id !in first then first[op.id := op.emb] else first
  }

  /** The embedding each claim was first appended with. */
  function FirstEmbeddings(ops: seq<Op>): map<string, Vec>
  {
    if ops == [] then map[] else FirstAfter(FirstEmbeddings(ops[..|ops| - 1]), ops[|ops| - 1])
  }

  lemma {:induction false} ConfirmedCounts(log: seq<Record>, first: map<string, Vec>, id: string, ts: string, c: string, k: nat)
    ensures Count(Confirmed(log, id, ts), c) == Count(log, c)
    ensures Sum(Confirmed(log, id, ts), first, c, k) == Sum(log, first, c, k)
  {
    if log != [] {
      var n := |log| - 1;
      ConfirmedCounts(log[..n], first, id, ts, c, k);
      assert Confirmed(log, id, ts)[..n] == Confirmed(log[..n], id, ts);
    }
  }

  lemma ConfirmedLogged(log: seq<Record>, id: string, ts: string, x: string)
    ensures Logged(Confirmed(log, id, ts), x) <==> Logged(log, x)
  {
    var c := Confirmed(log, id, ts);
    if i :| 0 <= i < |log| && log[i].id == x { assert c[i].id == x; }
    if i :| 0 <= i < |c| && c[i].id == x { assert log[i].id == x; }
  }

  lemma ConfirmKeepsMap(s: Store, first: map<string, Vec>, id: string, ts: string, t: Store)
    requires OncePerId(s.log) && Mapped(s, first) && t == s.(log := Confirmed(s.log, id, ts))
    ensures OncePerId(t.log) && Mapped(t, first)
  {
    hide Logged;
    forall x ensures Logged(t.log, x) <==> Logged(s.log, x) { ConfirmedLogged(s.log, id, ts, x); }
    assert forall i | 0 <= i < |t.log| :: t.log[i].id == s.log[i].id && t.log[i].clusterId == s.log[i].clusterId;
  }

  lemma ConfirmKeepsMean(s: Store, dim: nat, first: map<string, Vec>, id: string, ts: string, t: Store, c: string)
    requires c in s.centroids && IsMean(s, dim, first, c) && t == s.(log := Confirmed(s.log, id, ts))
    ensures IsMean(t, dim, first, c)
  {
    hide Count, Sum, Confirmed;
    ConfirmedCounts(s.log, first, id, ts, c, 0);
    forall k | 0 <= k < dim ensures Sum(t.log, first, c, k) == Sum(s.log, first, c, k) {
      ConfirmedCounts(s.log, first, id, ts, c, k);
    }
  }

  /** A confirmation changes no cluster. */
  lemma ConfirmKeeps(s: Store, dim: nat, first: map<string, Vec>, id: string, ts: string, t: Store)
    requires Consistent(s, dim, first) && t == s.(log := Confirmed(s.log, id, ts))
    ensures Consistent(t, dim, first)
  {
    hide Founded, IsMean, OncePerId, Mapped, Confirmed;
    ConfirmKeepsMap(s, first, id, ts, t);
    forall c | c in t.centroids ensures IsMean(t, dim, first, c) && Founded(t, c) {
      assert IsMean(s, dim, first, c);
      FoundedAnyLog(s, t, c);
      ConfirmKeepsMean(s, dim, first, id, ts, t, c);
    }
  }

  lemma FoundedAnyLog(s: Store, t: Store, c: string)
    requires Founded(s, c) && t.clusterOf == s.clusterOf
    ensures Founded(t, c)
  {
  }

  /**
   * After any sequence of appends and confirmations from the empty store, repeated ids included: each centroid is the
   * mean of the first embeddings of its claims, each claim is in one cluster and once in the log with that cluster,
   * and the next append cannot clash.
   */
  lemma {:induction false} RunsAreConsistent(states: seq<Store>, ops: seq<Op>, cosine: Cosine, dim: nat, k: nat)
    requires Execution(states, ops, cosine) && k < |states|
    requires forall i | 0 <= i < |ops| && ops[i].Append? :: |ops[i].emb| == dim
    ensures Consistent(states[k], dim, FirstEmbeddings(ops[..k]))
    decreases k
  {
    if k == 0 {
      EmptyIsConsistent(dim);
      assert ops[..0] == [];
    } else {
      hide Consistent, Next, FirstAfter;
      RunsAreConsistent(states, ops, cosine, dim, k - 1);
      assert ops[..k] == ops[..k - 1] + [ops[k - 1]];
      assert ops[..k][..k - 1] == ops[..k - 1];
      NextKeeps(states[k - 1], ops[k - 1], cosine, states[k], dim, FirstEmbeddings(ops[..k - 1]));
    }
  }

  lemma NextKeeps(s: Store, op: Op, cosine: Cosine, t: Store, dim: nat, first: map<string, Vec>)
    requires Consistent(s, dim, first) && Next(s, op, cosine, t) && (op.Append? ==> |op.emb| == dim)
    ensures Consistent(t, dim, FirstAfter(first, op))
  {
    hide Consistent, Appends, Confirmed;
    SameIds(s, dim, first);
    match op {
      case Append(id, emb, body, tau) => AppendKeeps(s, dim, first, id, emb, body, tau, cosine, t);
      case Confirm(id, ts) => ConfirmKeeps(s, dim, first, id, ts, t);
    }
  }

  lemma SameIds(s: Store, dim: nat, first: map<string, Vec>)
    requires Consistent(s, dim, first)
    ensures forall id :: id in s.clusterOf <==> id in first
  {
  }

  lemma EmptyIsConsistent(dim: nat)
    ensures Consistent(Store(map[], map[], []), dim, map[])
  {
  }

  // ---- a crash inside an append

  lemma SameAverage(c: real, e: real, n: real)
    requires n > 0.0
    ensures (c * n + e) / (n + 1.0) * n == c * n <==> e == c
  {
    var a := (c * n + e) / (n + 1.0);
    TimesQuotient(c * n + e, n + 1.0);
    assert a * n == c * n <==> (a - c) * n == 0.0;
    assert (a - c) * n == 0.0 <==> a == c;
    assert c * (n + 1.0) == c * n + c;
    if e == c {
      assert a * (n + 1.0) == c * (n + 1.0);
      assert (a - c) * (n + 1.0) == 0.0;
    }
  }

  lemma AverageStays(c: Vec, e: Vec, n: nat, dim: nat)
    requires |c| == dim && |e| == dim && n > 0
    ensures (forall k | 0 <= k < dim :: Averaged(c, e, n + 1)[k] * (n as real) == c[k] * (n as real)) <==> e == c
  {
    var a := Averaged(c, e, n + 1);
    forall k | 0 <= k < dim ensures a[k] * (n as real) == c[k] * (n as real) <==> e[k] == c[k] {
      assert ((n + 1) as real) - 1.0 == n as real && (n + 1) as real == (n as real) + 1.0;
      SameAverage(c[k], e[k], n as real);
    }
  }

  /** What a crash leaves before the claim is logged, and after that before it is mapped. */
  function Unlogged(s: Store, centroids: map<string, Vec>): Store
  {
    s.(centroids := centroids)
  }

  function Unmapped(s: Store, id: string, cid: string, body: string, centroids: map<string, Vec>): Store
  {
    Store(centroids, s.clusterOf, if Logged(s.log, id) then s.log else s.log + [Record(id, cid, "", body)])
  }

  /** An append writes the centroids, then the log, then the map; these two states are what lies between. */
  lemma AppendPassesThrough(s: Store, id: string, emb: Vec, body: string, tau: real, cosine: Cosine, t: Store)
    returns (cid: string)
    requires Appends(s, id, emb, body, tau, cosine, t)
    ensures Assigns(s, id, emb, tau, cosine, cid, t.centroids)
    ensures Unlogged(s, t.centroids) == Store(t.centroids, s.clusterOf, s.log)
    ensures Unmapped(s, id, cid, body, t.centroids) == Store(t.centroids, s.clusterOf, t.log)
    ensures t == Unmapped(s, id, cid, body, t.centroids).(clusterOf := s.clusterOf[id := cid])
  {
    hide Assigns, Logged;
    cid :| Assigns(s, id, emb, tau, cosine, cid, t.centroids)
      && t.log == (if Logged(s.log, id) then s.log else s.log + [Record(id, cid, "", body)])
      && t.clusterOf == s.clusterOf[id := cid];
  }

  lemma AssignsJoin(s: Store, id: string, emb: Vec, tau: real, cosine: Cosine, cid: string, centroids: map<string, Vec>)
    requires Assigns(s, id, emb, tau, cosine, cid, centroids) && id !in s.clusterOf && cid in s.centroids
    ensures centroids == s.centroids[cid := Averaged(s.centroids[cid], emb, Size(s.clusterOf, cid) + 1)]
  {
    hide Size, Averaged, Closest;
  }

  lemma AssignsNew(s: Store, id: string, emb: Vec, tau: real, cosine: Cosine, cid: string, centroids: map<string, Vec>)
    requires Assigns(s, id, emb, tau, cosine, cid, centroids) && id !in s.clusterOf && cid !in s.centroids
    ensures cid == NewCluster(id) && centroids == s.centroids[cid := emb]
  {
    hide Size, Averaged;
  }

  /** Before the log has the claim, the new centroid is the mean only if it is the old one. */
  lemma MeanOfUnlogged(s: Store, dim: nat, first: map<string, Vec>, emb: Vec, cid: string)
    requires OncePerId(s.log) && Mapped(s, first) && |emb| == dim && cid in s.centroids && IsMean(s, dim, first, cid)
    ensures var a := Averaged(s.centroids[cid], emb, Size(s.clusterOf, cid) + 1);
      IsMean(Unlogged(s, s.centroids[cid := a]), dim, first, cid) <==> emb == s.centroids[cid]
  {
    hide Count, Sum, Size, Averaged, Mapped, OncePerId;
    SizeIsCount(s, first, cid);
    AverageStays(s.centroids[cid], emb, Count(s.log, cid), dim);
  }

  lemma MeanSame(s: Store, dim: nat, first: map<string, Vec>, u: Store, c: string)
    requires c in s.centroids && c in u.centroids && u.centroids[c] == s.centroids[c] && u.log == s.log
    ensures IsMean(u, dim, first, c) <==> IsMean(s, dim, first, c)
  {
  }

  lemma MappedSame(s: Store, first: map<string, Vec>, u: Store)
    requires u == s.(centroids := u.centroids) && u.centroids.Keys == s.centroids.Keys && Mapped(s, first)
    ensures Mapped(u, first)
  {
  }

  lemma SameButCentroid(s: Store, dim: nat, first: map<string, Vec>, u: Store, cid: string)
    requires Consistent(s, dim, first) && u == s.(centroids := u.centroids) && u.centroids.Keys == s.centroids.Keys
    requires cid in s.centroids && forall c | c in s.centroids && c != cid :: u.centroids[c] == s.centroids[c]
    ensures Consistent(u, dim, first) <==> IsMean(u, dim, first, cid)
  {
    hide IsMean, Mapped, Founded, OncePerId;
    MappedSame(s, first, u);
    forall c | c in u.centroids ensures Founded(u, c) && (c != cid ==> IsMean(u, dim, first, c)) {
      assert Founded(s, c) && IsMean(s, dim, first, c);
      FoundedAnyLog(s, u, c);
      if c != cid { MeanSame(s, dim, first, u, c); }
    }
  }

  /** The cluster of a new claim has no member yet. */
  lemma NotFoundedYet(s: Store, dim: nat, first: map<string, Vec>, id: string, emb: Vec)
    requires id !in s.clusterOf
    ensures !Consistent(Unlogged(s, s.centroids[NewCluster(id) := emb]), dim, first)
  {
    hide NewCluster, IsMean, Mapped, OncePerId;
    var u := Unlogged(s, s.centroids[NewCluster(id) := emb]);
    forall other | other in s.clusterOf ensures NewCluster(id) != NewCluster(other) {
      if NewCluster(id) == NewCluster(other) {
        SameName(id, other);
        assert false;
      }
    }
    assert NewCluster(id) in u.centroids && !Founded(u, NewCluster(id));
  }

  /**
   * The steps of an append are not one transaction. A crash before the claim is logged leaves a consistent store
   * exactly when the claim was known, or joins a cluster whose centroid is its own embedding: never when the claim
   * founds a cluster.
   */
  lemma CrashBeforeLog(s: Store, dim: nat, first: map<string, Vec>, id: string, emb: Vec, tau: real, cosine: Cosine,
                       cid: string, centroids: map<string, Vec>)
    requires Consistent(s, dim, first) && |emb| == dim && Assigns(s, id, emb, tau, cosine, cid, centroids)
    ensures Consistent(Unlogged(s, centroids), dim, first) <==>
      id in s.clusterOf || (cid in s.centroids && emb == s.centroids[cid])
  {
    hide Closest, Averaged, Size, IsMean, Mapped, Founded, OncePerId;
    if id in s.clusterOf {
      assert Unlogged(s, centroids) == s;
    } else if cid in s.centroids {
      AssignsJoin(s, id, emb, tau, cosine, cid, centroids);
      MeanOfUnlogged(s, dim, first, emb, cid);
      SameButCentroid(s, dim, first, Unlogged(s, centroids), cid);
    } else {
      AssignsNew(s, id, emb, tau, cosine, cid, centroids);
      NotFoundedYet(s, dim, first, id, emb);
    }
  }

  /**
   * A crash after the claim is logged and before it is mapped breaks the store for every claim that was not known,
   * whatever embeddings are attributed to the claims: the log then has a claim that the map has not.
   */
  lemma CrashBeforeMap(s: Store, dim: nat, first: map<string, Vec>, id: string, emb: Vec, body: string, tau: real,
                       cosine: Cosine, cid: string, centroids: map<string, Vec>)
    requires Consistent(s, dim, first) && |emb| == dim && Assigns(s, id, emb, tau, cosine, cid, centroids)
    ensures id in s.clusterOf ==> Consistent(Unmapped(s, id, cid, body, centroids), dim, first)
    ensures id !in s.clusterOf ==> forall f :: !Consistent(Unmapped(s, id, cid, body, centroids), dim, f)
  {
    hide Closest, Averaged, Size, IsMean, Founded, OncePerId;
    var u := Unmapped(s, id, cid, body, centroids);
    if id in s.clusterOf {
      assert u == s;
    } else {
      NotLogged(s, first, id);
      LoggedNext(s.log, Record(id, cid, "", body), id);
    }
  }

  function OneClaim(): Store
  {
    Store(map["cl-a" := [1.0]], map["a" := "cl-a"], [Record("a", "cl-a", "", "")])
  }

  lemma OneClaimIsReachable(cosine: Cosine)
    ensures Execution([Store(map[], map[], []), OneClaim()], [Append("a", [1.0], "", 0.55)], cosine)
    ensures Assigns(Store(map[], map[], []), "a", [1.0], 0.55, cosine, "cl-a", OneClaim().centroids)
    ensures Consistent(OneClaim(), 1, map["a" := [1.0]])
  {
    var none, s, ops := Store(map[], map[], []), OneClaim(), [Append("a", [1.0], "", 0.55)];
    assert Assigns(none, "a", [1.0], 0.55, cosine, "cl-a", s.centroids);
    assert Appends(none, "a", [1.0], "", 0.55, cosine, s);
    assert ops[..0] == [] && ops[..1] == ops;
    assert FirstEmbeddings(ops) == map["a" := [1.0]];
    RunsAreConsistent([none, s], ops, cosine, 1, 1);
  }

  /** What a crash in the first or the second append of a run leaves behind is not consistent. */
  lemma CrashesAreReachable(cosine: Cosine)
    requires cosine([2.0], [1.0]) >= 0.55
    ensures var none, s, joined := Store(map[], map[], []), OneClaim(), map["cl-a" := [1.5]];
      && Execution([none, s], [Append("a", [1.0], "", 0.55)], cosine)
      && Assigns(none, "a", [1.0], 0.55, cosine, "cl-a", s.centroids)
      && !Consistent(Unlogged(none, s.centroids), 1, map[])
      && Assigns(s, "b", [2.0], 0.55, cosine, "cl-a", joined)
      && !Consistent(Unlogged(s, joined), 1, map["a" := [1.0]])
      && forall first :: !Consistent(Unmapped(s, "b", "cl-a", "", joined), 1, first)
  {
    hide Consistent, Assigns, Execution;
    var none, s, first, joined := Store(map[], map[], []), OneClaim(), map["a" := [1.0]], map["cl-a" := [1.5]];
    OneClaimIsReachable(cosine);
    EmptyIsConsistent(1);
    CrashBeforeLog(none, 1, map[], "a", [1.0], 0.55, cosine, "cl-a", s.centroids);
    SecondJoins(s, cosine);
    CrashBeforeLog(s, 1, first, "b", [2.0], 0.55, cosine, "cl-a", joined);
    CrashBeforeMap(s, 1, first, "b", [2.0], "", 0.55, cosine, "cl-a", joined);
  }

  lemma SecondJoins(s: Store, cosine: Cosine)
    requires s.centroids == map["cl-a" := [1.0]] && s.clusterOf == map["a" := "cl-a"] && cosine([2.0], [1.0]) >= 0.55
    ensures Assigns(s, "b", [2.0], 0.55, cosine, "cl-a", map["cl-a" := [1.5]])
  {
    assert Similar(s, [2.0], 0.55, cosine, "cl-a");
    assert (set id | id in s.clusterOf && s.clusterOf[id] == "cl-a") == {"a"};
    assert Averaged([1.0], [2.0], 2) == [1.5];
    assert s.centroids["cl-a" := [1.5]] == map["cl-a" := [1.5]];
  }
}
