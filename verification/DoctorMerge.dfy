/** Merging confirmed clusters and writing the consolidated wiki (src/doctor.rs). */
module DoctorMerge {
  import opened Prelude
  import opened Strings
  import opened Text
  import opened CitationMarkers
  import opened LinkRemap
  import opened Publishing
  import opened SavedMarkers
  import DoctorClusters

  datatype Guide = Guide(
    slug: string, tags: set<string>, sources: set<string>, created: string, updated: string, verified: string,
    body: string)

  // ---- the canonical guide of a cluster

  /** `a` wins against `b`: newer, then verified later, then longer, then the smaller slug. */
  predicate Wins(a: Guide, b: Guide)
  {
    || Lt(b.updated, a.updated)
    || (a.updated == b.updated && (
          || Lt(b.verified, a.verified)
          || (a.verified == b.verified && (|a.body| > |b.body| || (|a.body| == |b.body| && Lt(a.slug, b.slug))))))
  }

  lemma WinsOverLoser(a: Guide, b: Guide, c: Guide)
    requires Wins(a, b) && !Wins(c, b)
    ensures !Wins(c, a)
  {
    if Wins(c, a) {
      Chain(b.updated, a.updated, c.updated);
      Chain(b.verified, a.verified, c.verified);
      Chain(c.slug, a.slug, b.slug);
    }
  }

  lemma Chain(x: string, y: string, z: string)
    ensures Lt(x, y) && Lt(y, z) ==> Lt(x, z)
  {
    if Lt(x, y) && Lt(y, z) { LtTransitive(x, y, z); }
  }

  /** No guide wins against guide `c`. */
  ghost predicate Unbeaten(guides: seq<Guide>, c: nat)
    requires c < |guides|
  {
    forall i {:trigger Wins(guides[i], guides[c])} | 0 <= i < |guides| :: !Wins(guides[i], guides[c])
  }

  /** By update, then by verification, then by length, then by slug from the other end. */
  ghost predicate AtLeast(a: Guide, b: Guide)
  {
    && Le(b.updated, a.updated)
    && (a.updated == b.updated ==> Le(b.verified, a.verified))
    && (a.updated == b.updated && a.verified == b.verified ==> |a.body| >= |b.body|)
    && (a.updated == b.updated && a.verified == b.verified && |a.body| == |b.body| ==> Le(a.slug, b.slug))
  }

  lemma AtLeastUnlessBeaten(a: Guide, b: Guide)
    ensures AtLeast(a, b) <==> !Wins(b, a)
  {
    hide Le;
    LtIsNotGe(a.updated, b.updated);
    LtIsNotGe(a.verified, b.verified);
    LtIsNotGe(b.slug, a.slug);
    LeReflexive(a.updated);
    LeReflexive(a.verified);
  }

  method PickCanonical(guides: seq<Guide>) returns (best: nat)
    requires guides != []
    ensures best < |guides| && Unbeaten(guides, best)
    ensures forall i | 0 <= i < |guides| :: AtLeast(guides[best], guides[i])
  {
    best := 0;
    for i := 1 to |guides|
      invariant best < i <= |guides|
      invariant forall j | 0 <= j < i :: !Wins(guides[j], guides[best])
    {
      if Wins(guides[i], guides[best]) {
        forall j | 0 <= j < i ensures !Wins(guides[j], guides[i]) {
          WinsOverLoser(guides[i], guides[best], guides[j]);
        }
        best := i;
      }
    }
    forall i | 0 <= i < |guides| ensures AtLeast(guides[best], guides[i]) {
      AtLeastUnlessBeaten(guides[best], guides[i]);
    }
  }

  // ---- merging one cluster

  ghost function MarkersOf(guides: seq<Guide>): set<string>
  {
    set i, m | 0 <= i < |guides| && m in Markers(guides[i].body) :: m
  }

  const HEADING: string := "\n## Citations Carried Forward\n\n"
  const NOTE: string :=
    "> Markers preserved from "
    + "consolidated source guides "
    + "whose statements were "
    + "merged or deduplicated.\n\n"

  lemma HeadingHoldsNoMarker()
    ensures Markers(HEADING + NOTE) == {}
  {
    hide Markers;
    NothingOpens();
    NoteOpensNothing();
    NoMarkers(HEADING + NOTE);
  }

  lemma NothingOpens()
    ensures '[' !in HEADING
  {
  }

  lemma NoteOpensNothing()
    ensures '[' !in NOTE
  {
    FirstHalfOpensNothing();
    SecondHalfOpensNothing();
  }

  lemma FirstHalfOpensNothing()
    ensures '[' !in "> Markers preserved from " && '[' !in "consolidated source guides "
  {
  }

  lemma SecondHalfOpensNothing()
    ensures '[' !in "whose statements were " && '[' !in "merged or deduplicated.\n\n"
  {
  }

  /** The markers the model dropped are written after its text. */
  method CarryForward(body: string, missing: seq<string>) returns (out: string)
    requires forall k | 0 <= k < |missing| :: IsMarker(missing[k])
    ensures body <= out
    ensures Markers(out) == Markers(body) + set m | m in missing
  {
    hide Markers, IsMarker;
    out := body + "\n" + HEADING + NOTE;
    HeadingHoldsNoMarker();
    MarkersAcross(body, '\n', HEADING + NOTE);
    assert out == body + ['\n'] + (HEADING + NOTE);
    for k := 0 to |missing|
      invariant Markers(out) == Markers(body) + set m | m in missing[..k]
      invariant body <= out && out != "" && (out[|out| - 1] == '\n' || out[|out| - 1] == ' ')
    {
      assert missing[..k + 1] == missing[..k] + [missing[k]];
      AddMarker(out, missing[k]);
      out := out + missing[k];
      out := out + " ";
    }
    assert missing[..|missing|] == missing;
    EndLine(out);
    out := out + "\n";
  }

  lemma AddMarker(t: string, m: string)
    requires IsMarker(m) && t != "" && (t[|t| - 1] == '\n' || t[|t| - 1] == ' ')
    ensures Markers(t + m + " ") == Markers(t) + {m}
  {
    var k, c := |t| - 1, t[|t| - 1];
    assert t == t[..k] + [c];
    MarkersAcross(t[..k], c, m);
    MarkersAcross(t[..k], c, "");
    MarkersOfMarker(m);
    NoMarkers("");
    MarkersAcross(t + m, ' ', "");
    assert t + m == t[..k] + [c] + m;
    assert t + m + " " == t + m + [' '] + "";
    assert t == t[..k] + [c] + "";
  }

  lemma EndLine(t: string)
    ensures Markers(t + "\n") == Markers(t)
  {
    NoMarkers("");
    MarkersAcross(t, '\n', "");
    assert t + "\n" == t + ['\n'] + "";
  }

  /** The union over all guides, of the tags and sources alike. */
  ghost predicate Gathers(guides: seq<Guide>, n: nat, tags: set<string>, sources: set<string>)
    requires n <= |guides|
  {
    && (forall t :: t in tags <==> exists i :: 0 <= i < n && t in guides[i].tags)
    && (forall t :: t in sources <==> exists i :: 0 <= i < n && t in guides[i].sources)
  }

  /** The earliest creation date that is not empty, or empty when there is none. */
  ghost predicate IsEarliest(guides: seq<Guide>, n: nat, created: string)
    requires n <= |guides|
  {
    && (created == "" || exists i :: 0 <= i < |guides| && guides[i].created == created)
    && forall i | 0 <= i < n && guides[i].created != "" :: created != "" && Le(created, guides[i].created)
  }

  function Slugs(guides: seq<Guide>): (r: seq<string>)
    ensures |r| == |guides| && forall k | 0 <= k < |r| :: r[k] == guides[k].slug
  {
    seq(|guides|, k requires 0 <= k < |guides| => guides[k].slug)
  }

  function Without(slugs: seq<string>, slug: string): (r: seq<string>)
    ensures forall s :: s in r <==> s in slugs && s != slug
  {
    if slugs == [] then []
    else (if slugs[0] == slug then [] else [slugs[0]]) + Without(slugs[1..], slug)
  }

  datatype Merge = Merge(
    canonical: string, merged: Guide, absorbed: seq<string>, src: set<string>, dst: set<string>, carried: seq<string>)

  /** The merged body holds the markers of its sources and of the model's text, and no other. */
  ghost predicate Preserves(
      guides: seq<Guide>, text: string, body: string, src: set<string>, dst: set<string>, carried: seq<string>)
  {
    && src == MarkersOf(guides) && Lists(carried, src - Markers(text))
    && text <= body && (carried == [] ==> body == text)
    && dst == Markers(body) == src + Markers(text)
  }

  /** What a merge keeps, whatever text the model wrote. */
  ghost predicate Merges(guides: seq<Guide>, text: string, today: string, m: Merge)
  {
    && (exists c: nat :: c < |guides| && guides[c].slug == m.canonical && Unbeaten(guides, c))
    && m.merged.slug == m.canonical && m.absorbed == Without(Slugs(guides), m.canonical)
    && Preserves(guides, text, m.merged.body, m.src, m.dst, m.carried)
    && Gathers(guides, |guides|, m.merged.tags, m.merged.sources)
    && IsEarliest(guides, |guides|, m.merged.created)
    && m.merged.updated == today && m.merged.verified == today
  }

  /** The distinct markers of the guides of a cluster. */
  method SourceMarkers(guides: seq<Guide>) returns (src: set<string>)
    ensures src == MarkersOf(guides)
  {
    src := {};
    for i := 0 to |guides|
      invariant forall m :: m in src <==> exists j :: 0 <= j < i && m in Markers(guides[j].body)
    {
      var found := DistinctMarkers(guides[i].body);
      src := src + found;
    }
  }

  method Gather(guides: seq<Guide>, canon: nat)
    returns (tags: set<string>, sources: set<string>, created: string)
    requires canon < |guides|
    ensures Gathers(guides, |guides|, tags, sources) && IsEarliest(guides, |guides|, created)
  {
    tags, sources, created := guides[canon].tags, guides[canon].sources, guides[canon].created;
    for i := 0 to |guides|
      invariant forall t :: t in tags <==> t in guides[canon].tags || exists j :: 0 <= j < i && t in guides[j].tags
      invariant forall t :: t in sources <==>
        t in guides[canon].sources || exists j :: 0 <= j < i && t in guides[j].sources
      invariant IsEarliest(guides, i, created)
    {
      var g := guides[i];
      tags, sources := tags + g.tags, sources + g.sources;
      LeReflexive(g.created);
      LeTotal(created, g.created);
      if g.created != "" && (created == "" || Lt(g.created, created)) {
        forall j | 0 <= j < i && guides[j].created != "" ensures Le(g.created, guides[j].created) {
          LeTransitive(g.created, created, guides[j].created);
        }
        created := g.created;
      }
    }
  }

  lemma SourceMarkersAreMarkers(guides: seq<Guide>, m: string)
    requires m in MarkersOf(guides)
    ensures IsMarker(m)
  {
    var i :| 0 <= i < |guides| && m in Markers(guides[i].body);
    MarkersAreSubstrings(guides[i].body, m);
  }

  /** The deterministic guard behind the model's text. */
  method GuardCitations(guides: seq<Guide>, text: string)
    returns (body: string, src: set<string>, dst: set<string>, carried: seq<string>)
    ensures Preserves(guides, text, body, src, dst, carried)
  {
    src := SourceMarkers(guides);
    body := text;
    dst := DistinctMarkers(body);
    ghost var kept := dst;
    carried := InOrder(src - dst);
    if carried != [] {
      forall k | 0 <= k < |carried| ensures IsMarker(carried[k]) {
        assert carried[k] in carried;
        SourceMarkersAreMarkers(guides, carried[k]);
      }
      body := CarryForward(body, carried);
      dst := DistinctMarkers(body);
    }
    NothingMissing(src, kept, carried, dst);
  }

  lemma NothingMissing(src: set<string>, kept: set<string>, carried: seq<string>, dst: set<string>)
    requires forall m :: m in carried <==> m in src - kept
    requires dst == kept + set m | m in carried
    ensures dst == src + kept
  {
  }

  /** Merges the guides of one confirmed cluster; `reply` is the model's text, if the call succeeded. */
  method MergeCluster(guides: seq<Guide>, reply: Option<string>, today: string) returns (r: Option<Merge>)
    requires guides != []
    ensures r.Some? <==> reply.Some?
    ensures r.Some? ==> Merges(guides, reply.value, today, r.value)
  {
    var canon := PickCanonical(guides);
    var slug := guides[canon].slug;
    if reply.None? { return None; }
    var body, src, dst, carried := GuardCitations(guides, reply.value);
    var tags, sources, created := Gather(guides, canon);
    var merged := Guide(slug, tags, sources, created, today, today, body);
    r := Some(Merge(slug, merged, Without(Slugs(guides), slug), src, dst, carried));
  }

  // ---- the consolidated wiki

  /** The model's two answers about one cluster: whether to merge it, and the merged text unless that call failed. */
  datatype Answer = Answer(yes: bool, reply: Option<string>)

  type Wiki = map<string, Guide>

  /** Guides are kept under their own slug. */
  ghost predicate WellKept(wiki: Wiki)
  {
    forall s | s in wiki :: wiki[s].slug == s
  }

  /** No link to a guide holds a citation marker; slugs without a caret are of this kind. */
  ghost predicate PlainSlugs(wiki: Wiki)
  {
    forall s | s in wiki :: Plain(s)
  }

  /** No slug is in two clusters. */
  ghost predicate NoneShared(clusters: seq<seq<string>>)
  {
    forall j, k, s | 0 <= j < |clusters| && 0 <= k < |clusters| && s in clusters[j] && s in clusters[k] :: j == k
  }

  /** Clustering distinct slugs meets that demand. */
  lemma ClusteringSharesNone(
      embs: seq<DoctorClusters.Vec>, cosine: DoctorClusters.Cosine, slugs: seq<string>, tau: real,
      out: seq<DoctorClusters.Cluster>, groups: seq<seq<nat>>, clusters: seq<seq<string>>)
    requires forall i, j | 0 <= i < j < |slugs| :: slugs[i] != slugs[j]
    requires DoctorClusters.Clustered(embs, cosine, slugs, tau, out, groups)
    requires |clusters| == |out| && forall k | 0 <= k < |out| :: clusters[k] == out[k].slugs
    ensures NoneShared(clusters)
  {
    forall j, k, s | 0 <= j < |clusters| && 0 <= k < |clusters| && s in clusters[j] && s in clusters[k]
      ensures j == k
    {
      var a := DoctorClusters.SlugIsAMember(embs, cosine, slugs, out[j], groups[j], s);
      var b := DoctorClusters.SlugIsAMember(embs, cosine, slugs, out[k], groups[k], s);
      assert a == b;
      DoctorClusters.GroupsAreDisjoint(embs, cosine, slugs, tau, out, groups, j, k, a);
    }
  }

  function Loaded(wiki: Wiki, slugs: seq<string>): (r: seq<Guide>)
    ensures forall g :: g in r <==> exists s :: s in slugs && s in wiki && wiki[s] == g
  {
    if slugs == [] then []
    else (if slugs[0] in wiki then [wiki[slugs[0]]] else []) + Loaded(wiki, slugs[1..])
  }

  /** Everything that cites or classifies `a` is on `b`. */
  ghost predicate Carries(a: Guide, b: Guide)
  {
    Markers(a.body) <= Markers(b.body) && a.sources <= b.sources && a.tags <= b.tags
  }

  lemma MergeCarries(guides: seq<Guide>, text: string, today: string, m: Merge, g: Guide)
    requires Merges(guides, text, today, m) && g in guides
    ensures Carries(g, m.merged)
  {
    var i :| 0 <= i < |guides| && guides[i] == g;
    forall x | x in Markers(g.body) ensures x in MarkersOf(guides) {
    }
  }

  /** Cluster `k` is merged: at least two of its guides exist and the model agreed and wrote a text. */
  predicate Merged(wiki: Wiki, clusters: seq<seq<string>>, answers: seq<Answer>, k: nat)
    requires k < |clusters| == |answers|
  {
    |Loaded(wiki, clusters[k])| >= 2 && answers[k].yes && answers[k].reply.Some?
  }

  /** `s` is in one of the first `n` clusters that is merged. */
  ghost predicate Touched(wiki: Wiki, clusters: seq<seq<string>>, answers: seq<Answer>, n: nat, s: string)
    requires n <= |clusters| == |answers|
  {
    s in wiki && exists k :: 0 <= k < n && s in clusters[k] && Merged(wiki, clusters, answers, k)
  }

  /** Merge `m` of the cluster `slugs` is recorded: one guide stands for it and the others point there. */
  ghost predicate Applied(
      wiki: Wiki, slugs: seq<string>, text: string, today: string, remap: map<string, string>, merged: Wiki, m: Merge)
  {
    && Merges(Loaded(wiki, slugs), text, today, m)
    && m.canonical in merged && m.canonical !in remap && merged[m.canonical] == m.merged
    && forall s | s in m.absorbed :: s in remap && remap[s] == m.canonical && s !in merged
  }

  ghost predicate Recorded(
      wiki: Wiki, clusters: seq<seq<string>>, answers: seq<Answer>, today: string, k: nat, remap: map<string, string>,
      merged: Wiki)
    requires k < |clusters| == |answers|
  {
    Merged(wiki, clusters, answers, k) ==>
      exists m :: Applied(wiki, clusters[k], answers[k].reply.value, today, remap, merged, m)
  }

  ghost predicate AllRecorded(
      wiki: Wiki, clusters: seq<seq<string>>, answers: seq<Answer>, today: string, n: nat, remap: map<string, string>,
      merged: Wiki)
    requires n <= |clusters| == |answers|
  {
    forall k | 0 <= k < n :: Recorded(wiki, clusters, answers, today, k, remap, merged)
  }

  ghost predicate MergesSoFar(
      wiki: Wiki, clusters: seq<seq<string>>, answers: seq<Answer>, today: string, n: nat, remap: map<string, string>,
      merged: Wiki)
    requires n <= |clusters| == |answers|
  {
    && AllRecorded(wiki, clusters, answers, today, n, remap, merged)
    && AllTouched(wiki, clusters, answers, n, remap, merged)
  }

  /** The guides moved or rewritten are those of the merged clusters, and links are redirected to guides that exist. */
  ghost predicate AllTouched(
      wiki: Wiki, clusters: seq<seq<string>>, answers: seq<Answer>, n: nat, remap: map<string, string>, merged: Wiki)
    requires n <= |clusters| == |answers|
  {
    && (forall s :: s in remap || s in merged <==> Touched(wiki, clusters, answers, n, s))
    && forall s | s in remap :: remap[s] in wiki
  }

  function Redirected(remap: map<string, string>, absorbed: seq<string>, canonical: string): map<string, string>
  {
    remap + map s | s in absorbed :: canonical
  }

  lemma TouchedStep(wiki: Wiki, clusters: seq<seq<string>>, answers: seq<Answer>, n: nat, s: string)
    requires n < |clusters| == |answers| && NoneShared(clusters)
    ensures Touched(wiki, clusters, answers, n + 1, s) <==>
      Touched(wiki, clusters, answers, n, s) || (s in wiki && s in clusters[n] && Merged(wiki, clusters, answers, n))
    ensures s in clusters[n] ==> !Touched(wiki, clusters, answers, n, s)
  {
  }

  /** A merge leaves the record of an earlier one alone. */
  lemma StillApplied(wiki: Wiki, slugs: seq<string>, text: string, today: string, remap: map<string, string>,
                     merged: Wiki, m: Merge, absorbed: seq<string>, canonical: string, g: Guide)
    requires WellKept(wiki) && Applied(wiki, slugs, text, today, remap, merged, m)
    requires canonical !in slugs && forall s | s in absorbed :: s !in slugs
    ensures Applied(wiki, slugs, text, today, Redirected(remap, absorbed, canonical), merged[canonical := g], m)
  {
    MergedSlugs(wiki, slugs, text, today, m);
  }

  lemma MergeExtends(
      wiki: Wiki, clusters: seq<seq<string>>, answers: seq<Answer>, n: nat, remap: map<string, string>, merged: Wiki,
      today: string, m: Merge)
    requires n < |clusters| == |answers| && WellKept(wiki) && NoneShared(clusters)
    requires MergesSoFar(wiki, clusters, answers, today, n, remap, merged) && Merged(wiki, clusters, answers, n)
    requires Merges(Loaded(wiki, clusters[n]), answers[n].reply.value, today, m)
    ensures MergesSoFar(wiki, clusters, answers, today, n + 1, Redirected(remap, m.absorbed, m.canonical),
                        merged[m.canonical := m.merged])
  {
    var remap', merged' := Redirected(remap, m.absorbed, m.canonical), merged[m.canonical := m.merged];
    MergedSlugs(wiki, clusters[n], answers[n].reply.value, today, m);
    NowTouched(wiki, clusters, answers, n, remap, merged, m.absorbed, m.canonical, m.merged);
    NowAllRecorded(wiki, clusters, answers, n, remap, merged, today, m, remap', merged');
  }

  lemma NowTouched(
      wiki: Wiki, clusters: seq<seq<string>>, answers: seq<Answer>, n: nat, remap: map<string, string>, merged: Wiki,
      absorbed: seq<string>, canonical: string, g: Guide)
    requires n < |clusters| == |answers| && NoneShared(clusters)
    requires AllTouched(wiki, clusters, answers, n, remap, merged) && Merged(wiki, clusters, answers, n)
    requires canonical in wiki && canonical in clusters[n]
    requires forall s :: s in absorbed <==> s in wiki && s in clusters[n] && s != canonical
    ensures AllTouched(wiki, clusters, answers, n + 1, Redirected(remap, absorbed, canonical), merged[canonical := g])
  {
    forall s ensures s in Redirected(remap, absorbed, canonical) || s in merged[canonical := g]
                <==> Touched(wiki, clusters, answers, n + 1, s) {
      TouchedStep(wiki, clusters, answers, n, s);
    }
  }

  lemma NowAllRecorded(
      wiki: Wiki, clusters: seq<seq<string>>, answers: seq<Answer>, n: nat, remap: map<string, string>, merged: Wiki,
      today: string, m: Merge, remap': map<string, string>, merged': Wiki)
    requires n < |clusters| == |answers| && WellKept(wiki) && NoneShared(clusters) && answers[n].reply.Some?
    requires AllRecorded(wiki, clusters, answers, today, n, remap, merged)
    requires AllTouched(wiki, clusters, answers, n, remap, merged)
    requires Merges(Loaded(wiki, clusters[n]), answers[n].reply.value, today, m)
    requires remap' == Redirected(remap, m.absorbed, m.canonical) && merged' == merged[m.canonical := m.merged]
    ensures AllRecorded(wiki, clusters, answers, today, n + 1, remap', merged')
  {
    NowRecorded(wiki, clusters, answers, n, remap, merged, today, m);
    MergedSlugs(wiki, clusters[n], answers[n].reply.value, today, m);
    forall k | 0 <= k < n ensures Recorded(wiki, clusters, answers, today, k, remap', merged') {
      StillRecorded(wiki, clusters, answers, today, k, n, remap, merged, m.absorbed, m.canonical, m.merged);
    }
  }

  lemma NowRecorded(
      wiki: Wiki, clusters: seq<seq<string>>, answers: seq<Answer>, n: nat, remap: map<string, string>, merged: Wiki,
      today: string, m: Merge)
    requires n < |clusters| == |answers| && WellKept(wiki) && NoneShared(clusters)
    requires forall s :: s in remap || s in merged <==> Touched(wiki, clusters, answers, n, s)
    requires answers[n].reply.Some? && Merges(Loaded(wiki, clusters[n]), answers[n].reply.value, today, m)
    ensures Recorded(wiki, clusters, answers, today, n, Redirected(remap, m.absorbed, m.canonical),
                     merged[m.canonical := m.merged])
  {
    var remap', merged' := Redirected(remap, m.absorbed, m.canonical), merged[m.canonical := m.merged];
    MergedSlugs(wiki, clusters[n], answers[n].reply.value, today, m);
    forall s | s in wiki && s in clusters[n] ensures s !in remap && s !in merged {
      TouchedStep(wiki, clusters, answers, n, s);
    }
    assert Applied(wiki, clusters[n], answers[n].reply.value, today, remap', merged', m);
  }

  lemma StillRecorded(
      wiki: Wiki, clusters: seq<seq<string>>, answers: seq<Answer>, today: string, k: nat, n: nat,
      remap: map<string, string>, merged: Wiki, absorbed: seq<string>, canonical: string, g: Guide)
    requires k < n < |clusters| == |answers| && WellKept(wiki) && NoneShared(clusters)
    requires Recorded(wiki, clusters, answers, today, k, remap, merged)
    requires canonical in clusters[n] && forall s | s in absorbed :: s in clusters[n]
    ensures Recorded(wiki, clusters, answers, today, k, Redirected(remap, absorbed, canonical), merged[canonical := g])
  {
    if Merged(wiki, clusters, answers, k) {
      var e :| Applied(wiki, clusters[k], answers[k].reply.value, today, remap, merged, e);
      StillApplied(wiki, clusters[k], answers[k].reply.value, today, remap, merged, e, absorbed, canonical, g);
    }
  }

  lemma MergeSkipped(
      wiki: Wiki, clusters: seq<seq<string>>, answers: seq<Answer>, n: nat, remap: map<string, string>, merged: Wiki,
      today: string)
    requires n < |clusters| == |answers| && NoneShared(clusters)
    requires MergesSoFar(wiki, clusters, answers, today, n, remap, merged) && !Merged(wiki, clusters, answers, n)
    ensures MergesSoFar(wiki, clusters, answers, today, n + 1, remap, merged)
  {
    forall s ensures s in remap || s in merged <==> Touched(wiki, clusters, answers, n + 1, s) {
      TouchedStep(wiki, clusters, answers, n, s);
    }
  }

  lemma MergedSlugs(wiki: Wiki, slugs: seq<string>, text: string, today: string, m: Merge)
    requires WellKept(wiki) && Merges(Loaded(wiki, slugs), text, today, m)
    ensures m.canonical in wiki && m.canonical in slugs
    ensures forall s :: s in m.absorbed <==> s in wiki && s in slugs && s != m.canonical
  {
    var guides := Loaded(wiki, slugs);
    forall s ensures s in Slugs(guides) <==> s in wiki && s in slugs { ClusterSlugs(wiki, slugs, s); }
    var c :| 0 <= c < |guides| && guides[c].slug == m.canonical;
    assert Slugs(guides)[c] == m.canonical;
  }

  lemma ClusterSlugs(wiki: Wiki, slugs: seq<string>, s: string)
    requires WellKept(wiki)
    ensures s in Slugs(Loaded(wiki, slugs)) <==> s in wiki && s in slugs
  {
    var guides := Loaded(wiki, slugs);
    if s in Slugs(guides) {
      var k :| 0 <= k < |guides| && guides[k].slug == s;
      assert guides[k] in guides;
    }
    if s in wiki && s in slugs {
      assert wiki[s] in guides;
      var k :| 0 <= k < |guides| && guides[k] == wiki[s];
      assert Slugs(guides)[k] == s;
    }
  }

  method RecordMerge(m: Merge, remap: map<string, string>, absorbed: set<string>)
    returns (remap': map<string, string>, absorbed': set<string>)
    requires absorbed == remap.Keys
    ensures remap' == Redirected(remap, m.absorbed, m.canonical) && absorbed' == remap'.Keys
  {
    remap', absorbed' := remap, absorbed;
    for i := 0 to |m.absorbed|
      invariant absorbed' == remap'.Keys
      invariant forall s :: s in remap' <==> s in remap || s in m.absorbed[..i]
      invariant forall s | s in remap' :: remap'[s] == if s in m.absorbed[..i] then m.canonical else remap[s]
    {
      remap' := remap'[m.absorbed[i] := m.canonical];
      absorbed' := absorbed' + {m.absorbed[i]};
      assert m.absorbed[..i + 1] == m.absorbed[..i] + [m.absorbed[i]];
    }
    assert m.absorbed[..|m.absorbed|] == m.absorbed;
    assert remap' == Redirected(remap, m.absorbed, m.canonical);
  }

  /** Confirm and merge: a refused or failed cluster is skipped. */
  method MergeConfirmed(wiki: Wiki, clusters: seq<seq<string>>, answers: seq<Answer>, today: string)
    returns (remap: map<string, string>, merged: Wiki, absorbed: set<string>)
    requires |clusters| == |answers| && WellKept(wiki) && NoneShared(clusters)
    ensures MergesSoFar(wiki, clusters, answers, today, |clusters|, remap, merged) && absorbed == remap.Keys
  {
    remap, merged, absorbed := map[], map[], {};
    for n := 0 to |clusters|
      invariant MergesSoFar(wiki, clusters, answers, today, n, remap, merged) && absorbed == remap.Keys
    {
      var guides := Loaded(wiki, clusters[n]);
      if |guides| < 2 || !answers[n].yes {
        MergeSkipped(wiki, clusters, answers, n, remap, merged, today);
        continue;
      }
      var m := MergeCluster(guides, answers[n].reply, today);
      if m.None? {
        MergeSkipped(wiki, clusters, answers, n, remap, merged, today);
        continue;
      }
      MergeExtends(wiki, clusters, answers, n, remap, merged, today, m.value);
      remap, absorbed := RecordMerge(m.value, remap, absorbed);
      merged := merged[m.value.canonical := m.value.merged];
    }
  }

  /** `b` is `a` with its links rewritten, in some order of the map. */
  ghost predicate Relinked(a: Guide, b: Guide, remap: map<string, string>)
  {
    exists order :: Orders(order, remap) && b == a.(body := RemapAll(a.body, remap, order))
  }

  /** The guide kept under `slug`, in its merged form if it has one. */
  function Chosen(wiki: Wiki, merged: Wiki, slug: string): Guide
    requires slug in wiki
  {
    if slug in merged then merged[slug] else wiki[slug]
  }

  method Relink(g: Guide, remap: map<string, string>) returns (r: Guide)
    ensures Relinked(g, r, remap)
  {
    ghost var order;
    var body;
    body, order := RemapSeeAlso(g.body, remap);
    r := g.(body := body);
  }

  /** What is on disk after a guide was saved: its body as it is published. */
  function Saved(g: Guide): Guide
  {
    g.(body := Published(g.body))
  }

  function AllSaved(drafts: Wiki): Wiki
  {
    map s | s in drafts :: Saved(drafts[s])
  }

  /** Every guide that was not absorbed is written; `drafts` is what is handed to the writer. */
  method WriteWiki(wiki: Wiki, remap: map<string, string>, merged: Wiki, absorbed: set<string>)
    returns (out: Wiki, ghost drafts: Wiki)
    requires absorbed == remap.Keys
    ensures out == AllSaved(drafts) && forall s :: s in drafts <==> s in wiki && s !in absorbed
    ensures forall s | s in drafts :: Relinked(Chosen(wiki, merged, s), drafts[s], remap)
  {
    hide Relinked, Published;
    out, drafts := map[], map[];
    var left := wiki.Keys;
    while left != {}
      invariant left <= wiki.Keys && out == AllSaved(drafts)
      invariant forall s :: s in drafts <==> s in wiki && s !in absorbed && s !in left
      invariant forall s | s in drafts :: Relinked(Chosen(wiki, merged, s), drafts[s], remap)
    {
      var slug :| slug in left;
      left := left - {slug};
      if slug !in absorbed {
        var g := Relink(Chosen(wiki, merged, slug), remap);
        out, drafts := out[slug := Saved(g)], drafts[slug := g];
      }
    }
  }

  /**
   * What the consolidated wiki is before saving: untouched guides stay, each merged cluster becomes one guide, and
   * links to the guides that are gone are rewritten in all.
   */
  ghost predicate Consolidated(
      wiki: Wiki, clusters: seq<seq<string>>, answers: seq<Answer>, today: string, remap: map<string, string>,
      drafts: Wiki)
    requires |clusters| == |answers|
  {
    && (forall s :: s in drafts <==> s in wiki && s !in remap)
    && (forall s | s in remap :: s in wiki && remap[s] in wiki)
    && (forall s {:trigger Touched(wiki, clusters, answers, |clusters|, s)}
          | s in wiki && !Touched(wiki, clusters, answers, |clusters|, s) ::
          s in drafts && Relinked(wiki[s], drafts[s], remap))
    && (forall k {:trigger Merged(wiki, clusters, answers, k)}
          | 0 <= k < |clusters| && Merged(wiki, clusters, answers, k) ::
          Collapsed(wiki, clusters[k], answers[k].reply.value, today, remap, drafts))
  }

  ghost predicate Collapsed(
      wiki: Wiki, slugs: seq<string>, text: string, today: string, remap: map<string, string>, drafts: Wiki)
  {
    exists m ::
      && Merges(Loaded(wiki, slugs), text, today, m) && StandsFor(m, remap, drafts)
  }

  /** The merged guide is in the wiki and links to the ones it replaces are redirected to it. */
  ghost predicate StandsFor(m: Merge, remap: map<string, string>, drafts: Wiki)
  {
    && m.canonical in drafts && Relinked(m.merged, drafts[m.canonical], remap)
    && forall s | s in m.absorbed :: s in remap && remap[s] == m.canonical
  }

  /** Links are only redirected from guides of the wiki to guides of the wiki. */
  lemma PlainSlugsSuffice(
      wiki: Wiki, clusters: seq<seq<string>>, answers: seq<Answer>, today: string, remap: map<string, string>,
      drafts: Wiki)
    requires |clusters| == |answers| && PlainSlugs(wiki)
    requires Consolidated(wiki, clusters, answers, today, remap, drafts)
    ensures AllPlain(remap)
  {
    hide Collapsed, Relinked, Touched, Merged, Plain;
  }

  method Consolidate(wiki: Wiki, clusters: seq<seq<string>>, answers: seq<Answer>, today: string)
    returns (out: Wiki, ghost remap: map<string, string>, ghost drafts: Wiki)
    requires |clusters| == |answers| && WellKept(wiki) && NoneShared(clusters)
    ensures Consolidated(wiki, clusters, answers, today, remap, drafts) && out == AllSaved(drafts)
    ensures PlainSlugs(wiki) ==> AllPlain(remap)
  {
    hide Relinked, AllSaved, Plain;
    var links, merged, absorbed := MergeConfirmed(wiki, clusters, answers, today);
    remap := links;
    forall s | s in remap ensures s in wiki {
      assert Touched(wiki, clusters, answers, |clusters|, s);
    }
    out, drafts := WriteWiki(wiki, links, merged, absorbed);
    forall k | 0 <= k < |clusters| && Merged(wiki, clusters, answers, k)
      ensures Collapsed(wiki, clusters[k], answers[k].reply.value, today, remap, drafts)
    {
      assert Recorded(wiki, clusters, answers, today, k, remap, merged);
      var m :| Applied(wiki, clusters[k], answers[k].reply.value, today, remap, merged, m);
      MergedSlugs(wiki, clusters[k], answers[k].reply.value, today, m);
      assert StandsFor(m, remap, drafts);
    }
    if PlainSlugs(wiki) { PlainSlugsSuffice(wiki, clusters, answers, today, remap, drafts); }
  }

  // ---- what is carried over

  /** Rewriting links changes nothing but the body, and that cites the same. */
  lemma RelinkedCitesSame(a: Guide, b: Guide, remap: map<string, string>)
    requires AllPlain(remap) && Relinked(a, b, remap)
    ensures b == a.(body := b.body) && Markers(b.body) == Markers(a.body)
  {
    hide Markers, AllPlain;
    var order :| Orders(order, remap) && b == a.(body := RemapAll(a.body, remap, order));
    RemapAllKeepsMarkers(a.body, remap, order);
  }

  /** No draft loses a citation, a source or a tag: some draft carries all those of a guide. */
  lemma EveryGuideIsDrafted(
      wiki: Wiki, clusters: seq<seq<string>>, answers: seq<Answer>, today: string, remap: map<string, string>,
      drafts: Wiki, s: string)
    requires |clusters| == |answers| && AllPlain(remap)
    requires Consolidated(wiki, clusters, answers, today, remap, drafts) && s in wiki
    ensures exists t :: t in drafts && Carries(wiki[s], drafts[t])
  {
    hide Relinked, Merges, AllPlain, Markers;
    if Touched(wiki, clusters, answers, |clusters|, s) {
      var k :| 0 <= k < |clusters| && s in clusters[k] && Merged(wiki, clusters, answers, k);
      var guides, text := Loaded(wiki, clusters[k]), answers[k].reply.value;
      assert Collapsed(wiki, clusters[k], text, today, remap, drafts);
      var m :| Merges(guides, text, today, m) && StandsFor(m, remap, drafts);
      assert wiki[s] in guides;
      MergeCarries(guides, text, today, m, wiki[s]);
      RelinkedCitesSame(m.merged, drafts[m.canonical], remap);
      assert Carries(wiki[s], drafts[m.canonical]);
    } else {
      RelinkedCitesSame(wiki[s], drafts[s], remap);
      assert Carries(wiki[s], drafts[s]);
    }
  }

  /** The saved form of a draft carries what `a` has, but for the markers the draft holds in a dropped section alone. */
  ghost predicate CarriesSaved(a: Guide, draft: Guide, saved: Guide)
  {
    && a.sources <= saved.sources && a.tags <= saved.tags
    && forall m | m in Markers(a.body) :: m in Markers(saved.body) <==> !Dropped(draft.body, m)
  }

  /** No guide loses a source or a tag, and no citation but those that saving drops. */
  lemma EveryGuideIsCarried(
      wiki: Wiki, clusters: seq<seq<string>>, answers: seq<Answer>, today: string, remap: map<string, string>,
      drafts: Wiki, out: Wiki, s: string)
    requires |clusters| == |answers| && AllPlain(remap) && s in wiki
    requires Consolidated(wiki, clusters, answers, today, remap, drafts) && out == AllSaved(drafts)
    ensures exists t ::
      t in drafts && t in out && Carries(wiki[s], drafts[t]) && CarriesSaved(wiki[s], drafts[t], out[t])
  {
    hide Consolidated, Dropped, Published, Markers, AllPlain;
    EveryGuideIsDrafted(wiki, clusters, answers, today, remap, drafts, s);
    var t :| t in drafts && Carries(wiki[s], drafts[t]);
    forall m | m in Markers(wiki[s].body) ensures m in Markers(out[t].body) <==> !Dropped(drafts[t].body, m) {
      MarkersOfSaved(drafts[t].body, m);
    }
    assert CarriesSaved(wiki[s], drafts[t], out[t]);
  }

  ghost predicate Cites(wiki: Wiki, m: string)
  {
    exists s :: s in wiki && m in Markers(wiki[s].body)
  }

  /** A draft cites `m` where saving does not drop it. */
  ghost predicate KeptIn(drafts: Wiki, t: string, m: string)
  {
    t in drafts && m in Markers(drafts[t].body) && !Dropped(drafts[t].body, m)
  }

  lemma SavedCites(drafts: Wiki, m: string)
    ensures Cites(AllSaved(drafts), m) <==> exists t :: KeptIn(drafts, t, m)
  {
    hide Markers, Published, Dropped;
    var out := AllSaved(drafts);
    forall t | t in drafts ensures m in Markers(out[t].body) <==> KeptIn(drafts, t, m) {
      MarkersOfSaved(drafts[t].body, m);
    }
    if t :| t in out && m in Markers(out[t].body) { assert KeptIn(drafts, t, m); }
    if t :| KeptIn(drafts, t, m) { assert t in out; }
  }

  /**
   * The drafts cite what the wiki cited, and beyond that only what the model wrote. The saved wiki cites exactly what
   * some draft holds outside a section that saving drops.
   */
  lemma CitationsPreserved(
      wiki: Wiki, clusters: seq<seq<string>>, answers: seq<Answer>, today: string, remap: map<string, string>,
      drafts: Wiki, out: Wiki, m: string)
    requires |clusters| == |answers| && WellKept(wiki) && AllPlain(remap)
    requires Consolidated(wiki, clusters, answers, today, remap, drafts) && out == AllSaved(drafts)
    ensures Cites(wiki, m) ==> Cites(drafts, m)
    ensures Cites(drafts, m) ==> Cites(wiki, m) || exists k ::
      0 <= k < |clusters| && Merged(wiki, clusters, answers, k) && m in Markers(answers[k].reply.value)
    ensures Cites(out, m) <==> exists t :: KeptIn(drafts, t, m)
  {
    hide Relinked, Merges, AllPlain, Markers, AllSaved, Collapsed;
    SavedCites(drafts, m);
    if s :| s in wiki && m in Markers(wiki[s].body) {
      EveryGuideIsDrafted(wiki, clusters, answers, today, remap, drafts, s);
    }
    if t :| t in drafts && m in Markers(drafts[t].body) {
      if Touched(wiki, clusters, answers, |clusters|, t) {
        var k :| 0 <= k < |clusters| && t in clusters[k] && Merged(wiki, clusters, answers, k);
        CollapsedCites(wiki, clusters[k], answers[k].reply.value, today, remap, drafts, t, m);
      } else {
        RelinkedCitesSame(wiki[t], drafts[t], remap);
      }
    }
  }

  lemma CollapsedCites(
      wiki: Wiki, slugs: seq<string>, text: string, today: string, remap: map<string, string>, drafts: Wiki,
      t: string, m: string)
    requires WellKept(wiki) && AllPlain(remap) && Collapsed(wiki, slugs, text, today, remap, drafts)
    requires forall s | s in drafts :: s !in remap
    requires t in wiki && t in slugs && t in drafts && m in Markers(drafts[t].body)
    ensures Cites(wiki, m) || m in Markers(text)
  {
    hide Relinked, Markers, AllPlain, Gathers, IsEarliest;
    var guides := Loaded(wiki, slugs);
    var e :| Merges(guides, text, today, e) && StandsFor(e, remap, drafts);
    MergedSlugs(wiki, slugs, text, today, e);
    assert t == e.canonical;
    RelinkedCitesSame(e.merged, drafts[t], remap);
    if m in MarkersOf(guides) {
      var i :| 0 <= i < |guides| && m in Markers(guides[i].body);
      assert guides[i] in guides;
    }
  }

  /** Every draft that cites `m` cites it in a section that saving drops, and there alone. */
  ghost predicate DroppedEverywhere(drafts: Wiki, m: string)
  {
    forall t | t in drafts && m in Markers(drafts[t].body) :: Dropped(drafts[t].body, m)
  }

  /** No citation is lost, exactly when none is left in dropped sections alone. */
  lemma NothingLostIff(
      wiki: Wiki, clusters: seq<seq<string>>, answers: seq<Answer>, today: string, remap: map<string, string>,
      drafts: Wiki, out: Wiki)
    requires |clusters| == |answers| && WellKept(wiki) && AllPlain(remap)
    requires Consolidated(wiki, clusters, answers, today, remap, drafts) && out == AllSaved(drafts)
    ensures (forall m | Cites(wiki, m) :: Cites(out, m)) <==>
      !exists m :: Cites(wiki, m) && DroppedEverywhere(drafts, m)
  {
    hide Consolidated, Cites, AllSaved, AllPlain, WellKept, Dropped, Markers;
    forall m ensures Cites(out, m) <==> !DroppedEverywhere(drafts, m) {
      CitationsPreserved(wiki, clusters, answers, today, remap, drafts, out, m);
      if t :| KeptIn(drafts, t, m) { }
      if !DroppedEverywhere(drafts, m) {
        var t :| t in drafts && m in Markers(drafts[t].body) && !Dropped(drafts[t].body, m);
        assert KeptIn(drafts, t, m);
      }
    }
  }

  // ---- which clusters become one guide

  lemma {:induction false} TwoAreLoaded(wiki: Wiki, slugs: seq<string>, s: string, t: string)
    requires WellKept(wiki) && s != t && s in slugs && t in slugs && s in wiki && t in wiki
    ensures |Loaded(wiki, slugs)| >= 2
  {
    var guides := Loaded(wiki, slugs);
    assert wiki[s] in guides && wiki[t] in guides && wiki[s].slug != wiki[t].slug;
    var i :| 0 <= i < |guides| && guides[i] == wiki[s];
    var j :| 0 <= j < |guides| && guides[j] == wiki[t];
    assert i != j;
  }

  /** A cluster of two guides or more that the model agreed to merge and wrote a text for leaves one of them. */
  lemma OneIsLeft(
      wiki: Wiki, clusters: seq<seq<string>>, answers: seq<Answer>, today: string, remap: map<string, string>,
      drafts: Wiki, k: nat, s: string, t: string)
    returns (c: string)
    requires |clusters| == |answers| && WellKept(wiki) && k < |clusters|
    requires Consolidated(wiki, clusters, answers, today, remap, drafts)
    requires s != t && s in clusters[k] && t in clusters[k] && s in wiki && t in wiki
    requires answers[k].yes && answers[k].reply.Some?
    ensures c in clusters[k] && c in drafts
    ensures forall x | x in clusters[k] && x in wiki && x != c :: x in remap && remap[x] == c && x !in drafts
  {
    hide Merges, Relinked, Touched;
    TwoAreLoaded(wiki, clusters[k], s, t);
    assert Merged(wiki, clusters, answers, k);
    var text := answers[k].reply.value;
    assert Collapsed(wiki, clusters[k], text, today, remap, drafts);
    var m :| Merges(Loaded(wiki, clusters[k]), text, today, m) && StandsFor(m, remap, drafts);
    MergedSlugs(wiki, clusters[k], text, today, m);
    c := m.canonical;
  }

  /** The guides of a cluster that was refused, or for which the call failed, stay, with their links rewritten. */
  lemma RefusedStay(
      wiki: Wiki, clusters: seq<seq<string>>, answers: seq<Answer>, today: string, remap: map<string, string>,
      drafts: Wiki, k: nat, s: string)
    requires |clusters| == |answers| && k < |clusters| && NoneShared(clusters)
    requires Consolidated(wiki, clusters, answers, today, remap, drafts)
    requires s in clusters[k] && s in wiki && !(answers[k].yes && answers[k].reply.Some?)
    ensures s in drafts && s !in remap && Relinked(wiki[s], drafts[s], remap)
  {
    hide Collapsed, Relinked;
    assert !Touched(wiki, clusters, answers, |clusters|, s);
  }
}
