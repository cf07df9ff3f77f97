/** Wikis that lose a citation when they are consolidated: why the conditions of `DoctorMerge` are needed. */
module LostCitations {
  import opened Prelude
  import opened Strings
  import opened Text
  import opened CitationMarkers
  import opened LinkRemap
  import opened Publishing
  import opened SavedMarkers
  import opened DoctorMerge

  function Note(slug: string, updated: string, body: string): Guide
  {
    Guide(slug, {}, {}, "", updated, "", body)
  }

  /** Two guides that the model merges. */
  lemma TwoLoaded(wiki: Wiki, a: string, b: string)
    requires a in wiki && b in wiki
    ensures Loaded(wiki, [a, b]) == [wiki[a], wiki[b]]
  {
    assert [a, b][1..] == [b] && [b][1..] == [];
    assert Loaded(wiki, [b]) == [wiki[b]];
  }

  lemma PairCollapses(wiki: Wiki, a: string, b: string, text: string, today: string, remap: map<string, string>,
                      drafts: Wiki) returns (e: Merge)
    requires WellKept(wiki) && a in wiki && b in wiki && a != b
    requires Consolidated(wiki, [[a, b]], [Answer(true, Some(text))], today, remap, drafts)
    ensures Merges(Loaded(wiki, [a, b]), text, today, e) && StandsFor(e, remap, drafts)
    ensures e.canonical in [a, b] && forall s :: s in e.absorbed <==> s in [a, b] && s != e.canonical
  {
    hide Merges, Relinked, StandsFor, Loaded;
    var clusters, answers := [[a, b]], [Answer(true, Some(text))];
    TwoLoaded(wiki, a, b);
    assert Merged(wiki, clusters, answers, 0);
    assert Collapsed(wiki, clusters[0], text, today, remap, drafts);
    e :| Merges(Loaded(wiki, [a, b]), text, today, e) && StandsFor(e, remap, drafts);
    MergedSlugs(wiki, [a, b], text, today, e);
  }

  lemma OthersStay(wiki: Wiki, a: string, b: string, text: string, today: string, remap: map<string, string>,
                   drafts: Wiki, s: string)
    requires Consolidated(wiki, [[a, b]], [Answer(true, Some(text))], today, remap, drafts)
    requires s in wiki && s != a && s != b
    ensures s in drafts && s !in remap && Relinked(wiki[s], drafts[s], remap)
  {
    hide Collapsed, Relinked;
    assert !Touched(wiki, [[a, b]], [Answer(true, Some(text))], 1, s);
  }

  /** The merge of a confirmed pair, which is all that happens to the wiki. */
  lemma PairMerges(wiki: Wiki, a: string, b: string, text: string, today: string, remap: map<string, string>,
                   drafts: Wiki) returns (e: Merge)
    requires WellKept(wiki) && a in wiki && b in wiki && a != b
    requires Consolidated(wiki, [[a, b]], [Answer(true, Some(text))], today, remap, drafts)
    ensures Merges(Loaded(wiki, [a, b]), text, today, e) && StandsFor(e, remap, drafts)
    ensures e.canonical == a || e.canonical == b
    ensures remap.Keys == {a, b} - {e.canonical} && drafts.Keys == wiki.Keys - remap.Keys
    ensures forall s | s in remap :: remap[s] == e.canonical
    ensures forall s | s in wiki && s != a && s != b :: s in drafts && Relinked(wiki[s], drafts[s], remap)
  {
    hide Merges, Relinked, Collapsed, Touched, Merged, Loaded;
    e := PairCollapses(wiki, a, b, text, today, remap, drafts);
    forall s | s in wiki && s != a && s != b
      ensures s in drafts && s !in remap && Relinked(wiki[s], drafts[s], remap)
    {
      OthersStay(wiki, a, b, text, today, remap, drafts, s);
    }
  }

  // ---- a marker in a See Also section without visible text

  /** A text in which no link form opens. */
  ghost predicate NoLinks(text: string)
  {
    forall p | 0 <= p < |text| - 1 ::
      !(text[p] == '[' && text[p + 1] == '[') && !(text[p] == ']' && text[p + 1] == '(')
  }

  lemma TwoBytes(text: string, pat: string, p: nat)
    requires OccursAt(pat, text, p) && |pat| > 1
    ensures p + 1 < |text| && text[p] == pat[0] && text[p + 1] == pat[1]
  {
  }

  lemma PatternAbsent(text: string, pat: string, with: string)
    requires NoLinks(text) && |pat| > 1
    requires (pat[0] == '[' && pat[1] == '[') || (pat[0] == ']' && pat[1] == '(')
    ensures Replace(text, pat, with) == text
  {
    if p :| OccursAt(pat, text, p) {
      TwoBytes(text, pat, p);
      assert false;
    }
    ReplaceAbsent(text, pat, with);
  }

  lemma NothingToRemap(text: string, from: string, to: string)
    requires NoLinks(text)
    ensures RemapLink(text, from, to) == text
  {
    hide Replace, NoLinks;
    PatternAbsent(text, "[[" + from + "]]", "[[" + to + "]]");
    PatternAbsent(text, "[[" + from + "|", "[[" + to + "|");
    PatternAbsent(text, "](" + from + ".md)", "](" + to + ".md)");
    PatternAbsent(text, "](../" + from + ".md)", "](../" + to + ".md)");
  }

  lemma {:induction false} NothingToRemapAtAll(text: string, remap: map<string, string>, order: seq<string>)
    requires NoLinks(text) && forall k | 0 <= k < |order| :: order[k] in remap
    ensures RemapAll(text, remap, order) == text
    decreases |order|
  {
    hide RemapLink, NoLinks;
    if order != [] {
      var n := |order| - 1;
      NothingToRemapAtAll(text, remap, order[..n]);
      NothingToRemap(text, order[n], remap[order[n]]);
    }
  }

  lemma ReplyHasNoLinks(prose: string, m: string)
    requires IsMarker(m) && IsPlainLine(prose)
    ensures NoLinks(ReplyWith(prose, m))
  {
    hide IsIdByte;
    var text, n := ReplyWith(prose, m), |prose| + 14;
    assert forall k | 0 <= k < |prose| :: text[k] == prose[k];
    assert forall k | n <= k < n + |m| :: text[k] == m[k - n];
    forall k | 2 <= k < |m| - 1 ensures m[k] != '[' && m[k] != ']' { IdBytesArePlain(m[k]); }
  }

  /** Whatever the cluster, a merge that keeps all markers hands on the model's text as it is. */
  lemma MergedBody(wiki: Wiki, a: string, b: string, text: string, today: string, e: Merge)
    requires a in wiki && b in wiki && Merges(Loaded(wiki, [a, b]), text, today, e)
    requires Markers(wiki[a].body) + Markers(wiki[b].body) <= Markers(text)
    ensures e.merged.body == text
  {
    hide Markers, Gathers, IsEarliest;
    TwoLoaded(wiki, a, b);
    SameEmptiness(e.carried, []);
  }

  /**
   * For every marker: two guides that cite it are merged, and the model answers with prose and a See Also section
   * that holds the marker. The guard finds nothing missing, and saving drops the section.
   */
  lemma SavingCanLoseACitation(
      m: string, prose: string, today: string, remap: map<string, string>, drafts: Wiki)
    requires IsMarker(m) && IsPlainLine(prose)
    requires var wiki := map["a" := Note("a", "", m), "b" := Note("b", "", m)];
      Consolidated(wiki, [["a", "b"]], [Answer(true, Some(ReplyWith(prose, m)))], today, remap, drafts)
    ensures var wiki := map["a" := Note("a", "", m), "b" := Note("b", "", m)];
      WellKept(wiki) && PlainSlugs(wiki) && NoneShared([["a", "b"]]) && Cites(wiki, m)
    ensures Cites(drafts, m) && !Cites(AllSaved(drafts), m)
  {
    hide Markers, Published, Merges, Relinked, Consolidated, Dropped, RemapAll;
    var wiki: Wiki := map["a" := Note("a", "", m), "b" := Note("b", "", m)];
    var text := ReplyWith(prose, m);
    NoCaretIsPlain("a");
    NoCaretIsPlain("b");
    MarkersOfMarker(m);
    assert m in Markers(wiki["a"].body);
    ReplyLosesMarker(prose, m);
    var e := PairMerges(wiki, "a", "b", text, today, remap, drafts);
    MergedBody(wiki, "a", "b", text, today, e);
    SameText(e.merged, drafts[e.canonical], remap, prose, m);
    assert drafts.Keys == {e.canonical};
    assert Cites(drafts, m);
  }

  lemma SameText(a: Guide, b: Guide, remap: map<string, string>, prose: string, m: string)
    requires IsMarker(m) && IsPlainLine(prose) && a.body == ReplyWith(prose, m) && Relinked(a, b, remap)
    ensures b.body == a.body
  {
    hide NoLinks;
    var order :| Orders(order, remap) && b == a.(body := RemapAll(a.body, remap, order));
    ReplyHasNoLinks(prose, m);
    NothingToRemapAtAll(a.body, remap, order);
  }

  // ---- a marker inside a link

  lemma OneRemap(remap: map<string, string>, from: string, order: seq<string>, body: string)
    requires remap.Keys == {from} && Orders(order, remap)
    ensures order == [from] && RemapAll(body, remap, order) == RemapLink(body, from, remap[from])
  {
    assert |remap| == |remap.Keys| == 1;
    assert order[0] in order;
    assert order == [from] && order[..0] == [];
  }

  /**
   * For every slug whose links hold a marker: a newer guide absorbs it, and a third guide that cites the marker by
   * such a link cites nothing any more, before saving or after.
   */
  lemma SlugCanLoseACitation(
      from: string, to: string, other: string, today: string, remap: map<string, string>, drafts: Wiki)
    requires !Plain(from) && Plain(to) && from != to && other != from && other != to
    requires var wiki := map[from := Note(from, "1", ""), to := Note(to, "2", ""),
                             other := Note(other, "", "[[" + from + "]]")];
      Consolidated(wiki, [[from, to]], [Answer(true, Some(""))], today, remap, drafts)
    ensures var wiki := map[from := Note(from, "1", ""), to := Note(to, "2", ""),
                            other := Note(other, "", "[[" + from + "]]")];
      WellKept(wiki) && NoneShared([[from, to]]) && exists m :: Cites(wiki, m)
    ensures forall m :: !Cites(drafts, m) && !Cites(AllSaved(drafts), m)
  {
    hide Markers, Published, Merges, Relinked, RemapLink, Consolidated, Dropped, RemapAll;
    var wiki: Wiki := map[from := Note(from, "1", ""), to := Note(to, "2", ""),
                          other := Note(other, "", "[[" + from + "]]")];
    var mark :| mark in Markers("[[" + from + "]]");
    assert mark in Markers(wiki[other].body);
    assert Cites(wiki, mark);
    var e := PairMerges(wiki, from, to, "", today, remap, drafts);
    NewerIsCanonical(wiki, from, to, today, e);
    NoMarkers("");
    MergedBody(wiki, from, to, "", today, e);
    assert remap.Keys == {from} && drafts.Keys == {to, other};
    RelinkedOnce(e.merged, drafts[to], remap, from);
    RelinkedOnce(wiki[other], drafts[other], remap, from);
    MarkerInLinkIsLost(from, to);
    NothingInEmpty(from, to);
    forall m ensures !Cites(drafts, m) && !Cites(AllSaved(drafts), m) { SavedCites(drafts, m); }
  }

  lemma NewerIsCanonical(wiki: Wiki, from: string, to: string, today: string, e: Merge)
    requires from in wiki && to in wiki && from != to && wiki[from].slug == from && wiki[to].slug == to
    requires wiki[from].updated == "1" && wiki[to].updated == "2"
    requires Merges(Loaded(wiki, [from, to]), "", today, e)
    ensures e.canonical == to
  {
    TwoLoaded(wiki, from, to);
    var guides := Loaded(wiki, [from, to]);
    assert Lt("1", "2");
    assert Wins(guides[1], guides[0]);
  }

  lemma RelinkedOnce(a: Guide, b: Guide, remap: map<string, string>, from: string)
    requires Relinked(a, b, remap) && remap.Keys == {from}
    ensures b.body == RemapLink(a.body, from, remap[from])
  {
    hide RemapLink;
    var order :| Orders(order, remap) && b == a.(body := RemapAll(a.body, remap, order));
    OneRemap(remap, from, order, a.body);
  }

  lemma NothingInEmpty(from: string, to: string)
    ensures RemapLink("", from, to) == "" && Markers("") == {}
  {
    NoMarkers("");
  }
}
