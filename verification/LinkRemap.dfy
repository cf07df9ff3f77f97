/** Rewriting the links to absorbed guides (src/doctor.rs). */
module LinkRemap {
  import opened Text
  import opened CitationMarkers

  /** A link to the slug holds no citation marker. Every slug without a caret is of this kind. */
  ghost predicate Plain(slug: string)
  {
    Markers("[[" + slug + "]]") == {}
  }

  lemma NoCaretIsPlain(slug: string)
    requires '^' !in slug
    ensures Plain(slug)
  {
    NoCaretNoMarkers("[[" + slug + "]]");
  }

  lemma NoCaretNoMarkers(t: string)
    requires '^' !in t
    ensures Markers(t) == {}
  {
    forall i: nat, j: nat | i <= j <= |t| ensures !IsMarker(t[i..j]) {
      assert j > i + 1 ==> t[i..j][1] == t[i + 1];
    }
  }

  function RemapLink(body: string, from: string, to: string): string
  {
    if from == to then body
    else
      var b1 := Replace(body, "[[" + from + "]]", "[[" + to + "]]");
      var b2 := Replace(b1, "[[" + from + "|", "[[" + to + "|");
      var b3 := Replace(b2, "](" + from + ".md)", "](" + to + ".md)");
      Replace(b3, "](../" + from + ".md)", "](../" + to + ".md)")
  }

  // ---- the four forms of a link

  lemma BarLink(slug: string)
    requires Plain(slug)
    ensures Closed("[[" + slug + "|") && Closed("[[" + slug + "]]")
  {
    var a := "[[" + slug;
    MarkersGrow(a, "]]");
    NoMarkers("");
    MarkersAcross(a, '|', "");
    assert a + "|" == a + ['|'] + "";
  }

  lemma SlugAlone(slug: string)
    requires Plain(slug)
    ensures Markers(slug) == {}
  {
    MarkersGrow("[[", slug);
    MarkersGrow("[[" + slug, "]]");
  }

  lemma FileLink(slug: string)
    requires Plain(slug)
    ensures Closed("](" + slug + ".md)")
  {
    SlugAlone(slug);
    PathLink(slug);
  }

  lemma PathLink(path: string)
    requires Markers(path) == {}
    ensures Closed("](" + path + ".md)")
  {
    NoMarkers("]");
    NoMarkers("md)");
    MarkersAcross(path, '.', "md)");
    MarkersAcross("]", '(', path + ".md)");
    assert path + ".md)" == path + ['.'] + "md)";
    assert "](" + path + ".md)" == "]" + ['('] + (path + ".md)");
  }

  lemma ParentLink(slug: string)
    requires Plain(slug)
    ensures Closed("](../" + slug + ".md)")
  {
    SlugAlone(slug);
    NoMarkers("..");
    MarkersAcross("..", '/', slug);
    assert "../" + slug == ".." + ['/'] + slug;
    PathLink("../" + slug);
    assert "](../" + slug + ".md)" == "](" + ("../" + slug) + ".md)";
  }

  // ---- when markers survive

  lemma RemapLinkKeepsMarkers(body: string, from: string, to: string)
    requires Plain(from) && Plain(to)
    ensures Markers(RemapLink(body, from, to)) == Markers(body)
  {
    hide Markers, Plain, Replace, IsIdByte;
    if from != to {
      var b1 := Replace(body, "[[" + from + "]]", "[[" + to + "]]");
      var b2 := Replace(b1, "[[" + from + "|", "[[" + to + "|");
      var b3 := Replace(b2, "](" + from + ".md)", "](" + to + ".md)");
      BarLink(from);
      BarLink(to);
      FileLink(from);
      FileLink(to);
      ParentLink(from);
      ParentLink(to);
      ReplaceKeepsMarkers(body, "[[" + from + "]]", "[[" + to + "]]");
      ReplaceKeepsMarkers(b1, "[[" + from + "|", "[[" + to + "|");
      ReplaceKeepsMarkers(b2, "](" + from + ".md)", "](" + to + ".md)");
      ReplaceKeepsMarkers(b3, "](../" + from + ".md)", "](../" + to + ".md)");
    }
  }

  lemma HasFromRest(s: string, pat: string)
    requires s != ""
    ensures pat <= s || Has(s[1..], pat) ==> Has(s, pat)
  {
    assert s == [s[0]] + s[1..];
    if pat <= s { assert OccursAt(pat, s, 0); }
    if p :| OccursAt(pat, s[1..], p) { OccursInConcat([s[0]], s[1..], pat, p); }
  }

  lemma {:induction false} ReplaceAbsent(s: string, pat: string, with: string)
    requires pat != "" && !Has(s, pat)
    ensures Replace(s, pat, with) == s
  {
    hide Has;
    if s != "" {
      HasFromRest(s, pat);
      ReplaceAbsent(s[1..], pat, with);
    }
  }

  /** Where there is no marker, rewriting a link makes none, even if the pattern itself is one. */
  lemma ReplaceMakesNoMarker(s: string, pat: string, with: string)
    requires Markers(s) == {} && Closed(with) && pat != "" && pat[0] == with[0] && (pat[0] == '[' || pat[0] == ']')
    requires pat[|pat| - 1] == with[|with| - 1]
    ensures Markers(Replace(s, pat, with)) == {}
  {
    if Markers(pat) == {} {
      ReplaceKeepsMarkers(s, pat, with);
    } else {
      var m :| m in Markers(pat);
      MarkersAreSubstrings(pat, m);
      MarkersAreSubstrings(s, m);
      if Has(s, pat) { HasTransitive(s, pat, m); }
      ReplaceAbsent(s, pat, with);
    }
  }

  /** A link that is a marker in brackets is rewritten, and the marker with it. */
  lemma MarkerInLinkIsLost(from: string, to: string)
    requires Plain(to) && from != to
    ensures Markers(RemapLink("[[" + from + "]]", from, to)) == {}
  {
    hide Markers, IsIdByte;
    var body, out := "[[" + from + "]]", "[[" + to + "]]";
    assert body[..|body|] == body && body[|body|..] == "";
    assert Replace(body, body, out) == out;
    BarLink(to);
    FileLink(to);
    ParentLink(to);
    var b2 := Replace(out, "[[" + from + "|", "[[" + to + "|");
    var b3 := Replace(b2, "](" + from + ".md)", "](" + to + ".md)");
    ReplaceMakesNoMarker(out, "[[" + from + "|", "[[" + to + "|");
    ReplaceMakesNoMarker(b2, "](" + from + ".md)", "](" + to + ".md)");
    ReplaceMakesNoMarker(b3, "](../" + from + ".md)", "](../" + to + ".md)");
  }

  /** Remapping one slug keeps the markers of every body exactly when a link to that slug holds none itself. */
  lemma KeepsMarkersIffPlain(from: string, to: string)
    requires Plain(to)
    ensures (forall body :: Markers(body) <= Markers(RemapLink(body, from, to))) <==> from == to || Plain(from)
  {
    hide Markers, RemapLink;
    if from == to {
      forall body ensures Markers(body) <= Markers(RemapLink(body, from, to)) { SameSlug(body, from); }
    } else if Plain(from) {
      forall body ensures Markers(body) <= Markers(RemapLink(body, from, to)) {
        RemapLinkKeepsMarkers(body, from, to);
      }
    } else {
      MarkerInLinkIsLost(from, to);
      assert !(Markers("[[" + from + "]]") <= Markers(RemapLink("[[" + from + "]]", from, to)));
    }
  }

  lemma SameSlug(body: string, slug: string)
    ensures RemapLink(body, slug, slug) == body
  {
  }

  // ---- remapping all slugs

  function RemapAll(body: string, remap: map<string, string>, order: seq<string>): string
    requires forall k | 0 <= k < |order| :: order[k] in remap
  {
    if order == [] then body
    else
      var last := order[|order| - 1];
      RemapLink(RemapAll(body, remap, order[..|order| - 1]), last, remap[last])
  }

  /** Every slug of the map once, in some order. */
  ghost predicate Orders(order: seq<string>, remap: map<string, string>)
  {
    |order| == |remap| && forall s :: s in order <==> s in remap
  }

  /** Neither the links that are rewritten nor those that take their place hold a marker. */
  ghost predicate AllPlain(remap: map<string, string>)
  {
    forall s | s in remap :: Plain(s) && Plain(remap[s])
  }

  lemma {:induction false} RemapAllKeepsMarkers(body: string, remap: map<string, string>, order: seq<string>)
    requires (forall k | 0 <= k < |order| :: order[k] in remap) && AllPlain(remap)
    ensures Markers(RemapAll(body, remap, order)) == Markers(body)
    decreases |order|
  {
    hide Markers, RemapLink, Plain;
    if order != [] {
      var n := |order| - 1;
      RemapAllKeepsMarkers(body, remap, order[..n]);
      RemapLinkKeepsMarkers(RemapAll(body, remap, order[..n]), order[n], remap[order[n]]);
    }
  }

  /** The map is walked in no particular order. */
  method RemapSeeAlso(body: string, remap: map<string, string>) returns (out: string, ghost order: seq<string>)
    ensures Orders(order, remap) && out == RemapAll(body, remap, order)
    ensures AllPlain(remap) ==> Markers(out) == Markers(body)
  {
    hide Markers, RemapLink;
    out, order := body, [];
    var left := remap.Keys;
    while left != {}
      invariant left <= remap.Keys && |order| + |left| == |remap|
      invariant forall s :: s in order <==> s in remap && s !in left
      invariant out == RemapAll(body, remap, order)
    {
      var from :| from in left;
      ghost var longer := order + [from];
      assert longer[..|order|] == order;
      out := RemapLink(out, from, remap[from]);
      order := longer;
      left := left - {from};
    }
    if AllPlain(remap) { RemapAllKeepsMarkers(body, remap, order); }
  }
}
