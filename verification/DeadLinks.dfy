/** No link to an absorbed guide is left once the links are rewritten (src/doctor.rs). */
module DeadLinks {
  import opened Text
  import opened CitationMarkers
  import opened LinkRemap
  import opened Publishing
  import opened DoctorMerge

  /** A slug as file names and links have it: without a bracket, a bar or a slash. */
  predicate IsClean(slug: string)
  {
    forall k | 0 <= k < |slug| :: slug[k] !in "[]()|/"
  }

  /** The four forms of a link to a slug. */
  function Form(slug: string, f: nat): string
  {
    if f == 0 then "[[" + slug + "]]"
    else if f == 1 then "[[" + slug + "|"
    else if f == 2 then "](" + slug + ".md)"
    else "](../" + slug + ".md)"
  }

  ghost predicate LinksTo(body: string, slug: string)
  {
    exists f: nat :: f < 4 && Has(body, Form(slug, f))
  }

  // ---- replacing text without making more of a link

  /** The pair of characters `a`, `b` does not stand in `x`. */
  predicate NoPair(x: string, a: char, b: char)
  {
    forall j | 0 <= j < |x| - 1 :: !(x[j] == a && x[j + 1] == b)
  }

  predicate Differ(x: string, y: string)
  {
    exists k :: 0 <= k < |x| && k < |y| && x[k] != y[k]
  }

  /** A pattern and its replacement open alike and close alike, and the opening pair does not come again in it. */
  predicate Framed(pat: string, with: string)
  {
    && |pat| > 1 && |with| > 1 && pat[0] == with[0] && pat[1] == with[1] && pat[|pat| - 1] == with[|with| - 1]
  }

  /** A link and a replacement that cannot overlap, but for one character that the replaced text had there as well. */
  predicate Aside(link: string, with: string)
  {
    && |link| > 1 && |with| > 1 && Differ(link, with)
    && NoPair(link[1..], with[0], with[1]) && NoPair(with[1..], link[0], link[1])
  }

  lemma OneAtMost(x: string, r: string)
    requires |r| > 1 && NoPair(x, r[0], r[1]) && x <= r
    ensures |x| <= 1
  {
    assert forall k | 0 <= k < |x| :: x[k] == r[k];
  }

  /** What is read before the replaced text is what was there. */
  lemma {:induction false} PrefixWas(s: string, pat: string, with: string, x: string)
    requires Framed(pat, with) && NoPair(x, with[0], with[1]) && x <= Replace(s, pat, with)
    ensures x <= s
    decreases |s|
  {
    var r := Replace(s, pat, with);
    if x != "" {
      if |s| >= |pat| && s[..|pat|] == pat {
        assert r[0] == with[0] && r[1] == with[1] && s[0] == pat[0];
        OneAtMost(x, r);
        assert x == [s[0]];
      } else {
        assert r[0] == s[0] && r[1..] == Replace(s[1..], pat, with);
        PrefixStep(x, r);
        PrefixStep(x, s);
        PairTail(x, with[0], with[1]);
        PrefixWas(s[1..], pat, with, x[1..]);
      }
    }
  }

  lemma PairTail(x: string, a: char, b: char)
    requires NoPair(x, a, b) && x != ""
    ensures NoPair(x[1..], a, b)
  {
    var y := x[1..];
    forall j | 0 <= j < |y| - 1 ensures !(y[j] == a && y[j + 1] == b) {
      assert y[j] == x[j + 1] && y[j + 1] == x[j + 2];
    }
  }

  lemma Bytes(link: string, t: string, p: nat)
    ensures OccursAt(link, t, p) ==> p + |link| <= |t| && forall k | 0 <= k < |link| :: t[p + k] == link[k]
  {
    if OccursAt(link, t, p) {
      forall k | 0 <= k < |link| ensures t[p + k] == link[k] { assert t[p..p + |link|][k] == t[p + k]; }
    }
  }

  lemma NotAtStart(with: string, rest: string, link: string)
    requires Differ(link, with)
    ensures !OccursAt(link, with + rest, 0)
  {
    Bytes(link, with + rest, 0);
    var k :| 0 <= k < |link| && k < |with| && link[k] != with[k];
    assert (with + rest)[0 + k] == with[k];
  }

  lemma NotInside(with: string, rest: string, link: string, p: nat)
    requires |link| > 1 && 0 < p < |with| - 1 && NoPair(with[1..], link[0], link[1])
    ensures !OccursAt(link, with + rest, p)
  {
    var t := with + rest;
    Bytes(link, t, p);
    assert with[1..][p - 1] == t[p + 0] && with[1..][p] == t[p + 1];
  }

  /** A link that overlaps the replacement starts at its last character. */
  lemma OverlapsAtEnd(with: string, rest: string, link: string, p: nat)
    requires Aside(link, with) && OccursAt(link, with + rest, p) && p < |with|
    ensures p == |with| - 1 && link[1..] <= rest && link[0] == with[p]
  {
    NotAtStart(with, rest, link);
    if 0 < p < |with| - 1 { NotInside(with, rest, link, p); }
    var t := with + rest;
    Bytes(link, t, p);
    assert t[p..p + |link|][1..] == t[p + 1..p + |link|];
    assert p == |with| - 1 ==> t[p + 1..p + |link|] == rest[..|link| - 1];
  }

  /** Replacing makes no link that was not there. */
  lemma {:induction false} MakesNoLink(s: string, pat: string, with: string, link: string)
    requires Framed(pat, with) && Aside(link, with) && Has(Replace(s, pat, with), link)
    ensures Has(s, link)
    decreases |s|
  {
    hide Aside;
    var r := Replace(s, pat, with);
    AsideMeans(link, with);
    if |s| >= |pat| && s[..|pat|] == pat {
      var after := s[|pat|..];
      var rest := Replace(after, pat, with);
      assert s == pat + after && r == with + rest;
      var p :| OccursAt(link, r, p);
      if p < |with| {
        OverlapsAtEnd(with, rest, link, p);
        PrefixWas(after, pat, with, link[1..]);
        AtSeam(pat, after, link);
      } else {
        InRest(with, rest, link, p);
        MakesNoLink(after, pat, with, link);
        HasInRest(pat, after, link);
      }
    } else if s != "" {
      assert r[0] == s[0] && r[1..] == Replace(s[1..], pat, with);
      FirstStep(r, link);
      FirstStep(s, link);
      if Has(r[1..], link) {
        MakesNoLink(s[1..], pat, with, link);
      } else {
        PrefixWas(s[1..], pat, with, link[1..]);
      }
    }
  }

  lemma AsideMeans(link: string, with: string)
    requires Aside(link, with)
    ensures |link| > 1 && |with| > 1 && NoPair(link[1..], with[0], with[1])
  {
  }

  lemma AtSeam(pat: string, after: string, link: string)
    requires pat != "" && link != "" && link[0] == pat[|pat| - 1] && link[1..] <= after
    ensures Has(pat + after, link)
  {
    var s, p := pat + after, |pat| - 1;
    forall k | 0 <= k < |link| ensures s[p + k] == link[k] {
      if k > 0 { assert link[k] == link[1..][k - 1] == after[k - 1]; }
    }
    assert s[p..p + |link|] == link;
    assert OccursAt(link, s, p);
  }

  lemma InRest(a: string, b: string, m: string, p: nat)
    requires OccursAt(m, a + b, p) && p >= |a|
    ensures Has(b, m)
  {
    assert (a + b)[p..p + |m|] == b[p - |a|..p - |a| + |m|];
    assert OccursAt(m, b, p - |a|);
  }

  lemma HasInRest(a: string, b: string, m: string)
    requires Has(b, m)
    ensures Has(a + b, m)
  {
    var p :| OccursAt(m, b, p);
    OccursInConcat(a, b, m, p);
  }

  /** Replacing leaves no match, if the pattern cannot start where a replacement ends. */
  lemma {:induction false} LeavesNoMatch(s: string, pat: string, with: string)
    requires Framed(pat, with) && Aside(pat, with) && pat[0] != with[|with| - 1]
    ensures !Has(Replace(s, pat, with), pat)
    decreases |s|
  {
    hide Aside;
    var r := Replace(s, pat, with);
    AsideMeans(pat, with);
    if |s| >= |pat| && s[..|pat|] == pat {
      var rest := Replace(s[|pat|..], pat, with);
      LeavesNoMatch(s[|pat|..], pat, with);
      forall p: nat ensures !OccursAt(pat, r, p) {
        if OccursAt(pat, r, p) {
          if p < |with| { OverlapsAtEnd(with, rest, pat, p); } else { InRest(with, rest, pat, p); }
          assert false;
        }
      }
    } else if s != "" {
      LeavesNoMatch(s[1..], pat, with);
      assert r[0] == s[0] && r[1..] == Replace(s[1..], pat, with);
      FirstStep(r, pat);
      if pat[0] == r[0] && pat[1..] <= r[1..] {
        PrefixWas(s[1..], pat, with, pat[1..]);
        PrefixStep(pat, s);
        assert false;
      }
    } else {
      assert r == "";
    }
  }

  // ---- the forms of clean slugs

  lemma FormsAreFramed(x: string, y: string, f: nat)
    requires f < 4 && IsClean(x) && IsClean(y)
    ensures Framed(Form(x, f), Form(y, f)) && Form(x, f)[0] != Form(y, f)[|Form(y, f)| - 1]
  {
  }

  /** Different texts that the other's closing character does not occur in. */
  lemma DifferBeforeClose(head: string, a: string, ta: string, b: string, tb: string)
    requires ta != "" && tb != "" && ta[0] !in b && tb[0] !in a && a != b
    ensures Differ(head + a + ta, head + b + tb)
  {
    var x, y, n := head + a + ta, head + b + tb, |head|;
    if k :| 0 <= k < |a| && k < |b| && a[k] != b[k] {
      assert x[n + k] == a[k] && y[n + k] == b[k];
    } else if |a| < |b| {
      assert x[n + |a|] == ta[0] && y[n + |a|] == b[|a|] && b[|a|] in b;
    } else if |b| < |a| {
      assert y[n + |b|] == tb[0] && x[n + |b|] == a[|b|] && a[|b|] in a;
    }
  }

  function Path(slug: string, f: nat): string
  {
    if f == 2 then slug else "../" + slug
  }

  lemma SlashOnlyInParent(slug: string, f: nat)
    requires 2 <= f < 4 && IsClean(slug)
    ensures '/' in Path(slug, f) <==> f == 3
    ensures slug == Path(slug, f)[if f == 2 then 0 else 3..]
    ensures ')' !in Path(slug, f) + ".md"
  {
    assert '/' !in slug && ')' !in slug;
    if f == 3 { assert Path(slug, f)[2] == '/'; }
  }

  lemma SameWithout(u: string, v: string, x: string)
    ensures u + x == v + x ==> u == v
  {
    assert u == (u + x)[..|u|] && v == (v + x)[..|v|];
  }

  lemma PathsDiffer(z: string, y: string, f: nat, g: nat)
    requires 2 <= f < 4 && 2 <= g < 4 && IsClean(z) && IsClean(y) && z != y
    ensures Path(z, f) + ".md" != Path(y, g) + ".md"
  {
    hide IsClean, Path;
    SlashOnlyInParent(z, f);
    SlashOnlyInParent(y, g);
    SameWithout(Path(z, f), Path(y, g), ".md");
  }

  lemma FileForm(slug: string, f: nat)
    requires 2 <= f < 4
    ensures Form(slug, f) == "](" + (Path(slug, f) + ".md") + ")"
  {
    if f == 2 {
      assert "](" + slug + ".md)" == "](" + (slug + ".md") + ")";
    } else {
      assert "](../" + slug + ".md)" == "](" + ("../" + slug + ".md") + ")";
    }
  }

  lemma FileFormsDiffer(z: string, y: string, f: nat, g: nat)
    requires 2 <= f < 4 && 2 <= g < 4 && IsClean(z) && IsClean(y) && z != y
    ensures Differ(Form(z, f), Form(y, g))
  {
    hide *;
    var u, v := Path(z, f) + ".md", Path(y, g) + ".md";
    FileForm(z, f);
    FileForm(y, g);
    PathsDiffer(z, y, f, g);
    SlashOnlyInParent(z, f);
    SlashOnlyInParent(y, g);
    DifferBeforeClose("](", u, ")", v, ")");
  }

  lemma WikiFormsDiffer(z: string, y: string, f: nat, g: nat)
    requires f < 2 && g < 2 && IsClean(z) && IsClean(y) && z != y
    ensures Differ(Form(z, f), Form(y, g))
  {
    hide Differ;
    DifferBeforeClose("[[", z, if f == 0 then "]]" else "|", y, if g == 0 then "]]" else "|");
  }

  lemma FormsDiffer(z: string, y: string, f: nat, g: nat)
    requires f < 4 && g < 4 && IsClean(z) && IsClean(y) && z != y
    ensures Differ(Form(z, f), Form(y, g))
  {
    if f < 2 && g < 2 {
      WikiFormsDiffer(z, y, f, g);
    } else if f >= 2 && g >= 2 {
      FileFormsDiffer(z, y, f, g);
    } else {
      assert Form(z, f)[0] != Form(y, g)[0];
    }
  }

  lemma OpensOnce(z: string, f: nat)
    requires f < 4 && IsClean(z)
    ensures var x := Form(z, f)[1..]; NoPair(x, '[', '[') && NoPair(x, ']', '(')
  {
    var x := Form(z, f)[1..];
    forall k | 1 <= k < |x| ensures x[k] != '[' && x[k] != '(' { assert x[k] == Form(z, f)[k + 1]; }
  }

  lemma OpenPair(z: string, f: nat)
    ensures var x := Form(z, f); |x| > 1 && ((x[0] == '[' && x[1] == '[') || (x[0] == ']' && x[1] == '('))
  {
  }

  lemma FormsAreAside(z: string, y: string, f: nat, g: nat)
    requires f < 4 && g < 4 && IsClean(z) && IsClean(y) && z != y
    ensures Aside(Form(z, f), Form(y, g))
  {
    FormsDiffer(z, y, f, g);
    OpensOnce(z, f);
    OpensOnce(y, g);
    OpenPair(z, f);
    OpenPair(y, g);
    hide Form, Differ, NoPair, IsClean;
  }

  // ---- one slug

  function ReplaceForm(body: string, from: string, to: string, f: nat): string
  {
    Replace(body, Form(from, f), Form(to, f))
  }

  lemma FourForms(body: string, from: string, to: string)
    requires from != to
    ensures RemapLink(body, from, to) ==
      ReplaceForm(ReplaceForm(ReplaceForm(ReplaceForm(body, from, to, 0), from, to, 1), from, to, 2), from, to, 3)
  {
    hide Replace;
  }

  lemma FormAway(body: string, from: string, to: string, f: nat, z: string, g: nat)
    requires f < 4 && g < 4 && IsClean(from) && IsClean(to) && IsClean(z) && z != to
    requires !Has(body, Form(z, g))
    ensures !Has(ReplaceForm(body, from, to, f), Form(z, g))
  {
    hide Form, Framed, Aside, Has, Replace;
    FormsAreFramed(from, to, f);
    FormsAreAside(z, to, g, f);
    if Has(ReplaceForm(body, from, to, f), Form(z, g)) {
      MakesNoLink(body, Form(from, f), Form(to, f), Form(z, g));
      assert false;
    }
  }

  lemma FormGone(body: string, from: string, to: string, f: nat)
    requires f < 4 && IsClean(from) && IsClean(to) && from != to
    ensures !Has(ReplaceForm(body, from, to, f), Form(from, f))
  {
    hide Form, Framed, Aside, Has, Replace;
    FormsAreFramed(from, to, f);
    FormsAreAside(from, to, f, f);
    LeavesNoMatch(body, Form(from, f), Form(to, f));
  }

  /** Remapping makes no link to any slug but the one remapped to. */
  lemma MakesNoOtherLink(body: string, from: string, to: string, z: string)
    requires IsClean(from) && IsClean(to) && IsClean(z) && z != to && !LinksTo(body, z)
    ensures !LinksTo(RemapLink(body, from, to), z)
  {
    hide Form, Has, ReplaceForm, IsClean;
    if from != to {
      FourForms(body, from, to);
      hide RemapLink;
      var b1 := ReplaceForm(body, from, to, 0);
      var b2 := ReplaceForm(b1, from, to, 1);
      var b3 := ReplaceForm(b2, from, to, 2);
      forall g: nat | g < 4 ensures !Has(RemapLink(body, from, to), Form(z, g)) {
        FormAway(body, from, to, 0, z, g);
        FormAway(b1, from, to, 1, z, g);
        FormAway(b2, from, to, 2, z, g);
        FormAway(b3, from, to, 3, z, g);
      }
    }
  }

  /** Remapping leaves no link of any form to the slug. */
  lemma LeavesNoLink(body: string, from: string, to: string)
    requires IsClean(from) && IsClean(to) && from != to
    ensures !LinksTo(RemapLink(body, from, to), from)
  {
    hide Form, Has, ReplaceForm, IsClean;
    FourForms(body, from, to);
    hide RemapLink;
    var b1 := ReplaceForm(body, from, to, 0);
    var b2 := ReplaceForm(b1, from, to, 1);
    var b3 := ReplaceForm(b2, from, to, 2);
    FormGone(body, from, to, 0);
    FormGone(b1, from, to, 1);
    FormGone(b2, from, to, 2);
    FormGone(b3, from, to, 3);
    FormAway(b1, from, to, 1, from, 0);
    FormAway(b2, from, to, 2, from, 0);
    FormAway(b3, from, to, 3, from, 0);
    FormAway(b2, from, to, 2, from, 1);
    FormAway(b3, from, to, 3, from, 1);
    FormAway(b3, from, to, 3, from, 2);
  }

  // ---- all slugs

  /** Slugs of links, redirected to slugs that are not redirected themselves. */
  ghost predicate Redirects(remap: map<string, string>)
  {
    forall s | s in remap :: IsClean(s) && IsClean(remap[s]) && remap[s] !in remap
  }

  lemma {:induction false} RemapAllLeavesNone(body: string, remap: map<string, string>, order: seq<string>, z: string)
    requires Redirects(remap) && (forall k | 0 <= k < |order| :: order[k] in remap) && z in order
    ensures !LinksTo(RemapAll(body, remap, order), z)
    decreases |order|
  {
    hide LinksTo, RemapLink, IsClean;
    var n := |order| - 1;
    var before, last := RemapAll(body, remap, order[..n]), order[n];
    if z == last {
      LeavesNoLink(before, last, remap[last]);
    } else {
      assert z in order[..n];
      RemapAllLeavesNone(body, remap, order[..n], z);
      assert z in remap;
      MakesNoOtherLink(before, last, remap[last], z);
    }
  }

  // ---- saving

  /** The rest of a link: it closes, and no bracket opens after its first character. */
  predicate IsLinkTail(x: string)
  {
    && x != "" && (x[|x| - 1] == ']' || x[|x| - 1] == '|' || x[|x| - 1] == ')')
    && forall k | 1 <= k < |x| :: x[k] != '['
  }

  lemma TailAfter(x: string, n: nat)
    requires IsLinkTail(x) && n < |x|
    ensures IsLinkTail(x[n..])
  {
    var y := x[n..];
    forall k | 1 <= k < |y| ensures y[k] != '[' { assert y[k] == x[n + k]; }
    assert y[|y| - 1] == x[|x| - 1];
  }

  lemma NotAMark(x: string, mark: string, rest: string)
    requires IsLinkTail(x) && (mark == "<!--" || mark == "-->") && x <= mark + rest
    ensures |x| > |mark| && x[|mark|..] <= rest && x == mark + x[|mark|..]
  {
    var r := mark + rest;
    assert forall k | 0 <= k < |x| :: x[k] == r[k];
    assert forall k | 0 <= k < |mark| :: r[k] == mark[k];
    assert x[..|mark|] == mark;
    assert rest == r[|mark|..];
  }

  lemma NotAWrap(x: string, w: string, rest: string)
    requires IsLinkTail(x) && w != "" && w[0] == '['
    ensures !(x <= "<!-- " + w + " -->" + rest)
  {
    var r := "<!-- " + w + " -->" + rest;
    assert r[5] == '[' && forall k | 0 <= k < 5 :: r[k] == "<!-- "[k];
    if x <= r {
      AllBytes(x, r);
      assert false;
    }
  }

  lemma AllBytes(x: string, r: string)
    requires x <= r
    ensures forall k | 0 <= k < |x| :: x[k] == r[k]
  {
  }

  /** Hiding markers puts no end of a link where there was none. */
  lemma {:induction false} TailWas(s: string, inside: bool, x: string)
    requires IsLinkTail(x) && x <= Hidden(s, inside)
    ensures x <= s
    decreases |s|
  {
    hide IsLinkTail;
    var r := Hidden(s, inside);
    if s == "" {
    } else if !inside && "<!--" <= s {
      NotAMark(x, "<!--", Hidden(s[4..], true));
      TailAfter(x, 4);
      TailWas(s[4..], true, x[4..]);
      assert s == "<!--" + s[4..];
    } else if inside && "-->" <= s {
      NotAMark(x, "-->", Hidden(s[3..], false));
      TailAfter(x, 3);
      TailWas(s[3..], false, x[3..]);
      assert s == "-->" + s[3..];
    } else if !inside && Bare(s) {
      var e := IndexFrom(s, ']', 0) + 1;
      NotAWrap(x, s[..e], Hidden(s[e..], false));
    } else {
      assert r[0] == s[0] && r[1..] == Hidden(s[1..], inside);
      if x != "" {
        PrefixStep(x, r);
        PrefixStep(x, s);
        if |x| > 1 {
          TailAfter(x, 1);
          TailWas(s[1..], inside, x[1..]);
        }
      }
    }
  }

  /** What the forms of clean slugs have in common. */
  predicate IsLink(link: string)
  {
    && |link| > 1 && (link[0] == '[' || link[0] == ']') && IsLinkTail(link[1..])
    && forall k | 0 <= k < |link| - 1 && link[k] == ']' :: link[k + 1] != ' '
  }

  lemma FormIsLink(slug: string, f: nat)
    requires f < 4 && IsClean(slug)
    ensures IsLink(Form(slug, f))
  {
    var x := Form(slug, f);
    forall k | 1 <= k < |x[1..]| ensures x[1..][k] != '[' { assert x[1..][k] == x[k + 1]; }
    assert x[1..][|x[1..]| - 1] == x[|x| - 1];
    assert f < 2 ==> forall k | 2 <= k < 2 + |slug| :: x[k] == slug[k - 2];
    assert f == 2 ==> forall k | 2 <= k < 2 + |slug| :: x[k] == slug[k - 2];
    assert f == 3 ==> forall k | 5 <= k < 5 + |slug| :: x[k] == slug[k - 5];
  }

  lemma ByteAt(link: string, t: string, p: nat, j: nat)
    requires OccursAt(link, t, p) && p <= j < p + |link|
    ensures j < |t| && link[j - p] == t[j]
  {
  }

  /** A link in wrapped text stands in the marker or behind it. */
  lemma WrapHasNoLink(w: string, rest: string, link: string, p: nat)
    requires IsLink(link) && OccursAt(link, "<!-- " + w + " -->" + rest, p)
    requires w != "" && w[|w| - 1] == ']'
    ensures Has(w, link) || Has(rest, link)
  {
    hide IsLinkTail;
    var r, n := "<!-- " + w + " -->" + rest, |w|;
    Bytes(link, r, p);
    assert r[p + 0] == link[0];
    assert r[0] == '<' && r[1] == '!' && r[2] == '-' && r[3] == '-' && r[4] == ' ';
    assert r[5 + n] == ' ' && r[6 + n] == '-' && r[7 + n] == '-' && r[8 + n] == '>';
    assert r[5..5 + n] == w && r[9 + n..] == rest && r[4 + n] == w[n - 1];
    if p + |link| <= 5 + n {
      assert r[p..p + |link|] == w[p - 5..p - 5 + |link|];
      assert OccursAt(link, w, p - 5);
    } else if p < 5 + n {
      ByteAt(link, r, p, 4 + n);
      ByteAt(link, r, p, 5 + n);
      assert false;
    } else {
      assert r[p..p + |link|] == rest[p - 9 - n..p - 9 - n + |link|];
      assert OccursAt(link, rest, p - 9 - n);
    }
  }

  lemma NotInMark(mark: string, rest: string, link: string)
    requires IsLink(link) && (mark == "<!--" || mark == "-->") && Has(mark + rest, link)
    ensures Has(rest, link)
  {
    var p :| OccursAt(link, mark + rest, p);
    Bytes(link, mark + rest, p);
    assert (mark + rest)[p + 0] == link[0];
    InRest(mark, rest, link, p);
  }

  /** Hiding markers makes no link. */
  lemma {:induction false} HidingMakesNoLink(s: string, inside: bool, link: string)
    requires IsLink(link) && Has(Hidden(s, inside), link)
    ensures Has(s, link)
    decreases |s|
  {
    hide IsLink, Has, OccursAt;
    var r := Hidden(s, inside);
    LinkMeans(link);
    if s == "" {
    } else if !inside && "<!--" <= s {
      NotInMark("<!--", Hidden(s[4..], true), link);
      HidingMakesNoLink(s[4..], true, link);
      HasInRest("<!--", s[4..], link);
      assert s == "<!--" + s[4..];
    } else if inside && "-->" <= s {
      NotInMark("-->", Hidden(s[3..], false), link);
      HidingMakesNoLink(s[3..], false, link);
      HasInRest("-->", s[3..], link);
      assert s == "-->" + s[3..];
    } else if !inside && Bare(s) {
      var e := IndexFrom(s, ']', 0) + 1;
      var p := SomePlace(r, link);
      WrapHasNoLink(s[..e], Hidden(s[e..], false), link, p);
      if Has(s[..e], link) {
        HasInFront(s[..e], s[e..], link);
      } else {
        HidingMakesNoLink(s[e..], false, link);
        HasInRest(s[..e], s[e..], link);
      }
      assert s == s[..e] + s[e..];
    } else {
      assert r[0] == s[0] && r[1..] == Hidden(s[1..], inside);
      FirstStep(r, link);
      FirstStep(s, link);
      if Has(r[1..], link) {
        HidingMakesNoLink(s[1..], inside, link);
      } else {
        TailWas(s[1..], inside, link[1..]);
      }
    }
  }

  lemma LinkMeans(link: string)
    requires IsLink(link)
    ensures |link| > 1 && IsLinkTail(link[1..])
  {
  }

  lemma SomePlace(t: string, m: string) returns (p: nat)
    requires Has(t, m)
    ensures OccursAt(m, t, p)
  {
    p :| OccursAt(m, t, p);
  }

  lemma HasInFront(a: string, b: string, m: string)
    requires Has(a, m)
    ensures Has(a + b, m)
  {
    var p :| OccursAt(m, a, p);
    OccursInConcat(a, b, m, p);
  }

  lemma PieceHas(text: string, i: nat, e: nat, m: string)
    requires i <= e <= |text| && Has(text[i..e], m)
    ensures Has(text, m)
  {
    HasInRest(text[..i], text[i..e], m);
    HasInFront(text[..i] + text[i..e], text[e..], m);
    assert text == text[..i] + text[i..e] + text[e..];
  }

  /** The parts that are kept meet in line breaks, so a link without one stands in a part. */
  lemma ClosingMakesNoLink(before: string, tail: string, link: string)
    requires '\n' !in link && link != "" && Has(Closing(before, tail), link)
    ensures Has(before, link) || Has(tail, link)
  {
    hide Has, TextEnd;
    var e := TextEnd(before, |before|);
    var kept := before[..e];
    NothingHas(link);
    if Empty(tail) {
      assert Closing(before, tail) == kept + ['\n'] + "";
      OccursOnOneSide(kept, '\n', "", link);
    } else {
      var end := if tail[|tail| - 1] == '\n' then "" else "\n";
      assert Closing(before, tail) == kept + ['\n'] + (['\n'] + tail + end);
      OccursOnOneSide(kept, '\n', ['\n'] + tail + end, link);
      if !Has(kept, link) { InTailLine(tail, end, link); }
    }
    if Has(kept, link) { PieceHas(before, 0, e, link); }
  }

  lemma NothingHas(link: string)
    requires link != ""
    ensures !Has("", link)
  {
  }

  lemma InTailLine(tail: string, end: string, link: string)
    requires '\n' !in link && link != "" && (end == "" || end == "\n") && Has(['\n'] + tail + end, link)
    ensures Has(tail, link)
  {
    hide Has;
    NothingHas(link);
    assert ['\n'] + tail + end == "" + ['\n'] + (tail + end);
    OccursOnOneSide("", '\n', tail + end, link);
    if end == "\n" {
      assert tail + end == tail + ['\n'] + "";
      OccursOnOneSide(tail, '\n', "", link);
    } else {
      assert tail + end == tail;
    }
  }

  /** Saving makes no link. */
  lemma SavingMakesNoLink(body: string, link: string)
    requires IsLink(link) && '\n' !in link && Has(Published(body), link)
    ensures Has(body, link)
  {
    hide Has, Hidden, SeeAlso, IsLink, Closing;
    var text := Hidden(body, false);
    LinkMeans(link);
    if SeeAlso(text).Some? {
      var gap := SeeAlso(text).value;
      ClosingMakesNoLink(text[..gap.start], text[gap.end..], link);
      if Has(text[..gap.start], link) {
        PieceHas(text, 0, gap.start, link);
      } else {
        assert text[gap.end..|text|] == text[gap.end..];
        PieceHas(text, gap.end, |text|, link);
      }
    }
    HidingMakesNoLink(body, false, link);
  }

  lemma SavedLinksNowhereNew(body: string, slug: string)
    requires IsClean(slug) && '\n' !in slug && !LinksTo(body, slug)
    ensures !LinksTo(Published(body), slug)
  {
    hide Has, Published, IsLink, IsClean;
    forall f: nat | f < 4 ensures !Has(Published(body), Form(slug, f)) {
      FormIsLink(slug, f);
      FormInLine(slug, f);
      if Has(Published(body), Form(slug, f)) {
        SavingMakesNoLink(body, Form(slug, f));
        assert false;
      }
    }
  }

  lemma FormInLine(slug: string, f: nat)
    requires '\n' !in slug
    ensures '\n' !in Form(slug, f)
  {
  }

  // ---- the consolidated wiki

  /** An absorbed guide is redirected to one that is written. */
  lemma RedirectedToWritten(
      wiki: Wiki, clusters: seq<seq<string>>, answers: seq<Answer>, today: string, remap: map<string, string>,
      drafts: Wiki, s: string)
    requires |clusters| == |answers| && WellKept(wiki)
    requires Consolidated(wiki, clusters, answers, today, remap, drafts) && s in remap
    ensures remap[s] in drafts
  {
    hide Relinked, Merges;
    assert Touched(wiki, clusters, answers, |clusters|, s);
    var k :| 0 <= k < |clusters| && s in clusters[k] && Merged(wiki, clusters, answers, k);
    var text := answers[k].reply.value;
    assert Collapsed(wiki, clusters[k], text, today, remap, drafts);
    var m :| Merges(Loaded(wiki, clusters[k]), text, today, m) && StandsFor(m, remap, drafts);
    MergedSlugs(wiki, clusters[k], text, today, m);
  }

  lemma OnceRedirected(
      wiki: Wiki, clusters: seq<seq<string>>, answers: seq<Answer>, today: string, remap: map<string, string>,
      drafts: Wiki)
    requires |clusters| == |answers| && WellKept(wiki) && forall x | x in wiki :: IsClean(x)
    requires Consolidated(wiki, clusters, answers, today, remap, drafts)
    ensures Redirects(remap)
  {
    hide IsClean, Collapsed, Relinked, Touched, Merged;
    forall x | x in remap ensures IsClean(x) && IsClean(remap[x]) && remap[x] !in remap {
      RedirectedToWritten(wiki, clusters, answers, today, remap, drafts, x);
    }
  }

  /** Every draft is a guide with its links rewritten. */
  lemma DraftIsRelinked(
      wiki: Wiki, clusters: seq<seq<string>>, answers: seq<Answer>, today: string, remap: map<string, string>,
      drafts: Wiki, t: string)
    requires |clusters| == |answers| && WellKept(wiki)
    requires Consolidated(wiki, clusters, answers, today, remap, drafts) && t in drafts
    ensures exists g :: Relinked(g, drafts[t], remap)
  {
    hide Relinked, Merges;
    if Touched(wiki, clusters, answers, |clusters|, t) {
      var k :| 0 <= k < |clusters| && t in clusters[k] && Merged(wiki, clusters, answers, k);
      var text := answers[k].reply.value;
      assert Collapsed(wiki, clusters[k], text, today, remap, drafts);
      var m :| Merges(Loaded(wiki, clusters[k]), text, today, m) && StandsFor(m, remap, drafts);
      MergedSlugs(wiki, clusters[k], text, today, m);
      assert Relinked(m.merged, drafts[t], remap);
    } else {
      assert Relinked(wiki[t], drafts[t], remap);
    }
  }

  /** With clean slugs, no guide as saved links to an absorbed one, in any of the four forms. */
  lemma NoDeadLinks(
      wiki: Wiki, clusters: seq<seq<string>>, answers: seq<Answer>, today: string, remap: map<string, string>,
      drafts: Wiki, s: string, t: string)
    requires |clusters| == |answers| && WellKept(wiki) && forall x | x in wiki :: IsClean(x)
    requires Consolidated(wiki, clusters, answers, today, remap, drafts) && s in remap && t in drafts
    ensures !LinksTo(drafts[t].body, s)
    ensures '\n' !in s ==> t in AllSaved(drafts) && !LinksTo(AllSaved(drafts)[t].body, s)
  {
    hide LinksTo, IsClean, Consolidated, Redirects, Published;
    OnceRedirected(wiki, clusters, answers, today, remap, drafts);
    DraftIsRelinked(wiki, clusters, answers, today, remap, drafts, t);
    var g :| Relinked(g, drafts[t], remap);
    var order :| Orders(order, remap) && drafts[t] == g.(body := RemapAll(g.body, remap, order));
    RemapAllLeavesNone(g.body, remap, order, s);
    RedirectedIsClean(remap, s);
    if '\n' !in s { SavedLinksNowhereNew(drafts[t].body, s); }
  }

  lemma RedirectedIsClean(remap: map<string, string>, s: string)
    requires Redirects(remap) && s in remap
    ensures IsClean(s)
  {
  }
}
