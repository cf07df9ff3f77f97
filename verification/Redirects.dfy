/** Links to an absorbed guide become links to the one that stands for it, and nothing else changes (src/doctor.rs). */
module Redirects {
  import opened Text
  import opened CitationMarkers
  import opened LinkRemap
  import opened DoctorMerge
  import opened DeadLinks

  /** A body as it is written: text, and links to slugs in one of the four forms. */
  datatype Piece = Prose(text: string) | Link(slug: string, form: nat)

  function Written(p: Piece): string
  {
    match p
    case Prose(text) => text
    case Link(slug, form) => Form(slug, form)
  }

  function Body(pieces: seq<Piece>): string
  {
    if pieces == [] then "" else Written(pieces[0]) + Body(pieces[1..])
  }

  /** One of the two pairs of characters that links open with. */
  predicate Opens(s: string, k: int)
  {
    0 <= k < |s| - 1 && ((s[k] == '[' && s[k + 1] == '[') || (s[k] == ']' && s[k + 1] == '('))
  }

  predicate OpensAtMostFirst(p: Piece, rest: string)
  {
    forall k | 0 <= k < |Written(p)| && Opens(Written(p) + rest, k) :: k == 0 && p.Link?
  }

  /** Links are to clean slugs, and such a pair stands nowhere but where one of the links starts. */
  ghost predicate WellWritten(pieces: seq<Piece>)
  {
    pieces != [] ==>
      && (pieces[0].Link? ==> pieces[0].form < 4 && IsClean(pieces[0].slug))
      && OpensAtMostFirst(pieces[0], Body(pieces[1..])) && WellWritten(pieces[1..])
  }

  // ---- one form of one slug

  function MovedPiece(p: Piece, from: string, to: string, f: nat): Piece
  {
    if p == Link(from, f) then Link(to, f) else p
  }

  function Moved(pieces: seq<Piece>, from: string, to: string, f: nat): (r: seq<Piece>)
    ensures |r| == |pieces| && forall i | 0 <= i < |r| :: r[i] == MovedPiece(pieces[i], from, to, f)
  {
    seq(|pieces|, i requires 0 <= i < |pieces| => MovedPiece(pieces[i], from, to, f))
  }

  /** Text in which no match starts is copied. */
  lemma {:induction false} CopiedRun(a: string, b: string, pat: string, with: string)
    requires pat != "" && forall k | 0 <= k < |a| :: !(pat <= (a + b)[k..])
    ensures Replace(a + b, pat, with) == a + Replace(b, pat, with)
    decreases |a|
  {
    hide Replace;
    var s := a + b;
    if a == "" {
      assert s == b;
    } else {
      var tail := a[1..] + b;
      assert s[0] == a[0] && s[1..] == tail;
      assert s[0..] == s;
      CopyFirst(s, pat, with);
      forall k | 0 <= k < |a[1..]| ensures !(pat <= tail[k..]) {
        assert s[k + 1..] == tail[k..];
      }
      CopiedRun(a[1..], b, pat, with);
      assert [a[0]] + (a[1..] + Replace(b, pat, with)) == a + Replace(b, pat, with);
    }
  }

  lemma CopyFirst(s: string, pat: string, with: string)
    requires pat != "" && s != "" && !(pat <= s)
    ensures Replace(s, pat, with) == [s[0]] + Replace(s[1..], pat, with)
  {
  }

  lemma MatchOpens(s: string, slug: string, f: nat, k: nat)
    requires k <= |s| && Form(slug, f) <= s[k..]
    ensures Opens(s, k)
  {
    var x := Form(slug, f);
    OpenPair(slug, f);
    assert s[k] == s[k..][0] == x[0] && s[k + 1] == s[k..][1] == x[1];
  }

  lemma OtherFormDiffers(slug: string, f: nat, g: nat)
    requires f < 4 && g < 4 && f != g && IsClean(slug)
    ensures Differ(Form(slug, f), Form(slug, g))
  {
    if f >= 2 && g >= 2 {
      FileForm(slug, f);
      FileForm(slug, g);
      SlashOnlyInParent(slug, f);
      SlashOnlyInParent(slug, g);
      var u, v := Path(slug, f) + ".md", Path(slug, g) + ".md";
      assert u != v by { SameWithout(Path(slug, f), Path(slug, g), ".md"); }
      DifferBeforeClose("](", u, ")", v, ")");
    } else if f < 2 && g < 2 {
      assert Form(slug, f)[|slug| + 2] != Form(slug, g)[|slug| + 2];
    } else {
      assert Form(slug, f)[0] != Form(slug, g)[0];
    }
  }

  lemma OtherLinkDiffers(slug: string, f: nat, slug': string, g: nat, rest: string)
    requires f < 4 && g < 4 && IsClean(slug) && IsClean(slug') && (slug != slug' || f != g)
    ensures !(Form(slug, f) <= Form(slug', g) + rest)
  {
    hide Form, IsClean;
    if slug != slug' { FormsDiffer(slug, slug', f, g); } else { OtherFormDiffers(slug, f, g); }
    var x, y := Form(slug, f), Form(slug', g);
    var k :| 0 <= k < |x| && k < |y| && x[k] != y[k];
    assert (y + rest)[k] == y[k];
  }

  /** No match starts in text or in another link. */
  lemma NoMatchIn(p: Piece, rest: string, from: string, f: nat)
    requires OpensAtMostFirst(p, rest) && p != Link(from, f) && f < 4 && IsClean(from)
    requires p.Link? ==> p.form < 4 && IsClean(p.slug)
    ensures forall k | 0 <= k < |Written(p)| :: !(Form(from, f) <= (Written(p) + rest)[k..])
  {
    hide IsClean, Form;
    var s := Written(p) + rest;
    forall k | 0 <= k < |Written(p)| ensures !(Form(from, f) <= s[k..]) {
      if Form(from, f) <= s[k..] {
        MatchOpens(s, from, f, k);
        assert k == 0 && p.Link? && s[0..] == s;
        OtherLinkDiffers(from, f, p.slug, p.form, rest);
      }
    }
  }

  lemma BodyStep(pieces: seq<Piece>)
    requires pieces != []
    ensures Body(pieces) == Written(pieces[0]) + Body(pieces[1..])
  {
  }

  lemma MovedStep(pieces: seq<Piece>, from: string, to: string, f: nat)
    requires pieces != []
    ensures Moved(pieces, from, to, f)[1..] == Moved(pieces[1..], from, to, f)
    ensures Body(Moved(pieces, from, to, f)) ==
      Written(MovedPiece(pieces[0], from, to, f)) + Body(Moved(pieces[1..], from, to, f))
  {
    hide Written, MovedPiece;
    assert Moved(pieces, from, to, f)[1..] == Moved(pieces[1..], from, to, f);
  }

  /** Replacing one form of a link moves the links of that form and copies the rest. */
  lemma {:induction false} ReplaceMoves(pieces: seq<Piece>, from: string, to: string, f: nat)
    requires WellWritten(pieces) && IsClean(from) && IsClean(to) && f < 4
    ensures Replace(Body(pieces), Form(from, f), Form(to, f)) == Body(Moved(pieces, from, to, f))
    decreases |pieces|
  {
    hide IsClean, Form, Moved, Body, Replace;
    var pat, with := Form(from, f), Form(to, f);
    OpenPair(from, f);
    if pieces == [] {
      NothingMoves(from, to, f, pat, with);
    } else {
      var p, rest := pieces[0], Body(pieces[1..]);
      BodyStep(pieces);
      MovedStep(pieces, from, to, f);
      ReplaceMoves(pieces[1..], from, to, f);
      if p == Link(from, f) {
        ReplaceFirst(pat, rest, with);
      } else {
        NoMatchIn(p, rest, from, f);
        CopiedRun(Written(p), rest, pat, with);
      }
    }
  }

  lemma NothingMoves(from: string, to: string, f: nat, pat: string, with: string)
    requires pat != ""
    ensures Moved([], from, to, f) == [] && Body([]) == "" && Replace("", pat, with) == ""
  {
  }

  lemma ReplaceFirst(pat: string, rest: string, with: string)
    requires pat != ""
    ensures Replace(pat + rest, pat, with) == with + Replace(rest, pat, with)
  {
    var s := pat + rest;
    assert s[..|pat|] == pat && s[|pat|..] == rest;
  }

  // ---- the pieces stay well written

  /** Two texts that are empty together and start alike. */
  predicate StartAlike(a: string, b: string)
  {
    (a == "" <==> b == "") && (a != "" ==> a[0] == b[0])
  }

  lemma FormsAlike(from: string, to: string, f: nat)
    ensures var x, y := Form(from, f), Form(to, f);
      |x| > 1 && |y| > 1 && x[0] == y[0] && x[|x| - 1] == y[|y| - 1]
  {
  }

  lemma {:induction false} MovedStartsAlike(pieces: seq<Piece>, from: string, to: string, f: nat)
    ensures StartAlike(Body(pieces), Body(Moved(pieces, from, to, f)))
    decreases |pieces|
  {
    hide Form, Moved;
    if pieces == [] {
      NothingMoves(from, to, f, "x", "");
    } else {
      MovedStep(pieces, from, to, f);
      MovedStartsAlike(pieces[1..], from, to, f);
      FormsAlike(from, to, f);
    }
  }

  lemma StillOpensFirst(p: Piece, rest: string, rest': string, from: string, to: string, f: nat)
    requires OpensAtMostFirst(p, rest) && StartAlike(rest, rest') && IsClean(to) && f < 4
    ensures OpensAtMostFirst(MovedPiece(p, from, to, f), rest')
  {
    hide IsClean, Form;
    var p' := MovedPiece(p, from, to, f);
    var x, y := Written(p), Written(p');
    if p' == p {
      forall k | 0 <= k < |y| ensures Opens(y + rest', k) <==> Opens(x + rest, k) {
      }
    } else {
      OpensOnce(to, f);
      FormsAlike(from, to, f);
      assert (y + rest')[|y| - 1] == (x + rest)[|x| - 1];
      assert Opens(y + rest', |y| - 1) <==> Opens(x + rest, |x| - 1);
      forall k | 0 < k < |y| - 1 ensures !Opens(y + rest', k) {
        assert (y + rest')[k] == y[1..][k - 1] && (y + rest')[k + 1] == y[1..][k];
      }
    }
  }

  lemma {:induction false} MovedIsWellWritten(pieces: seq<Piece>, from: string, to: string, f: nat)
    requires WellWritten(pieces) && IsClean(to) && f < 4
    ensures WellWritten(Moved(pieces, from, to, f))
    decreases |pieces|
  {
    hide IsClean, Body, OpensAtMostFirst;
    if pieces != [] {
      MovedStep(pieces, from, to, f);
      MovedIsWellWritten(pieces[1..], from, to, f);
      MovedStartsAlike(pieces[1..], from, to, f);
      StillOpensFirst(pieces[0], Body(pieces[1..]), Body(Moved(pieces[1..], from, to, f)), from, to, f);
    }
  }

  // ---- one slug, and all slugs

  /** The piece with its link redirected, if its slug is one of these. */
  function Redirected(p: Piece, remap: map<string, string>, slugs: seq<string>): Piece
    requires forall s | s in slugs :: s in remap
  {
    if p.Link? && p.slug in slugs then Link(remap[p.slug], p.form) else p
  }

  function AllRedirected(pieces: seq<Piece>, remap: map<string, string>, slugs: seq<string>): (r: seq<Piece>)
    requires forall s | s in slugs :: s in remap
    ensures |r| == |pieces| && forall i | 0 <= i < |r| :: r[i] == Redirected(pieces[i], remap, slugs)
  {
    seq(|pieces|, i requires 0 <= i < |pieces| => Redirected(pieces[i], remap, slugs))
  }

  function MovedInAll(pieces: seq<Piece>, from: string, to: string): seq<Piece>
  {
    Moved(Moved(Moved(Moved(pieces, from, to, 0), from, to, 1), from, to, 2), from, to, 3)
  }

  lemma RemapLinkMoves(pieces: seq<Piece>, from: string, to: string)
    requires WellWritten(pieces) && IsClean(from) && IsClean(to) && from != to
    ensures RemapLink(Body(pieces), from, to) == Body(MovedInAll(pieces, from, to))
    ensures WellWritten(MovedInAll(pieces, from, to))
  {
    hide IsClean, Form, Moved, Body, Replace, WellWritten, RemapLink;
    var p1 := Moved(pieces, from, to, 0);
    var p2 := Moved(p1, from, to, 1);
    var p3 := Moved(p2, from, to, 2);
    ReplaceMoves(pieces, from, to, 0);
    MovedIsWellWritten(pieces, from, to, 0);
    ReplaceMoves(p1, from, to, 1);
    MovedIsWellWritten(p1, from, to, 1);
    ReplaceMoves(p2, from, to, 2);
    MovedIsWellWritten(p2, from, to, 2);
    ReplaceMoves(p3, from, to, 3);
    MovedIsWellWritten(p3, from, to, 3);
    FourForms(Body(pieces), from, to);
  }

  lemma {:induction false} FormsBelowFour(pieces: seq<Piece>)
    requires WellWritten(pieces)
    ensures forall i | 0 <= i < |pieces| && pieces[i].Link? :: pieces[i].form < 4
  {
    hide OpensAtMostFirst, Body;
    if pieces != [] {
      FormsBelowFour(pieces[1..]);
      assert forall i | 0 < i < |pieces| :: pieces[i] == pieces[1..][i - 1];
    }
  }

  /** After some slugs, one more. */
  lemma NextRedirected(pieces: seq<Piece>, remap: map<string, string>, slugs: seq<string>, last: string)
    requires Redirects(remap) && last in remap && forall s | s in slugs :: s in remap
    requires forall i | 0 <= i < |pieces| && pieces[i].Link? :: pieces[i].form < 4
    ensures MovedInAll(AllRedirected(pieces, remap, slugs), last, remap[last]) == AllRedirected(pieces, remap, slugs + [last])
  {
    hide IsClean;
    var before, after := AllRedirected(pieces, remap, slugs), AllRedirected(pieces, remap, slugs + [last]);
    var moved := MovedInAll(before, last, remap[last]);
    forall i | 0 <= i < |pieces| ensures moved[i] == after[i] {
      assert before[i].Link? ==> before[i].form < 4;
    }
  }

  /** In whatever order the slugs are walked, each link follows its slug once and every other character stays. */
  lemma {:induction false} RemapAllRedirects(pieces: seq<Piece>, remap: map<string, string>, order: seq<string>)
    requires WellWritten(pieces) && Redirects(remap) && forall k | 0 <= k < |order| :: order[k] in remap
    ensures RemapAll(Body(pieces), remap, order) == Body(AllRedirected(pieces, remap, order))
    ensures WellWritten(AllRedirected(pieces, remap, order))
    decreases |order|
  {
    hide IsClean, Body, WellWritten, RemapLink, MovedInAll, AllRedirected;
    if order == [] {
      NoneRedirected(pieces, remap);
    } else {
      var n := |order| - 1;
      var before, last := order[..n], order[n];
      assert forall s | s in before :: s in order;
      RemapAllRedirects(pieces, remap, before);
      RemapLinkMoves(AllRedirected(pieces, remap, before), last, remap[last]);
      FormsBelowFour(pieces);
      NextRedirected(pieces, remap, before, last);
      assert before + [last] == order;
    }
  }

  lemma NoneRedirected(pieces: seq<Piece>, remap: map<string, string>)
    ensures AllRedirected(pieces, remap, []) == pieces
  {
  }

  /** The piece with its link following the map. */
  function Following(p: Piece, remap: map<string, string>): Piece
  {
    if p.Link? && p.slug in remap then Link(remap[p.slug], p.form) else p
  }

  /**
   * What relinking a guide does, however the map is walked: every link to a slug of the map becomes the same form of
   * link to the slug it is mapped to, and all else stays as it was.
   */
  lemma LinksFollow(a: Guide, b: Guide, remap: map<string, string>, pieces: seq<Piece>)
    requires Relinked(a, b, remap) && Redirects(remap) && a.body == Body(pieces) && WellWritten(pieces)
    ensures b == a.(body := Body(seq(|pieces|, i requires 0 <= i < |pieces| => Following(pieces[i], remap))))
  {
    hide IsClean, Body, WellWritten, RemapAll;
    var order :| Orders(order, remap) && b == a.(body := RemapAll(a.body, remap, order));
    RemapAllRedirects(pieces, remap, order);
    assert AllRedirected(pieces, remap, order) == seq(|pieces|, i requires 0 <= i < |pieces| => Following(pieces[i], remap));
  }
}
