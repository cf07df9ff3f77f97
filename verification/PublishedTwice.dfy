/** When publishing a guide body a second time changes it again (src/wiki.rs). */
module PublishedTwice {
  import opened Prelude
  import opened Text
  import opened Publishing
  import opened VisibleText
  import opened SeeAlsoSections
  import opened SavedMarkers
  import opened HiddenTwice

  // ---- signs that publishing does not write

  function Count(c: char, s: string): nat
  {
    if s == "" then 0 else (if s[0] == c then 1 else 0) + Count(c, s[1..])
  }

  lemma {:induction false} CountConcat(c: char, a: string, b: string)
    ensures Count(c, a + b) == Count(c, a) + Count(c, b)
  {
    if a == "" {
      assert a + b == b;
    } else {
      CountConcat(c, a[1..], b);
      assert (a + b)[0] == a[0] && (a + b)[1..] == a[1..] + b;
    }
  }

  lemma {:induction false} CountNone(c: char, s: string)
    requires c !in s
    ensures Count(c, s) == 0
  {
    if s != "" { CountNone(c, s[1..]); }
  }

  lemma CountHere(c: char, s: string, i: nat)
    requires i < |s| && s[i] == c
    ensures Count(c, s) > 0
  {
    CountConcat(c, s[..i], s[i..]);
    assert s == s[..i] + s[i..];
  }

  /** Hiding markers writes and drops no hash sign and no opening bracket. */
  lemma {:induction false} HidingKeepsCount(c: char, s: string, inside: bool)
    requires c == '#' || c == '['
    ensures Count(c, Hidden(s, inside)) == Count(c, s)
    decreases |s|
  {
    hide Count, IndexFrom;
    if s == "" {
    } else if !inside && "<!--" <= s {
      HidingKeepsCount(c, s[4..], true);
      SameFront(c, "<!--", s[4..], Hidden(s[4..], true));
      assert s == "<!--" + s[4..];
    } else if inside && "-->" <= s {
      HidingKeepsCount(c, s[3..], false);
      SameFront(c, "-->", s[3..], Hidden(s[3..], false));
      assert s == "-->" + s[3..];
    } else if !inside && Bare(s) {
      var e := IndexFrom(s, ']', 0) + 1;
      HidingKeepsCount(c, s[e..], false);
      WrappedCount(c, s[..e], s[e..], Hidden(s[e..], false));
      assert s == s[..e] + s[e..];
    } else {
      HidingKeepsCount(c, s[1..], inside);
      SameFront(c, [s[0]], s[1..], Hidden(s[1..], inside));
      assert s == [s[0]] + s[1..];
    }
  }

  lemma SameFront(c: char, a: string, x: string, y: string)
    requires Count(c, x) == Count(c, y)
    ensures Count(c, a + x) == Count(c, a + y)
  {
    CountConcat(c, a, x);
    CountConcat(c, a, y);
  }

  lemma WrappedCount(c: char, w: string, x: string, y: string)
    requires (c == '#' || c == '[') && Count(c, x) == Count(c, y)
    ensures Count(c, "<!-- " + w + " -->" + y) == Count(c, w + x)
  {
    hide Count;
    CountNone(c, "<!-- ");
    CountNone(c, " -->");
    CountConcat(c, "<!-- " + w + " -->", y);
    CountConcat(c, "<!-- " + w, " -->");
    CountConcat(c, "<!-- ", w);
    CountConcat(c, w, x);
  }

  lemma CountSpace(c: char, s: string, i: nat, e: nat)
    requires (c == '#' || c == '[') && i <= e <= |s| && forall k | i <= k < e :: MayBeSpace(s[k])
    ensures Count(c, s[i..e]) == 0
  {
    CountNone(c, s[i..e]);
  }

  /** What is put between the kept parts and what is trimmed from them holds none. */
  lemma ClosingCount(c: char, before: string, tail: string)
    requires c == '#' || c == '['
    ensures Count(c, Closing(before, tail)) == Count(c, before) + Count(c, tail)
  {
    hide Count, TextEnd;
    var e := TextEnd(before, |before|);
    CountNone(c, "\n");
    CountConcat(c, before[..e], before[e..]);
    CountSpace(c, before, e, |before|);
    assert before == before[..e] + before[e..] && before[e..|before|] == before[e..];
    CountConcat(c, before[..e], "\n");
    if Empty(tail) {
      CountSpace(c, tail, 0, |tail|);
      assert tail[0..|tail|] == tail;
    } else {
      CountConcat(c, before[..e] + "\n", "\n");
      CountConcat(c, before[..e] + "\n" + "\n", tail);
      CountConcat(c, before[..e] + "\n" + "\n" + tail, "\n");
    }
  }

  /** Dropping a stretch drops the signs in it and no others. */
  lemma DroppingCount(c: char, text: string, gap: Stretch)
    requires (c == '#' || c == '[') && SeeAlso(text) == Some(gap)
    ensures Count(c, text) == Count(c, Stripped(text)) + Count(c, text[gap.start..gap.end])
  {
    hide Count, SeeAlso, Closing;
    var a, b, d := text[..gap.start], text[gap.start..gap.end], text[gap.end..];
    assert text == a + b + d;
    CountConcat(c, a + b, d);
    CountConcat(c, a, b);
    ClosingCount(c, a, d);
  }

  // ---- publishing a text again

  /** No line before the first See Also heading ends in a carriage return. */
  ghost predicate CountsRight(text: string)
  {
    forall h: nat | IsFirstSeeAlso(text, 0, h) :: CrLines(text, 0, h) == 0
  }

  /** Where offsets count right, a dropped stretch holds its heading, so the text has fewer hash signs afterwards. */
  lemma DropsItsHeading(text: string)
    requires CountsRight(text) && SeeAlso(text).Some?
    ensures Count('#', Stripped(text)) < Count('#', text)
  {
    hide Count, SeeAlso, Stripped, CrLines, IsSeeAlso, IsHeading, LineAt, LineEnd, ShowsText, SectionEnd, Harmless;
    var gap := SeeAlso(text).value;
    HasFirst(text);
    var h := TheFirst(text);
    var e := FoundIsCounted(text, h);
    var after := LineEnd(text, h - CrLines(text, 0, h));
    DroppedIffNothingShows(text, h, e, Stretch(h - CrLines(text, 0, h), SectionEnd(text, after, after)));
    var i := HashInHeading(text, h);
    DroppingCount('#', text, gap);
    assert text[gap.start..gap.end][i - gap.start] == '#';
    CountHere('#', text[gap.start..gap.end], i - gap.start);
  }

  lemma HasFirst(text: string)
    requires SeeAlso(text).Some?
    ensures SeeAlsoPos(text, 0, 0).Some?
  {
  }

  /** Where the first marker is wrapped, the two texts part. */
  lemma {:induction false} FirstWrap(s: string, inside: bool) returns (a: string, x: string, y: string)
    requires Hidden(s, inside) != s
    ensures s == a + x && Hidden(s, inside) == a + "<!-- " + y && "[" <= x && "[" <= y
    ensures |Hidden(s, inside)| >= |s| + 9
    decreases |s|
  {
    hide IndexFrom;
    if !inside && "<!--" <= s {
      assert s == "<!--" + s[4..];
      a, x, y := FirstWrap(s[4..], true);
      Longer("<!--", a, x, y);
      a := "<!--" + a;
    } else if inside && "-->" <= s {
      assert s == "-->" + s[3..];
      a, x, y := FirstWrap(s[3..], false);
      Longer("-->", a, x, y);
      a := "-->" + a;
    } else if !inside && Bare(s) {
      var e := IndexFrom(s, ']', 0) + 1;
      HidingGrows(s[e..], false);
      a, x, y := "", s, s[..e] + " -->" + Hidden(s[e..], false);
      assert "" + "<!-- " + y == "<!-- " + s[..e] + " -->" + Hidden(s[e..], false);
    } else {
      assert s == [s[0]] + s[1..];
      a, x, y := FirstWrap(s[1..], inside);
      Longer([s[0]], a, x, y);
      a := [s[0]] + a;
    }
  }

  lemma Longer(front: string, a: string, x: string, y: string)
    ensures front + (a + x) == (front + a) + x
    ensures front + (a + "<!-- " + y) == (front + a) + "<!-- " + y
  {
  }

  /** The bracket before which there are a given number of brackets has one place. */
  lemma SameBracket(u: string, v: string, u': string, v': string)
    requires u + v == u' + v' && "[" <= v && "[" <= v' && Count('[', u) == Count('[', u')
    ensures |u| == |u'|
  {
    hide Count;
    if |u| < |u'| {
      BracketBetween(u, v, u', v');
    } else if |u'| < |u| {
      BracketBetween(u', v', u, v);
    }
  }

  lemma BracketBetween(u: string, v: string, u': string, v': string)
    requires u + v == u' + v' && "[" <= v && |u| < |u'|
    ensures Count('[', u') > Count('[', u)
  {
    var d := u'[|u|..];
    assert forall k | 0 <= k < |u'| :: u'[k] == (u' + v')[k] == (u + v)[k];
    assert u'[..|u|] == u && u' == u + d && d[0] == '[';
    CountConcat('[', u, d);
    CountHere('[', d, 0);
  }

  /** Behind the stretch: the bracket moves back as far as the text gets shorter. */
  lemma BracketBehind(text: string, gap: Stretch, a: string, y: string, p: string, x: string)
    requires text == a + "<!-- " + y && "[" <= y && p == a + x && "[" <= x
    requires gap.start <= gap.end <= |a| + 5 && Count('[', text[gap.start..gap.end]) == 0
    requires p == Closing(text[..gap.start], text[gap.end..])
    ensures |p| + 5 >= |text|
  {
    hide Count, TextEnd, TextStart;
    var q, before, tail := |a| + 5, text[..gap.start], text[gap.end..];
    var e := TextEnd(before, |before|);
    assert text[q] == '[' && tail[q - gap.end] == text[q];
    NotBlank(tail, q - gap.end);
    var end := if tail[|tail| - 1] == '\n' then "" else "\n";
    var u, v := before[..e] + "\n" + "\n" + text[gap.end..q], text[q..] + end;
    assert tail == text[gap.end..q] + text[q..];
    assert p == u + v;
    FrontCount(text, gap, e, q);
    CountNone('[', "<!-- ");
    CountConcat('[', a, "<!-- ");
    assert text[..q] == a + "<!-- ";
    assert "[" <= v by { assert v[0] == '['; }
    SameBracket(u, v, a, x);
  }

  lemma NotBlank(s: string, k: nat)
    requires k < |s| && !MayBeSpace(s[k])
    ensures !Empty(s)
  {
  }

  lemma FrontCount(text: string, gap: Stretch, e: nat, q: nat)
    requires gap.start <= gap.end <= q <= |text| && e == TextEnd(text[..gap.start], gap.start)
    requires Count('[', text[gap.start..gap.end]) == 0
    ensures Count('[', text[..gap.start][..e] + "\n" + "\n" + text[gap.end..q]) == Count('[', text[..q])
  {
    hide Count, TextEnd;
    var before, mid, rest := text[..gap.start], text[gap.start..gap.end], text[gap.end..q];
    var front, space := before[..e], before[e..];
    CountSpace('[', before, e, |before|);
    assert space == before[e..|before|] && before == front + space;
    CountNone('[', "\n");
    CountFour(front, "\n", "\n", rest);
    CountFour(front, space, mid, rest);
    assert text[..q] == front + space + mid + rest;
  }

  lemma CountFour(a: string, b: string, c: string, d: string)
    ensures Count('[', a + b + c + d) == Count('[', a) + Count('[', b) + Count('[', c) + Count('[', d)
  {
    hide Count;
    CountConcat('[', a, b);
    CountConcat('[', a + b, c);
    CountConcat('[', a + b + c, d);
  }

  /** In front of the stretch: the bracket stays where hiding moved it. */
  lemma BracketBefore(text: string, gap: Stretch, a: string, y: string, p: string, x: string)
    requires text == a + "<!-- " + y && "[" <= y && p == a + x && "[" <= x
    requires |a| + 5 < gap.start <= gap.end <= |text|
    ensures p != Closing(text[..gap.start], text[gap.end..])
  {
    hide Count, TextEnd;
    var q, before := |a| + 5, text[..gap.start];
    var e := TextEnd(before, |before|);
    assert text[q] == '[' && before[q] == text[q];
    assert e > q;
    CountNone('[', "<!-- ");
    CountConcat('[', a, "<!-- ");
    var r := Closing(before, text[gap.end..]);
    assert before[..e] <= r && r[..q] == before[..q] == a + "<!-- " && r[q] == '[';
    if p == r {
      SameBracket(a + "<!-- ", r[q..], a, x);
      assert false;
    }
  }

  /** Dropping a stretch never undoes what hiding did. */
  lemma DroppingUndoesNoHiding(p: string)
    requires Hidden(p, false) != p
    ensures Stripped(Hidden(p, false)) != p
  {
    hide Hidden, SeeAlso, Count, Closing;
    var text := Hidden(p, false);
    if SeeAlso(text).Some? && Stripped(text) == p {
      var gap := SeeAlso(text).value;
      var a, x, y := FirstWrap(p, false);
      HidingKeepsCount('[', p, false);
      DroppingCount('[', text, gap);
      if gap.end <= |a| + 5 {
        BracketBehind(text, gap, a, y, p, x);
        assert false;
      }
      if gap.start <= |a| + 5 {
        var q := |a| + 5;
        assert text[gap.start..gap.end][q - gap.start] == text[q] == '[';
        CountHere('[', text[gap.start..gap.end], q - gap.start);
        assert false;
      }
      BracketBefore(text, gap, a, y, p, x);
      assert false;
    }
  }

  /** Publishing a text changes nothing exactly when there is no bare marker in it and dropping changes nothing. */
  lemma PublishedStaysIff(p: string)
    ensures Published(p) == p <==> BareMarkers(p, false) == [] && Stripped(p) == p
  {
    hide Hidden, BareMarkers, Stripped;
    HidesNothingIff(p, false);
    if Hidden(p, false) != p { DroppingUndoesNoHiding(p); }
  }

  /** Where offsets count right, dropping changes nothing exactly when no section is dropped. */
  lemma StrippedStaysIff(p: string)
    requires CountsRight(p)
    ensures Stripped(p) == p <==> SeeAlso(p) == None
  {
    hide SeeAlso, Count, CountsRight;
    if SeeAlso(p).Some? { DropsItsHeading(p); }
  }

  lemma {:induction false} HidingAddsNoReturn(s: string, inside: bool)
    requires '\r' !in s
    ensures '\r' !in Hidden(s, inside)
    decreases |s|
  {
    if s == "" {
    } else if !inside && "<!--" <= s {
      HidingAddsNoReturn(s[4..], true);
    } else if inside && "-->" <= s {
      HidingAddsNoReturn(s[3..], false);
    } else if !inside && Bare(s) {
      HidingAddsNoReturn(s[IndexFrom(s, ']', 0) + 1..], false);
    } else {
      HidingAddsNoReturn(s[1..], inside);
    }
  }

  lemma StrippingAddsNoReturn(text: string)
    requires '\r' !in text
    ensures '\r' !in Stripped(text)
  {
    hide SeeAlso, TextEnd, Empty;
  }

  lemma {:induction false} NoReturnNoCr(text: string, a: nat, b: nat)
    requires '\r' !in text && b <= |text|
    ensures CrLines(text, a, b) == 0
    decreases b - a
  {
    if a < b { NoReturnNoCr(text, a + 1, b); }
  }

  lemma NoReturnCountsRight(text: string)
    requires '\r' !in text
    ensures CountsRight(text)
  {
    hide CrLines, IsSeeAlso, LineAt;
    forall h: nat | IsFirstSeeAlso(text, 0, h) ensures CrLines(text, 0, h) == 0 { NoReturnNoCr(text, 0, h); }
  }

  /**
   * For every body: publishing twice is publishing once, exactly when the published body has no bare marker and
   * dropping changes nothing in it.
   */
  lemma PublishedTwiceIff(body: string)
    ensures var p := Published(body);
      Published(p) == p <==> BareMarkers(p, false) == [] && Stripped(p) == p
  {
    PublishedStaysIff(Published(body));
  }

  /** For a body from which no section is dropped: exactly when no marker in it holds another behind a closing mark. */
  lemma UndroppedTwiceIff(body: string)
    requires SeeAlso(Hidden(body, false)) == None
    ensures Published(Published(body)) == Published(body) <==> AllStay(BareMarkers(body, false))
  {
    hide Hidden, SeeAlso, BareMarkers, AllStay;
    var p := Hidden(body, false);
    PublishedStaysIff(p);
    HidesNothingIff(p, false);
    HidingTwiceIff(body, false);
  }

  /** Without carriage returns, exactly when the published body has no bare marker and no section to drop. */
  lemma PublishedTwiceWithoutReturns(body: string)
    requires '\r' !in body
    ensures var p := Published(body);
      Published(p) == p <==> BareMarkers(p, false) == [] && SeeAlso(p) == None
  {
    hide Hidden, Stripped, SeeAlso, CountsRight, BareMarkers;
    var p := Published(body);
    HidingAddsNoReturn(body, false);
    StrippingAddsNoReturn(Hidden(body, false));
    NoReturnCountsRight(p);
    StrippedStaysIff(p);
    PublishedStaysIff(p);
  }

  const EMPTY_SECTION: string := "## See Also\n"

  lemma FirstOfTwo()
    ensures SeeAlso(EMPTY_SECTION + EMPTY_SECTION) == Some(Stretch(0, 12))
  {
    hide SeeAlso, SeeAlsoPos, SectionEnd, LineAt, LineEnd, HasContent, IsSeeAlso, IsHeading;
    var body := EMPTY_SECTION + EMPTY_SECTION;
    HeadingLine();
    NoLines();
    LineIs(body, "", "## See Also", EMPTY_SECTION);
    LineIs(body, EMPTY_SECTION, "## See Also", "");
    SeeAlsoStep(body, 0, 0);
    SectionStep(body, 12, 12);
    SeeAlsoIs(body, 0, 12, "");
  }

  lemma OnlyOne()
    ensures SeeAlso("\n\n" + EMPTY_SECTION) == Some(Stretch(2, 14))
  {
    hide SeeAlso, SeeAlsoPos, SectionEnd, LineAt, LineEnd, HasContent, IsSeeAlso, IsHeading;
    var again := "\n\n" + EMPTY_SECTION;
    HeadingLine();
    NoLines();
    LineIs(again, "", "", "\n" + EMPTY_SECTION);
    LineIs(again, "\n", "", EMPTY_SECTION);
    LineIs(again, "\n\n", "## See Also", "");
    SeeAlsoStep(again, 0, 0);
    SeeAlsoStep(again, 1, 1);
    SeeAlsoStep(again, 2, 2);
    SeeAlsoDone(again, 14);
    SeeAlsoIs(again, 2, 14, "");
  }

  /** Two See Also sections without content: each time one of them goes. */
  lemma TwoEmptySections()
    ensures var body := EMPTY_SECTION + EMPTY_SECTION;
      Published(body) == "\n\n" + EMPTY_SECTION && Published(Published(body)) != Published(body)
  {
    hide Hidden, SeeAlso, Published, BareMarkers;
    var body, again := EMPTY_SECTION + EMPTY_SECTION, "\n\n" + EMPTY_SECTION;
    NothingToHide(body, "");
    HidesNothing();
    assert body + "" == body;
    FirstOfTwo();
    OnlyOne();
    PublishedIs(body, Stretch(0, 12), again);
    PublishedTwiceWithoutReturns(body);
  }

  lemma HidesNothing()
    ensures Hidden("", false) == ""
  {
  }

  lemma PublishedIs(body: string, gap: Stretch, again: string)
    requires Hidden(body, false) == body && SeeAlso(body) == Some(gap) && gap.start == 0
    requires body[gap.end..] == EMPTY_SECTION && again == "\n\n" + EMPTY_SECTION
    ensures Published(body) == again
  {
    hide Hidden, SeeAlso, Closing;
    assert body[..0] == "";
    ClosingOfHeading();
  }

  lemma ClosingOfHeading()
    ensures Closing("", EMPTY_SECTION) == "\n\n" + EMPTY_SECTION
  {
    hide TextEnd;
    assert WithoutEnd("") == "";
    assert SpaceAt(EMPTY_SECTION, 0) == 0;
    assert "" + "\n" + "\n" + EMPTY_SECTION == "\n\n" + EMPTY_SECTION;
  }
}
