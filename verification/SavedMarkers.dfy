/** What becomes of the citation markers of a guide body when it is saved (src/wiki.rs). */
module SavedMarkers {
  import opened Prelude
  import opened Text
  import opened CitationMarkers
  import opened Publishing
  import opened SeeAlsoSections

  // ---- what dropping a section does to the markers

  /** A marker ends in a bracket, so text without one holds no end of a marker. */
  lemma MarkersUpTo(s: string, e: nat)
    requires e <= |s| && forall k | e <= k < |s| :: s[k] != ']'
    ensures Markers(s[..e]) == Markers(s)
  {
    assert s == s[..e] + s[e..];
    MarkersGrow(s[..e], s[e..]);
    forall m | m in Markers(s) ensures m in Markers(s[..e]) {
      MarkersAreSubstrings(s, m);
      MarkersAreSubstrings(s[..e], m);
      var p :| OccursAt(m, s, p);
      assert m[|m| - 1] == s[p + |m| - 1];
      assert s[..e][p..p + |m|] == s[p..p + |m|];
      assert OccursAt(m, s[..e], p);
    }
  }

  lemma EmptyHoldsNoMarker(s: string)
    requires Empty(s)
    ensures Markers(s) == {}
  {
    MarkersUpTo(s, 0);
    NoMarkers(s[..0]);
  }

  /** Nothing of the two parts is lost but white space, and no marker comes about where they meet. */
  lemma ClosingKeepsMarkers(before: string, tail: string)
    ensures Markers(Closing(before, tail)) == Markers(before) + Markers(tail)
  {
    hide Markers, Empty, TextEnd;
    var kept := WithoutEnd(before);
    MarkersUpTo(before, TextEnd(before, |before|));
    NoMarkers("");
    if Empty(tail) {
      EmptyHoldsNoMarker(tail);
      MarkersAcross(kept, '\n', "");
      assert kept + "\n" == kept + ['\n'] + "";
    } else {
      MarkersAcross(kept + "\n", '\n', tail);
      MarkersAcross(kept, '\n', "");
      assert kept + "\n" == kept + ['\n'] + "";
      var all := kept + "\n" + "\n" + tail;
      assert all == kept + "\n" + ['\n'] + tail;
      MarkersAcross(all, '\n', "");
      assert all + "\n" == all + ['\n'] + "";
    }
  }

  /** Every occurrence of `m` touches the stretch. */
  ghost predicate OnlyIn(text: string, m: string, gap: Stretch)
  {
    forall p | OccursAt(m, text, p) :: p < gap.end && gap.start < p + |m|
  }

  lemma OccursBefore(text: string, m: string, e: nat, p: int)
    requires e <= |text|
    ensures OccursAt(m, text[..e], p) <==> OccursAt(m, text, p) && p + |m| <= e
  {
    if 0 <= p && p + |m| <= e { assert text[..e][p..p + |m|] == text[p..p + |m|]; }
  }

  lemma OccursAfter(text: string, m: string, b: nat, p: int)
    requires b <= |text|
    ensures OccursAt(m, text[b..], p - b) <==> OccursAt(m, text, p) && b <= p
  {
    if b <= p && p + |m| <= |text| { assert text[b..][p - b..p - b + |m|] == text[p..p + |m|]; }
  }

  lemma OutsideGap(text: string, m: string, gap: Stretch)
    requires gap.start <= gap.end <= |text|
    ensures Has(text[..gap.start], m) || Has(text[gap.end..], m) <==> !OnlyIn(text, m, gap)
  {
    hide OccursAt;
    var a, b := gap.start, gap.end;
    if p :| OccursAt(m, text[..a], p) {
      OccursBefore(text, m, a, p);
    } else if p :| OccursAt(m, text[b..], p) {
      OccursAfter(text, m, b, b + p);
      assert OccursAt(m, text, b + p);
    } else {
      forall p | OccursAt(m, text, p) ensures p < b && a < p + |m| {
        OccursBefore(text, m, a, p);
        OccursAfter(text, m, b, p);
      }
    }
  }

  /** Saving drops a See Also section, and `m` stands nowhere else. */
  ghost predicate Dropped(body: string, m: string)
  {
    var text := Hidden(body, false);
    SeeAlso(text).Some? && OnlyIn(text, m, SeeAlso(text).value)
  }

  /** A saved body has exactly the markers it had, but for those that stood in the dropped section alone. */
  lemma MarkersOfSaved(body: string, m: string)
    ensures m in Markers(Published(body)) <==> m in Markers(body) && !Dropped(body, m)
  {
    hide Markers, Hidden, SeeAlso, OnlyIn, Closing, Has, IsMarker;
    var text := Hidden(body, false);
    HidingKeepsMarkers(body);
    if SeeAlso(text).Some? {
      var gap := SeeAlso(text).value;
      ClosingKeepsMarkers(text[..gap.start], text[gap.end..]);
      OutsideGap(text, m, gap);
      MarkersAreSubstrings(text, m);
      MarkersAreSubstrings(text[..gap.start], m);
      MarkersAreSubstrings(text[gap.end..], m);
      PiecesAreInside(text, gap, m);
    }
  }

  lemma PiecesAreInside(text: string, gap: Stretch, m: string)
    requires gap.start <= gap.end <= |text|
    ensures Has(text[..gap.start], m) || Has(text[gap.end..], m) ==> Has(text, m)
  {
    OutsideGap(text, m, gap);
  }

  /** Saving keeps every marker exactly when none stands in the dropped section alone, and it makes none. */
  lemma SavingKeepsMarkersIff(body: string)
    ensures Markers(Published(body)) <= Markers(body)
    ensures Markers(Published(body)) == Markers(body) <==> !exists m :: m in Markers(body) && Dropped(body, m)
  {
    hide Markers, Published, Dropped;
    forall m ensures m in Markers(Published(body)) <==> m in Markers(body) && !Dropped(body, m) {
      MarkersOfSaved(body, m);
    }
  }

  /** The stretch is dropped, and `m` stands nowhere else. */
  ghost predicate OnlyInDropped(text: string, m: string, gap: Stretch)
  {
    gap.start <= gap.end <= |text| && IsDropped(text, gap) && OnlyIn(text, m, gap)
  }

  /**
   * For every body: a marker is lost exactly when it stands only in the stretch that the counted offsets give for the
   * first See Also section, and nothing in that is visible.
   */
  lemma LostIffOnlyInDropped(body: string, m: string)
    ensures m in Markers(body) && m !in Markers(Published(body)) <==>
      m in Markers(body) && exists gap :: OnlyInDropped(Hidden(body, false), m, gap)
  {
    hide Markers, Published, Hidden, SeeAlso, IsDropped, OnlyIn;
    var text := Hidden(body, false);
    MarkersOfSaved(body, m);
    if Dropped(body, m) {
      DropsCountedStretch(text, SeeAlso(text).value);
      assert OnlyInDropped(text, m, SeeAlso(text).value);
    }
    if gap :| OnlyInDropped(text, m, gap) {
      DropsCountedStretch(text, gap);
      assert Dropped(body, m);
    }
  }

  // ---- a marker that saving loses

  lemma {:induction false} NothingToHide(a: string, rest: string)
    requires '<' !in a && '[' !in a
    ensures Hidden(a + rest, false) == a + Hidden(rest, false)
  {
    if a == "" {
      assert a + rest == rest;
    } else {
      var s := a + rest;
      assert s[0] == a[0] && a[0] in a && s[1..] == a[1..] + rest;
      NothingToHide(a[1..], rest);
    }
  }

  lemma {:induction false} IndexIs(s: string, c: char, i: nat, j: nat)
    requires i <= j < |s| && s[j] == c && forall k | i <= k < j :: s[k] != c
    ensures IndexFrom(s, c, i) == j
    decreases j - i
  {
    if i < j { IndexIs(s, c, i + 1, j); }
  }

  lemma MarkerIsHidden(m: string)
    requires IsMarker(m)
    ensures Hidden(m, false) == "<!-- " + m + " -->"
  {
    hide IsIdByte;
    forall k | 2 <= k < |m| - 1 ensures m[k] != ']' && m[k] != ' ' {
      IdBytesArePlain(m[k]);
      SpaceIsNoIdByte();
    }
    IndexIs(m, ']', 0, |m| - 1);
    assert Bare(m) && m[..|m|] == m && m[|m|..] == "";
    assert Hidden("", false) == "";
  }

  lemma SpaceIsNoIdByte()
    ensures !IsIdByte(' ')
  {
  }

  /** One line of plain prose that does not start with white space. */
  predicate IsPlainLine(prose: string)
  {
    prose != "" && SpaceAt(prose, 0) == 0 && forall k | 0 <= k < |prose| :: prose[k] !in "\n\r<[]#`"
  }

  /** A reply whose See Also section holds nothing but a marker. */
  function ReplyWith(prose: string, m: string): string
  {
    prose + "\n\n## See Also\n" + m
  }

  function Shown(prose: string, m: string): string
  {
    prose + "\n\n## See Also\n" + ("<!-- " + m + " -->")
  }

  lemma ReplyHidden(prose: string, m: string)
    requires IsMarker(m) && IsPlainLine(prose)
    ensures Hidden(ReplyWith(prose, m), false) == Shown(prose, m)
  {
    hide Hidden, IsMarker;
    var a := prose + "\n\n## See Also\n";
    assert forall k | 0 <= k < |prose| :: a[k] == prose[k];
    NothingToHide(a, m);
    MarkerIsHidden(m);
  }

  lemma HeadingLine()
    ensures IsSeeAlso("## See Also") && IsHeading("## See Also") && !IsSeeAlso("")
  {
    var s := "## See Also";
    assert SpaceAt(s, 0) == 0 && s[0..] == s;
    assert SpaceBefore(s, |s|) == 0;
    assert Trimmed(s) == s;
  }

  lemma NoHashNoHeading(line: string)
    requires forall k | 0 <= k < |line| :: line[k] != '#'
    ensures !IsSeeAlso(line) && !IsHeading(line)
  {
    var b := TextStart(line, 0);
    var rest := line[b..];
    assert forall k | 0 <= k < |rest| :: rest[k] == line[b + k];
    assert "## see also"[0] == '#';
  }

  lemma CommentIsInvisible(m: string)
    requires IsMarker(m)
    ensures Visible("<!-- " + m + " -->", false) == ("", false)
  {
    hide IsIdByte;
    var line := "<!-- " + m + " -->";
    assert line[0..] == line && Find(line, "<!--", 0) == 0;
    var e := Find(line, "-->", 0);
    assert line[|m| + 6..] == "-->";
    forall k | 0 <= k < |m| + 6 ensures !("-->" <= line[k..]) {
      MarkerTail(m);
      assert line[k..][2] == line[k + 2];
      assert 5 <= k + 2 < |m| + 5 ==> line[k + 2] == m[k - 3];
    }
    assert e == |m| + 6;
    assert line[e + 3..] == "";
    assert Find("", "<!--", 0) == 0;
    assert Visible(line, true) == Visible("", false) == ("", false);
    assert line[..0] + "" == "";
  }

  lemma LineIs(text: string, before: string, line: string, rest: string)
    requires text == before + line + "\n" + rest && '\n' !in line && '\r' !in line
    ensures LineAt(text, |before|) == line && LineEnd(text, |before|) == |before| + |line| + 1
  {
    var i, n := |before|, |before| + |line|;
    assert forall k | i <= k < n :: text[k] == line[k - i];
    IndexIs(text, '\n', i, n);
    assert text[i..n] == line;
  }

  lemma PlainLine(prose: string)
    requires IsPlainLine(prose)
    ensures prose != "" && '\n' !in prose && '\r' !in prose && '<' !in prose && '[' !in prose && !IsSeeAlso(prose)
  {
    NoHashNoHeading(prose);
  }

  lemma CommentLine(m: string)
    requires IsMarker(m)
    ensures var line := "<!-- " + m + " -->"; '\n' !in line && '\r' !in line && !IsHeading(line)
  {
    var line := "<!-- " + m + " -->";
    assert SpaceAt(line, 0) == 0;
  }

  lemma LastLineIs(before: string, line: string)
    requires '\n' !in line && line != ""
    ensures LineAt(before + line, |before|) == line && LineEnd(before + line, |before|) == |before| + |line|
  {
    var text := before + line;
    assert forall k | |before| <= k < |text| :: text[k] == line[k - |before|];
    assert text[|before|..] == line;
  }

  lemma NothingVisible(m: string)
    requires IsMarker(m)
    ensures !HasContent("<!-- " + m + " -->", 0, false)
  {
    hide Visible, IsMarker;
    var line := "<!-- " + m + " -->";
    CommentLine(m);
    CommentIsInvisible(m);
    LastLineIs("", line);
    assert "" + line == line;
    assert Empty("");
    assert !HasContent(line, |line|, false);
  }

  lemma ReplySeeAlsoPos(prose: string, rest: string)
    requires IsPlainLine(prose)
    ensures SeeAlsoPos(prose + "\n\n## See Also\n" + rest, 0, 0) == Some(|prose| + 2)
    ensures LineEnd(prose + "\n\n## See Also\n" + rest, |prose| + 2) == |prose| + 14
  {
    hide *;
    var text, n := prose + "\n\n## See Also\n" + rest, |prose|;
    PlainLine(prose);
    HeadingLine();
    LineIs(text, "", prose, "\n## See Also\n" + rest);
    LineIs(text, prose + "\n", "", "## See Also\n" + rest);
    LineIs(text, prose + "\n\n", "## See Also", rest);
    SeeAlsoStep(text, 0, 0);
    SeeAlsoStep(text, n + 1, n + 1);
    SeeAlsoStep(text, n + 2, n + 2);
  }

  lemma LastLine(before: string, line: string)
    requires '\n' !in line && line != "" && !IsHeading(line)
    ensures SectionEnd(before + line, |before|, |before|) == |before + line|
  {
    hide *;
    var text := before + line;
    LastLineIs(before, line);
    SectionStep(text, |before|, |before|);
    SeeAlsoDone(text, |text| + 1);
  }

  /** Saving the reply drops its See Also section. */
  lemma ReplySection(prose: string, m: string)
    requires IsMarker(m) && IsPlainLine(prose)
    ensures SeeAlso(Shown(prose, m)) == Some(Stretch(|prose| + 2, |Shown(prose, m)|))
  {
    hide SeeAlso, SeeAlsoPos, SectionEnd, HasContent, LineEnd, LineAt, IsMarker, IsPlainLine, IsHeading;
    var text, line, before := Shown(prose, m), "<!-- " + m + " -->", prose + "\n\n## See Also\n";
    CommentLine(m);
    ReplySeeAlsoPos(prose, line);
    LastLine(before, line);
    NothingVisible(m);
    assert text == before + line && |before| == |prose| + 14;
    SeeAlsoIs(text, |prose| + 2, |text|, line);
  }

  lemma SeeAlsoIs(text: string, pos: nat, end: nat, section: string)
    requires pos < |text| && SeeAlsoPos(text, 0, 0) == Some(pos)
    requires end == SectionEnd(text, LineEnd(text, pos), LineEnd(text, pos))
    requires text[LineEnd(text, pos)..end] == section && !HasContent(section, 0, false)
    ensures SeeAlso(text) == Some(Stretch(pos, end))
  {
  }

  lemma ReplyIsTrimmed(prose: string, m: string)
    requires IsMarker(m) && IsPlainLine(prose)
    ensures Trimmed(ReplyWith(prose, m)) == ReplyWith(prose, m)
  {
    hide IsIdByte;
    var s := ReplyWith(prose, m);
    assert s[0] == prose[0] && (|prose| > 1 ==> s[1] == prose[1]) && (|prose| > 2 ==> s[2] == prose[2]);
    assert s[|s| - 1] == m[|m| - 1] == ']';
    assert SpaceAt(s, 0) == 0 && SpaceBefore(s, |s|) == 0;
    assert s[0..] == s;
  }

  /** For every marker and every line of prose: the reply has no white space to trim, and saving it loses the marker. */
  lemma ReplyLosesMarker(prose: string, m: string)
    requires IsMarker(m) && IsPlainLine(prose)
    ensures Trimmed(ReplyWith(prose, m)) == ReplyWith(prose, m)
    ensures m in Markers(ReplyWith(prose, m)) && m !in Markers(Published(ReplyWith(prose, m)))
  {
    hide Hidden, SeeAlso, Markers, Published, IsIdByte;
    var body, text := ReplyWith(prose, m), Shown(prose, m);
    ReplyIsTrimmed(prose, m);
    HasMiddle(prose + "\n\n## See Also\n", m, "");
    assert body == prose + "\n\n## See Also\n" + m + "";
    MarkersAreSubstrings(body, m);
    ReplyHidden(prose, m);
    ReplySection(prose, m);
    assert forall k | 0 <= k < |prose| :: text[k] == prose[k];
    forall p | OccursAt(m, text, p) ensures p < |text| && |prose| + 2 < p + |m| {
      assert text[p] == m[0];
    }
    MarkersOfSaved(body, m);
  }

  lemma NoLines()
    ensures !HasContent("", 0, false)
  {
  }
}
