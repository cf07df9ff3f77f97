/** Bodies that lose text when they are saved, because offsets count no carriage returns (src/wiki.rs). */
module CarriageReturns {
  import opened Prelude
  import opened Text
  import opened Publishing
  import opened VisibleText
  import opened SeeAlsoSections
  import opened SavedMarkers

  lemma LineIsCr(text: string, before: string, line: string, rest: string)
    requires text == before + line + "\r\n" + rest && '\n' !in line
    ensures LineAt(text, |before|) == line && LineEnd(text, |before|) == |before| + |line| + 2
  {
    var i, n := |before|, |before| + |line| + 1;
    assert forall k | i <= k < n - 1 :: text[k] == line[k - i];
    IndexIs(text, '\n', i, n);
    assert text[i..n] == line + "\r";
  }

  /** A See Also section after two blank lines and a line of prose, with carriage returns. */
  function CrText(prose: string, rest: string): string
  {
    "\r\n\r\n" + prose + "\r\n" + ("## See Also\r\n" + rest)
  }

  lemma CrTextLines(prose: string, tail: string)
    requires '\n' !in prose
    ensures var text := "\r\n\r\n" + prose + "\r\n" + tail;
      && LineAt(text, 0) == "" && LineEnd(text, 0) == 2 && LineAt(text, 2) == "" && LineEnd(text, 2) == 4
      && LineAt(text, 4) == prose && LineEnd(text, 4) == |prose| + 6
  {
    hide *;
    var text := "\r\n\r\n" + prose + "\r\n" + tail;
    LineIsCr(text, "", "", "\r\n" + prose + "\r\n" + tail);
    LineIsCr(text, "\r\n", "", prose + "\r\n" + tail);
    LineIsCr(text, "\r\n\r\n", prose, tail);
  }

  lemma LastCharacter(prose: string, tail: string)
    requires prose != "" && '\n' !in prose
    ensures var text, n := "\r\n\r\n" + prose + "\r\n" + tail, |prose|; LineEnd(text, n + 3) == n + 6
  {
    var text, n := "\r\n\r\n" + prose + "\r\n" + tail, |prose|;
    assert text[n + 3] == prose[n - 1] && prose[n - 1] in prose;
    IndexIs(text, '\n', n + 3, n + 5);
  }

  /**
   * Each line before the heading that ends in a carriage return moves the cut one byte to the left: here the last
   * character of the prose goes, whatever the See Also section holds.
   */
  lemma CarriageReturnsCutProse(prose: string, rest: string)
    requires IsPlainLine(prose)
    ensures SeeAlso(CrText(prose, rest)) == Some(Stretch(|prose| + 3, |prose| + 6))
  {
    hide SeeAlso, SeeAlsoPos, SectionEnd, LineAt, LineEnd, IsPlainLine, IsSeeAlso, IsHeading, HasContent;
    var text, tail, n := CrText(prose, rest), "## See Also\r\n" + rest, |prose|;
    PlainLine(prose);
    HeadingLine();
    CrTextLines(prose, tail);
    LineIsCr(text, "\r\n\r\n" + prose + "\r\n", "## See Also", rest);
    LastCharacter(prose, tail);
    SeeAlsoStep(text, 0, 0);
    SeeAlsoStep(text, 2, 1);
    SeeAlsoStep(text, 4, 2);
    SeeAlsoStep(text, n + 6, n + 3);
    SectionStep(text, n + 6, n + 6);
    NoLines();
    SeeAlsoIs(text, n + 3, n + 6, "");
  }

  /** A section that shows text, after blank lines that end in carriage returns. */
  const SHOWN: string := "## See Also\r\n" + ("\r\n\r\n\r\n" + ("ab\r\n" + "# N"))

  lemma ShownLines()
    ensures |SHOWN| == 26
    ensures LineAt(SHOWN, 0) == "## See Also" && LineEnd(SHOWN, 0) == 13
    ensures LineAt(SHOWN, 13) == "" && LineEnd(SHOWN, 13) == 15 && LineAt(SHOWN, 15) == "" && LineEnd(SHOWN, 15) == 17
    ensures LineAt(SHOWN, 17) == "" && LineEnd(SHOWN, 17) == 19 && LineAt(SHOWN, 19) == "ab" && LineEnd(SHOWN, 19) == 23
    ensures LineAt(SHOWN, 23) == "# N"
  {
    hide LineAt, LineEnd;
    var a, rest := "## See Also\r\n", "ab\r\n" + "# N";
    LineIsCr(SHOWN, "", "## See Also", "\r\n\r\n\r\n" + rest);
    LineIsCr(SHOWN, a, "", "\r\n\r\n" + rest);
    LineIsCr(SHOWN, a + "\r\n", "", "\r\n" + rest);
    LineIsCr(SHOWN, a + "\r\n\r\n", "", rest);
    LineIsCr(SHOWN, a + "\r\n\r\n\r\n", "ab", "# N");
    LastLineIs(a + "\r\n\r\n\r\nab\r\n", "# N");
    assert SHOWN == a + "\r\n\r\n\r\nab\r\n" + "# N";
  }

  lemma PlainHeadings()
    ensures IsHeading("# N") && !IsHeading("") && !IsHeading("ab")
  {
    assert SpaceAt("# N", 0) == 0 && SpaceAt("ab", 0) == 0;
  }

  lemma BlankSection()
    ensures !HasContent("\r\n\r\n\r\n", 0, false) && HasContent("\r\n\r\n\r\nab\r\n", 0, false)
  {
    hide LineAt, LineEnd, Visible;
    var blank, shown := "\r\n\r\n\r\n", "\r\n\r\n\r\nab\r\n";
    LineIsCr(blank, "", "", "\r\n\r\n");
    LineIsCr(blank, "\r\n", "", "\r\n");
    LineIsCr(blank, "\r\n\r\n", "", "");
    LineIsCr(shown, "", "", "\r\n\r\nab\r\n");
    LineIsCr(shown, "\r\n", "", "\r\nab\r\n");
    LineIsCr(shown, "\r\n\r\n", "", "ab\r\n");
    LineIsCr(shown, "\r\n\r\n\r\n", "ab", "");
    ShowsAsItIs("");
    ShowsAsItIs("ab");
    assert Empty("") && SpaceAt("ab", 0) == 0 && !Empty("ab");
    assert !HasContent(blank, 6, false) && !HasContent(blank, 4, false) && !HasContent(blank, 2, false);
    assert HasContent(shown, 6, false) && HasContent(shown, 4, false) && HasContent(shown, 2, false);
  }

  lemma ShowsAsItIs(line: string)
    requires '<' !in line
    ensures Visible(line, false) == (line, false)
  {
    forall k | 0 <= k < |line| ensures !("<!--" <= line[k..]) { assert line[k..][0] == line[k]; }
    FindIs(line, "<!--", 0, |line|);
  }

  /**
   * No line precedes the heading, and its section shows text, up to the next heading at 23. The end is counted four
   * bytes too early, so only blank lines are scanned, and the heading of the section goes.
   */
  lemma ShownSectionLosesHeading()
    ensures SeeAlso(SHOWN) == Some(Stretch(0, 19)) && IsCounted(SHOWN, 0, 23, Stretch(0, 19))
    ensures CrLines(SHOWN, 0, 0) == 0 && ShowsText(SHOWN[13..23]) && !KeepsText(SHOWN)
  {
    hide SeeAlso, SeeAlsoPos, SectionEnd, LineAt, LineEnd, HasContent, ShowsText, IsSeeAlso, IsHeading, IsCounted;
    ShownLines();
    HeadingLine();
    PlainHeadings();
    BlankSection();
    SeeAlsoStep(SHOWN, 0, 0);
    SectionStep(SHOWN, 13, 13);
    SectionStep(SHOWN, 15, 14);
    SectionStep(SHOWN, 17, 15);
    SectionStep(SHOWN, 19, 16);
    SectionStep(SHOWN, 23, 19);
    assert SHOWN[13..19] == "\r\n\r\n\r\n" && SHOWN[13..23] == "\r\n\r\n\r\nab\r\n";
    SeeAlsoIs(SHOWN, 0, 19, "\r\n\r\n\r\n");
    ContentIsVisibleText(SHOWN[13..23]);
    ContentIsVisibleText(SHOWN[13..19]);
    ShownIsCounted();
    TextGoesIff(SHOWN, 0, 23, Stretch(0, 19));
  }

  lemma ShownIsCounted()
    requires SectionEnd(SHOWN, 13, 13) == 19
    ensures IsCounted(SHOWN, 0, 23, Stretch(0, 19)) && CrLines(SHOWN, 0, 0) == 0
  {
    hide SectionEnd, CrLines, IsSeeAlso, IsHeading, LineAt, LineEnd;
    ShownLines();
    HeadingLine();
    PlainHeadings();
    NoCrBefore();
    assert forall j: nat | 13 <= j < 23 && IsLineStart(SHOWN, j) :: j == 13 || j == 15 || j == 17 || j == 19;
    assert IsNextHeading(SHOWN, 13, 23);
    SectionIsFoundTo(SHOWN, 13, 23);
  }

  lemma NoCrBefore()
    ensures CrLines(SHOWN, 0, 0) == 0
  {
  }
}
