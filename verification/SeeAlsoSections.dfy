/** Which section a guide body loses when it is saved, and when text goes with it (src/wiki.rs). */
module SeeAlsoSections {
  import opened Prelude
  import opened Text
  import opened Publishing
  import opened VisibleText

  // ---- where the heading and the end of the section are found

  /** The line breaks from `a` to `b` that a carriage return precedes. */
  function CrLines(body: string, a: nat, b: nat): (n: nat)
    requires b <= |body|
    ensures a <= b ==> n <= b - a
    decreases b - a
  {
    if a >= b then 0
    else (if body[a] == '\n' && a > 0 && body[a - 1] == '\r' then 1 else 0) + CrLines(body, a + 1, b)
  }

  ghost predicate NoSeeAlso(body: string, from: nat, to: nat)
  {
    forall j: nat {:trigger IsLineStart(body, j)} | from <= j < to && IsLineStart(body, j) ::
      !IsSeeAlso(LineAt(body, j))
  }

  ghost predicate NoHeading(body: string, from: nat, to: nat)
  {
    forall j: nat {:trigger IsLineStart(body, j)} | from <= j < to && IsLineStart(body, j) ::
      !IsHeading(LineAt(body, j))
  }

  /** The first line of the body from `i` on that is a See Also heading. */
  ghost predicate IsFirstSeeAlso(body: string, i: nat, h: nat)
  {
    i <= h && IsLineStart(body, h) && IsSeeAlso(LineAt(body, h)) && NoSeeAlso(body, i, h)
  }

  /** The first heading of any level from `i` on, or the end of the body. */
  ghost predicate IsNextHeading(body: string, i: nat, e: nat)
  {
    && i <= e <= |body| && NoHeading(body, i, e)
    && (e < |body| ==> IsLineStart(body, e) && IsHeading(LineAt(body, e)))
  }

  lemma {:induction false} NoBreakNoCr(body: string, a: nat, b: nat)
    requires a <= b <= |body| && forall k | a <= k < b :: body[k] != '\n'
    ensures CrLines(body, a, b) == 0
    decreases b - a
  {
    if a < b { NoBreakNoCr(body, a + 1, b); }
  }

  lemma {:induction false} CrLinesConcat(body: string, a: nat, m: nat, b: nat)
    requires a <= m <= b <= |body|
    ensures CrLines(body, a, b) == CrLines(body, a, m) + CrLines(body, m, b)
    decreases m - a
  {
    if a < m { CrLinesConcat(body, a + 1, m, b); }
  }

  /** A line, and how far the count falls behind in it. */
  lemma NextLine(body: string, i: nat)
    requires IsLineStart(body, i)
    ensures var e := LineEnd(body, i);
      && (e < |body| ==> IsLineStart(body, e) && i + |LineAt(body, i)| + 1 == e - CrLines(body, i, e))
      && forall j: nat {:trigger IsLineStart(body, j)} | i < j < e :: !IsLineStart(body, j)
  {
    LineParts(body, i);
    var n := IndexFrom(body, '\n', i);
    if n < |body| {
      NoBreakNoCr(body, i, n);
      CrLinesConcat(body, i, n, n + 1);
      OneBreak(body, i, n);
    }
  }

  lemma OneBreak(body: string, i: nat, n: nat)
    requires i <= n < |body| && body[n] == '\n' && IsLineStart(body, i) && n == IndexFrom(body, '\n', i)
    ensures CrLines(body, n, n + 1) == n - i - |LineAt(body, i)|
  {
    assert CrLines(body, n + 1, n + 1) == 0;
    if i < n { assert body[i..n][n - i - 1] == body[n - 1]; }
  }

  lemma {:induction false} SeeAlsoPosFrom(body: string, i: nat, at: nat)
    requires i <= |body| && (i < |body| ==> IsLineStart(body, i) && at <= i)
    ensures var r := SeeAlsoPos(body, i, at);
      if r.None? then NoSeeAlso(body, i, |body|)
      else exists h: nat :: IsFirstSeeAlso(body, i, h) && r.value == at + (h - i) - CrLines(body, i, h)
    decreases |body| - i
  {
    hide IsSeeAlso, LineAt, LineEnd, IsLineStart, CrLines;
    if i < |body| {
      NextLine(body, i);
      if IsSeeAlso(LineAt(body, i)) {
        NoBreakNoCr(body, i, i);
        assert IsFirstSeeAlso(body, i, i);
      } else {
        var e, next := LineEnd(body, i), at + |LineAt(body, i)| + 1;
        SeeAlsoPosFrom(body, e, next);
        if SeeAlsoPos(body, e, next).Some? {
          var h: nat :|
            IsFirstSeeAlso(body, e, h) && SeeAlsoPos(body, e, next).value == next + (h - e) - CrLines(body, e, h);
          InBody(body, h);
          CrLinesConcat(body, i, e, h);
          assert IsFirstSeeAlso(body, i, h);
        }
      }
    }
  }

  lemma InBody(body: string, h: nat)
    requires IsLineStart(body, h)
    ensures h < |body|
  {
  }

  lemma {:induction false} SectionEndFrom(body: string, i: nat, at: nat)
    requires i <= |body| && (i < |body| ==> IsLineStart(body, i) && at <= i)
    ensures exists e: nat ::
      && IsNextHeading(body, i, e)
      && SectionEnd(body, i, at) == if e == |body| then e else at + (e - i) - CrLines(body, i, e)
    decreases |body| - i
  {
    hide IsHeading, LineAt, LineEnd, IsLineStart, CrLines;
    if i == |body| {
      assert IsNextHeading(body, i, i);
    } else {
      NextLine(body, i);
      if IsHeading(LineAt(body, i)) {
        NoBreakNoCr(body, i, i);
        assert IsNextHeading(body, i, i);
      } else {
        var m, next := LineEnd(body, i), at + |LineAt(body, i)| + 1;
        SectionEndFrom(body, m, next);
        var e: nat :| IsNextHeading(body, m, e) &&
          SectionEnd(body, m, next) == if e == |body| then e else next + (e - m) - CrLines(body, m, e);
        CrLinesConcat(body, i, m, e);
        assert IsNextHeading(body, i, e);
      }
    }
  }

  lemma OneFirstSeeAlso(body: string, i: nat, a: nat, b: nat)
    requires IsFirstSeeAlso(body, i, a) && IsFirstSeeAlso(body, i, b)
    ensures a == b
  {
    hide IsSeeAlso, LineAt;
  }

  lemma OneNextHeading(body: string, i: nat, a: nat, b: nat)
    requires IsNextHeading(body, i, a) && IsNextHeading(body, i, b)
    ensures a == b
  {
    hide IsHeading, LineAt;
  }

  /**
   * The heading is found at its place less one for each carriage return before it, so it is found where it is exactly
   * when no line before it ends in one.
   */
  lemma HeadingIsFoundAt(body: string, h: nat)
    requires IsFirstSeeAlso(body, 0, h)
    ensures SeeAlsoPos(body, 0, 0) == Some(h - CrLines(body, 0, h))
    ensures SeeAlsoPos(body, 0, 0) == Some(h) <==> CrLines(body, 0, h) == 0
  {
    hide SeeAlsoPos, CrLines, IsSeeAlso, LineAt;
    FirstLine(body);
    SeeAlsoPosFrom(body, 0, 0);
    if SeeAlsoPos(body, 0, 0).Some? {
      var g: nat :| IsFirstSeeAlso(body, 0, g) && SeeAlsoPos(body, 0, 0).value == g - CrLines(body, 0, g);
      OneFirstSeeAlso(body, 0, g, h);
    }
  }

  lemma FirstLine(body: string)
    ensures body != "" ==> IsLineStart(body, 0)
  {
  }

  /** The end of a section read from `i` on: the next heading less the carriage returns since `i`, or the end. */
  lemma SectionIsFoundTo(body: string, i: nat, e: nat)
    requires i <= |body| && (i < |body| ==> IsLineStart(body, i)) && IsNextHeading(body, i, e)
    ensures SectionEnd(body, i, i) == if e == |body| then e else e - CrLines(body, i, e)
  {
    hide SectionEnd, CrLines, IsHeading, LineAt;
    SectionEndFrom(body, i, i);
    var f: nat :| IsNextHeading(body, i, f) &&
      SectionEnd(body, i, i) == if f == |body| then f else i + (f - i) - CrLines(body, i, f);
    OneNextHeading(body, i, e, f);
  }

  // ---- what is dropped

  /** The stretch that the counted offsets give for the first See Also heading `h`, if the section ends at `e`. */
  ghost predicate IsCounted(body: string, h: nat, e: nat, gap: Stretch)
    requires gap.start <= gap.end <= |body|
  {
    && IsFirstSeeAlso(body, 0, h) && h < |body| && gap.start == h - CrLines(body, 0, h)
    && var after := LineEnd(body, gap.start);
       && IsNextHeading(body, after, e) && after <= gap.end
       && gap.end == if e == |body| then e else e - CrLines(body, after, e)
  }

  /** It is the section exactly when neither count falls behind. */
  lemma StretchIsSectionIff(body: string, h: nat, e: nat, gap: Stretch)
    requires gap.start <= gap.end <= |body| && IsCounted(body, h, e, gap)
    ensures gap == Stretch(h, e) <==>
      CrLines(body, 0, h) == 0 && (e == |body| || CrLines(body, LineEnd(body, gap.start), e) == 0)
  {
    hide CrLines;
  }

  /** That stretch, if nothing in it after its first line is visible. */
  ghost predicate IsDropped(body: string, gap: Stretch)
    requires gap.start <= gap.end <= |body|
  {
    exists h: nat, e: nat :: IsCounted(body, h, e, gap) && !ShowsText(body[LineEnd(body, gap.start)..gap.end])
  }

  lemma AfterBreak(body: string, i: nat)
    requires i < |body|
    ensures LineEnd(body, i) < |body| ==> IsLineStart(body, LineEnd(body, i))
  {
  }

  lemma FoundIsCounted(body: string, h: nat) returns (e: nat)
    requires IsFirstSeeAlso(body, 0, h)
    ensures var pos := h - CrLines(body, 0, h);
      && 0 <= pos < |body| && SeeAlsoPos(body, 0, 0) == Some(pos)
      && var after := LineEnd(body, pos);
         var end := SectionEnd(body, after, after);
         pos <= after <= end <= |body| && IsCounted(body, h, e, Stretch(pos, end))
  {
    hide CrLines, IsSeeAlso, IsHeading, LineAt, IsLineStart, NoHeading, NoSeeAlso;
    HeadingIsFoundAt(body, h);
    InBody(body, h);
    var pos := h - CrLines(body, 0, h);
    var after := LineEnd(body, pos);
    AfterBreak(body, pos);
    SectionEndFrom(body, after, after);
    e :| IsNextHeading(body, after, e) &&
      SectionEnd(body, after, after) == if e == |body| then e else after + (e - after) - CrLines(body, after, e);
  }

  lemma NothingFound(body: string)
    requires SeeAlsoPos(body, 0, 0).None?
    ensures forall h: nat :: !IsFirstSeeAlso(body, 0, h)
  {
    hide CrLines, LineAt, IsSeeAlso;
    FirstLine(body);
    SeeAlsoPosFrom(body, 0, 0);
  }

  lemma OneCounted(body: string, h: nat, e: nat, gap: Stretch, g: nat, f: nat, other: Stretch)
    requires gap.start <= gap.end <= |body| && other.start <= other.end <= |body|
    requires IsCounted(body, h, e, gap) && IsCounted(body, g, f, other)
    ensures h == g && gap == other
  {
    hide CrLines, LineEnd, IsFirstSeeAlso, IsNextHeading;
    OneFirstSeeAlso(body, 0, h, g);
    OneNextHeading(body, LineEnd(body, gap.start), e, f);
  }

  /** For every body: what is dropped is exactly the counted stretch, and only if nothing in it is visible. */
  lemma DropsCountedStretch(body: string, gap: Stretch)
    requires gap.start <= gap.end <= |body|
    ensures SeeAlso(body) == Some(gap) <==> IsDropped(body, gap)
  {
    hide SeeAlsoPos, SectionEnd, HasContent, ShowsText, CrLines, IsFirstSeeAlso, IsNextHeading, LineEnd;
    var pos := SeeAlsoPos(body, 0, 0);
    if pos.None? {
      NothingFound(body);
      CountedIsFirst(body, gap);
    } else {
      var h := TheFirst(body);
      var e := FoundIsCounted(body, h);
      var after := LineEnd(body, pos.value);
      var found := Stretch(pos.value, SectionEnd(body, after, after));
      ContentIsVisibleText(body[after..found.end]);
      if g: nat, f: nat :| IsCounted(body, g, f, gap) && !ShowsText(body[LineEnd(body, gap.start)..gap.end]) {
        OneCounted(body, h, e, found, g, f, gap);
      }
    }
  }

  lemma CountedIsFirst(body: string, gap: Stretch)
    requires gap.start <= gap.end <= |body|
    ensures forall h: nat, e: nat | IsCounted(body, h, e, gap) :: IsFirstSeeAlso(body, 0, h)
  {
  }

  lemma TheFirst(body: string) returns (h: nat)
    requires SeeAlsoPos(body, 0, 0).Some?
    ensures IsFirstSeeAlso(body, 0, h)
  {
    hide CrLines, LineAt, IsSeeAlso;
    FirstLine(body);
    SeeAlsoPosFrom(body, 0, 0);
    h :| IsFirstSeeAlso(body, 0, h) && SeeAlsoPos(body, 0, 0).value == h - CrLines(body, 0, h);
  }

  // ---- when text goes

  /** The first See Also section, which ends at `e`, shows no text. */
  ghost predicate IsEmptySection(body: string, h: nat, e: nat)
  {
    && IsFirstSeeAlso(body, 0, h) && h < |body| && IsNextHeading(body, LineEnd(body, h), e)
    && !ShowsText(body[LineEnd(body, h)..e])
  }

  /** The stretch starts with that section and lies in it, or is nothing but white space. */
  ghost predicate Harmless(body: string, gap: Stretch)
    requires gap.start <= gap.end <= |body|
  {
    (exists e: nat :: IsEmptySection(body, gap.start, e) && gap.end <= e) || Empty(body[gap.start..gap.end])
  }

  /** What the source promises: no text goes but an empty See Also section. */
  ghost predicate KeepsText(body: string)
  {
    var gap := SeeAlso(body);
    gap.Some? ==> Harmless(body, gap.value)
  }

  lemma SeeAlsoIsHeading(line: string)
    ensures IsSeeAlso(line) ==> IsHeading(line)
  {
    if IsSeeAlso(line) {
      var b := TextStart(line, 0);
      assert |Trimmed(line)| == |"## see also"|;
      assert LowerAscii(Trimmed(line)[0]) == LowerAscii("## see also"[0]);
      assert Trimmed(line)[0] == line[b];
    }
  }

  lemma BreakBefore(body: string, i: nat, h: nat)
    requires i < h && IsLineStart(body, h)
    ensures LineEnd(body, i) <= h
  {
  }

  lemma NotFirst(body: string, i: nat, h: nat)
    requires IsFirstSeeAlso(body, 0, h) && i != h
    ensures !IsFirstSeeAlso(body, 0, i)
  {
    hide IsSeeAlso, LineAt;
    if IsFirstSeeAlso(body, 0, i) {
      OneFirstSeeAlso(body, 0, i, h);
      assert false;
    }
  }

  lemma HashInHeading(body: string, h: nat) returns (i: nat)
    requires IsLineStart(body, h) && IsSeeAlso(LineAt(body, h))
    ensures h <= i < LineEnd(body, h) && body[i] == '#'
  {
    SeeAlsoIsHeading(LineAt(body, h));
    i := h + TextStart(LineAt(body, h), 0);
    LineParts(body, h);
  }

  lemma HeadingIsNoSpace(body: string, h: nat, end: nat)
    requires IsFirstSeeAlso(body, 0, h) && h < |body| && LineEnd(body, h) <= end <= |body|
    ensures !Empty(body[h..end])
  {
    hide LineEnd, IsSeeAlso, LineAt;
    var i := HashInHeading(body, h);
    assert body[h..end][i - h] == '#';
  }

  /** The counted stretch is dropped exactly when nothing in it after its first line is visible. */
  lemma DroppedIffNothingShows(body: string, h: nat, e: nat, gap: Stretch)
    requires gap.start <= gap.end <= |body| && IsCounted(body, h, e, gap)
    ensures SeeAlso(body) == if ShowsText(body[LineEnd(body, gap.start)..gap.end]) then None else Some(gap)
  {
    hide SeeAlso, ShowsText, CrLines, IsFirstSeeAlso, IsNextHeading, LineEnd;
    DropsCountedStretch(body, gap);
    if SeeAlso(body).Some? && SeeAlso(body) != Some(gap) {
      var other := SeeAlso(body).value;
      DropsCountedStretch(body, other);
      OnlyCounted(body, h, e, gap, other);
      assert false;
    }
  }

  lemma OnlyCounted(body: string, h: nat, e: nat, gap: Stretch, other: Stretch)
    requires gap.start <= gap.end <= |body| && other.start <= other.end <= |body|
    requires IsCounted(body, h, e, gap) && IsDropped(body, other)
    ensures other == gap
  {
    hide ShowsText, CrLines, IsFirstSeeAlso, IsNextHeading, LineEnd;
    var g: nat, f: nat :|
      IsCounted(body, g, f, other) && !ShowsText(body[LineEnd(body, other.start)..other.end]);
    OneCounted(body, h, e, gap, g, f, other);
  }

  /**
   * With a carriage return before the heading the stretch lies in front of it, and without one it starts with it. Then
   * it is harmless exactly if it is white space, or if the section up to the next heading shows no text.
   */
  lemma HarmlessIff(body: string, h: nat, e: nat, gap: Stretch)
    requires gap.start <= gap.end <= |body| && IsCounted(body, h, e, gap)
    ensures CrLines(body, 0, h) > 0 ==> gap.end <= h
    ensures CrLines(body, 0, h) == 0 ==> gap.start == h && gap.end <= e
    ensures Harmless(body, gap) <==>
      if CrLines(body, 0, h) > 0 then Empty(body[gap.start..gap.end])
      else !ShowsText(body[LineEnd(body, gap.start)..e])
  {
    hide CrLines, ShowsText, Empty, IsSeeAlso, IsHeading, LineAt, LineEnd;
    var after := LineEnd(body, gap.start);
    if gap.start < h {
      BreakBefore(body, gap.start, h);
      SeeAlsoIsHeading(LineAt(body, h));
      NotFirst(body, gap.start, h);
    } else {
      HeadingIsNoSpace(body, h, gap.end);
      if f: nat :| IsEmptySection(body, h, f) && gap.end <= f { OneNextHeading(body, after, e, f); }
      if !ShowsText(body[after..e]) { assert IsEmptySection(body, h, e); }
    }
  }

  /**
   * For every body with a See Also heading: text that is no empty See Also section goes exactly when nothing shows in
   * the part that is scanned, and either a carriage return precedes the heading and the stretch is not white space, or
   * none does and the section shows text, which then stands in its last bytes, one for each carriage return in it.
   */
  lemma TextGoesIff(body: string, h: nat, e: nat, gap: Stretch)
    requires gap.start <= gap.end <= |body| && IsCounted(body, h, e, gap)
    ensures !KeepsText(body) <==>
      && !ShowsText(body[LineEnd(body, gap.start)..gap.end])
      && if CrLines(body, 0, h) > 0 then !Empty(body[gap.start..gap.end])
         else ShowsText(body[LineEnd(body, gap.start)..e])
  {
    hide SeeAlso, CrLines, ShowsText, Empty, Harmless, IsFirstSeeAlso, IsNextHeading, LineEnd;
    DroppedIffNothingShows(body, h, e, gap);
    HarmlessIff(body, h, e, gap);
  }

  /** A body with a heading has such a stretch, and one without keeps its text. */
  lemma StretchExists(body: string)
    ensures (exists h: nat :: IsFirstSeeAlso(body, 0, h)) ==>
      exists h: nat, e: nat, gap: Stretch :: gap.start <= gap.end <= |body| && IsCounted(body, h, e, gap)
    ensures (forall h: nat :: !IsFirstSeeAlso(body, 0, h)) ==> KeepsText(body)
  {
    hide SeeAlsoPos, CrLines, IsFirstSeeAlso, IsCounted, SectionEnd, LineEnd, Harmless;
    if h: nat :| IsFirstSeeAlso(body, 0, h) {
      var e := FoundIsCounted(body, h);
    } else if SeeAlsoPos(body, 0, 0).Some? {
      var h := TheFirst(body);
    }
  }
}
