/** Which characters of a body the statements touch, said of its lines as they are written (src/cross_supersede.rs). */
module StatementLines {
  import opened Prelude
  import opened Text
  import opened Sentences
  import opened Statements

  /** `body[a..e]` is a line: from a line start to the next line break, which is part of it, or to the end. */
  ghost predicate IsLine(body: string, a: int, e: int)
  {
    && 0 <= a < e <= |body| && (a == 0 || body[a - 1] == '\n') && (e == |body| || body[e - 1] == '\n')
    && forall k | a <= k < e - 1 :: body[k] != '\n'
  }

  predicate IsHeading(line: string)
  {
    "#" <= Trim(line)
  }

  predicate IsComment(line: string)
  {
    "<!--" <= Trim(line)
  }

  /** Nothing but `see also` in either case, after the marks of a heading. */
  ghost predicate OpensSeeAlso(line: string)
  {
    var t := Trim(line);
    exists n {:trigger t[n..]} :: 0 < n <= |t| && (forall i | 0 <= i < n :: t[i] == '#') && SpellsSeeAlso(Trim(t[n..]))
  }

  predicate SpellsSeeAlso(s: string)
  {
    |s| == 8 && forall i | 0 <= i < 8 :: s[i] == "see also"[i] || s[i] == "SEE ALSO"[i]
  }

  /** The nearest heading above the line at `a` opens See Also. */
  ghost predicate BelowSeeAlso(body: string, a: nat)
  {
    exists b, e ::
      && IsLine(body, b, e) && e <= a && OpensSeeAlso(body[b..e])
      && forall b', e' | e <= b' && e' <= a && IsLine(body, b', e') :: !IsHeading(body[b'..e'])
  }

  // ---- kinds of lines

  lemma {:induction false} HashesGone(s: string)
    ensures exists n :: 0 <= n <= |s| && WithoutHashes(s) == s[n..] && (forall i | 0 <= i < n :: s[i] == '#')
                        && (n < |s| ==> s[n] != '#')
  {
    if s != "" && s[0] == '#' {
      HashesGone(s[1..]);
      var n :| 0 <= n <= |s[1..]| && WithoutHashes(s[1..]) == s[1..][n..] && (forall i | 0 <= i < n :: s[1..][i] == '#')
               && (n < |s[1..]| ==> s[1..][n] != '#');
      assert s[1..][n..] == s[n + 1..];
      assert forall i | 0 <= i < n + 1 :: i > 0 ==> s[i] == s[1..][i - 1];
    } else {
      assert WithoutHashes(s) == s[0..];
    }
  }

  lemma SpellingIgnoresCase(s: string)
    ensures EqualsIgnoringCase(s, "see also") <==> SpellsSeeAlso(s)
  {
    var lower, upper := "see also", "SEE ALSO";
    assert forall i | 0 <= i < 8 :: lower[i] == LowerAscii(lower[i]) == LowerAscii(upper[i]);
    if |s| == 8 {
      forall i | 0 <= i < 8
        ensures LowerAscii(s[i]) == LowerAscii(lower[i]) <==> s[i] == lower[i] || s[i] == upper[i]
      {
      }
    }
  }

  /** A hash in front does not spell. */
  lemma HashSpellsNothing(s: string)
    requires s != "" && s[0] == '#'
    ensures !SpellsSeeAlso(Trim(s))
  {
    var b, e := TrimSlice(s);
    assert b == 0 && e > 0;
    assert Trim(s)[0] == '#';
  }

  lemma SeeAlsoMeans(line: string)
    requires IsHeading(line)
    ensures SpellsSeeAlso(Trim(WithoutHashes(Trim(line)))) <==> OpensSeeAlso(line)
  {
    var t := Trim(line);
    HashesGone(t);
    var n :| 0 <= n <= |t| && WithoutHashes(t) == t[n..] && (forall i | 0 <= i < n :: t[i] == '#')
             && (n < |t| ==> t[n] != '#');
    if m :| 0 < m <= |t| && (forall i | 0 <= i < m :: t[i] == '#') && SpellsSeeAlso(Trim(t[m..])) {
      if m < n { HashSpellsNothing(t[m..]); }
      assert m == n;
    }
  }

  /** What each kind of line looks like. */
  lemma KindMeans(line: string)
    ensures KindOf(line).Heading? <==> IsHeading(line)
    ensures KindOf(line).Heading? && KindOf(line).seeAlso <==> OpensSeeAlso(line)
    ensures KindOf(line).Prose? <==> !IsHeading(line) && !IsComment(line) && !Blank(line)
  {
    hide EqualsIgnoringCase, SpellsSeeAlso;
    var t := Trim(line);
    assert t != "" && t[0] == '#' <==> "#" <= t;
    if IsHeading(line) {
      SeeAlsoMeans(line);
      SpellingIgnoresCase(Trim(WithoutHashes(t)));
    }
  }

  // ---- lines by index and lines by place

  lemma {:induction false} LineAt(body: string, from: nat, seeAlso: bool, a: nat, e: nat) returns (i: nat)
    requires from <= a && IsLine(body, a, e) && (from == 0 || body[from - 1] == '\n')
    ensures var lines := Lines(LineKinds(), body, from, seeAlso);
      i < |lines| && lines[i].start == a && lines[i].end == e
    decreases |body| - from
  {
    hide KindOf;
    var end := LineEnd(body, from);
    if from == a {
      i := 0;
    } else {
      var k := KindOf(body[from..end]);
      i := LineAt(body, end, if k.Heading? then k.seeAlso else seeAlso, a, e);
      i := i + 1;
    }
  }

  lemma {:induction false} EachIsLine(body: string, from: nat, seeAlso: bool, i: nat)
    requires from <= |body| && (from == 0 || body[from - 1] == '\n')
    requires i < |Lines(LineKinds(), body, from, seeAlso)|
    ensures var l := Lines(LineKinds(), body, from, seeAlso)[i]; IsLine(body, l.start, l.end)
    decreases |body| - from
  {
    hide KindOf;
    var end := LineEnd(body, from);
    if i > 0 {
      var k := KindOf(body[from..end]);
      EachIsLine(body, end, if k.Heading? then k.seeAlso else seeAlso, i - 1);
    }
  }

  /** Lines come in order, so the line at one place has one index. */
  lemma {:induction false} ChainOrders(lines: seq<Line>, from: nat, to: nat, i: nat, j: nat)
    requires Chain(lines, from, to) && i < j < |lines|
    ensures from <= lines[i].start < lines[i].end <= lines[j].start
    decreases |lines|
  {
    assert lines[j] == lines[1..][j - 1];
    if i > 0 {
      ChainOrders(lines[1..], lines[0].end, to, i - 1, j - 1);
    } else if j > 1 {
      ChainOrders(lines[1..], lines[0].end, to, 0, j - 1);
    }
  }

  /** Looking back finds the nearest heading. */
  lemma {:induction false} LookingBack(body: string, lines: seq<Line>, i: nat)
    requires i <= |lines| && forall j | 0 <= j < |lines| :: lines[j].start <= lines[j].end <= |body|
    ensures UnderSeeAlso(LineKinds(), body, lines, i, false) <==>
      exists j :: 0 <= j < i && OpensSeeAlso(TextOf(body, lines[j]))
                  && forall m | j < m < i :: !IsHeading(TextOf(body, lines[m]))
    decreases i
  {
    hide KindOf, OpensSeeAlso, IsHeading;
    if i > 0 {
      KindMeans(TextOf(body, lines[i - 1]));
      LookingBack(body, lines, i - 1);
    }
  }

  lemma BelowMeans(body: string, i: nat)
    requires i < |Lines(LineKinds(), body, 0, false)|
    ensures var lines := Lines(LineKinds(), body, 0, false);
      && (forall j | 0 <= j < |lines| :: lines[j].start <= lines[j].end <= |body|)
      && (UnderSeeAlso(LineKinds(), body, lines, i, false) <==> BelowSeeAlso(body, lines[i].start))
  {
    hide Lines, OpensSeeAlso, IsHeading, UnderSeeAlso;
    var lines := Lines(LineKinds(), body, 0, false);
    LinesInside(LineKinds(), body, 0, false);
    LinesChain(LineKinds(), body, 0, false);
    LookingBack(body, lines, i);
    var a := lines[i].start;
    if UnderSeeAlso(LineKinds(), body, lines, i, false) {
      var j :| 0 <= j < i && OpensSeeAlso(TextOf(body, lines[j]))
               && forall m | j < m < i :: !IsHeading(TextOf(body, lines[m]));
      EachIsLine(body, 0, false, j);
      ChainOrders(lines, 0, |body|, j, i);
      forall b', e' | lines[j].end <= b' && e' <= a && IsLine(body, b', e') ensures !IsHeading(body[b'..e']) {
        var m := IndexBetween(body, lines[j].end, i, b', e');
        if m <= j { OrderOf(lines, |body|, m, j); }
      }
    }
    if BelowSeeAlso(body, a) {
      var b, e :| IsLine(body, b, e) && e <= a && OpensSeeAlso(body[b..e])
                  && forall b', e' | e <= b' && e' <= a && IsLine(body, b', e') :: !IsHeading(body[b'..e']);
      var j := IndexBetween(body, 0, i, b, e);
      forall m | j < m < i ensures !IsHeading(TextOf(body, lines[m])) {
        EachIsLine(body, 0, false, m);
        ChainOrders(lines, 0, |body|, j, m);
        ChainOrders(lines, 0, |body|, m, i);
      }
    }
  }

  lemma OrderOf(lines: seq<Line>, to: nat, i: nat, j: nat)
    requires Chain(lines, 0, to) && i <= j < |lines| && forall m | 0 <= m < |lines| :: lines[m].start <= lines[m].end
    ensures lines[i].start <= lines[j].start && lines[i].end <= lines[j].end
  {
    if i < j { ChainOrders(lines, 0, to, i, j); }
  }

  /** The line at a place before line `i` has a smaller index. */
  lemma IndexBetween(body: string, lo: nat, i: nat, b: nat, e: nat) returns (m: nat)
    requires IsLine(body, b, e) && lo <= b
    requires i < |Lines(LineKinds(), body, 0, false)| && e <= Lines(LineKinds(), body, 0, false)[i].start
    ensures var lines := Lines(LineKinds(), body, 0, false);
      m < i && lines[m].start == b && lines[m].end == e
  {
    hide Lines;
    var lines := Lines(LineKinds(), body, 0, false);
    m := LineAt(body, 0, false, b, e);
    LinesChain(LineKinds(), body, 0, false);
    assert b < e;
    if m == i {
      assert false;
    } else if i < m {
      ChainOrders(lines, 0, |body|, i, m);
    }
  }

  // ---- what the splitter touches

  /** Only one line holds a character. */
  lemma OneLineEach(body: string, i: nat, k: nat)
    requires i < |Lines(LineKinds(), body, 0, false)|
    requires var l := Lines(LineKinds(), body, 0, false)[i]; l.start <= k < l.end
    ensures var lines := Lines(LineKinds(), body, 0, false); OnProse(lines, k) <==> lines[i].prose
  {
    hide Lines;
    var lines := Lines(LineKinds(), body, 0, false);
    LinesChain(LineKinds(), body, 0, false);
    if OnProse(lines, k) {
      var j :| 0 <= j < |lines| && lines[j].prose && lines[j].start <= k < lines[j].end;
      if i < j { ChainOrders(lines, 0, |body|, i, j); }
      if j < i { ChainOrders(lines, 0, |body|, j, i); }
    }
  }

  /** A line counts as prose: no heading, no comment, not blank, and not below See Also. */
  ghost predicate Counts(body: string, a: nat, e: nat)
    requires a <= e <= |body|
  {
    var line := body[a..e];
    !IsHeading(line) && !IsComment(line) && !Blank(line) && !BelowSeeAlso(body, a)
  }

  lemma OnProseMeans(body: string, a: nat, e: nat, k: nat)
    requires IsLine(body, a, e) && a <= k < e
    ensures OnProse(Lines(LineKinds(), body, 0, false), k) <==> Counts(body, a, e)
  {
    hide Lines, UnderSeeAlso, BelowSeeAlso, KindOf, OnProse;
    var i := LineAt(body, 0, false, a, e);
    OneLineEach(body, i, k);
    ProseLineMeans(LineKinds(), body, 0, false, i);
    BelowMeans(body, i);
    KindMeans(body[a..e]);
  }

  /** The statements that hold a character. */
  ghost predicate Touched(statements: seq<Statement>, k: nat)
  {
    exists i :: 0 <= i < |statements| && statements[i].start <= k < statements[i].end
  }

  /**
   * What the splitter touches, by the text alone. No sentence reaches into a heading, a comment line, a blank line or a
   * line below See Also; of every other line each character but white space is in a sentence, and in one only. The
   * statements are those sentences that show three words or more.
   */
  lemma TouchesExactlyProse(body: string, a: nat, e: nat, k: nat)
    requires IsLine(body, a, e) && a <= k < e
    ensures var sentences := SentencesOf(LineKinds(), body);
      var out := StatementsOf(CodeRules(), body, ParagraphsOf(LineKinds(), body));
      && (!Counts(body, a, e) ==> !In(sentences, k) && !Touched(out, k))
      && (Counts(body, a, e) && !IsGap(body[k]) ==> In(sentences, k))
      && (forall i, j | 0 <= i < j < |sentences| :: sentences[i].end <= sentences[j].start)
      && (forall s: Span {:trigger s in sentences} | s.start <= s.end <= |body| ::
            s in sentences && |Words(Trim(StripFrom(body[s.start..s.end], 0)))| >= 3
            <==> Statement(s.start, s.end, body[s.start..s.end]) in out)
  {
    hide Counts, KindOf, Rising, In, OnProse, Touched, SentencesAt, Paragraphs, Lines, StripFrom;
    var sentences := SentencesOf(LineKinds(), body);
    var out := StatementsOf(CodeRules(), body, ParagraphsOf(LineKinds(), body));
    OnProseMeans(body, a, e, k);
    SentencesPartitionProse(LineKinds(), body, k);
    RisingMeans(sentences, 0, |body|);
    StatementsAreExact(CodeRules().prose, body, sentences, 0);
    if Touched(out, k) { TouchedSentence(body, sentences, out, k); }
    forall s: Span {:trigger s in sentences} | s.start <= s.end <= |body|
      ensures CodeRules().prose(body[s.start..s.end]) <==> |Words(Trim(StripFrom(body[s.start..s.end], 0)))| >= 3
    {
    }
  }

  lemma TouchedSentence(body: string, sentences: seq<Span>, out: seq<Statement>, k: nat)
    requires Touched(out, k) && out == FlatMap(StatementsAt(CodeRules().prose, body), sentences)
    requires forall s | s in out :: Exact(body, s)
    requires forall s: Span {:trigger s in sentences} | s.start <= s.end <= |body| ::
      s in sentences && CodeRules().prose(body[s.start..s.end])
      <==> Statement(s.start, s.end, body[s.start..s.end]) in out
    ensures In(sentences, k)
  {
    hide FlatMap, CodeRules;
    var i :| 0 <= i < |out| && out[i].start <= k < out[i].end;
    assert out[i] in out;
    var s := Span(out[i].start, out[i].end);
    assert s.end <= |body| && out[i] == Statement(s.start, s.end, body[s.start..s.end]);
    assert s in sentences;
    var j :| 0 <= j < |sentences| && sentences[j] == s;
  }
}
