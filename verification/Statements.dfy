/** Splitting a guide body into prose statements (src/cross_supersede.rs). */
module Statements {
  import opened Prelude
  import opened Text
  import opened Sentences

  // ---- the lines of a body

  datatype Kind = Heading(seeAlso: bool) | BlankLine | Comment | Prose

  function WithoutHashes(s: string): string
  {
    if s != "" && s[0] == '#' then WithoutHashes(s[1..]) else s
  }

  function KindOf(line: string): Kind
  {
    var trimmed := Trim(line);
    if trimmed != "" && trimmed[0] == '#' then
      Heading(EqualsIgnoringCase(Trim(WithoutHashes(trimmed)), "see also"))
    else if trimmed == "" then BlankLine
    else if "<!--" <= trimmed then Comment
    else Prose
  }

  /** A line, and whether it is prose outside the See Also section. */
  datatype Line = Line(start: nat, end: nat, prose: bool)

  function Lines(kind: string -> Kind, body: string, from: nat, seeAlso: bool): seq<Line>
    requires from <= |body|
    decreases |body| - from
  {
    if from == |body| then []
    else
      var end := LineEnd(body, from);
      var k := kind(body[from..end]);
      var inside := if k.Heading? then k.seeAlso else seeAlso;
      [Line(from, end, k.Prose? && !seeAlso)] + Lines(kind, body, end, inside)
  }

  // ---- paragraphs

  /** The paragraph of the lines gathered so far. */
  function Paragraph(body: string, open: Option<Span>): seq<Span>
  {
    if open.None? then []
    else
      var e := Trimmed(body, open.value.start, open.value.end);
      if e > open.value.start then [Span(open.value.start, e)] else []
  }

  function Extended(open: Option<Span>, line: Line): Span
  {
    Span(if open.Some? then open.value.start else line.start, line.end)
  }

  function Paragraphs(body: string, lines: seq<Line>, open: Option<Span>): seq<Span>
  {
    if lines == [] then Paragraph(body, open)
    else if lines[0].prose then Paragraphs(body, lines[1..], Some(Extended(open, lines[0])))
    else Paragraph(body, open) + Paragraphs(body, lines[1..], None)
  }

  // ---- statements

  function Shifted(start: nat, spans: seq<Span>): (r: seq<Span>)
    ensures |r| == |spans| && forall k | 0 <= k < |r| :: r[k] == Span(start + spans[k].start, start + spans[k].end)
  {
    seq(|spans|, k requires 0 <= k < |spans| => Span(start + spans[k].start, start + spans[k].end))
  }

  /** How a paragraph is split, and which sentences are worth comparing. */
  datatype Rules = Rules(split: string -> seq<Span>, prose: string -> bool)

  function CodeRules(): Rules
  {
    Rules(p => SentenceSpans(p), t => IsProse(t))
  }

  /** The sentences of a paragraph, located in the body. */
  function SentencesAt(split: string -> seq<Span>, body: string, para: Span): seq<Span>
  {
    if para.start <= para.end <= |body| then Shifted(para.start, split(body[para.start..para.end])) else []
  }

  function SentencesIn(split: string -> seq<Span>, body: string): Span -> seq<Span>
  {
    para => SentencesAt(split, body, para)
  }

  /** A sentence worth comparing becomes a statement. */
  function StatementAt(prose: string -> bool, body: string, s: Span): seq<Statement>
  {
    if s.start <= s.end <= |body| && prose(body[s.start..s.end]) then
      [Statement(s.start, s.end, body[s.start..s.end])]
    else []
  }

  function StatementsAt(prose: string -> bool, body: string): Span -> seq<Statement>
  {
    s => StatementAt(prose, body, s)
  }

  function AllSentences(rules: Rules, body: string, paras: seq<Span>): seq<Span>
  {
    FlatMap(SentencesIn(rules.split, body), paras)
  }

  function StatementsOf(rules: Rules, body: string, paras: seq<Span>): seq<Statement>
  {
    FlatMap(StatementsAt(rules.prose, body), AllSentences(rules, body, paras))
  }

  lemma StatementsConcat(rules: Rules, body: string, a: seq<Span>, b: seq<Span>)
    ensures StatementsOf(rules, body, a + b) == StatementsOf(rules, body, a) + StatementsOf(rules, body, b)
  {
    FlatMapConcat(SentencesIn(rules.split, body), a, b);
    FlatMapConcat(StatementsAt(rules.prose, body), AllSentences(rules, body, a), AllSentences(rules, body, b));
  }

  lemma StatementsOfOne(rules: Rules, body: string, para: Span)
    ensures StatementsOf(rules, body, [para])
         == FlatMap(StatementsAt(rules.prose, body), SentencesAt(rules.split, body, para))
  {
    FlatMapOne(SentencesIn(rules.split, body), para);
    assert SentencesIn(rules.split, body)(para) == SentencesAt(rules.split, body, para);
  }

  // ---- the loops

  lemma LocatedStatement(rules: Rules, body: string, s: nat, e: nat, sentences: seq<Statement>, k: nat)
    requires s <= e <= |body| && k < |SentencesAt(rules.split, body, Span(s, e))|
    requires AllLocated(body, s, rules.split(body[s..e]), |rules.split(body[s..e])|, sentences)
    ensures k < |sentences| && StatementsAt(rules.prose, body)(SentencesAt(rules.split, body, Span(s, e))[k]) ==
      if rules.prose(sentences[k].text) then [sentences[k]] else []
  {
    assert sentences[k] == Located(body, s, rules.split(body[s..e])[k]);
  }

  method KeepProse(prose: string -> bool, ghost f: Span -> seq<Statement>, ghost spans: seq<Span>,
                   sentences: seq<Statement>, out: seq<Statement>)
    returns (out': seq<Statement>)
    requires |spans| == |sentences|
    requires forall k | 0 <= k < |spans| :: f(spans[k]) == if prose(sentences[k].text) then [sentences[k]] else []
    ensures out' == out + FlatMap(f, spans)
  {
    out' := out;
    assert spans[0..] == spans;
    for n := 0 to |sentences|
      invariant out' + FlatMap(f, spans[n..]) == out + FlatMap(f, spans)
    {
      FlatMapNext(f, spans, n);
      ghost var rest := FlatMap(f, spans[n + 1..]);
      assert out' + (f(spans[n]) + rest) == (out' + f(spans[n])) + rest;
      if prose(sentences[n].text) {
        out' := out' + [sentences[n]];
      }
    }
  }

  /** Adds the statements of the paragraph gathered so far. */
  method Flush(body: string, open: Option<Span>, out: seq<Statement>) returns (out': seq<Statement>)
    requires open.Some? ==> open.value.start <= open.value.end <= |body|
    ensures out' == out + StatementsOf(CodeRules(), body, Paragraph(body, open))
  {
    out' := out;
    if open.Some? {
      var s := open.value.start;
      var e := TrimmedEnd(body, s, open.value.end);
      if e > s {
        var sentences := SplitSentences(body, s, e);
        out' := AddSentences(CodeRules(), body, s, e, sentences, out);
      }
    }
  }

  method AddSentences(rules: Rules, body: string, s: nat, e: nat, sentences: seq<Statement>, out: seq<Statement>)
    returns (out': seq<Statement>)
    requires s <= e <= |body|
    requires AllLocated(body, s, rules.split(body[s..e]), |rules.split(body[s..e])|, sentences)
    ensures out' == out + StatementsOf(rules, body, [Span(s, e)])
  {
    ghost var spans := SentencesAt(rules.split, body, Span(s, e));
    ghost var f := StatementsAt(rules.prose, body);
    forall k | 0 <= k < |spans|
      ensures k < |sentences| && f(spans[k]) == if rules.prose(sentences[k].text) then [sentences[k]] else []
    {
      LocatedStatement(rules, body, s, e, sentences, k);
    }
    out' := KeepProse(rules.prose, f, spans, sentences, out);
    StatementsOfOne(rules, body, Span(s, e));
  }

  function LineKinds(): string -> Kind
  {
    line => KindOf(line)
  }

  function ParagraphsOf(kind: string -> Kind, body: string): seq<Span>
  {
    Paragraphs(body, Lines(kind, body, 0, false), None)
  }

  /** The statements of the lines from `from` on, when `open` is the paragraph gathered so far. */
  ghost function Left(
      rules: Rules, kind: string -> Kind, body: string, from: nat, seeAlso: bool, open: Option<Span>): seq<Statement>
    requires from <= |body|
  {
    StatementsOf(rules, body, Paragraphs(body, Lines(kind, body, from, seeAlso), open))
  }

  lemma LeftStep(rules: Rules, kind: string -> Kind, body: string, from: nat, seeAlso: bool, open: Option<Span>)
    requires from < |body|
    ensures var end := LineEnd(body, from);
            var k := kind(body[from..end]);
            Left(rules, kind, body, from, seeAlso, open) ==
              if k.Prose? && !seeAlso then
                Left(rules, kind, body, end, seeAlso, Some(Span(if open.Some? then open.value.start else from, end)))
              else
                StatementsOf(rules, body, Paragraph(body, open))
                + Left(rules, kind, body, end, if k.Heading? then k.seeAlso else seeAlso, None)
  {
    var end := LineEnd(body, from);
    var k := kind(body[from..end]);
    var inside := if k.Heading? then k.seeAlso else seeAlso;
    var lines, rest := Lines(kind, body, from, seeAlso), Lines(kind, body, end, inside);
    assert lines[0] == Line(from, end, k.Prose? && !seeAlso) && lines[1..] == rest;
    StatementsConcat(rules, body, Paragraph(body, open), Paragraphs(body, rest, None));
  }

  lemma LeftEnds(rules: Rules, kind: string -> Kind, body: string, seeAlso: bool, open: Option<Span>)
    ensures Left(rules, kind, body, 0, false, None) == StatementsOf(rules, body, ParagraphsOf(kind, body))
    ensures Left(rules, kind, body, |body|, seeAlso, open) == StatementsOf(rules, body, Paragraph(body, open))
  {
  }

  /** Walks the lines, grouping prose until a boundary. */
  method WalkLines(kind: string -> Kind, body: string) returns (out: seq<Statement>)
    ensures out == StatementsOf(CodeRules(), body, ParagraphsOf(kind, body))
  {
    hide *;
    ghost var rules := CodeRules();
    ghost var all := Left(rules, kind, body, 0, false, None);
    out := [];
    var seeAlso := false;
    var open: Option<Span> := None;
    var from := 0;
    while from < |body|
      invariant 0 <= from <= |body|
      invariant open.Some? ==> open.value.start < open.value.end == from
      invariant all == out + Left(rules, kind, body, from, seeAlso, open)
    {
      LeftStep(rules, kind, body, from, seeAlso, open);
      var start := from;
      from := LineEnd(body, start);
      var k := kind(body[start..from]);
      if k.Prose? && !seeAlso {
        open := Some(Span(if open.Some? then open.value.start else start, from));
      } else {
        out := Flush(body, open, out);
        open := None;
        if k.Heading? {
          seeAlso := k.seeAlso;
        }
      }
    }
    out := Flush(body, open, out);
    LeftEnds(rules, kind, body, seeAlso, open);
  }

  method SplitStatements(body: string) returns (out: seq<Statement>)
    ensures out == StatementsOf(CodeRules(), body, ParagraphsOf(LineKinds(), body))
  {
    out := WalkLines(LineKinds(), body);
  }

  // ---- spans from left to right

  ghost predicate Rising(spans: seq<Span>, lo: nat, hi: nat)
    decreases |spans|
  {
    if spans == [] then lo <= hi
    else lo <= spans[0].start < spans[0].end <= hi && Rising(spans[1..], spans[0].end, hi)
  }

  lemma {:induction false} RisingConcat(a: seq<Span>, b: seq<Span>, lo: nat, mid: nat, hi: nat)
    requires Rising(a, lo, mid) && Rising(b, mid, hi)
    ensures Rising(a + b, lo, hi)
    decreases |a|
  {
    if a == [] {
      assert a + b == b;
      RisingWider(b, mid, lo, hi);
    } else {
      RisingConcat(a[1..], b, a[0].end, mid, hi);
      assert (a + b)[1..] == a[1..] + b;
      RisingWider(b, mid, mid, hi);
    }
  }

  lemma {:induction false} RisingWider(s: seq<Span>, lo: nat, lower: nat, hi: nat)
    requires Rising(s, lo, hi) && lower <= lo
    ensures Rising(s, lower, hi) && lo <= hi
    decreases |s|
  {
    if s != [] { RisingWider(s[1..], s[0].end, s[0].end, hi); }
  }

  lemma {:induction false} RisingMeans(s: seq<Span>, lo: nat, hi: nat)
    requires Rising(s, lo, hi)
    ensures forall i | 0 <= i < |s| :: lo <= s[i].start < s[i].end <= hi
    ensures forall i, j | 0 <= i < j < |s| :: s[i].end <= s[j].start
    decreases |s|
  {
    if s != [] {
      RisingMeans(s[1..], s[0].end, hi);
      forall i | 0 <= i < |s| ensures lo <= s[i].start < s[i].end <= hi {
        if i > 0 { assert s[i] == s[1..][i - 1]; }
      }
      forall i, j | 0 <= i < j < |s| ensures s[i].end <= s[j].start {
        assert s[j] == s[1..][j - 1];
        if i > 0 { assert s[i] == s[1..][i - 1]; }
      }
    }
  }

  // ---- paragraphs hold exactly the prose lines

  ghost predicate Chain(lines: seq<Line>, from: nat, to: nat)
    decreases |lines|
  {
    if lines == [] then from == to
    else lines[0].start == from < lines[0].end <= to && Chain(lines[1..], lines[0].end, to)
  }

  /** The lines cover the body without gap or overlap. */
  lemma {:induction false} LinesChain(kind: string -> Kind, body: string, from: nat, seeAlso: bool)
    requires from <= |body|
    ensures Chain(Lines(kind, body, from, seeAlso), from, |body|)
    decreases |body| - from
  {
    if from < |body| {
      var end := LineEnd(body, from);
      var k := kind(body[from..end]);
      var inside := if k.Heading? then k.seeAlso else seeAlso;
      LinesChain(kind, body, end, inside);
      assert Lines(kind, body, from, seeAlso)[1..] == Lines(kind, body, end, inside);
    }
  }

  ghost predicate OnProse(lines: seq<Line>, k: nat)
  {
    exists i :: 0 <= i < |lines| && lines[i].prose && lines[i].start <= k < lines[i].end
  }

  lemma OnProseStep(lines: seq<Line>, k: nat)
    requires lines != []
    ensures OnProse(lines, k) <==> (lines[0].prose && lines[0].start <= k < lines[0].end) || OnProse(lines[1..], k)
  {
    if i :| 0 <= i < |lines| && lines[i].prose && lines[i].start <= k < lines[i].end && i > 0 {
      assert lines[i] == lines[1..][i - 1];
    }
    if i :| 0 <= i < |lines[1..]| && lines[1..][i].prose && lines[1..][i].start <= k < lines[1..][i].end {
      assert lines[1..][i] == lines[i + 1];
    }
  }

  ghost predicate In(spans: seq<Span>, k: nat)
  {
    exists i :: 0 <= i < |spans| && spans[i].start <= k < spans[i].end
  }

  lemma InConcat(a: seq<Span>, b: seq<Span>, k: nat)
    ensures In(a + b, k) <==> In(a, k) || In(b, k)
  {
    if i :| 0 <= i < |a| && a[i].start <= k < a[i].end { assert (a + b)[i] == a[i]; }
    if i :| 0 <= i < |b| && b[i].start <= k < b[i].end { assert (a + b)[|a| + i] == b[i]; }
  }

  ghost predicate InOpen(open: Option<Span>, k: nat)
  {
    open.Some? && open.value.start <= k < open.value.end
  }

  ghost predicate EndSolid(body: string, spans: seq<Span>)
  {
    forall i | 0 <= i < |spans| :: 0 < spans[i].end <= |body| && !IsGap(body[spans[i].end - 1])
  }

  lemma ParagraphHolds(body: string, open: Option<Span>, k: nat)
    requires open.Some? ==> open.value.start < open.value.end <= |body|
    requires k < |body|
    ensures In(Paragraph(body, open), k) ==> InOpen(open, k)
    ensures InOpen(open, k) && !IsGap(body[k]) ==> In(Paragraph(body, open), k)
    ensures EndSolid(body, Paragraph(body, open))
    ensures open.Some? ==> Rising(Paragraph(body, open), open.value.start, open.value.end)
    ensures open.None? ==> Paragraph(body, open) == []
  {
    if open.Some? {
      var e := Trimmed(body, open.value.start, open.value.end);
      if e > open.value.start {
        assert Paragraph(body, open)[0] == Span(open.value.start, e);
      }
    }
  }

  /** Paragraphs are in order and hold the prose lines and nothing else, up to white space at their ends. */
  lemma {:induction false} ParagraphsHoldProse(body: string, lines: seq<Line>, from: nat, open: Option<Span>, k: nat)
    requires from <= |body| && Chain(lines, from, |body|) && k < |body|
    requires open.Some? ==> open.value.start < open.value.end == from
    ensures var paras := Paragraphs(body, lines, open);
            && Rising(paras, if open.Some? then open.value.start else from, |body|) && EndSolid(body, paras)
            && (In(paras, k) ==> InOpen(open, k) || OnProse(lines, k))
            && ((InOpen(open, k) || OnProse(lines, k)) && !IsGap(body[k]) ==> In(paras, k))
    decreases |lines|
  {
    hide Trimmed, Paragraph, In, OnProse, EndSolid, Rising;
    if lines == [] {
      ParagraphHolds(body, open, k);
      EmptyRises(from, |body|);
      NoLine(k);
    } else {
      var l := lines[0];
      OnProseStep(lines, k);
      if l.prose {
        ParagraphsHoldProse(body, lines[1..], l.end, Some(Extended(open, l)), k);
      } else {
        ParagraphsHoldProse(body, lines[1..], l.end, None, k);
        AtBoundary(body, from, open, l.end, Paragraphs(body, lines[1..], None), k);
      }
    }
  }

  lemma EmptyRises(lo: nat, hi: nat)
    requires lo <= hi
    ensures Rising([], lo, hi)
  {
  }

  /** A boundary line closes the paragraph before it. */
  lemma AtBoundary(body: string, from: nat, open: Option<Span>, next: nat, rest: seq<Span>, k: nat)
    requires from <= next <= |body| && k < |body| && Rising(rest, next, |body|) && EndSolid(body, rest)
    requires open.Some? ==> open.value.start < open.value.end == from
    ensures var paras := Paragraph(body, open) + rest;
            && Rising(paras, if open.Some? then open.value.start else from, |body|) && EndSolid(body, paras)
            && (In(paras, k) ==> InOpen(open, k) || In(rest, k))
            && ((InOpen(open, k) && !IsGap(body[k])) || In(rest, k) ==> In(paras, k))
  {
    hide Trimmed, Paragraph, In, EndSolid, Rising;
    var para := Paragraph(body, open);
    ParagraphHolds(body, open, k);
    InConcat(para, rest, k);
    EndSolidConcat(body, para, rest);
    RisingWider(rest, next, from, |body|);
    if open.Some? {
      RisingConcat(para, rest, open.value.start, from, |body|);
    } else {
      assert para + rest == rest;
    }
  }

  lemma EndSolidConcat(body: string, a: seq<Span>, b: seq<Span>)
    requires EndSolid(body, a) && EndSolid(body, b)
    ensures EndSolid(body, a + b)
  {
  }

  lemma NoLine(k: nat)
    ensures !OnProse([], k)
  {
  }

  // ---- sentences cover the paragraphs

  /** What the sentence splitter promises about any paragraph. */
  ghost predicate Splits(split: string -> seq<Span>)
  {
    forall p | p != "" && !IsGap(p[|p| - 1]) :: Tiles(p, 0, split(p))
  }

  lemma SentencesSplit()
    ensures Splits(CodeRules().split)
  {
    forall p | p != "" && !IsGap(p[|p| - 1]) ensures Tiles(p, 0, CodeRules().split(p)) {
      SentencesTile(p);
    }
  }

  lemma {:induction false} TilesRise(p: string, from: nat, spans: seq<Span>, start: nat)
    requires from <= |p| && Tiles(p, from, spans)
    ensures Rising(Shifted(start, spans), start + from, start + |p|)
    decreases |spans|
  {
    if spans != [] {
      TilesRise(p, spans[0].end, spans[1..], start);
      assert Shifted(start, spans)[1..] == Shifted(start, spans[1..]);
    }
  }

  lemma {:induction false} TilesCover(p: string, from: nat, spans: seq<Span>, k: nat)
    requires from <= k < |p| && Tiles(p, from, spans)
    ensures !IsGap(p[k]) ==> In(spans, k)
    decreases |spans|
  {
    if spans != [] {
      if k < spans[0].end {
        assert k >= spans[0].start ==> In(spans, k);
      } else {
        TilesCover(p, spans[0].end, spans[1..], k);
        assert spans == [spans[0]] + spans[1..];
        InConcat([spans[0]], spans[1..], k);
      }
    }
  }

  /** The sentences of one paragraph tile it. */
  lemma SentencesAtTile(split: string -> seq<Span>, body: string, para: Span, k: nat)
    requires Splits(split) && para.start < para.end <= |body| && !IsGap(body[para.end - 1]) && k < |body|
    ensures var spans := SentencesAt(split, body, para);
            && Rising(spans, para.start, para.end)
            && (In(spans, k) ==> para.start <= k < para.end)
            && (para.start <= k < para.end && !IsGap(body[k]) ==> In(spans, k))
  {
    hide Tiles, In, Rising, Splits;
    var p, spans := body[para.start..para.end], SentencesAt(split, body, para);
    assert p[|p| - 1] == body[para.end - 1];
    TiledBy(split, p);
    TilesRise(p, 0, split(p), para.start);
    assert spans == Shifted(para.start, split(p));
    RisingBounds(spans, para.start, para.end, k);
    if para.start <= k < para.end && !IsGap(body[k]) {
      assert p[k - para.start] == body[k];
      TilesCover(p, 0, split(p), k - para.start);
      InShifted(split(p), para.start, k - para.start);
    }
  }

  lemma TiledBy(split: string -> seq<Span>, p: string)
    requires Splits(split) && p != "" && !IsGap(p[|p| - 1])
    ensures Tiles(p, 0, split(p))
  {
  }

  lemma InShifted(spans: seq<Span>, start: nat, k: nat)
    requires In(spans, k)
    ensures In(Shifted(start, spans), start + k)
  {
    var i :| 0 <= i < |spans| && spans[i].start <= k < spans[i].end;
    assert Shifted(start, spans)[i] == Span(start + spans[i].start, start + spans[i].end);
  }

  lemma RisingBounds(spans: seq<Span>, lo: nat, hi: nat, k: nat)
    requires Rising(spans, lo, hi)
    ensures In(spans, k) ==> lo <= k < hi
  {
    RisingMeans(spans, lo, hi);
  }

  lemma {:induction false} AllSentencesTile(rules: Rules, body: string, paras: seq<Span>, lo: nat, k: nat)
    requires Splits(rules.split) && Rising(paras, lo, |body|) && EndSolid(body, paras) && k < |body|
    ensures var spans := AllSentences(rules, body, paras);
            && Rising(spans, lo, |body|)
            && (In(spans, k) ==> In(paras, k))
            && (In(paras, k) && !IsGap(body[k]) ==> In(spans, k))
    decreases |paras|
  {
    hide SentencesAt, Splits, In;
    if paras == [] {
      NoSpan(k);
    } else {
      var para := paras[0];
      var first, rest := SentencesAt(rules.split, body, para), AllSentences(rules, body, paras[1..]);
      SentencesAtTile(rules.split, body, para, k);
      AllSentencesTile(rules, body, paras[1..], para.end, k);
      assert SentencesIn(rules.split, body)(para) == first;
      RisingWider(first, para.start, lo, para.end);
      RisingConcat(first, rest, lo, para.end, |body|);
      InConcat(first, rest, k);
      assert paras == [para] + paras[1..];
      InConcat([para], paras[1..], k);
      InOne(para, k);
    }
  }

  lemma NoSpan(k: nat)
    ensures !In([], k)
  {
  }

  lemma InOne(s: Span, k: nat)
    ensures In([s], k) <==> s.start <= k < s.end
  {
    if s.start <= k < s.end { assert [s][0] == s; }
  }

  // ---- what the splitter promises

  function TextOf(body: string, l: Line): string
    requires l.start <= l.end <= |body|
  {
    body[l.start..l.end]
  }

  /** Looking back from line `i`: whether the nearest heading opens the See Also section. */
  ghost predicate UnderSeeAlso(kind: string -> Kind, body: string, lines: seq<Line>, i: nat, before: bool)
    requires i <= |lines| && forall j | 0 <= j < |lines| :: lines[j].start <= lines[j].end <= |body|
  {
    if i == 0 then before
    else
      var k := kind(TextOf(body, lines[i - 1]));
      if k.Heading? then k.seeAlso else UnderSeeAlso(kind, body, lines, i - 1, before)
  }

  /** Prose lines are those of that kind whose nearest heading above is not See Also. */
  lemma {:induction false} ProseLineMeans(kind: string -> Kind, body: string, from: nat, seeAlso: bool, i: nat)
    requires from <= |body| && i < |Lines(kind, body, from, seeAlso)|
    ensures var lines := Lines(kind, body, from, seeAlso);
            && (forall j | 0 <= j < |lines| :: lines[j].start <= lines[j].end <= |body|)
            && (lines[i].prose <==>
                kind(TextOf(body, lines[i])).Prose? && !UnderSeeAlso(kind, body, lines, i, seeAlso))
    decreases |body| - from
  {
    var end := LineEnd(body, from);
    var k := kind(body[from..end]);
    var inside := if k.Heading? then k.seeAlso else seeAlso;
    var lines, rest := Lines(kind, body, from, seeAlso), Lines(kind, body, end, inside);
    assert lines[1..] == rest;
    LinesInside(kind, body, from, seeAlso);
    if i > 0 {
      ProseLineMeans(kind, body, end, inside, i - 1);
      BackOneLine(kind, body, lines, i, seeAlso, inside);
    }
  }

  lemma LinesInside(kind: string -> Kind, body: string, from: nat, seeAlso: bool)
    requires from <= |body|
    ensures var lines := Lines(kind, body, from, seeAlso);
            forall j | 0 <= j < |lines| :: lines[j].start <= lines[j].end <= |body|
  {
    LinesChain(kind, body, from, seeAlso);
    ChainInside(Lines(kind, body, from, seeAlso), from, |body|);
  }

  lemma {:induction false} ChainInside(lines: seq<Line>, from: nat, to: nat)
    requires Chain(lines, from, to)
    ensures forall j | 0 <= j < |lines| :: lines[j].start <= lines[j].end <= to
    decreases |lines|
  {
    if lines != [] {
      ChainInside(lines[1..], lines[0].end, to);
      assert forall j | 0 < j < |lines| :: lines[j] == lines[1..][j - 1];
    }
  }

  lemma {:induction false} BackOneLine(
      kind: string -> Kind, body: string, lines: seq<Line>, i: nat, before: bool, after: bool)
    requires 0 < i <= |lines| && forall j | 0 <= j < |lines| :: lines[j].start <= lines[j].end <= |body|
    requires var k := kind(TextOf(body, lines[0])); after == if k.Heading? then k.seeAlso else before
    ensures UnderSeeAlso(kind, body, lines, i, before) == UnderSeeAlso(kind, body, lines[1..], i - 1, after)
    decreases i
  {
    if i > 1 {
      BackOneLine(kind, body, lines, i - 1, before, after);
      assert lines[1..][i - 2] == lines[i - 1];
    }
  }

  /** The sentences the splitter looks at. */
  ghost function SentencesOf(kind: string -> Kind, body: string): seq<Span>
  {
    AllSentences(CodeRules(), body, ParagraphsOf(kind, body))
  }

  /**
   * Sentences are disjoint and in order; every character of a prose line that is not white space is in one, and
   * no character of any other line is.
   */
  lemma SentencesPartitionProse(kind: string -> Kind, body: string, k: nat)
    requires k < |body|
    ensures var spans, lines := SentencesOf(kind, body), Lines(kind, body, 0, false);
            && Rising(spans, 0, |body|)
            && (In(spans, k) ==> OnProse(lines, k))
            && (OnProse(lines, k) && !IsGap(body[k]) ==> In(spans, k))
  {
    hide Rising, In, OnProse, CodeRules, AllSentences, Paragraphs, Lines;
    LinesChain(kind, body, 0, false);
    ParagraphsHoldProse(body, Lines(kind, body, 0, false), 0, None, k);
    SentencesSplit();
    AllSentencesTile(CodeRules(), body, ParagraphsOf(kind, body), 0, k);
  }

  /** A statement is exactly the text of its span. */
  ghost predicate Exact(body: string, s: Statement)
  {
    s.start < s.end <= |body| && s.text == body[s.start..s.end]
  }

  /** The statements are the sentences worth comparing, in order, with exact and disjoint spans. */
  lemma {:induction false} StatementsAreExact(prose: string -> bool, body: string, spans: seq<Span>, lo: nat)
    requires Rising(spans, lo, |body|)
    ensures var out := FlatMap(StatementsAt(prose, body), spans);
            && (forall s | s in out :: Exact(body, s) && lo <= s.start && prose(s.text))
            && (forall i, j | 0 <= i < j < |out| :: out[i].end <= out[j].start)
            && (forall s: Span {:trigger s in spans} | s.start <= s.end <= |body| ::
                  s in spans && prose(body[s.start..s.end])
                  <==> Statement(s.start, s.end, body[s.start..s.end]) in out)
    decreases |spans|
  {
    if spans != [] {
      var first, rest := StatementAt(prose, body, spans[0]), FlatMap(StatementsAt(prose, body), spans[1..]);
      var out := FlatMap(StatementsAt(prose, body), spans);
      StatementsAreExact(prose, body, spans[1..], spans[0].end);
      assert out == first + rest;
      forall i, j | 0 <= i < j < |out| ensures out[i].end <= out[j].start {
        assert out[j] == rest[j - |first|];
        if i >= |first| { assert out[i] == rest[i - |first|]; } else { assert rest[j - |first|] in rest; }
      }
      assert forall s :: s in spans <==> s == spans[0] || s in spans[1..];
    }
  }
}
