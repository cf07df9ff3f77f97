/**
 * Splitting a paragraph into sentences with exact spans (src/cross_supersede.rs). Positions count characters: every
 * test the code makes is on ASCII characters, which are single bytes of the UTF-8 text.
 */
module Sentences {
  import opened Prelude
  import opened Text

  datatype Span = Span(start: nat, end: nat)

  datatype Statement = Statement(start: nat, end: nat, text: string)

  // ---- inline markers

  predicate OpensMarker(s: string, i: nat)
    requires i < |s|
  {
    s[i] == '[' && i + 1 < |s| && s[i + 1] == '^' && IndexFrom(s, ']', i) < |s|
  }

  function StripFrom(s: string, i: nat): string
    requires i <= |s|
    decreases |s| - i
  {
    if i == |s| then ""
    else if OpensMarker(s, i) then StripFrom(s, IndexFrom(s, ']', i) + 1)
    else [s[i]] + StripFrom(s, i + 1)
  }

  /** Drops everything from `[^` to the next closing bracket. */
  method StripInlineMarkers(s: string) returns (out: string)
    ensures out == StripFrom(s, 0)
  {
    hide StripFrom;
    out := "";
    var i := 0;
    while i < |s|
      invariant 0 <= i <= |s|
      invariant StripFrom(s, 0) == out + StripFrom(s, i)
    {
      StripNext(s, i);
      if s[i] == '[' && i + 1 < |s| && s[i + 1] == '^' {
        var close := IndexFrom(s, ']', i);
        if close < |s| {
          i := close + 1;
          continue;
        }
      }
      out := out + [s[i]];
      i := i + 1;
    }
    StripEnds(s);
  }

  lemma StripNext(s: string, i: nat)
    requires i < |s|
    ensures StripFrom(s, i) ==
      if OpensMarker(s, i) then StripFrom(s, IndexFrom(s, ']', i) + 1) else [s[i]] + StripFrom(s, i + 1)
  {
  }

  lemma StripEnds(s: string)
    ensures StripFrom(s, |s|) == ""
  {
  }

  lemma {:induction false} NothingToStrip(s: string, i: nat)
    requires i <= |s| && forall k | i <= k < |s| :: !OpensMarker(s, k)
    ensures StripFrom(s, i) == s[i..]
    decreases |s| - i
  {
    if i < |s| { NothingToStrip(s, i + 1); }
  }

  /** Only what follows matters. */
  lemma {:induction false} StripSuffix(a: string, b: string, i: nat)
    requires i <= |b|
    ensures StripFrom(a + b, |a| + i) == StripFrom(b, i)
    decreases |b| - i
  {
    hide StripFrom, OpensMarker, IndexFrom;
    var s := a + b;
    if i < |b| {
      var e := IndexFrom(b, ']', i);
      SuffixOpens(a, b, i, e);
      StripNext(s, |a| + i);
      StripNext(b, i);
      if OpensMarker(b, i) {
        assert e < |b|;
        StripSuffix(a, b, e + 1);
        assert |a| + e + 1 == |a| + (e + 1);
      } else {
        StripSuffix(a, b, i + 1);
        assert |a| + i + 1 == |a| + (i + 1);
      }
    } else {
      StripEnds(s);
      StripEnds(b);
    }
  }

  lemma SuffixOpens(a: string, b: string, i: nat, e: nat)
    requires i < |b| && e == IndexFrom(b, ']', i)
    ensures var s := a + b;
      && s[|a| + i] == b[i] && IndexFrom(s, ']', |a| + i) == |a| + e
      && (OpensMarker(s, |a| + i) <==> OpensMarker(b, i)) && (OpensMarker(b, i) ==> e < |b|)
  {
    var s := a + b;
    assert forall k | 0 <= k < |b| :: s[|a| + k] == b[k];
    FirstAt(s, ']', |a| + i, |a| + e);
  }

  lemma FirstAt(s: string, c: char, i: nat, e: nat)
    requires i <= e <= |s| && (e < |s| ==> s[e] == c) && forall k | i <= k < e :: s[k] != c
    ensures IndexFrom(s, c, i) == e
  {
  }

  lemma MarkIsThere(s: string, i: nat)
    requires i + 1 < |s| && s[i] == '[' && s[i + 1] == '^'
    ensures Has(s, "[^")
  {
    assert OccursAt("[^", s, i);
  }

  lemma {:induction false} StripBefore(a: string, rest: string, i: nat)
    requires i <= |a| && !Has(a, "[^") && (a != "" && rest != "" && a[|a| - 1] == '[' ==> rest[0] != '^')
    ensures StripFrom(a + rest, i) == a[i..] + StripFrom(rest, 0)
    decreases |a| - i
  {
    var s := a + rest;
    if i == |a| {
      StripSuffix(a, rest, 0);
    } else {
      StripBefore(a, rest, i + 1);
      if OpensMarker(s, i) && i + 1 < |a| { MarkIsThere(a, i); }
    }
  }

  /**
   * A text without `[^` is left alone; of the first one everything up to the next closing bracket goes, and nothing if
   * there is none.
   */
  lemma StripMeans(a: string, m: string, b: string)
    requires !Has(a, "[^") && ']' !in m
    ensures StripFrom(a, 0) == a
    ensures StripFrom(a + ("[^" + m + "]" + b), 0) == a + StripFrom(b, 0)
    ensures StripFrom(a + ("[^" + m), 0) == a + ("[^" + m)
  {
    hide StripFrom;
    StripBefore(a, "", 0);
    StripEnds("");
    assert a + "" == a && a[0..] == a;
    StripBefore(a, "[^" + m + "]" + b, 0);
    MarkerGoes(m, b);
    StripBefore(a, "[^" + m, 0);
    NothingToStrip("[^" + m, 0);
  }

  lemma MarkerGoes(m: string, b: string)
    requires ']' !in m
    ensures StripFrom("[^" + m + "]" + b, 0) == StripFrom(b, 0)
  {
    var marker := "[^" + m + "]";
    var s := marker + b;
    assert forall k | 0 <= k < |marker| - 1 :: s[k] == marker[k] && (k > 1 ==> s[k] == m[k - 2] && m[k - 2] in m);
    FirstAt(s, ']', 0, |marker| - 1);
    StripSuffix(marker, b, 0);
  }

  function WordCount(s: string): nat
  {
    |Words(s)|
  }

  predicate IsProse(text: string)
  {
    WordCount(Trim(StripFrom(text, 0))) >= 3
  }

  // ---- sentences

  predicate IsTerminator(c: char)
  {
    c == '.' || c == '?' || c == '!'
  }

  predicate IsCloser(c: char)
  {
    c == ')' || c == '"' || c == '\''
  }

  /** The white space the splitter knows. */
  predicate IsGap(c: char)
  {
    c == ' ' || c == '\n' || c == '\t'
  }

  predicate StartsSentence(c: char)
  {
    'A' <= c <= 'Z' || c == '`'
  }

  function PastClosers(p: string, j: nat): (r: nat)
    requires j <= |p|
    ensures j <= r <= |p| && (forall k | j <= k < r :: IsCloser(p[k])) && (r < |p| ==> !IsCloser(p[r]))
    decreases |p| - j
  {
    if j < |p| && IsCloser(p[j]) then PastClosers(p, j + 1) else j
  }

  function PastGap(p: string, j: nat): (r: nat)
    requires j <= |p|
    ensures j <= r <= |p| && (forall k | j <= k < r :: IsGap(p[k])) && (r < |p| ==> !IsGap(p[r]))
    decreases |p| - j
  {
    if j < |p| && IsGap(p[j]) then PastGap(p, j + 1) else j
  }

  /** A sentence ends with the terminator at `i`: closers, white space and the start of a sentence follow. */
  predicate Ends(p: string, i: nat)
    requires i < |p|
  {
    && IsTerminator(p[i])
    && var j := PastClosers(p, i + 1);
       var k := PastGap(p, j);
       j < k < |p| && StartsSentence(p[k])
  }

  /** The segments of `p` between sentence ends, looking at every position from `i` on. */
  function Segments(p: string, from: nat, i: nat): seq<Span>
    requires from <= i <= |p|
    decreases |p| - i
  {
    if i == |p| then (if from < |p| then [Span(from, |p|)] else [])
    else if Ends(p, i) then
      var j := PastClosers(p, i + 1);
      var k := PastGap(p, j);
      [Span(from, j)] + Segments(p, k, k)
    else Segments(p, from, i + 1)
  }

  /** Long enough to be a statement of its own. */
  predicate Long(p: string, s: Span)
  {
    s.start <= s.end <= |p| && WordCount(StripFrom(Trim(p[s.start..s.end]), 0)) >= 4
  }

  function LongIn(p: string): Span -> bool
  {
    s => Long(p, s)
  }

  /** Within `p` from left to right: each span non-empty and not ending in white space, only white space between. */
  ghost predicate Tiles(p: string, from: nat, spans: seq<Span>)
    requires from <= |p|
    decreases |spans|
  {
    if spans == [] then forall k | from <= k < |p| :: IsGap(p[k])
    else
      && from <= spans[0].start < spans[0].end <= |p| && !IsGap(p[spans[0].end - 1])
      && (forall k | from <= k < spans[0].start :: IsGap(p[k]))
      && Tiles(p, spans[0].end, spans[1..])
  }

  lemma {:induction false} SegmentsTile(p: string, from: nat, i: nat)
    requires from <= i <= |p| && p != "" && !IsGap(p[|p| - 1])
    ensures Tiles(p, from, Segments(p, from, i))
    ensures Segments(p, from, i) != [] ==> Segments(p, from, i)[0].start == from
    decreases |p| - i
  {
    if i == |p| {
      if from < |p| { assert Segments(p, from, i)[1..] == []; }
    } else if Ends(p, i) {
      var j := PastClosers(p, i + 1);
      var k := PastGap(p, j);
      SegmentsTile(p, k, k);
      assert Segments(p, from, i)[1..] == Segments(p, k, k);
      TilesFrom(p, j, k, Segments(p, k, k));
    } else {
      SegmentsTile(p, from, i + 1);
    }
  }

  lemma TilesFrom(p: string, j: nat, k: nat, spans: seq<Span>)
    requires j <= k <= |p| && (forall x | j <= x < k :: IsGap(p[x])) && Tiles(p, k, spans)
    ensures Tiles(p, j, spans)
  {
  }

  /**
   * A sentence ends before `e`: `.`, `?` or `!` at `t`, then closing marks up to `e`, then white space, then a capital
   * letter or a backtick.
   */
  ghost predicate SentenceEnd(p: string, t: int, e: nat)
  {
    && 0 <= t < e <= |p| && p[t] in ".?!" && (forall k | t < k < e :: p[k] in ")\"'")
    && exists k :: e < k < |p| && (forall x | e <= x < k :: p[x] in " \n\t") && ('A' <= p[k] <= 'Z' || p[k] == '`')
  }

  lemma {:induction false} ClosersEnd(p: string, i: nat, e: nat)
    requires i <= e < |p| && (forall k | i <= k < e :: IsCloser(p[k])) && !IsCloser(p[e])
    ensures PastClosers(p, i) == e
    decreases e - i
  {
    hide IsCloser;
    if i < e { ClosersEnd(p, i + 1, e); }
  }

  lemma {:induction false} GapEnds(p: string, i: nat, e: nat)
    requires i <= e < |p| && (forall k | i <= k < e :: IsGap(p[k])) && !IsGap(p[e])
    ensures PastGap(p, i) == e
    decreases e - i
  {
    hide IsGap;
    if i < e { GapEnds(p, i + 1, e); }
  }

  lemma EndsMean(p: string, t: nat, e: nat)
    requires t < |p|
    ensures SentenceEnd(p, t, e) <==> Ends(p, t) && PastClosers(p, t + 1) == e
  {
    assert forall c: char :: IsCloser(c) <==> c in ")\"'";
    assert forall c: char :: IsGap(c) <==> c in " \n\t";
    assert forall c: char :: IsTerminator(c) <==> c in ".?!";
    if SentenceEnd(p, t, e) {
      hide IsCloser, IsGap, IsTerminator;
      var k :| e < k < |p| && (forall x | e <= x < k :: p[x] in " \n\t") && ('A' <= p[k] <= 'Z' || p[k] == '`');
      assert p[e] in " \n\t";
      ClosersEnd(p, t + 1, e);
      GapEnds(p, e, k);
    }
  }

  /** Segments end exactly where sentences do, and at the end. */
  lemma SegmentsEndWhereSentencesDo(p: string, from: nat, i: nat, e: nat)
    requires from <= i <= |p|
    ensures (exists s :: s in Segments(p, from, i) && s.end == e) <==>
      (e == |p| && Segments(p, from, i) != []) || exists t :: i <= t < |p| && SentenceEnd(p, t, e)
  {
    hide Segments, Ends, PastClosers, SentenceEnd;
    SegmentsEnd(p, from, i, e);
    forall t | i <= t < |p| ensures SentenceEnd(p, t, e) <==> Ends(p, t) && PastClosers(p, t + 1) == e {
      EndsMean(p, t, e);
    }
  }

  lemma {:induction false} SegmentsEnd(p: string, from: nat, i: nat, e: nat)
    requires from <= i <= |p|
    ensures (exists s :: s in Segments(p, from, i) && s.end == e) <==>
      (e == |p| && Segments(p, from, i) != []) || exists t :: i <= t < |p| && Ends(p, t) && PastClosers(p, t + 1) == e
    decreases |p| - i
  {
    if i < |p| && Ends(p, i) {
      var j := PastClosers(p, i + 1);
      var k := PastGap(p, j);
      assert Segments(p, from, i) == [Span(from, j)] + Segments(p, k, k);
      SegmentsEnd(p, k, k, e);
      LastSegment(p, k, k);
      forall t | i < t < k ensures !IsTerminator(p[t]) {
        assert if t < j then IsCloser(p[t]) else IsGap(p[t]);
      }
    } else if i < |p| {
      SegmentsEnd(p, from, i + 1, e);
    }
  }

  lemma {:induction false} LastSegment(p: string, from: nat, i: nat)
    requires from <= i <= |p| && from < |p|
    ensures Segments(p, from, i) != []
    decreases |p| - i
  {
    if i < |p| && !Ends(p, i) { LastSegment(p, from, i + 1); }
  }

  // ---- merging short segments forward

  /** The start of the group a segment at `start` falls into. */
  function Opened(open: Option<nat>, start: nat): nat
  {
    if open.Some? then open.value else start
  }

  /** One span up to every long segment, from the first segment after the previous one. */
  function Groups(long: Span -> bool, segs: seq<Span>, open: Option<nat>): seq<Span>
  {
    if segs == [] then []
    else
      var start := Opened(open, segs[0].start);
      if long(segs[0]) then [Span(start, segs[0].end)] + Groups(long, segs[1..], None)
      else Groups(long, segs[1..], Some(start))
  }

  function LastTo(spans: seq<Span>, end: nat): seq<Span>
    requires spans != []
  {
    spans[..|spans| - 1] + [Span(spans[|spans| - 1].start, end)]
  }

  /** Groups with a trailing short segment joined to the last one. */
  function Merged(long: Span -> bool, segs: seq<Span>, end: nat): seq<Span>
  {
    var groups := Groups(long, segs, None);
    if groups == [] then [Span(0, end)] else LastTo(groups, end)
  }

  function SentenceSpans(p: string): seq<Span>
  {
    Merged(LongIn(p), Segments(p, 0, 0), |p|)
  }

  /** Sentences tile the paragraph: no character other than white space is lost or counted twice. */
  lemma SentencesTile(p: string)
    requires p != "" && !IsGap(p[|p| - 1])
    ensures Tiles(p, 0, SentenceSpans(p))
  {
    SegmentsTile(p, 0, 0);
    MergedTile(p, LongIn(p), Segments(p, 0, 0));
  }

  lemma MergedTile(p: string, long: Span -> bool, segs: seq<Span>)
    requires p != "" && !IsGap(p[|p| - 1]) && Tiles(p, 0, segs) && (segs != [] ==> segs[0].start == 0)
    ensures Tiles(p, 0, Merged(long, segs, |p|))
  {
    hide IsGap;
    if Groups(long, segs, None) == [] {
      assert [Span(0, |p|)][1..] == [];
    } else {
      GroupsTile(p, long, 0, segs, None);
    }
  }

  lemma {:induction false} GroupsTile(p: string, long: Span -> bool, from: nat, segs: seq<Span>, open: Option<nat>)
    requires from <= |p| && p != "" && !IsGap(p[|p| - 1]) && Tiles(p, from, segs)
    requires open.Some? ==> open.value < from
    requires Groups(long, segs, open) != []
    ensures Groups(long, segs, open)[0].start == Opened(open, segs[0].start) < |p|
    ensures Tiles(p, Opened(open, segs[0].start), LastTo(Groups(long, segs, open), |p|))
    decreases |segs|
  {
    hide IsGap;
    var groups := Groups(long, segs, open);
    var start := Opened(open, segs[0].start);
    if long(segs[0]) {
      var rest := Groups(long, segs[1..], None);
      if rest == [] {
        assert LastTo(groups, |p|) == [Span(start, |p|)];
        assert [Span(start, |p|)][1..] == [];
      } else {
        GroupsTile(p, long, segs[0].end, segs[1..], None);
        TilesFrom(p, segs[0].end, segs[1].start, LastTo(rest, |p|));
        Prepended(Span(start, segs[0].end), rest, |p|);
      }
    } else {
      GroupsTile(p, long, segs[0].end, segs[1..], Some(start));
    }
  }

  lemma Prepended(s: Span, rest: seq<Span>, end: nat)
    requires rest != []
    ensures LastTo([s] + rest, end) == [s] + LastTo(rest, end) && LastTo([s] + rest, end)[1..] == LastTo(rest, end)
  {
  }

  /** Each group ends with a long segment. */
  lemma {:induction false} GroupsHoldLong(long: Span -> bool, segs: seq<Span>, open: Option<nat>, g: Span)
    requires g in Groups(long, segs, open)
    ensures exists s :: s in segs && long(s) && s.end == g.end
    decreases |segs|
  {
    var start := Opened(open, segs[0].start);
    if long(segs[0]) {
      if g != Span(start, segs[0].end) { GroupsHoldLong(long, segs[1..], None, g); }
    } else {
      GroupsHoldLong(long, segs[1..], Some(start), g);
    }
  }

  lemma {:induction false} NoGroups(long: Span -> bool, segs: seq<Span>, open: Option<nat>)
    ensures Groups(long, segs, open) == [] <==> forall i | 0 <= i < |segs| :: !long(segs[i])
    decreases |segs|
  {
    if segs != [] && !long(segs[0]) {
      NoGroups(long, segs[1..], Some(Opened(open, segs[0].start)));
      assert forall i | 0 < i < |segs| :: segs[i] == segs[1..][i - 1];
    }
  }

  /** A group before the last ends where a long segment does that another long one follows. */
  ghost predicate EndsBefore(long: Span -> bool, segs: seq<Span>, e: nat)
  {
    exists i, j :: 0 <= i < j < |segs| && long(segs[i]) && long(segs[j]) && segs[i].end == e
  }

  ghost predicate EndsEarlier(groups: seq<Span>, e: nat)
  {
    exists k :: 0 <= k < |groups| - 1 && groups[k].end == e
  }

  lemma EarlierStep(first: Span, rest: seq<Span>, e: nat)
    ensures EndsEarlier([first] + rest, e) <==> rest != [] && (first.end == e || EndsEarlier(rest, e))
  {
    var all := [first] + rest;
    if k :| 0 <= k < |all| - 1 && all[k].end == e && k > 0 { assert rest[k - 1].end == e; }
    if k :| 0 <= k < |rest| - 1 && rest[k].end == e { assert all[k + 1].end == e; }
    if rest != [] && first.end == e { assert all[0].end == e; }
  }

  lemma BeforeStep(long: Span -> bool, segs: seq<Span>, e: nat)
    requires segs != []
    ensures EndsBefore(long, segs, e) <==>
      EndsBefore(long, segs[1..], e)
      || (long(segs[0]) && segs[0].end == e && exists j :: 0 <= j < |segs[1..]| && long(segs[1..][j]))
  {
    var rest := segs[1..];
    if i, j :| 0 <= i < j < |segs| && long(segs[i]) && long(segs[j]) && segs[i].end == e {
      assert segs[j] == rest[j - 1];
      if i > 0 { assert segs[i] == rest[i - 1]; }
    }
    if i, j :| 0 <= i < j < |rest| && long(rest[i]) && long(rest[j]) && rest[i].end == e {
      assert rest[i] == segs[i + 1] && rest[j] == segs[j + 1];
    }
    if j :| 0 <= j < |rest| && long(rest[j]) { assert rest[j] == segs[j + 1]; }
  }

  lemma {:induction false} GroupsEndAtLong(long: Span -> bool, segs: seq<Span>, open: Option<nat>, e: nat)
    ensures EndsEarlier(Groups(long, segs, open), e) <==> EndsBefore(long, segs, e)
    decreases |segs|
  {
    hide EndsEarlier, EndsBefore;
    if segs == [] {
      NoneEnds(long, e);
    } else {
      BeforeStep(long, segs, e);
      var start := Opened(open, segs[0].start);
      if long(segs[0]) {
        var rest := Groups(long, segs[1..], None);
        GroupsEndAtLong(long, segs[1..], None, e);
        NoGroups(long, segs[1..], None);
        EarlierStep(Span(start, segs[0].end), rest, e);
        if rest == [] { EarlierNone(rest, e); }
      } else {
        GroupsEndAtLong(long, segs[1..], Some(start), e);
      }
    }
  }

  lemma EarlierNone(groups: seq<Span>, e: nat)
    requires groups == []
    ensures !EndsEarlier(groups, e)
  {
  }

  lemma NoneEnds(long: Span -> bool, e: nat)
    ensures !EndsEarlier([], e) && !EndsBefore(long, [], e)
  {
  }

  /** At least four words beside the markers. */
  predicate FourWords(p: string, s: Span)
  {
    s.start <= s.end <= |p| && |Words(StripFrom(Trim(p[s.start..s.end]), 0))| > 3
  }

  /**
   * Short segments go to the next sentence, and a trailing one to the last: a sentence ends before the end of the
   * paragraph exactly with a segment of four words that is not the last such.
   */
  lemma SentencesEndAtLong(p: string, e: nat)
    requires p != "" && !IsGap(p[|p| - 1]) && e < |p|
    ensures (exists s :: s in SentenceSpans(p) && s.end == e) <==>
      var segs := Segments(p, 0, 0);
      exists i, j :: 0 <= i < j < |segs| && FourWords(p, segs[i]) && FourWords(p, segs[j]) && segs[i].end == e
  {
    hide StripFrom, Segments, Groups, Trim, Words;
    var segs, long := Segments(p, 0, 0), LongIn(p);
    var groups, spans := Groups(long, segs, None), SentenceSpans(p);
    GroupsEndAtLong(long, segs, None, e);
    NoGroups(long, segs, None);
    assert forall s :: long(s) <==> FourWords(p, s);
    if s :| s in spans && s.end == e {
      var k :| 0 <= k < |spans| && spans[k] == s;
      assert k < |groups| - 1 && groups[k] == s;
    }
    if k :| 0 <= k < |groups| - 1 && groups[k].end == e {
      assert spans[k] == groups[k];
    }
  }

  lemma {:induction false} TilesInside(p: string, from: nat, spans: seq<Span>)
    requires from <= |p| && Tiles(p, from, spans)
    ensures forall k | 0 <= k < |spans| :: from <= spans[k].start < spans[k].end <= |p| && !IsGap(p[spans[k].end - 1])
    decreases |spans|
  {
    if spans != [] { TilesInside(p, spans[0].end, spans[1..]); }
  }

  lemma {:induction false} LastTile(p: string, from: nat, spans: seq<Span>)
    requires from <= |p| && p != "" && !IsGap(p[|p| - 1]) && Tiles(p, from, spans) && spans != []
    ensures spans[|spans| - 1].end == |p|
    decreases |spans|
  {
    if |spans| == 1 {
      assert spans[1..] == [];
    } else {
      LastTile(p, spans[0].end, spans[1..]);
    }
  }

  // ---- the two loops of the sentence splitter

  /** Finds the segments of a paragraph. */
  method FindSegments(p: string) returns (spans: seq<Span>)
    ensures spans == Segments(p, 0, 0)
  {
    spans := [];
    var from, i := 0, 0;
    while i < |p|
      invariant 0 <= from <= i <= |p|
      invariant Segments(p, 0, 0) == spans + Segments(p, from, i)
    {
      if IsTerminator(p[i]) {
        var j := i + 1;
        while j < |p| && IsCloser(p[j])
          invariant i + 1 <= j <= |p| && PastClosers(p, i + 1) == PastClosers(p, j)
        {
          j := j + 1;
        }
        var k := j;
        while k < |p| && IsGap(p[k])
          invariant j <= k <= |p| && PastGap(p, j) == PastGap(p, k)
        {
          k := k + 1;
        }
        if k > j && k < |p| && StartsSentence(p[k]) {
          spans := spans + [Span(from, j)];
          from, i := k, k;
          continue;
        }
      }
      i := i + 1;
    }
    if from < |p| {
      spans := spans + [Span(from, |p|)];
    }
  }

  lemma GroupsNext(long: Span -> bool, segs: seq<Span>, n: nat, open: Option<nat>)
    requires n < |segs|
    ensures var start := Opened(open, segs[n].start);
            Groups(long, segs[n..], open) ==
              if long(segs[n]) then [Span(start, segs[n].end)] + Groups(long, segs[n + 1..], None)
              else Groups(long, segs[n + 1..], Some(start))
  {
    assert segs[n..][0] == segs[n] && segs[n..][1..] == segs[n + 1..];
  }

  /** Joins a trailing short segment to the last group. */
  method CloseGroups(long: Span -> bool, spans: seq<Span>, end: nat, groups: seq<Span>, pending: Option<nat>)
    returns (merged: seq<Span>)
    requires groups == Groups(long, spans, None)
    requires pending.Some? && groups == [] ==> pending.value == 0
    requires pending.None? && groups != [] ==> groups[|groups| - 1].end == end
    ensures merged == Merged(long, spans, end)
  {
    merged := groups;
    if pending.Some? {
      if merged != [] {
        merged := merged[|merged| - 1 := Span(merged[|merged| - 1].start, end)];
      } else {
        merged := [Span(pending.value, end)];
      }
    }
    if merged == [] {
      merged := [Span(0, end)];
    }
  }

  /** Merges short segments into the following one. */
  method MergeShort(long: Span -> bool, spans: seq<Span>, end: nat) returns (merged: seq<Span>)
    requires spans != [] ==> spans[0].start == 0 && spans[|spans| - 1].end == end
    ensures merged == Merged(long, spans, end)
  {
    ghost var all := Groups(long, spans, None);
    merged := [];
    var pending: Option<nat> := None;
    assert spans[0..] == spans;
    for n := 0 to |spans|
      invariant all == merged + Groups(long, spans[n..], pending)
      invariant pending.None? && n > 0 ==> merged != [] && merged[|merged| - 1].end == spans[n - 1].end
      invariant pending.Some? && merged == [] ==> pending.value == 0
      invariant merged == [] && pending.None? ==> n == 0
    {
      var start := Opened(pending, spans[n].start);
      GroupsNext(long, spans, n, pending);
      if !long(spans[n]) {
        pending := Some(start);
      } else {
        ghost var rest := Groups(long, spans[n + 1..], None);
        assert merged + ([Span(start, spans[n].end)] + rest) == (merged + [Span(start, spans[n].end)]) + rest;
        merged := merged + [Span(start, spans[n].end)];
        pending := None;
      }
    }
    assert spans[|spans|..] == [];
    merged := CloseGroups(long, spans, end, merged, pending);
  }

  lemma SentencesInside(p: string)
    requires p != "" && !IsGap(p[|p| - 1])
    ensures forall k | 0 <= k < |SentenceSpans(p)| ::
      SentenceSpans(p)[k].start < SentenceSpans(p)[k].end <= |p| && !IsGap(p[SentenceSpans(p)[k].end - 1])
  {
    SentencesTile(p);
    TilesInside(p, 0, SentenceSpans(p));
  }

  /** Where a span ends without trailing white space. */
  function Trimmed(p: string, s: nat, e: nat): (r: nat)
    ensures s <= e <= |p| ==> s <= r <= e && (r > s ==> !IsGap(p[r - 1])) && forall k | r <= k < e :: IsGap(p[k])
  {
    if s < e <= |p| && IsGap(p[e - 1]) then Trimmed(p, s, e - 1) else e
  }

  method TrimmedEnd(p: string, s: nat, e: nat) returns (r: nat)
    requires s <= e <= |p|
    ensures r == Trimmed(p, s, e)
  {
    r := e;
    while r > s && IsGap(p[r - 1])
      invariant s <= r <= e && Trimmed(p, s, e) == Trimmed(p, s, r)
    {
      r := r - 1;
    }
  }

  /** The statement at a span of the part of `body` that starts at `start`. */
  function Located(body: string, start: nat, s: Span): Statement
    requires s.start <= s.end <= |body| - start
  {
    Statement(start + s.start, start + s.end, body[start + s.start..start + s.end])
  }

  ghost predicate AllLocated(body: string, start: nat, spans: seq<Span>, n: nat, out: seq<Statement>)
    requires n <= |spans|
  {
    && |out| == n
    && forall k | 0 <= k < n ::
         spans[k].start < spans[k].end <= |body| - start && out[k] == Located(body, start, spans[k])
  }

  method LocateAll(body: string, start: nat, end: nat, spans: seq<Span>) returns (out: seq<Statement>)
    requires start < end <= |body|
    requires forall k | 0 <= k < |spans| ::
      spans[k].start < spans[k].end <= end - start && !IsGap(body[start..end][spans[k].end - 1])
    ensures AllLocated(body, start, spans, |spans|, out)
  {
    var para := body[start..end];
    out := [];
    for n := 0 to |spans|
      invariant AllLocated(body, start, spans, n, out)
    {
      var s := spans[n].start;
      var e := TrimmedEnd(para, s, spans[n].end);
      assert e == spans[n].end;
      SliceOfSlice(body, start, end, s, e);
      out := out + [Statement(start + s, start + e, para[s..e])];
    }
  }

  method FindSentences(p: string) returns (sentences: seq<Span>)
    requires p != "" && !IsGap(p[|p| - 1])
    ensures sentences == SentenceSpans(p)
  {
    var spans := FindSegments(p);
    SegmentsTile(p, 0, 0);
    if spans != [] { LastTile(p, 0, spans); }
    sentences := MergeShort(LongIn(p), spans, |p|);
  }

  /** The sentences of `body[start..end]`, located in the body. */
  method SplitSentences(body: string, start: nat, end: nat) returns (out: seq<Statement>)
    requires start < end <= |body| && !IsGap(body[end - 1])
    ensures AllLocated(body, start, SentenceSpans(body[start..end]), |SentenceSpans(body[start..end])|, out)
  {
    var para := body[start..end];
    assert para[|para| - 1] == body[end - 1];
    var sentences := FindSentences(para);
    SentencesInside(para);
    out := LocateAll(body, start, end, sentences);
  }
}
