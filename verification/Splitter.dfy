/** Cutting an oversized block at semantic boundaries (src/chunker.rs). Budgets are in bytes of UTF-8. */
module Splitter {
  import opened Prelude
  import opened Text

  /** `char::len_utf8`. */
  function Width(c: char): (w: nat)
    ensures 1 <= w <= 4
  {
    var n := c as int;
    if n < 0x80 then 1 else if n < 0x800 then 2 else if n < 0x1_0000 then 3 else 4
  }

  /** The length in bytes. */
  function Len(s: string): nat
  {
    if s == "" then 0 else Width(s[0]) + Len(s[1..])
  }

  lemma {:induction false} LenConcat(a: string, b: string)
    ensures Len(a + b) == Len(a) + Len(b)
  {
    if a == "" {
      assert a + b == b;
    } else {
      LenConcat(a[1..], b);
      assert (a + b)[1..] == a[1..] + b;
    }
  }

  lemma LenSplit(s: string, i: nat)
    requires i <= |s|
    ensures Len(s) == Len(s[..i]) + Len(s[i..])
  {
    LenConcat(s[..i], s[i..]);
    assert s == s[..i] + s[i..];
  }

  /** How many of the first characters fit into `budget` bytes. */
  function Fitting(s: string, budget: int): (n: nat)
    ensures n <= |s|
  {
    if s == "" || Width(s[0]) > budget then 0 else 1 + Fitting(s[1..], budget - Width(s[0]))
  }

  /** The longest prefix within the budget. */
  lemma {:induction false} FittingIsLongest(s: string, budget: int)
    requires budget >= 0
    ensures Len(s[..Fitting(s, budget)]) <= budget
    ensures Fitting(s, budget) < |s| ==> Len(s[..Fitting(s, budget) + 1]) > budget
  {
    var n := Fitting(s, budget);
    if s != "" && Width(s[0]) <= budget {
      FittingIsLongest(s[1..], budget - Width(s[0]));
      assert s[..n][1..] == s[1..][..n - 1];
      assert n < |s| ==> s[..n + 1][1..] == s[1..][..n];
    }
  }

  /** `floor_char_boundary`: as much as fits, but at least one character. */
  function Limit(s: string, budget: nat): nat
  {
    var n := Fitting(s, budget);
    if n == 0 && s != "" then 1 else n
  }

  // ---- boundaries

  predicate EndsSentence(w: string, i: int)
  {
    0 <= i < |w| && (w[i] == '.' || w[i] == '?' || w[i] == '!') && (i + 1 == |w| || IsSpace(w[i + 1]))
  }

  /** The last newline of `w[..n]`. */
  function LastNewline(w: string, n: nat): (r: Option<nat>)
    requires n <= |w|
    ensures r.Some? ==> r.value < n && w[r.value] == '\n' && forall k | r.value < k < n :: w[k] != '\n'
    ensures r.None? ==> forall k | 0 <= k < n :: w[k] != '\n'
  {
    if n == 0 then None else if w[n - 1] == '\n' then Some(n - 1) else LastNewline(w, n - 1)
  }

  /** The last sentence end of `w[..n]`. */
  function LastSentence(w: string, n: nat): (r: Option<nat>)
    requires n <= |w|
    ensures r.Some? ==> r.value < n && EndsSentence(w, r.value) && forall k | r.value < k < n :: !EndsSentence(w, k)
    ensures r.None? ==> forall k | 0 <= k < n :: !EndsSentence(w, k)
  {
    if n == 0 then None else if EndsSentence(w, n - 1) then Some(n - 1) else LastSentence(w, n - 1)
  }

  /** The last white space of `w[..n]`. */
  function LastSpace(w: string, n: nat): (r: Option<nat>)
    requires n <= |w|
    ensures r.Some? ==> r.value < n && IsSpace(w[r.value]) && forall k | r.value < k < n :: !IsSpace(w[k])
    ensures r.None? ==> forall k | 0 <= k < n :: !IsSpace(w[k])
  {
    if n == 0 then None else if IsSpace(w[n - 1]) then Some(n - 1) else LastSpace(w, n - 1)
  }

  /** Scans forward for the last sentence end; the result is the position after it. */
  method LastSentenceBoundary(w: string) returns (candidate: Option<nat>)
    ensures candidate == match LastSentence(w, |w|) case Some(i) => Some(i + 1) case None => None
  {
    candidate := None;
    for i := 0 to |w|
      invariant candidate == match LastSentence(w, i) case Some(k) => Some(k + 1) case None => None
    {
      if (w[i] == '.' || w[i] == '?' || w[i] == '!') && (i + 1 == |w| || IsSpace(w[i + 1])) {
        candidate := Some(i + 1);
      }
    }
  }

  /** Where to cut the window: after a newline, else after a sentence, else before a space, else at its end. */
  function Cut(w: string): (cut: nat)
    ensures cut <= |w|
  {
    match LastNewline(w, |w|)
    case Some(i) => i + 1
    case None =>
      match LastSentence(w, |w|)
      case Some(i) => i + 1
      case None =>
        match LastSpace(w, |w|)
        case Some(i) => i
        case None => |w|
  }

  /** The kind of boundary a cut is at, best first. */
  datatype Boundary = AfterLine | AfterSentence | BeforeSpace | InsideToken

  ghost predicate At(w: string, kind: Boundary, cut: int)
  {
    match kind
    case AfterLine => 0 < cut <= |w| && w[cut - 1] == '\n'
    case AfterSentence => 0 < cut <= |w| && w[cut - 1] in ".?!" && (cut < |w| ==> IsSpace(w[cut]))
    case BeforeSpace => 0 <= cut < |w| && IsSpace(w[cut])
    case InsideToken => cut == |w|
  }

  ghost predicate Better(a: Boundary, b: Boundary)
  {
    match a
    case AfterLine => b != AfterLine
    case AfterSentence => b == BeforeSpace || b == InsideToken
    case BeforeSpace => b == InsideToken
    case InsideToken => false
  }

  /** The cut is the last one of the best kind there is; inside a token only when the window is one. */
  lemma CutIsBest(w: string) returns (kind: Boundary)
    ensures At(w, kind, Cut(w))
    ensures forall other, cut | At(w, other, cut) :: !Better(other, kind) && (other == kind ==> cut <= Cut(w))
  {
    match LastNewline(w, |w|) {
      case Some(i) =>
        kind := AfterLine;
        forall cut | At(w, AfterLine, cut) ensures cut <= Cut(w) {
          assert w[cut - 1] == '\n';
        }
      case None =>
        forall cut ensures !At(w, AfterLine, cut) {
          if 0 < cut <= |w| { assert w[cut - 1] != '\n'; }
        }
        match LastSentence(w, |w|) {
          case Some(i) =>
            kind := AfterSentence;
            forall cut | At(w, AfterSentence, cut) ensures cut <= Cut(w) {
              assert EndsSentence(w, cut - 1);
            }
          case None =>
            forall cut ensures !At(w, AfterSentence, cut) {
              if 0 < cut <= |w| { assert !EndsSentence(w, cut - 1); }
            }
            kind := if LastSpace(w, |w|).Some? then BeforeSpace else InsideToken;
        }
    }
  }

  /** The widest character of a text. */
  function Widest(s: string): nat
  {
    if s == "" then 0
    else
      var rest := Widest(s[1..]);
      if Width(s[0]) > rest then Width(s[0]) else rest
  }

  lemma {:induction false} WidestOfTail(s: string, i: nat)
    requires i <= |s|
    ensures Widest(s[i..]) <= Widest(s)
  {
    if i > 0 {
      WidestOfTail(s[1..], i - 1);
      assert s[1..][i - 1..] == s[i..];
    }
  }

  function AtMost(s: string, budget: nat): nat
  {
    if Widest(s) > budget then Widest(s) else budget
  }

  // ---- the splitter

  /** What is not yet split: no white space at either end, so a cut always advances. */
  ghost predicate Tight(s: string)
  {
    s == "" || (!IsSpace(s[0]) && !IsSpace(s[|s| - 1]))
  }

  lemma CutAdvances(s: string, budget: nat)
    requires Tight(s) && Len(s) > budget
    ensures s != "" && !IsSpace(s[0]) && 0 < Cut(s[..Limit(s, budget)]) <= Limit(s, budget) <= |s|
    ensures Len(s[..Limit(s, budget)]) <= AtMost(s, budget)
  {
    hide IsSpace, Fitting;
    AtLeastOneFits(s, budget);
    CutIsPositive(s[..Limit(s, budget)]);
  }

  lemma CutIsPositive(w: string)
    requires w != "" && !IsSpace(w[0])
    ensures Cut(w) > 0
  {
    hide IsSpace;
  }

  lemma AtLeastOneFits(s: string, budget: nat)
    requires s != ""
    ensures 0 < Limit(s, budget) <= |s| && Len(s[..Limit(s, budget)]) <= AtMost(s, budget)
  {
    var n := Limit(s, budget);
    FittingIsLongest(s, budget);
    if Width(s[0]) > budget {
      assert s[..1][1..] == "";
    }
  }

  lemma RestIsTight(s: string, cut: nat)
    requires Tight(s) && cut <= |s|
    ensures Tight(TrimStart(s[cut..])) && |TrimStart(s[cut..])| <= |s| - cut
    ensures Solid(TrimStart(s[cut..])) == Solid(s[cut..])
  {
    hide IsSpace, Solid, TrimStart, Blank;
    var tail := s[cut..];
    var b := TrimStartSlice(tail);
    assert b < |tail| ==> tail[b..][0] == tail[b] && tail[b..][|tail| - b - 1] == s[|s| - 1];
    assert tail == tail[..b] + tail[b..];
    SolidConcat(tail[..b], tail[b..]);
    SolidBlank(tail[..b]);
  }

  /** Trimming drops white space only. */
  lemma TrimKeepsText(s: string)
    ensures Solid(Trim(s)) == Solid(s) && Len(Trim(s)) <= Len(s)
  {
    hide Trim, Solid, IsSpace, Len;
    var b, e := TrimSlice(s);
    SolidBlank(s[..b]);
    SolidBlank(s[e..]);
    SolidConcat(s[..b], s[b..e]);
    SolidConcat(s[..e], s[e..]);
    assert s[..b] + s[b..e] == s[..e] && s[..e] + s[e..] == s;
    LenConcat(s[..b], s[b..e]);
    LenConcat(s[..e], s[e..]);
  }

  lemma TrimIsTight(s: string)
    ensures Tight(Trim(s))
    ensures Tight(s) && s != "" ==> Trim(s) == s
  {
    var b, e := TrimSlice(s);
    if s != "" {
      assert b > 0 ==> IsSpace(s[..b][0]) && s[..b][0] == s[0];
      assert e < |s| ==> IsSpace(s[e..][|s| - e - 1]) && s[e..][|s| - e - 1] == s[|s| - 1];
    }
  }

  /** A text that starts with a character is not trimmed away. */
  lemma PartIsNotEmpty(s: string, cut: nat)
    requires s != "" && !IsSpace(s[0]) && 0 < cut <= |s|
    ensures Trim(s[..cut]) != ""
  {
    assert s[..cut][0] == s[0];
  }

  function CutAt(s: string, budget: nat): nat
  {
    var n := Limit(s, budget);
    if n <= |s| then Cut(s[..n]) else 0
  }

  function First(s: string, budget: nat): string
  {
    var cut := CutAt(s, budget);
    if cut <= |s| then Trim(s[..cut]) else s
  }

  function Rest(s: string, budget: nat): string
  {
    var cut := CutAt(s, budget);
    if cut <= |s| then TrimStart(s[cut..]) else s
  }

  /** One step: a non-empty part within the budget, a shorter rest, and no character lost. */
  lemma Step(s: string, budget: nat)
    requires Tight(s) && Len(s) > budget
    ensures s != "" && 0 < CutAt(s, budget) <= Limit(s, budget) <= |s|
    ensures var first, rest := First(s, budget), Rest(s, budget);
            && first != "" && Tight(first) && Tight(rest) && |rest| < |s|
            && Solid(s) == Solid(first) + Solid(rest)
            && Len(first) <= AtMost(s, budget) && Widest(rest) <= Widest(s)
  {
    hide TrimStart, Trim, IsSpace, Solid, Cut, Fitting, Len, Widest, Limit, Blank, Tight;
    CutAdvances(s, budget);
    var cut, n := CutAt(s, budget), Limit(s, budget);
    var tail := s[cut..];
    RestIsTight(s, cut);
    PartIsNotEmpty(s, cut);
    TrimIsTight(s[..cut]);
    TrimKeepsText(s[..cut]);
    LenSplit(s[..n], cut);
    assert s[..n][..cut] == s[..cut];
    SolidConcat(s[..cut], tail);
    assert s == s[..cut] + tail;
    WidestOfTail(s, cut);
    WidestOfTail(tail, |tail| - |Rest(s, budget)|);
    assert tail[|tail| - |Rest(s, budget)|..] == Rest(s, budget);
  }

  /** The parts of the remaining text. */
  ghost function PartsOf(s: string, budget: nat): seq<string>
    requires Tight(s)
    decreases |s|
  {
    if Len(s) <= budget then (if s == "" then [] else [s])
    else
      Step(s, budget);
      [First(s, budget)] + PartsOf(Rest(s, budget), budget)
  }

  /** Parts keep the text: the characters other than white space, in order. */
  lemma {:induction false} PartsKeepText(s: string, budget: nat)
    requires Tight(s)
    ensures Solid(Concat(PartsOf(s, budget))) == Solid(s)
    decreases |s|
  {
    hide First, Rest, Solid, Len;
    if Len(s) <= budget {
      if s != "" { ConcatNext(s, []); }
      EmptyText();
    } else {
      Step(s, budget);
      var rest := PartsOf(Rest(s, budget), budget);
      PartsKeepText(Rest(s, budget), budget);
      ConcatNext(First(s, budget), rest);
      SolidConcat(First(s, budget), Concat(rest));
    }
  }

  lemma ConcatNext(part: string, rest: seq<string>)
    ensures Concat([part] + rest) == part + Concat(rest)
    ensures rest == [] ==> Concat([part]) == part
  {
    assert ([part] + rest)[1..] == rest;
    assert [part][1..] == [];
  }

  lemma EmptyText()
    ensures Len("") == 0 && Concat([]) == "" && Solid("") == ""
  {
  }

  /** Every part is non-empty, trimmed, and no larger than the budget or than one character. */
  lemma {:induction false} PartsFit(s: string, budget: nat, k: nat)
    requires Tight(s) && k < |PartsOf(s, budget)|
    ensures var part := PartsOf(s, budget)[k];
            part != "" && Tight(part) && Len(part) <= AtMost(s, budget)
    decreases |s|
  {
    hide First, Rest, Len, Widest;
    if Len(s) > budget {
      Step(s, budget);
      if k > 0 { PartsFit(Rest(s, budget), budget, k - 1); }
    }
  }

  // ---- where each part ends

  /** The window of the first `n` characters: as many as fit, or one. */
  ghost predicate IsWindow(s: string, budget: nat, n: nat)
  {
    0 < n <= |s| && (Len(s[..n]) <= budget || n == 1) && (n < |s| ==> Len(s[..n + 1]) > budget)
  }

  ghost predicate IsBest(w: string, kind: Boundary, cut: nat)
  {
    At(w, kind, cut) && forall other, c | At(w, other, c) :: !Better(other, kind) && (other == kind ==> c <= cut)
  }

  /** `part` is what the text starts with up to the last boundary of the best kind of its window; `rest` follows a gap. */
  ghost predicate CutBest(s: string, budget: nat, part: string, rest: string)
  {
    exists n, kind, cut, gap :: CutsAt(s, budget, n, kind, cut, gap, part, rest)
  }

  ghost predicate CutsAt(s: string, budget: nat, n: nat, kind: Boundary, cut: nat, gap: string, part: string, rest: string)
  {
    && IsWindow(s, budget, n) && cut <= n <= |s| && IsBest(s[..n], kind, cut)
    && part == Trim(s[..cut]) && s == s[..cut] + gap + rest && Blank(gap)
  }

  lemma WindowIsLongest(s: string, budget: nat)
    requires s != ""
    ensures IsWindow(s, budget, Limit(s, budget))
  {
    FittingIsLongest(s, budget);
    if Fitting(s, budget) == 0 && |s| > 1 {
      assert s[..1][1..] == "";
      LongerIsMore(s, 1);
    }
  }

  lemma LongerIsMore(s: string, n: nat)
    requires n < |s|
    ensures Len(s[..n + 1]) == Len(s[..n]) + Width(s[n])
  {
    LenConcat(s[..n], [s[n]]);
    assert s[..n + 1] == s[..n] + [s[n]];
    assert Len([s[n]][1..]) == 0;
  }

  lemma StepCutsBest(s: string, budget: nat)
    requires Tight(s) && Len(s) > budget
    ensures CutBest(s, budget, First(s, budget), Rest(s, budget))
  {
    hide *;
    CutAdvances(s, budget);
    WindowIsLongest(s, budget);
    var n := Limit(s, budget);
    var kind := BestOf(s[..n]);
    var cut, gap := FirstAndRest(s, budget);
    CutsAtMeans(s, budget, n, kind, cut, gap, First(s, budget), Rest(s, budget));
  }

  lemma BestOf(w: string) returns (kind: Boundary)
    ensures IsBest(w, kind, Cut(w))
  {
    hide At, Better, Cut;
    kind := CutIsBest(w);
  }

  lemma FirstAndRest(s: string, budget: nat) returns (cut: nat, gap: string)
    requires Limit(s, budget) <= |s|
    ensures cut == Cut(s[..Limit(s, budget)]) <= |s| && First(s, budget) == Trim(s[..cut])
    ensures s == s[..cut] + gap + Rest(s, budget) && Blank(gap)
  {
    hide Cut, Trim, TrimStart, Limit, Blank;
    cut := CutAt(s, budget);
    var tail := s[cut..];
    var b := TrimStartSlice(tail);
    gap := tail[..b];
    assert s == s[..cut] + tail[..b] + tail[b..];
  }

  lemma CutsAtMeans(s: string, budget: nat, n: nat, kind: Boundary, cut: nat, gap: string, part: string, rest: string)
    requires IsWindow(s, budget, n) && cut <= n <= |s| && IsBest(s[..n], kind, cut)
    requires part == Trim(s[..cut]) && s == s[..cut] + gap + rest && Blank(gap)
    ensures CutBest(s, budget, part, rest)
  {
    hide IsWindow, IsBest, Trim, Blank;
    assert CutsAt(s, budget, n, kind, cut, gap, part, rest);
  }

  ghost predicate EndsWell(s: string, budget: nat, part: string, rest: string)
  {
    if Len(s) <= budget then part == s && rest == "" else CutBest(s, budget, part, rest)
  }

  /**
   * `rests` is what was left before each part: first all, in the end nothing. A part is all that was left if that fits,
   * and else ends at the best cut of its window.
   */
  lemma {:induction false} PartsEndAtBestCuts(s: string, budget: nat) returns (rests: seq<string>)
    requires Tight(s)
    ensures var parts := PartsOf(s, budget);
      && |rests| == |parts| + 1 && rests[0] == s && rests[|parts|] == ""
      && forall k | 0 <= k < |parts| :: EndsWell(rests[k], budget, parts[k], rests[k + 1])
    decreases |s|
  {
    hide First, Rest, Len, CutBest, Tight;
    EmptyText();
    if Len(s) <= budget {
      rests := if s == "" then [s] else [s, ""];
    } else {
      Step(s, budget);
      StepCutsBest(s, budget);
      var later := PartsEndAtBestCuts(Rest(s, budget), budget);
      rests := [s] + later;
      var parts, last := PartsOf(s, budget), PartsOf(Rest(s, budget), budget);
      assert parts == [First(s, budget)] + last;
      forall k | 0 <= k < |parts| ensures EndsWell(rests[k], budget, parts[k], rests[k + 1]) {
        if k > 0 { assert EndsWell(later[k - 1], budget, last[k - 1], later[k]); }
      }
    }
  }

  /** Splits at newlines, then sentences, then words; a token is only cut when it exceeds the budget itself. */
  method SplitAtSemanticBoundaries(text: string, limit: nat) returns (parts: seq<string>)
    ensures Tight(Trim(text)) && parts == PartsOf(Trim(text), if limit == 0 then 1 else limit)
  {
    hide First, Rest, Len, Trim, Cut, Solid, TrimStart, Limit;
    TrimIsTight(text);
    var budget := if limit == 0 then 1 else limit;
    var remaining := Trim(text);
    EmptyText();
    if remaining == "" { return []; }
    parts := [];
    while Len(remaining) > budget
      invariant Tight(remaining)
      invariant PartsOf(Trim(text), budget) == parts + PartsOf(remaining, budget)
      decreases |remaining|
    {
      Step(remaining, budget);
      var part, rest := NextPart(remaining, budget);
      if part != "" {
        parts := parts + [part];
      }
      remaining := rest;
    }
    TrimIsTight(remaining);
    TrimEmpty();
    if Trim(remaining) != "" {
      parts := parts + [Trim(remaining)];
    }
  }

  lemma TrimEmpty()
    ensures Trim("") == ""
  {
  }

  method NextPart(remaining: string, budget: nat) returns (part: string, rest: string)
    requires Limit(remaining, budget) <= |remaining|
    ensures part == First(remaining, budget) && rest == Rest(remaining, budget)
  {
    var window := remaining[..Limit(remaining, budget)];
    var sentence := LastSentenceBoundary(window);
    var split := match LastNewline(window, |window|)
      case Some(i) => i + 1
      case None =>
        match sentence
        case Some(after) => after
        case None =>
          match LastSpace(window, |window|)
          case Some(i) => i
          case None => |window|;
    part := Trim(remaining[..split]);
    rest := TrimStart(remaining[split..]);
  }
}
