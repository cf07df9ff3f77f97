/**
 * What is done to a guide body when it is saved: citation markers are hidden in comments and a See Also section
 * without visible text is dropped (src/wiki.rs). Texts are bytes here, as in `CitationMarkers`.
 */
module Publishing {
  import opened Prelude
  import opened Text
  import opened CitationMarkers

  // ---- hiding bare markers

  /** A bare marker: all up to the first closing bracket, if the id between is not empty and has no space. */
  predicate Bare(s: string)
  {
    && |s| > 1 && s[0] == '[' && s[1] == '^'
    && var close := IndexFrom(s, ']', 0);
       2 < close < |s| && ' ' !in s[2..close]
  }

  /** The text with its bare markers in comments; `inside` says whether it starts in a comment. */
  function Hidden(s: string, inside: bool): string
  {
    if s == "" then ""
    else if !inside && "<!--" <= s then "<!--" + Hidden(s[4..], true)
    else if inside && "-->" <= s then "-->" + Hidden(s[3..], false)
    else if !inside && Bare(s) then
      var e := IndexFrom(s, ']', 0) + 1;
      "<!-- " + s[..e] + " -->" + Hidden(s[e..], false)
    else [s[0]] + Hidden(s[1..], inside)
  }

  /** The length of the character that starts with byte `b`. */
  function Utf8Len(b: char): (n: nat)
    ensures n > 0
  {
    if b < '\U{80}' then 1
    else if '\U{C0}' <= b < '\U{E0}' then 2
    else if '\U{E0}' <= b < '\U{F0}' then 3
    else if '\U{F0}' <= b < '\U{F8}' then 4
    else 1
  }

  /** Every character is complete: its further bytes follow its first one. */
  ghost predicate Utf8(s: string)
  {
    forall i | 0 <= i < |s| ::
      i + Utf8Len(s[i]) <= |s| && forall k | i < k < i + Utf8Len(s[i]) :: '\U{80}' <= s[k] < '\U{C0}'
  }

  /** Nothing happens at the first byte but that it is copied. */
  predicate Ordinary(s: string, inside: bool)
  {
    s != "" && (if inside then !("-->" <= s) else !("<!--" <= s) && !Bare(s))
  }

  lemma CopyOne(s: string, inside: bool)
    requires Ordinary(s, inside)
    ensures Hidden(s, inside) == [s[0]] + Hidden(s[1..], inside)
  {
  }

  lemma HighByte(s: string, inside: bool)
    requires s != "" && '\U{80}' <= s[0]
    ensures Ordinary(s, inside)
  {
  }

  lemma {:induction false} CopiedBytes(s: string, n: nat, inside: bool)
    requires n <= |s| && forall k | 0 <= k < n :: '\U{80}' <= s[k]
    ensures Hidden(s, inside) == s[..n] + Hidden(s[n..], inside)
  {
    hide Hidden, Ordinary;
    if n == 0 {
      assert s[0..] == s;
    } else {
      HighByte(s, inside);
      CopyOne(s, inside);
      CopiedBytes(s[1..], n - 1, inside);
      assert s[1..][n - 1..] == s[n..] && s[..n] == [s[0]] + s[1..][..n - 1];
    }
  }

  /** Copying a character at a time is copying its bytes. */
  lemma CopiedCharacter(body: string, i: nat, inside: bool)
    requires Utf8(body) && i < |body| && Ordinary(body[i..], inside)
    ensures var n := Utf8Len(body[i]);
      i + n <= |body| && Hidden(body[i..], inside) == body[i..i + n] + Hidden(body[i + n..], inside)
  {
    hide Hidden, Ordinary;
    var s, n := body[i..], Utf8Len(body[i]);
    CopyOne(s, inside);
    assert s[1..] == body[i + 1..];
    CopiedBytes(s[1..], n - 1, inside);
    assert s[1..][n - 1..] == body[i + n..] && [s[0]] + s[1..][..n - 1] == body[i..i + n];
  }

  /** What the scan is going to return when it has written `out` and stands at `i`. */
  ghost function Outcome(out: string, body: string, i: nat, inside: bool): string
    requires i <= |body|
  {
    out + Hidden(body[i..], inside)
  }

  lemma OutcomeStep(out: string, body: string, i: nat, inside: bool, piece: string, j: nat, next: bool)
    requires i <= |body| && j <= |body| && Hidden(body[i..], inside) == piece + Hidden(body[j..], next)
    ensures Outcome(out, body, i, inside) == Outcome(out + piece, body, j, next)
  {
    hide Hidden;
    assert out + (piece + Hidden(body[j..], next)) == (out + piece) + Hidden(body[j..], next);
  }

  lemma OutcomeEnds(body: string, out: string, inside: bool)
    ensures Outcome("", body, 0, false) == Hidden(body, false) && Outcome(out, body, |body|, inside) == out
  {
    assert body[0..] == body && body[|body|..] == "";
  }

  method HideBareCitationMarkers(body: string) returns (out: string)
    requires Utf8(body)
    ensures out == Hidden(body, false)
  {
    hide *;
    out := "";
    var i: nat, inside := 0, false;
    OutcomeEnds(body, out, inside);
    while i < |body|
      invariant i <= |body| && Hidden(body, false) == Outcome(out, body, i, inside)
    {
      if !inside && "<!--" <= body[i..] {
        JumpOpens(body, i);
        OutcomeStep(out, body, i, false, "<!--", i + 4, true);
        inside, out, i := true, out + "<!--", i + 4;
        continue;
      }
      if inside && "-->" <= body[i..] {
        JumpCloses(body, i);
        OutcomeStep(out, body, i, true, "-->", i + 3, false);
        inside, out, i := false, out + "-->", i + 3;
        continue;
      }
      if !inside && Bare(body[i..]) {
        JumpWraps(body, i);
        var e := IndexFrom(body, ']', i) + 1;
        var piece := "<!-- " + body[i..e] + " -->";
        OutcomeStep(out, body, i, false, piece, e, false);
        out, i := out + piece, e;
        continue;
      }
      IsOrdinary(body[i..], inside);
      CopiedCharacter(body, i, inside);
      var n := Utf8Len(body[i]);
      OutcomeStep(out, body, i, inside, body[i..i + n], i + n, inside);
      out, i := out + body[i..i + n], i + n;
    }
    OutcomeEnds(body, out, inside);
  }

  lemma IsOrdinary(s: string, inside: bool)
    requires s != "" && !(!inside && "<!--" <= s) && !(inside && "-->" <= s) && !(!inside && Bare(s))
    ensures Ordinary(s, inside)
  {
  }

  lemma JumpOpens(body: string, i: nat)
    requires i <= |body| && "<!--" <= body[i..]
    ensures Hidden(body[i..], false) == "<!--" + Hidden(body[i + 4..], true)
  {
    assert body[i..][4..] == body[i + 4..];
  }

  lemma JumpCloses(body: string, i: nat)
    requires i <= |body| && "-->" <= body[i..]
    ensures Hidden(body[i..], true) == "-->" + Hidden(body[i + 3..], false)
  {
    assert body[i..][3..] == body[i + 3..];
  }

  lemma {:induction false} IndexInSlice(body: string, c: char, i: nat, j: nat)
    requires i <= j <= |body|
    ensures IndexFrom(body[i..], c, j - i) == IndexFrom(body, c, j) - i
    decreases |body| - j
  {
    if j < |body| { IndexInSlice(body, c, i, j + 1); }
  }

  lemma Wraps(s: string)
    requires Bare(s)
    ensures var e := IndexFrom(s, ']', 0) + 1;
      e <= |s| && Hidden(s, false) == "<!-- " + s[..e] + " -->" + Hidden(s[e..], false)
  {
    hide IndexFrom;
    assert s[0] == '[';
  }

  lemma JumpWraps(body: string, i: nat)
    requires i <= |body| && Bare(body[i..])
    ensures var e := IndexFrom(body, ']', i) + 1;
      i < e <= |body| && Hidden(body[i..], false) == "<!-- " + body[i..e] + " -->" + Hidden(body[e..], false)
  {
    hide Hidden, Bare, IndexFrom;
    Wraps(body[i..]);
    IndexInSlice(body, ']', i, i);
    var e := IndexFrom(body, ']', i) + 1;
    assert body[i..][..e - i] == body[i..e] && body[i..][e - i..] == body[e..];
  }

  // ---- hiding keeps the markers

  lemma SameBytes(x: string, s: string)
    requires x <= s
    ensures forall k | 0 <= k < |x| :: x[k] == s[k]
  {
  }

  lemma CommentOpens(x: string, s: string)
    requires IsTail(x) && ("<!--" <= s || "-->" <= s)
    ensures !(x <= s)
  {
    assert s[0] == '<' || (s[0] == '-' && s[1] == '-' && s[2] == '>');
    assert x[0] == ']' || |x| > 1;
    if x <= s {
      SameBytes(x, s);
      assert false;
    }
  }

  lemma {:induction false} TailStays(s: string, inside: bool, x: string)
    requires IsTail(x)
    ensures x <= s <==> x <= Hidden(s, inside)
    decreases |s|
  {
    var r := Hidden(s, inside);
    PrefixStep(x, s);
    PrefixStep(x, r);
    if |x| > 1 { TailOfTail(x); }
    if s == "" {
    } else if !inside && "<!--" <= s {
      CommentOpens(x, s);
      CommentOpens(x, r);
    } else if inside && "-->" <= s {
      CommentOpens(x, s);
      CommentOpens(x, r);
    } else if !inside && Bare(s) {
      assert r[0] == '<';
    } else {
      assert r[0] == s[0] && r[1..] == Hidden(s[1..], inside);
      if |x| > 1 { TailStays(s[1..], inside, x[1..]); }
    }
  }

  /** A comment mark in front hides and makes no marker. */
  lemma PastMark(mark: string, rest: string, m: string)
    requires IsMarker(m) && (mark == "<!--" || mark == "-->")
    ensures Has(mark + rest, m) <==> Has(rest, m)
  {
    if p :| OccursAt(m, mark + rest, p) {
      assert (mark + rest)[p] == '[';
      assert (mark + rest)[p..p + |m|] == rest[p - |mark|..p - |mark| + |m|];
      assert OccursAt(m, rest, p - |mark|);
    }
    if p :| OccursAt(m, rest, p) { OccursInConcat(mark, rest, m, p); }
  }

  /** Text up to a closing bracket and the text after it have the markers of the whole. */
  lemma AfterBracket(a: string, rest: string, m: string)
    requires IsMarker(m) && a != "" && a[|a| - 1] == ']'
    ensures Has(a + rest, m) <==> Has(a, m) || Has(rest, m)
  {
    var t := a + rest;
    if p :| OccursAt(m, t, p) {
      if p + |m| <= |a| {
        assert t[p..p + |m|] == a[p..p + |m|];
        assert OccursAt(m, a, p);
      } else if p < |a| {
        RunsOn(a, rest, m, p);
        IdBytesArePlain(a[|a| - 1]);
        assert false;
      } else {
        assert t[p..p + |m|] == rest[p - |a|..p - |a| + |m|];
        assert OccursAt(m, rest, p - |a|);
      }
    }
    if p :| OccursAt(m, a, p) { OccursInConcat(a, rest, m, p); }
    if p :| OccursAt(m, rest, p) { OccursInConcat(a, rest, m, p); }
  }

  lemma Wrapped(a: string, rest: string)
    ensures Markers("<!-- " + a + " -->" + rest) == Markers(a) + Markers(rest)
  {
    NoMarkers("<!--");
    NoMarkers("--");
    var close := "--" + ['>'] + rest;
    MarkersAcross("--", '>', rest);
    MarkersAcross(a, ' ', close);
    MarkersAcross("<!--", ' ', a + [' '] + close);
    assert "<!-- " + a + " -->" + rest == "<!--" + [' '] + (a + [' '] + close);
  }

  lemma {:induction false} HidingKeepsOccurrence(s: string, inside: bool, m: string)
    requires IsMarker(m)
    ensures Has(s, m) <==> Has(Hidden(s, inside), m)
    decreases |s|
  {
    hide IsMarker, Has, Markers, IsTail;
    var r := Hidden(s, inside);
    if s == "" {
    } else if !inside && "<!--" <= s {
      HidingKeepsOccurrence(s[4..], true, m);
      PastMark("<!--", s[4..], m);
      PastMark("<!--", Hidden(s[4..], true), m);
      assert s == "<!--" + s[4..];
    } else if inside && "-->" <= s {
      HidingKeepsOccurrence(s[3..], false, m);
      PastMark("-->", s[3..], m);
      PastMark("-->", Hidden(s[3..], false), m);
      assert s == "-->" + s[3..];
    } else if !inside && Bare(s) {
      var e := IndexFrom(s, ']', 0) + 1;
      HidingKeepsOccurrence(s[e..], false, m);
      AfterBracket(s[..e], s[e..], m);
      assert s == s[..e] + s[e..];
      Wrapped(s[..e], Hidden(s[e..], false));
      MarkersAreSubstrings(r, m);
      MarkersAreSubstrings(s[..e], m);
      MarkersAreSubstrings(Hidden(s[e..], false), m);
    } else {
      HidingKeepsOccurrence(s[1..], inside, m);
      NotEmpty(m);
      MarkerTail(m);
      TailStays(s[1..], inside, m[1..]);
      FirstStep(s, m);
      FirstStep(r, m);
      assert r[1..] == Hidden(s[1..], inside);
    }
  }

  /** Hiding markers destroys none and invents none. */
  lemma HidingKeepsMarkers(body: string)
    ensures Markers(Hidden(body, false)) == Markers(body)
  {
    hide Hidden, Has, IsMarker;
    forall m ensures m in Markers(Hidden(body, false)) <==> m in Markers(body) {
      MarkersAreSubstrings(body, m);
      MarkersAreSubstrings(Hidden(body, false), m);
      if IsMarker(m) { HidingKeepsOccurrence(body, false, m); }
    }
  }

  // ---- white space in bytes

  /** No byte of a white-space character is a bracket or a hash sign. */
  predicate MayBeSpace(c: char)
  {
    c != '[' && c != ']' && c != '#'
  }

  /** The length of the white-space character that starts at `i`, or 0. */
  function SpaceAt(s: string, i: nat): (n: nat)
    requires i <= |s|
    ensures i + n <= |s| && forall k | i <= k < i + n :: MayBeSpace(s[k])
  {
    if i < |s| && ('\t' <= s[i] <= '\r' || s[i] == ' ') then 1
    else if i + 1 < |s| && s[i] == '\U{C2}' && (s[i + 1] == '\U{85}' || s[i + 1] == '\U{A0}') then 2
    else if i + 2 < |s| && IsWideSpace(s[i], s[i + 1], s[i + 2]) then 3
    else 0
  }

  /** The white-space characters of three bytes. */
  predicate IsWideSpace(a: char, b: char, c: char)
  {
    || (a == '\U{E1}' && b == '\U{9A}' && c == '\U{80}')
    || (a == '\U{E2}' && b == '\U{80}'
        && ('\U{80}' <= c <= '\U{8A}' || c == '\U{A8}' || c == '\U{A9}' || c == '\U{AF}'))
    || (a == '\U{E2}' && b == '\U{81}' && c == '\U{9F}')
    || (a == '\U{E3}' && b == '\U{80}' && c == '\U{80}')
  }

  /** The length of the white-space character that ends at `e`, or 0. */
  function SpaceBefore(s: string, e: nat): (n: nat)
    requires e <= |s|
    ensures n <= e && forall k | e - n <= k < e :: MayBeSpace(s[k])
  {
    if e > 0 && SpaceAt(s, e - 1) == 1 then 1
    else if e > 1 && SpaceAt(s, e - 2) == 2 then 2
    else if e > 2 && SpaceAt(s, e - 3) == 3 then 3
    else 0
  }

  function TextEnd(s: string, e: nat): (r: nat)
    requires e <= |s|
    ensures r <= e && forall k | r <= k < e :: MayBeSpace(s[k])
  {
    var n := SpaceBefore(s, e);
    if n > 0 then TextEnd(s, e - n) else e
  }

  function TextStart(s: string, i: nat): (r: nat)
    requires i <= |s|
    ensures i <= r <= |s| && forall k | i <= k < r :: MayBeSpace(s[k])
    decreases |s| - i
  {
    var n := SpaceAt(s, i);
    if n > 0 then TextStart(s, i + n) else i
  }

  /** Nothing but white space. */
  predicate Empty(s: string)
  {
    TextStart(s, 0) == |s|
  }

  function WithoutEnd(s: string): string
  {
    s[..TextEnd(s, |s|)]
  }

  function Trimmed(s: string): string
  {
    WithoutEnd(s[TextStart(s, 0)..])
  }

  // ---- the See Also section

  /** The line that starts at `i`, as `str::lines` gives it. */
  function LineAt(body: string, i: nat): (line: string)
    requires i < |body|
    ensures |line| <= LineEnd(body, i) - i
    ensures LineEnd(body, i) < |body| ==> |line| < LineEnd(body, i) - i
  {
    var n := IndexFrom(body, '\n', i);
    if n < |body| then WithoutReturn(body[i..n]) else body[i..n]
  }

  predicate IsSeeAlso(line: string)
  {
    EqualsIgnoringCase(Trimmed(line), "## see also")
  }

  predicate IsHeading(line: string)
  {
    var b := TextStart(line, 0);
    b < |line| && line[b] == '#'
  }

  /**
   * Where the first See Also heading is found, reading on from the line at `i`. The offset `at` is counted by the
   * lengths of the lines, one for each line break, so it falls behind by one at every carriage return.
   */
  function SeeAlsoPos(body: string, i: nat, at: nat): (r: Option<nat>)
    requires i <= |body| && (i < |body| ==> at <= i)
    ensures r.Some? ==> r.value < |body|
    decreases |body| - i
  {
    if i == |body| then None
    else
      var line := LineAt(body, i);
      if IsSeeAlso(line) then Some(at) else SeeAlsoPos(body, LineEnd(body, i), at + |line| + 1)
  }

  /** Where the section ends: at the next heading by the same count, else at the end of the text. */
  function SectionEnd(body: string, i: nat, at: nat): (r: nat)
    requires i <= |body| && (i < |body| ==> at <= i)
    ensures r <= |body| && (at <= |body| ==> at <= r)
    decreases |body| - i
  {
    if i == |body| then |body|
    else
      var line := LineAt(body, i);
      if IsHeading(line) then at else SectionEnd(body, LineEnd(body, i), at + |line| + 1)
  }

  /** The first place of `pat` in `s` at `i` or later, or the end of `s`. */
  function Find(s: string, pat: string, i: nat): (r: nat)
    requires i <= |s| && pat != ""
    ensures i <= r <= |s| && (r < |s| ==> pat <= s[r..]) && forall k | i <= k < r :: !(pat <= s[k..])
    decreases |s| - i
  {
    if i == |s| || pat <= s[i..] then i else Find(s, pat, i + 1)
  }

  /** What of a line stands outside comments, and whether the line ends in one; `inside` says how it begins. */
  function Visible(line: string, inside: bool): (string, bool)
    decreases |line|, if inside then 0 else 1
  {
    if inside then
      var e := Find(line, "-->", 0);
      if e == |line| then ("", true) else Visible(line[e + 3..], false)
    else
      var b := Find(line, "<!--", 0);
      if b == |line| then (line, false)
      else After(line[..b], Visible(line[b..], true))
  }

  function After(text: string, seen: (string, bool)): (string, bool)
  {
    (text + seen.0, seen.1)
  }

  /** Some line from `i` on has visible text. */
  predicate HasContent(section: string, i: nat, inside: bool)
    requires i <= |section|
    decreases |section| - i
  {
    i < |section| &&
      var seen := Visible(LineAt(section, i), inside);
      !Empty(seen.0) || HasContent(section, LineEnd(section, i), seen.1)
  }

  /** What is dropped: from the See Also heading to the end of its section. */
  datatype Stretch = Stretch(start: nat, end: nat)

  function SeeAlso(body: string): (r: Option<Stretch>)
    ensures r.Some? ==> r.value.start <= r.value.end <= |body|
  {
    var pos := SeeAlsoPos(body, 0, 0);
    if pos.None? then None
    else
      var after := LineEnd(body, pos.value);
      var end := SectionEnd(body, after, after);
      if HasContent(body[after..end], 0, false) then None else Some(Stretch(pos.value, end))
  }

  /** The text before and the text after, without the white space around the gap. */
  function Closing(before: string, tail: string): string
  {
    var head := WithoutEnd(before) + "\n";
    if Empty(tail) then head
    else if tail[|tail| - 1] == '\n' then head + "\n" + tail
    else head + "\n" + tail + "\n"
  }

  function Stripped(body: string): string
  {
    var gap := SeeAlso(body);
    if gap.None? then body else Closing(body[..gap.value.start], body[gap.value.end..])
  }

  /** `normalize_for_publish` */
  function Published(body: string): string
  {
    Stripped(Hidden(body, false))
  }

  // ---- the loops

  method FindSeeAlsoPos(body: string) returns (pos: Option<nat>)
    ensures pos == SeeAlsoPos(body, 0, 0)
  {
    hide *;
    var i: nat, at: nat := 0, 0;
    while i < |body|
      invariant i <= |body| && (i < |body| ==> at <= i)
      invariant SeeAlsoPos(body, 0, 0) == SeeAlsoPos(body, i, at)
    {
      var line := LineAt(body, i);
      SeeAlsoStep(body, i, at);
      if IsSeeAlso(line) { return Some(at); }
      i, at := LineEnd(body, i), at + |line| + 1;
    }
    SeeAlsoDone(body, at);
    return None;
  }

  lemma SeeAlsoStep(body: string, i: nat, at: nat)
    requires at <= i < |body|
    ensures SeeAlsoPos(body, i, at) ==
      if IsSeeAlso(LineAt(body, i)) then Some(at)
      else SeeAlsoPos(body, LineEnd(body, i), at + |LineAt(body, i)| + 1)
  {
  }

  lemma SeeAlsoDone(body: string, at: nat)
    ensures SeeAlsoPos(body, |body|, at) == None && SectionEnd(body, |body|, at) == |body|
  {
  }

  method FindSectionEnd(body: string, after: nat) returns (end: nat)
    requires after <= |body|
    ensures end == SectionEnd(body, after, after)
  {
    hide *;
    var i: nat, at: nat := after, after;
    while i < |body|
      invariant i <= |body| && (i < |body| ==> at <= i)
      invariant SectionEnd(body, after, after) == SectionEnd(body, i, at)
    {
      var line := LineAt(body, i);
      SectionStep(body, i, at);
      if IsHeading(line) { return at; }
      i, at := LineEnd(body, i), at + |line| + 1;
    }
    SeeAlsoDone(body, at);
    return |body|;
  }

  lemma SectionStep(body: string, i: nat, at: nat)
    requires at <= i < |body|
    ensures SectionEnd(body, i, at) ==
      if IsHeading(LineAt(body, i)) then at else SectionEnd(body, LineEnd(body, i), at + |LineAt(body, i)| + 1)
  {
  }

  method VisibleText(raw: string, inside: bool) returns (visible: string, inComment: bool)
    ensures (visible, inComment) == Visible(raw, inside)
  {
    hide *;
    var rest := raw;
    visible, inComment := "", inside;
    AfterNothing(Visible(raw, inside));
    while true
      invariant Visible(raw, inside) == After(visible, Visible(rest, inComment))
      decreases |rest|, if inComment then 0 else 1
    {
      if inComment {
        CommentStep(visible, rest);
        var e := Find(rest, "-->", 0);
        if e == |rest| { break; }
        rest, inComment := rest[e + 3..], false;
      }
      TextStep(visible, rest);
      var b := Find(rest, "<!--", 0);
      if b == |rest| {
        visible := visible + rest;
        break;
      }
      visible, rest, inComment := visible + rest[..b], rest[b..], true;
    }
  }

  lemma AfterNothing(seen: (string, bool))
    ensures After("", seen) == seen
  {
    assert "" + seen.0 == seen.0;
  }

  lemma AfterAfter(a: string, b: string, seen: (string, bool))
    ensures After(a, After(b, seen)) == After(a + b, seen)
  {
    assert a + (b + seen.0) == (a + b) + seen.0;
  }

  lemma CommentStep(visible: string, rest: string)
    ensures var e := Find(rest, "-->", 0);
      if e == |rest| then After(visible, Visible(rest, true)) == (visible, true)
      else e + 3 <= |rest| && Visible(rest, true) == Visible(rest[e + 3..], false)
  {
    hide Find;
    assert visible + "" == visible;
  }

  lemma TextStep(visible: string, rest: string)
    ensures var b := Find(rest, "<!--", 0);
      if b == |rest| then After(visible, Visible(rest, false)) == (visible + rest, false)
      else After(visible, Visible(rest, false)) == After(visible + rest[..b], Visible(rest[b..], true))
  {
    hide Find;
    var b := Find(rest, "<!--", 0);
    if b < |rest| {
      var seen := Visible(rest[b..], true);
      assert Visible(rest, false) == After(rest[..b], seen);
      AfterAfter(visible, rest[..b], seen);
    }
  }

  method HasRealContent(section: string) returns (content: bool)
    ensures content == HasContent(section, 0, false)
  {
    var i: nat, inside := 0, false;
    while i < |section|
      invariant i <= |section| && HasContent(section, 0, false) == HasContent(section, i, inside)
    {
      var visible, inComment := VisibleText(LineAt(section, i), inside);
      if !Empty(visible) { return true; }
      i, inside := LineEnd(section, i), inComment;
    }
    return false;
  }

  method StripEmptySeeAlso(body: string) returns (out: string)
    ensures out == Stripped(body)
  {
    var pos := FindSeeAlsoPos(body);
    if pos.None? { return body; }
    var after := LineEnd(body, pos.value);
    var end := FindSectionEnd(body, after);
    var content := HasRealContent(body[after..end]);
    if content { return body; }
    out := WithoutEnd(body[..pos.value]) + "\n";
    var tail := body[end..];
    if !Empty(tail) { out := out + "\n" + tail; }
    if out[|out| - 1] != '\n' { out := out + "\n"; }
  }

  method NormalizeForPublish(body: string) returns (out: string)
    requires Utf8(body)
    ensures out == Published(body)
  {
    out := HideBareCitationMarkers(body);
    out := StripEmptySeeAlso(out);
  }
}
