/** When hiding the citation markers of a text a second time changes it again (src/wiki.rs). */
module HiddenTwice {
  import opened Prelude
  import opened Text
  import opened CitationMarkers
  import opened Publishing

  /** The markers that hiding wraps, in order. */
  function BareMarkers(s: string, inside: bool): seq<string>
  {
    if s == "" then []
    else if !inside && "<!--" <= s then BareMarkers(s[4..], true)
    else if inside && "-->" <= s then BareMarkers(s[3..], false)
    else if !inside && Bare(s) then
      var e := IndexFrom(s, ']', 0) + 1;
      [s[..e]] + BareMarkers(s[e..], false)
    else BareMarkers(s[1..], inside)
  }

  /** Whether the scan of `s` ends in a comment. */
  function EndsInside(s: string, inside: bool): bool
  {
    if s == "" then inside
    else if !inside && "<!--" <= s then EndsInside(s[4..], true)
    else if inside && "-->" <= s then EndsInside(s[3..], false)
    else if !inside && Bare(s) then EndsInside(s[IndexFrom(s, ']', 0) + 1..], false)
    else EndsInside(s[1..], inside)
  }

  lemma {:induction false} HidingGrows(s: string, inside: bool)
    ensures |Hidden(s, inside)| >= |s|
    decreases |s|
  {
    if s == "" {
    } else if !inside && "<!--" <= s {
      HidingGrows(s[4..], true);
    } else if inside && "-->" <= s {
      HidingGrows(s[3..], false);
    } else if !inside && Bare(s) {
      HidingGrows(s[IndexFrom(s, ']', 0) + 1..], false);
    } else {
      HidingGrows(s[1..], inside);
    }
  }

  // ---- hiding only wraps

  /** A part of a text that hiding copies, or a marker that it wraps. */
  datatype Part = Part(text: string, wrapped: bool)

  function TextsOf(parts: seq<Part>): (r: seq<string>)
    ensures |r| == |parts| && forall i | 0 <= i < |r| :: r[i] == parts[i].text
  {
    seq(|parts|, i requires 0 <= i < |parts| => parts[i].text)
  }

  function WrappedTexts(parts: seq<Part>): (r: seq<string>)
    ensures |r| == |parts|
    ensures forall i | 0 <= i < |r| :: r[i] == if parts[i].wrapped then "<!-- " + parts[i].text + " -->" else parts[i].text
  {
    seq(|parts|, i requires 0 <= i < |parts| =>
      if parts[i].wrapped then "<!-- " + parts[i].text + " -->" else parts[i].text)
  }

  /** `[^`, an id that is not empty and holds no space and no closing bracket, and `]`. */
  predicate IsBareMarker(w: string)
  {
    |w| > 3 && w[..2] == "[^" && w[|w| - 1] == ']' && forall k | 2 <= k < |w| - 1 :: w[k] != ' ' && w[k] != ']'
  }

  lemma ConcatStep(first: string, rest: seq<string>)
    ensures Concat([first] + rest) == first + Concat(rest)
  {
    assert ([first] + rest)[1..] == rest;
  }

  lemma PartsStep(first: Part, rest: seq<Part>)
    ensures Concat(TextsOf([first] + rest)) == first.text + Concat(TextsOf(rest))
    ensures Concat(WrappedTexts([first] + rest)) ==
      (if first.wrapped then "<!-- " + first.text + " -->" else first.text) + Concat(WrappedTexts(rest))
  {
    hide Concat;
    var all, wrapped := [first] + rest, if first.wrapped then "<!-- " + first.text + " -->" else first.text;
    ConcatStep(first.text, TextsOf(rest));
    ConcatStep(wrapped, WrappedTexts(rest));
    assert TextsOf(all) == [first.text] + TextsOf(rest);
    assert WrappedTexts(all) == [wrapped] + WrappedTexts(rest);
  }

  lemma NoParts()
    ensures Concat(TextsOf([])) == "" && Concat(WrappedTexts([])) == ""
  {
  }

  lemma FirstBareIsWhole(s: string)
    requires Bare(s)
    ensures var w := s[..IndexFrom(s, ']', 0) + 1]; IsBareMarker(w)
  {
    var close := IndexFrom(s, ']', 0);
    var w := s[..close + 1];
    forall k | 2 <= k < close ensures w[k] != ' ' && w[k] != ']' {
      assert s[2..close][k - 2] == s[k] == w[k];
    }
  }

  /** Which way the scan goes on, and past how much of the text. */
  lemma ScanGoesOn(s: string, inside: bool) returns (n: nat, next: bool, wrapped: bool)
    requires s != ""
    ensures 0 < n <= |s| && (wrapped ==> IsBareMarker(s[..n]))
    ensures Hidden(s, inside) == (if wrapped then "<!-- " + s[..n] + " -->" else s[..n]) + Hidden(s[n..], next)
  {
    if !inside && "<!--" <= s {
      n, next, wrapped := 4, true, false;
    } else if inside && "-->" <= s {
      n, next, wrapped := 3, false, false;
    } else if !inside && Bare(s) {
      FirstBareIsWhole(s);
      n, next, wrapped := IndexFrom(s, ']', 0) + 1, false, true;
    } else {
      n, next, wrapped := 1, inside, false;
    }
  }

  /** Every text is copied but for bare markers, which get a comment around them: nothing else is added, lost or moved. */
  lemma {:induction false} HidingOnlyWraps(s: string, inside: bool) returns (parts: seq<Part>)
    ensures Concat(TextsOf(parts)) == s && Concat(WrappedTexts(parts)) == Hidden(s, inside)
    ensures forall i | 0 <= i < |parts| && parts[i].wrapped :: IsBareMarker(parts[i].text)
    decreases |s|
  {
    hide Hidden, Bare, IsBareMarker, Concat;
    if s == "" {
      NoParts();
      HidesNone(inside);
      parts := [];
    } else {
      var n, next, wrapped := ScanGoesOn(s, inside);
      var rest := HidingOnlyWraps(s[n..], next);
      parts := [Part(s[..n], wrapped)] + rest;
      PartsStep(parts[0], rest);
      assert s == s[..n] + s[n..];
    }
  }

  lemma HidesNone(inside: bool)
    ensures Hidden("", inside) == ""
  {
  }

  // ---- scanning a text in two parts

  /** No mark runs across a closing bracket. */
  lemma MarkInFront(a: string, x: string, mark: string)
    requires a != "" && a[|a| - 1] == ']' && (mark == "<!--" || mark == "-->")
    ensures mark <= a + x <==> mark <= a
  {
    if mark <= a + x && |a| < |mark| {
      MarkAt(a + x, mark, |a| - 1);
      assert false;
    }
    if mark <= a + x && |a| >= |mark| { assert (a + x)[..|mark|] == a[..|mark|]; }
    if mark <= a { assert (a + x)[..|mark|] == a[..|mark|]; }
  }

  lemma MarkAt(s: string, mark: string, k: nat)
    requires mark <= s && k < |mark|
    ensures s[k] == mark[k]
  {
  }

  lemma {:induction false} FirstOf(s: string, x: string, c: char, i: nat)
    requires i <= |s| && c in s[i..]
    ensures IndexFrom(s + x, c, i) == IndexFrom(s, c, i) < |s|
    decreases |s| - i
  {
    if s[i] != c {
      assert s[i..] == [s[i]] + s[i + 1..];
      FirstOf(s, x, c, i + 1);
    }
  }

  lemma BareInFront(a: string, x: string)
    requires a != "" && a[|a| - 1] == ']'
    ensures Bare(a + x) <==> Bare(a)
    ensures IndexFrom(a + x, ']', 0) == IndexFrom(a, ']', 0) < |a|
  {
    assert a[0..] == a;
    FirstOf(a, x, ']', 0);
    var close := IndexFrom(a, ']', 0);
    if close > 2 { assert (a + x)[2..close] == a[2..close]; }
  }

  lemma {:induction false} HiddenInParts(a: string, x: string, inside: bool)
    requires a == "" || a[|a| - 1] == ']'
    ensures Hidden(a + x, inside) == Hidden(a, inside) + Hidden(x, EndsInside(a, inside))
    decreases |a|
  {
    hide IndexFrom;
    if a == "" {
      assert a + x == x && Hidden(a, inside) + Hidden(x, inside) == Hidden(x, inside);
    } else {
      hide Bare;
      MarkInFront(a, x, "<!--");
      MarkInFront(a, x, "-->");
      BareInFront(a, x);
      if !inside && "<!--" <= a {
        assert (a + x)[4..] == a[4..] + x;
        HiddenInParts(a[4..], x, true);
        Regroup("<!--", Hidden(a[4..], true), Hidden(x, EndsInside(a[4..], true)));
      } else if inside && "-->" <= a {
        assert (a + x)[3..] == a[3..] + x;
        HiddenInParts(a[3..], x, false);
        Regroup("-->", Hidden(a[3..], false), Hidden(x, EndsInside(a[3..], false)));
      } else if !inside && Bare(a) {
        var e := IndexFrom(a, ']', 0) + 1;
        assert (a + x)[..e] == a[..e] && (a + x)[e..] == a[e..] + x;
        HiddenInParts(a[e..], x, false);
        Regroup("<!-- " + a[..e] + " -->", Hidden(a[e..], false), Hidden(x, EndsInside(a[e..], false)));
      } else {
        assert (a + x)[0] == a[0] && (a + x)[1..] == a[1..] + x;
        HiddenInParts(a[1..], x, inside);
        Regroup([a[0]], Hidden(a[1..], inside), Hidden(x, EndsInside(a[1..], inside)));
      }
    }
  }

  lemma Copied(c: char, y: string, inside: bool)
    requires c == ' ' || c == '>' || (c == '-' && !inside)
    ensures Hidden([c] + y, inside) == [c] + Hidden(y, inside)
  {
    assert ([c] + y)[1..] == y && ([c] + y)[0] == c;
  }

  /** The end of a wrapped marker ends the comment, whatever the marker did to it. */
  lemma CloseScan(y: string, inside: bool)
    ensures Hidden(" -->" + y, inside) == " -->" + Hidden(y, false)
  {
    assert " -->" + y == [' '] + ("-->" + y);
    Copied(' ', "-->" + y, inside);
    if inside {
      assert ("-->" + y)[3..] == y;
    } else {
      assert "-->" + y == ['-'] + (['-'] + (['>'] + y));
      Copied('-', ['-'] + (['>'] + y), false);
      Copied('-', ['>'] + y, false);
      Copied('>', y, false);
    }
  }

  /** Hiding reads a wrapped marker as the inside of a comment. */
  lemma WrapScan(w: string, y: string)
    requires w != "" && w[|w| - 1] == ']'
    ensures Hidden("<!-- " + w + " -->" + y, false) == "<!-- " + Hidden(w, true) + " -->" + Hidden(y, false)
  {
    hide *;
    var rest := w + (" -->" + y);
    WrapShape(w, y);
    WrapShape(Hidden(w, true), Hidden(y, false));
    OpenScan([' '] + rest);
    Copied(' ', rest, true);
    HiddenInParts(w, " -->" + y, true);
    CloseScan(y, EndsInside(w, true));
  }

  lemma WrapShape(w: string, y: string)
    ensures "<!-- " + w + " -->" + y == "<!--" + ([' '] + (w + (" -->" + y)))
  {
    Regroup("<!-- " + w, " -->", y);
    Regroup("<!-- ", w, " -->" + y);
    assert "<!-- " == "<!--" + [' '];
    Regroup("<!--", [' '], w + (" -->" + y));
  }

  lemma OpenScan(rest: string)
    ensures Hidden("<!--" + rest, false) == "<!--" + Hidden(rest, true)
  {
    assert ("<!--" + rest)[4..] == rest;
  }

  // ---- what is copied is copied again

  lemma StartsWithOpen(s: string)
    requires "<!--" <= s || Bare(s)
    ensures Hidden(s, false) != "" && Hidden(s, false)[0] == '<'
  {
    hide IndexFrom;
  }

  lemma {:induction false} PlainPrefix(s: string, inside: bool, x: string)
    requires |x| <= 3 && '<' !in x && x <= Hidden(s, inside)
    ensures x <= s
    decreases |s|
  {
    var r := Hidden(s, inside);
    if x != "" && s != "" {
      assert x[0] == r[0] && x[0] in x;
      if inside && "-->" <= s {
        assert r[..3] == "-->" && s[..3] == "-->" && x == r[..|x|] == s[..|x|];
      } else if !inside && ("<!--" <= s || Bare(s)) {
        StartsWithOpen(s);
        assert false;
      } else {
        assert r[0] == s[0] && r[1..] == Hidden(s[1..], inside);
        PrefixStep(x, r);
        PrefixStep(x, s);
        PlainPrefix(s[1..], inside, x[1..]);
      }
    }
  }

  /** An id up to its closing bracket, without a space. */
  predicate IsIdTail(x: string)
  {
    x != "" && x[|x| - 1] == ']' && ' ' !in x
  }

  lemma IdTailAfter(x: string, n: nat)
    requires IsIdTail(x) && n < |x|
    ensures IsIdTail(x[n..])
  {
    assert x[n..][|x[n..]| - 1] == x[|x| - 1];
  }

  lemma PastMarkOf(x: string, mark: string, rest: string)
    requires IsIdTail(x) && (mark == "<!--" || mark == "-->") && x <= mark + rest
    ensures |x| > |mark| && x == mark + x[|mark|..] && x[|mark|..] <= rest
  {
    var r := mark + rest;
    BytesOf(x, r);
    assert forall k | 0 <= k < |mark| :: r[k] == mark[k];
    assert |x| > |mark|;
    assert x[..|mark|] == mark && rest == r[|mark|..];
  }

  lemma BytesOf(x: string, r: string)
    requires x <= r
    ensures forall k | 0 <= k < |x| :: x[k] == r[k] && x[k] in x
  {
  }

  lemma NotWrapped(x: string, w: string, rest: string)
    requires IsIdTail(x)
    ensures !(x <= "<!-- " + w + " -->" + rest)
  {
    var r := "<!-- " + w + " -->" + rest;
    assert r[0] == '<' && r[1] == '!' && r[2] == '-' && r[3] == '-' && r[4] == ' ';
    if x <= r {
      BytesOf(x, r);
      assert false;
    }
  }

  lemma {:induction false} IdTailWas(s: string, inside: bool, x: string)
    requires IsIdTail(x) && x <= Hidden(s, inside)
    ensures x <= s
    decreases |s|
  {
    hide IsIdTail, IndexFrom;
    var r := Hidden(s, inside);
    if s == "" {
    } else if !inside && "<!--" <= s {
      PastMarkOf(x, "<!--", Hidden(s[4..], true));
      IdTailAfter(x, 4);
      IdTailWas(s[4..], true, x[4..]);
      assert s == "<!--" + s[4..];
    } else if inside && "-->" <= s {
      PastMarkOf(x, "-->", Hidden(s[3..], false));
      IdTailAfter(x, 3);
      IdTailWas(s[3..], false, x[3..]);
      assert s == "-->" + s[3..];
    } else if !inside && Bare(s) {
      var e := IndexFrom(s, ']', 0) + 1;
      NotWrapped(x, s[..e], Hidden(s[e..], false));
    } else {
      assert r[0] == s[0] && r[1..] == Hidden(s[1..], inside);
      if x != "" {
        PrefixStep(x, r);
        PrefixStep(x, s);
        if |x| > 1 {
          IdTailAfter(x, 1);
          IdTailWas(s[1..], inside, x[1..]);
        }
      }
    }
  }

  /** If hiding left a bare marker in front, there was one. */
  lemma BareWas(s: string, inside: bool)
    requires s != "" && Bare([s[0]] + Hidden(s[1..], inside))
    ensures Bare(s)
  {
    hide Hidden, IndexFrom, Bare, IsIdTail;
    var r := [s[0]] + Hidden(s[1..], inside);
    var x := BareParts(r);
    assert r[1..] == Hidden(s[1..], inside) && r[0] == s[0];
    IdTailWas(s[1..], inside, x);
    BareFrom(s, x);
  }

  /** What follows the bracket of a bare marker. */
  predicate IsBareTail(x: string)
  {
    |x| > 2 && x[0] == '^' && x[|x| - 1] == ']' && ' ' !in x && forall k | 0 <= k < |x| - 1 :: x[k] != ']'
  }

  lemma BareParts(r: string) returns (x: string)
    requires Bare(r)
    ensures r[0] == '[' && IsIdTail(x) && IsBareTail(x) && x <= r[1..]
  {
    hide IndexFrom;
    var close := IndexFrom(r, ']', 0);
    x := r[1..close + 1];
    assert forall k | 0 <= k < |x| :: x[k] == r[k + 1];
    var id := r[2..close];
    assert forall k | 0 <= k < |id| :: id[k] == r[k + 2] && id[k] in id;
    assert forall k | 1 <= k < |x| - 1 :: x[k] == id[k - 1];
    assert r[1..][..|x|] == x;
  }

  lemma BareFrom(s: string, x: string)
    requires s != "" && s[0] == '[' && IsBareTail(x) && x <= s[1..]
    ensures Bare(s)
  {
    var close := |x|;
    assert forall k | 0 <= k < |x| :: s[k + 1] == s[1..][k] == x[k];
    FirstIs(s, ']', 0, close);
    var id := s[2..close];
    assert forall k | 0 <= k < |id| :: id[k] == x[k + 1] && x[k + 1] in x;
  }

  lemma {:induction false} FirstIs(s: string, c: char, i: nat, j: nat)
    requires i <= j < |s| && s[j] == c && forall k | i <= k < j :: s[k] != c
    ensures IndexFrom(s, c, i) == j
    decreases j - i
  {
    if i < j { FirstIs(s, c, i + 1, j); }
  }

  lemma OrdinaryStays(s: string, inside: bool)
    requires Ordinary(s, inside)
    ensures Ordinary([s[0]] + Hidden(s[1..], inside), inside)
  {
    hide Bare, Hidden;
    var r := [s[0]] + Hidden(s[1..], inside);
    assert "-->" == ['-'] + "->" && "<!--" == ['<'] + "!--";
    if inside && "-->" <= r { MarkWas(s, inside, '-', "->"); }
    if !inside && "<!--" <= r { MarkWas(s, inside, '<', "!--"); }
    if !inside && Bare(r) { BareWas(s, inside); }
  }

  lemma MarkWas(s: string, inside: bool, c: char, x: string)
    requires s != "" && |x| <= 3 && '<' !in x && [c] + x <= [s[0]] + Hidden(s[1..], inside)
    ensures [c] + x <= s
  {
    hide Hidden;
    var r := [s[0]] + Hidden(s[1..], inside);
    assert r[1..] == Hidden(s[1..], inside);
    assert r[..|x| + 1] == [c] + x;
    assert x == r[..|x| + 1][1..] == r[1..][..|x|];
    PlainPrefix(s[1..], inside, x);
    assert r[0] == c;
    FrontIs(s, c, x);
  }

  lemma FrontIs(s: string, c: char, x: string)
    requires s != "" && s[0] == c && x <= s[1..]
    ensures [c] + x <= s
  {
    assert s == [s[0]] + s[1..];
  }

  // ---- hiding twice

  /** None of the markers has a bare marker in it once it is read as the inside of a comment. */
  ghost predicate AllStay(markers: seq<string>)
  {
    forall w | w in markers :: BareMarkers(w, true) == []
  }

  /** Hiding changes a text exactly when there is a bare marker in it. */
  lemma {:induction false} HidesNothingIff(s: string, inside: bool)
    ensures Hidden(s, inside) == s <==> BareMarkers(s, inside) == []
    decreases |s|
  {
    hide IndexFrom;
    if s == "" {
    } else if !inside && "<!--" <= s {
      HidesNothingIff(s[4..], true);
      SameStart("<!--", Hidden(s[4..], true), s[4..]);
      assert s == "<!--" + s[4..];
    } else if inside && "-->" <= s {
      HidesNothingIff(s[3..], false);
      SameStart("-->", Hidden(s[3..], false), s[3..]);
      assert s == "-->" + s[3..];
    } else if !inside && Bare(s) {
      var e := IndexFrom(s, ']', 0) + 1;
      HidingGrows(s[e..], false);
    } else {
      HidesNothingIff(s[1..], inside);
      SameStart([s[0]], Hidden(s[1..], inside), s[1..]);
      assert s == [s[0]] + s[1..];
    }
  }

  /** Two texts around growing parts are equal only if the parts are. */
  lemma EqualParts(w: string, w': string, y: string, y': string)
    requires |w'| >= |w| && |y'| >= |y|
    ensures "<!-- " + w' + " -->" + y' == "<!-- " + w + " -->" + y <==> w' == w && y' == y
  {
    var a, b := "<!-- " + w' + " -->" + y', "<!-- " + w + " -->" + y;
    if a == b {
      assert |w'| == |w| && |y'| == |y|;
      assert a[5..5 + |w|] == w' && b[5..5 + |w|] == w;
      assert a[9 + |w|..] == y' && b[9 + |w|..] == y;
    }
  }

  /**
   * Hiding twice is hiding once, exactly when no marker that is wrapped has a bare marker in it once it is read as the
   * inside of a comment, which a closing mark in it would end.
   */
  lemma {:induction false} HidingTwiceIff(s: string, inside: bool)
    ensures Hidden(Hidden(s, inside), inside) == Hidden(s, inside) <==> AllStay(BareMarkers(s, inside))
    decreases |s|
  {
    hide IndexFrom, AllStay;
    var r := Hidden(s, inside);
    if s == "" {
      NoneStay();
    } else if !inside && "<!--" <= s {
      HidingTwiceIff(s[4..], true);
      SameStart("<!--", Hidden(s[4..], true), Hidden(Hidden(s[4..], true), true));
      assert r[4..] == Hidden(s[4..], true);
    } else if inside && "-->" <= s {
      HidingTwiceIff(s[3..], false);
      SameStart("-->", Hidden(s[3..], false), Hidden(Hidden(s[3..], false), false));
      assert r[3..] == Hidden(s[3..], false);
    } else if !inside && Bare(s) {
      var e := IndexFrom(s, ']', 0) + 1;
      var w, y := s[..e], Hidden(s[e..], false);
      HidingTwiceIff(s[e..], false);
      WrapScan(w, y);
      HidingGrows(w, true);
      HidingGrows(y, false);
      EqualParts(w, Hidden(w, true), y, Hidden(y, false));
      OneMoreStays(w, BareMarkers(s[e..], false));
    } else {
      HidingTwiceIff(s[1..], inside);
      OrdinaryStays(s, inside);
      CopyOne(s, inside);
      CopyOne(r, inside);
      assert r[1..] == Hidden(s[1..], inside) && r[0] == s[0];
      SameStart([s[0]], Hidden(s[1..], inside), Hidden(Hidden(s[1..], inside), inside));
    }
  }

  lemma NoneStay()
    ensures AllStay([]) && Hidden("", true) == Hidden("", false) == ""
  {
  }

  lemma SameStart(a: string, x: string, y: string)
    ensures a + x == a + y <==> x == y
  {
    assert (a + x)[|a|..] == x && (a + y)[|a|..] == y;
  }

  lemma OneMoreStays(w: string, markers: seq<string>)
    ensures AllStay([w] + markers) <==> Hidden(w, true) == w && AllStay(markers)
  {
    HidesNothingIff(w, true);
    assert forall x :: x in [w] + markers <==> x == w || x in markers;
  }

  /** A marker with a closing mark and another marker in it. */
  lemma NestedMarkerIsHiddenTwice()
    ensures var w := "[^a" + ("-->" + "[^b]");
      BareMarkers(w, false) == [w] && BareMarkers(w, true) == ["[^b]"]
      && Hidden(Hidden(w, false), false) != Hidden(w, false)
  {
    hide Hidden, AllStay, BareMarkers;
    var b := "[^b]";
    var rest := "-->" + b;
    var w := "[^a" + rest;
    OneBare(w, 9);
    OneBare(b, 3);
    MarkerBehindClose(b);
    assert w == ['['] + (['^'] + (['a'] + rest));
    SkipOne('[', ['^'] + (['a'] + rest));
    SkipOne('^', ['a'] + rest);
    SkipOne('a', rest);
    HidingTwiceIff(w, false);
    NotAll(w);
  }

  lemma SkipOne(c: char, y: string)
    requires c != '-'
    ensures BareMarkers([c] + y, true) == BareMarkers(y, true)
  {
    assert ([c] + y)[0] == c && ([c] + y)[1..] == y;
  }

  lemma MarkerBehindClose(b: string)
    ensures BareMarkers("-->" + b, true) == BareMarkers(b, false)
  {
    assert ("-->" + b)[3..] == b;
  }

  /** A marker without a closing mark in it stays. */
  lemma {:induction false} NoCloseNoMarker(w: string)
    requires forall k | 0 <= k <= |w| :: !("-->" <= w[k..])
    ensures BareMarkers(w, true) == []
  {
    if w != "" {
      assert w[0..] == w && forall k | 0 <= k <= |w| - 1 :: w[1..][k..] == w[k + 1..];
      NoCloseNoMarker(w[1..]);
    }
  }

  lemma OneBare(w: string, close: nat)
    requires close + 1 == |w| && close > 2 && w[0] == '[' && w[1] == '^' && w[close] == ']'
    requires forall k | 0 <= k < close :: w[k] != ']' && w[k] != ' '
    ensures BareMarkers(w, false) == [w]
  {
    FirstIs(w, ']', 0, close);
    assert w[..close + 1] == w && w[close + 1..] == "";
    assert BareMarkers("", false) == [];
  }

  lemma NotAll(w: string)
    requires BareMarkers(w, true) != []
    ensures !AllStay([w])
  {
  }
}
