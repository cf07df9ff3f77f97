/**
 * The citation markers `[^id]` of a guide body (src/doctor.rs). A text is its sequence of UTF-8 bytes, each
 * read as the character of that code, which is how the scanner itself looks at them.
 */
module CitationMarkers {
  import opened Text

  /** `(byte as char).is_alphanumeric()`, a dash or an underscore. */
  predicate IsIdByte(c: char)
  {
    || '0' <= c <= '9' || 'A' <= c <= 'Z' || 'a' <= c <= 'z' || c == '-' || c == '_'
    || c == '\U{AA}' || c == '\U{B5}' || c == '\U{BA}'
    || c == '\U{B2}' || c == '\U{B3}' || c == '\U{B9}' || '\U{BC}' <= c <= '\U{BE}'
    || ('\U{C0}' <= c <= '\U{FF}' && c != '\U{D7}' && c != '\U{F7}')
  }

  lemma Digits(c: char)
    ensures c in "0123456789" <==> '0' <= c <= '9'
  {
    var all := "0123456789";
    assert '0' <= c <= '9' ==> all[c as int - '0' as int] == c;
  }

  lemma Capitals(c: char)
    ensures c in "ABCDEFGHIJKLMNOPQRSTUVWXYZ" <==> 'A' <= c <= 'Z'
  {
    var all := "ABCDEFGHIJKLMNOPQRSTUVWXYZ";
    assert 'A' <= c <= 'Z' ==> all[c as int - 'A' as int] == c;
  }

  lemma SmallLetters(c: char)
    ensures c in "abcdefghijklmnopqrstuvwxyz" <==> 'a' <= c <= 'z'
  {
    var all := "abcdefghijklmnopqrstuvwxyz";
    assert 'a' <= c <= 'z' ==> all[c as int - 'a' as int] == c;
  }

  /** Of the first 128 characters these are the ones an id is made of. */
  lemma AsciiIdBytes(c: char)
    requires c < '\U{80}'
    ensures IsIdByte(c) <==>
      c in "0123456789" || c in "ABCDEFGHIJKLMNOPQRSTUVWXYZ" || c in "abcdefghijklmnopqrstuvwxyz" || c == '-' || c == '_'
  {
    Digits(c);
    Capitals(c);
    SmallLetters(c);
  }

  lemma IdBytesArePlain(c: char)
    requires IsIdByte(c)
    ensures c != '[' && c != ']' && c != '^'
  {
  }

  predicate IsMarker(m: string)
  {
    && |m| > 3 && m[0] == '[' && m[1] == '^' && m[|m| - 1] == ']'
    && forall k | 2 <= k < |m| - 1 :: IsIdByte(m[k])
  }

  ghost predicate MarkerAt(t: string, i: nat, j: nat)
  {
    i <= j <= |t| && IsMarker(t[i..j])
  }

  /** Every substring of `t` that is a marker. */
  ghost function Markers(t: string): set<string>
  {
    set i: nat, j: nat {:trigger MarkerAt(t, i, j)} | i <= |t| && j <= |t| && MarkerAt(t, i, j) :: t[i..j]
  }

  lemma MarkersAreSubstrings(t: string, m: string)
    ensures m in Markers(t) <==> IsMarker(m) && Has(t, m)
  {
    if IsMarker(m) {
      if p :| OccursAt(m, t, p) {
        assert MarkerAt(t, p, p + |m|);
      }
      if m in Markers(t) {
        var i: nat, j: nat :| i <= j <= |t| && t[i..j] == m;
        assert OccursAt(m, t, i);
      }
    }
  }

  // ---- the scanner

  /** Where the run of id bytes from `j` ends. */
  function IdEnd(t: string, j: nat): (e: nat)
    requires j <= |t|
    ensures j <= e <= |t| && (forall k | j <= k < e :: IsIdByte(t[k])) && (e < |t| ==> !IsIdByte(t[e]))
    decreases |t| - j
  {
    if j < |t| && IsIdByte(t[j]) then IdEnd(t, j + 1) else j
  }

  lemma {:induction false} IdEndIs(t: string, j: nat, e: nat)
    requires j <= e <= |t| && (forall k | j <= k < e :: IsIdByte(t[k])) && (e < |t| ==> !IsIdByte(t[e]))
    ensures IdEnd(t, j) == e
    decreases e - j
  {
    if j < e { IdEndIs(t, j + 1, e); }
  }

  predicate Starts(t: string, i: nat)
  {
    && i + 1 < |t| && t[i] == '[' && t[i + 1] == '^'
    && var e := IdEnd(t, i + 2);
       i + 2 < e < |t| && t[e] == ']'
  }

  lemma MarkerFrom(t: string, i: nat, j: nat)
    requires i <= j <= |t|
    ensures IsMarker(t[i..j]) <==> Starts(t, i) && j == IdEnd(t, i + 2) + 1
  {
    if IsMarker(t[i..j]) {
      var e := IdEnd(t, i + 2);
      assert t[j - 1] == t[i..j][j - i - 1] && t[i] == t[i..j][0] && t[i + 1] == t[i..j][1];
      forall k | i + 2 <= k < j - 1 ensures IsIdByte(t[k]) { assert t[k] == t[i..j][k - i]; }
      IdEndIs(t, i + 2, j - 1);
    }
  }

  /** The markers that start at `i` or later, by where they start. */
  function Listing(t: string, i: nat): seq<string>
    requires i <= |t|
    decreases |t| - i
  {
    if i == |t| then []
    else (if Starts(t, i) then [t[i..IdEnd(t, i + 2) + 1]] else []) + Listing(t, i + 1)
  }

  ghost predicate HasFrom(t: string, m: string, i: int)
  {
    exists p | i <= p :: OccursAt(m, t, p)
  }

  lemma HasFromStep(t: string, m: string, i: nat)
    requires i <= |t|
    ensures HasFrom(t, m, i) <==> OccursAt(m, t, i) || HasFrom(t, m, i + 1)
    ensures i == |t| && m != "" ==> !HasFrom(t, m, i)
    ensures HasFrom(t, m, 0) <==> Has(t, m)
  {
    assert forall p | OccursAt(m, t, p) :: 0 <= p;
  }

  lemma MarkerHere(t: string, i: nat, m: string)
    requires i < |t|
    ensures (IsMarker(m) && OccursAt(m, t, i)) <==> (Starts(t, i) && m == t[i..IdEnd(t, i + 2) + 1])
  {
    hide IsIdByte, IdEnd;
    if OccursAt(m, t, i) { MarkerFrom(t, i, i + |m|); }
    if Starts(t, i) { MarkerFrom(t, i, IdEnd(t, i + 2) + 1); }
  }

  /** The listing from `i` holds exactly the markers that occur at `i` or later. */
  lemma {:induction false} ListingHolds(t: string, i: nat, m: string)
    requires i <= |t|
    ensures m in Listing(t, i) <==> IsMarker(m) && HasFrom(t, m, i)
    decreases |t| - i
  {
    hide IsMarker, HasFrom, OccursAt;
    HasFromStep(t, m, i);
    NotEmpty(m);
    if i < |t| {
      MarkerHere(t, i, m);
      ListingHolds(t, i + 1, m);
    }
  }

  lemma NotEmpty(m: string)
    ensures IsMarker(m) ==> m != ""
  {
  }

  lemma {:induction false} ListingSkips(t: string, i: nat, j: nat)
    requires i <= j <= |t| && forall k | i <= k < j :: t[k] != '['
    ensures Listing(t, i) == Listing(t, j)
    decreases j - i
  {
    if i < j { ListingSkips(t, i + 1, j); }
  }

  /** Where nothing that opens a marker starts. */
  lemma ListingPasses(t: string, i: nat)
    requires i <= |t| && (i + 1 < |t| ==> t[i] != '[' || t[i + 1] != '^')
    ensures Listing(t, i) == if i + 1 < |t| then Listing(t, i + 1) else []
  {
  }

  lemma ListingStep(t: string, i: nat, j: nat)
    requires i + 2 <= j <= |t| && t[i] == '[' && t[i + 1] == '^'
    requires forall k | i + 2 <= k < j :: IsIdByte(t[k])
    requires j < |t| ==> !IsIdByte(t[j])
    ensures Listing(t, i) == (if j < |t| && t[j] == ']' && j > i + 2 then [t[i..j + 1]] else []) + Listing(t, j)
  {
    hide IsIdByte, IdEnd;
    IdEndIs(t, i + 2, j);
    forall k | i + 2 <= k < j ensures t[k] != '[' { IdBytesArePlain(t[k]); }
    ListingSkips(t, i + 1, j);
  }

  /** Scans `text` for markers; `calls` are the arguments of the callback. */
  method ForEachMarker(text: string) returns (calls: seq<string>)
    ensures calls == Listing(text, 0)
  {
    hide IsIdByte, Listing;
    calls := [];
    var i: nat := 0;
    while i + 1 < |text|
      invariant 0 <= i <= |text|
      invariant Listing(text, 0) == calls + Listing(text, i)
    {
      if text[i] == '[' && text[i + 1] == '^' {
        var j := i + 2;
        while j < |text| && IsIdByte(text[j])
          invariant i + 2 <= j <= |text|
          invariant forall k | i + 2 <= k < j :: IsIdByte(text[k])
        {
          j := j + 1;
        }
        ListingStep(text, i, j);
        if j < |text| && text[j] == ']' && j > i + 2 {
          calls := calls + [text[i..j + 1]];
        }
        i := j;
      } else {
        ListingPasses(text, i);
        i := i + 1;
      }
    }
    ListingPasses(text, i);
  }

  /** Exactly the `[^id]` substrings, each once. */
  method DistinctMarkers(text: string) returns (out: set<string>)
    ensures out == Markers(text)
  {
    var calls := ForEachMarker(text);
    out := set m | m in calls;
    forall m ensures m in out <==> m in Markers(text) {
      ListingHolds(text, 0, m);
      HasFromStep(text, m, 0);
      MarkersAreSubstrings(text, m);
    }
  }

  // ---- appending text

  /** A marker of either part is a marker of the whole. */
  lemma MarkersGrow(a: string, b: string)
    ensures Markers(a) + Markers(b) <= Markers(a + b)
  {
    forall m | m in Markers(a) + Markers(b) ensures m in Markers(a + b) {
      MarkersAreSubstrings(a, m);
      MarkersAreSubstrings(b, m);
      MarkersAreSubstrings(a + b, m);
      if p :| OccursAt(m, a, p) { OccursInConcat(a, b, m, p); }
      if p :| OccursAt(m, b, p) { OccursInConcat(a, b, m, p); }
    }
  }

  lemma OccursOnOneSide(a: string, c: char, b: string, m: string)
    requires Has(a + [c] + b, m)
    ensures Has(a, m) || Has(b, m) || c in m
  {
    var t := a + [c] + b;
    var p :| OccursAt(m, t, p);
    if p + |m| <= |a| {
      assert t[p..p + |m|] == a[p..p + |m|];
      assert OccursAt(m, a, p);
    } else if p > |a| {
      assert t[p..p + |m|] == b[p - |a| - 1..p - |a| - 1 + |m|];
      assert OccursAt(m, b, p - |a| - 1);
    } else {
      assert t[p..p + |m|][|a| - p] == t[|a|];
    }
  }

  lemma MarkerOnOneSide(a: string, c: char, b: string, m: string)
    requires !IsIdByte(c) && c != '[' && c != ']' && c != '^'
    requires m in Markers(a + [c] + b)
    ensures m in Markers(a) || m in Markers(b)
  {
    hide Markers, Has, IsIdByte;
    MarkersAreSubstrings(a + [c] + b, m);
    OccursOnOneSide(a, c, b, m);
    MarkersAreSubstrings(a, m);
    MarkersAreSubstrings(b, m);
  }

  /** Text joined by a character that no marker holds gains no marker either. */
  lemma MarkersAcross(a: string, c: char, b: string)
    requires !IsIdByte(c) && c != '[' && c != ']' && c != '^'
    ensures Markers(a + [c] + b) == Markers(a) + Markers(b)
  {
    MarkersGrow(a + [c], b);
    MarkersGrow(a, [c]);
    forall m | m in Markers(a + [c] + b) ensures m in Markers(a) + Markers(b) {
      MarkerOnOneSide(a, c, b, m);
    }
  }

  lemma MarkersOfMarker(m: string)
    requires IsMarker(m)
    ensures Markers(m) == {m}
  {
    MarkersAreSubstrings(m, m);
    assert OccursAt(m, m, 0);
    forall x | x in Markers(m) ensures x == m {
      MarkersAreSubstrings(m, x);
      var p :| OccursAt(x, m, p);
      assert x[0] == m[p];
      assert x[|x| - 1] == m[p + |x| - 1];
    }
  }

  lemma NoMarkers(t: string)
    requires '[' !in t
    ensures Markers(t) == {}
  {
    forall i: nat, j: nat | i <= j <= |t| ensures !IsMarker(t[i..j]) {
      assert i < j ==> t[i..j][0] == t[i];
    }
  }

  // ---- replacing text

  /** `str::replace`: every match from left to right. */
  function Replace(s: string, pat: string, with: string): string
    requires pat != ""
  {
    if |s| >= |pat| && s[..|pat|] == pat then with + Replace(s[|pat|..], pat, with)
    else if s == "" then ""
    else [s[0]] + Replace(s[1..], pat, with)
  }

  /** Text that no marker runs into or out of to the right: it holds none, and none that starts in it can go on. */
  ghost predicate Closed(a: string)
  {
    a != "" && Markers(a) == {} && var c := a[|a| - 1]; !IsIdByte(c) && c != '[' && c != '^'
  }

  /** What the patterns of the link remapping and their replacements have in common. */
  ghost predicate Bracketed(pat: string, with: string)
  {
    Closed(pat) && Closed(with) && pat[0] == with[0] && (pat[0] == '[' || pat[0] == ']')
  }

  /** What is left of a marker once its bracket is read. */
  predicate IsTail(x: string)
  {
    && |x| > 0 && x[|x| - 1] == ']'
    && forall k | 0 <= k < |x| - 1 :: x[k] != '[' && x[k] != ']' && x[k] != '<' && x[k] != '>'
  }

  lemma TailOfTail(x: string)
    requires IsTail(x) && |x| > 1
    ensures IsTail(x[1..]) && x[0] != '[' && x[0] != ']' && x[0] != '<' && x[0] != '>'
  {
    var y := x[1..];
    assert y[|y| - 1] == x[|x| - 1];
    forall k | 0 <= k < |y| - 1 ensures y[k] != '[' && y[k] != ']' && y[k] != '<' && y[k] != '>' {
      assert y[k] == x[k + 1];
    }
  }

  lemma PrefixStep(x: string, s: string)
    requires x != ""
    ensures x <= s <==> s != "" && x[0] == s[0] && x[1..] <= s[1..]
  {
    assert x == [x[0]] + x[1..];
    if s != "" { assert s == [s[0]] + s[1..]; }
  }

  lemma {:induction false} TailSurvives(s: string, pat: string, with: string, x: string)
    requires Bracketed(pat, with) && IsTail(x)
    ensures x <= s <==> x <= Replace(s, pat, with)
    decreases |s|
  {
    var r := Replace(s, pat, with);
    PrefixStep(x, s);
    PrefixStep(x, r);
    if |x| > 1 { TailOfTail(x); }
    if |s| >= |pat| && s[..|pat|] == pat {
      assert s[0] == pat[0] && r[0] == with[0];
    } else if s != "" {
      assert r[0] == s[0] && r[1..] == Replace(s[1..], pat, with);
      if |x| > 1 { TailSurvives(s[1..], pat, with, x[1..]); }
    }
  }

  lemma {:induction false} OccurrenceSurvives(s: string, pat: string, with: string, m: string)
    requires Bracketed(pat, with) && IsMarker(m)
    ensures Has(s, m) <==> Has(Replace(s, pat, with), m)
    decreases |s|
  {
    var r := Replace(s, pat, with);
    if |s| >= |pat| && s[..|pat|] == pat {
      var rest := Replace(s[|pat|..], pat, with);
      OccurrenceSurvives(s[|pat|..], pat, with, m);
      assert s == pat + s[|pat|..] && r == with + rest;
      PastPrefix(pat, s[|pat|..], m);
      PastPrefix(with, rest, m);
    } else if s != "" {
      OccurrenceSurvives(s[1..], pat, with, m);
      MarkerTail(m);
      TailSurvives(s[1..], pat, with, m[1..]);
      FirstStep(s, m);
      FirstStep(r, m);
      assert r[1..] == Replace(s[1..], pat, with);
    }
  }

  lemma MarkerTail(m: string)
    requires IsMarker(m)
    ensures IsTail(m[1..]) && m[0] == '['
  {
    forall k | 0 <= k < |m| - 2
      ensures m[1..][k] != '[' && m[1..][k] != ']' && m[1..][k] != '<' && m[1..][k] != '>'
    {
      assert m[1..][k] == m[k + 1];
    }
  }

  lemma RunsOn(a: string, b: string, m: string, p: nat)
    requires IsMarker(m) && OccursAt(m, a + b, p) && p < |a| < p + |m|
    ensures var c := a[|a| - 1]; IsIdByte(c) || c == '[' || c == '^'
  {
    assert m[|a| - 1 - p] == (a + b)[|a| - 1];
  }

  /** No marker reaches into a closed prefix. */
  lemma PastPrefix(a: string, b: string, m: string)
    requires IsMarker(m) && Closed(a)
    ensures Has(a + b, m) <==> Has(b, m)
  {
    if p :| OccursAt(m, a + b, p) {
      if p + |m| <= |a| {
        assert (a + b)[p..p + |m|] == a[p..p + |m|];
        assert OccursAt(m, a, p);
        MarkersAreSubstrings(a, m);
        assert false;
      } else if p < |a| {
        RunsOn(a, b, m, p);
        assert false;
      }
      assert (a + b)[p..p + |m|] == b[p - |a|..p - |a| + |m|];
      assert OccursAt(m, b, p - |a|);
    }
    if p :| OccursAt(m, b, p) {
      OccursInConcat(a, b, m, p);
    }
  }

  /** A marker of `s` starts at the first byte or lies in the rest. */
  lemma FirstStep(s: string, m: string)
    requires s != "" && m != ""
    ensures Has(s, m) <==> (s[0] == m[0] && m[1..] <= s[1..]) || Has(s[1..], m)
  {
    assert s == [s[0]] + s[1..] && m == [m[0]] + m[1..];
    if p :| OccursAt(m, s, p) {
      if p == 0 {
        assert m[1..] == s[1..][..|m| - 1];
      } else {
        assert OccursAt(m, s[1..], p - 1);
      }
    }
    if s[0] == m[0] && m[1..] <= s[1..] { assert OccursAt(m, s, 0); }
    if p :| OccursAt(m, s[1..], p) { OccursInConcat([s[0]], s[1..], m, p); }
  }

  /** Rewriting links neither destroys nor invents a marker. */
  lemma ReplaceKeepsMarkers(s: string, pat: string, with: string)
    requires Bracketed(pat, with)
    ensures Markers(Replace(s, pat, with)) == Markers(s)
  {
    forall m ensures m in Markers(s) <==> m in Markers(Replace(s, pat, with)) {
      MarkersAreSubstrings(s, m);
      MarkersAreSubstrings(Replace(s, pat, with), m);
      if IsMarker(m) { OccurrenceSurvives(s, pat, with, m); }
    }
  }
}
