/** White space, trimming, word splitting and searching as Rust's `str` does them, on Unicode scalar values. */
module Text {

  /** `char::is_whitespace`: the White_Space property. */
  predicate IsSpace(c: char)
  {
    || '\t' <= c <= '\r' || c == ' ' || c == '\U{85}' || c == '\U{A0}' || c == '\U{1680}'
    || '\U{2000}' <= c <= '\U{200A}' || c == '\U{2028}' || c == '\U{2029}' || c == '\U{202F}'
    || c == '\U{205F}' || c == '\U{3000}'
  }

  /** Of the first 128 characters these six are white space. */
  lemma AsciiSpace(c: char)
    requires c < '\U{80}'
    ensures IsSpace(c) <==> c in ['\t', '\n', '\U{0B}', '\U{0C}', '\r', ' ']
  {
    var codes := [9, 10, 11, 12, 13, 32];
    assert (c as int) in codes <==> c in ['\t', '\n', '\U{0B}', '\U{0C}', '\r', ' '];
  }

  predicate Blank(s: string)
  {
    forall i | 0 <= i < |s| :: IsSpace(s[i])
  }

  /** Where the text of `s[..e]` ends when trailing white space is dropped. */
  function EndOfText(s: string, e: nat): (r: nat)
    requires e <= |s|
    ensures r <= e && (forall k | r <= k < e :: IsSpace(s[k])) && (r > 0 ==> !IsSpace(s[r - 1]))
  {
    if e > 0 && IsSpace(s[e - 1]) then EndOfText(s, e - 1) else e
  }

  /** Where the text of `s[i..e]` starts when leading white space is dropped. */
  function StartOfText(s: string, i: nat, e: nat): (r: nat)
    requires i <= e <= |s|
    ensures i <= r <= e && (forall k | i <= k < r :: IsSpace(s[k])) && (r < e ==> !IsSpace(s[r]))
    decreases e - i
  {
    if i < e && IsSpace(s[i]) then StartOfText(s, i + 1, e) else i
  }

  function TrimStart(s: string): (r: string)
    ensures |r| <= |s| && r == s[|s| - |r|..] && Blank(s[..|s| - |r|])
    ensures r != "" ==> !IsSpace(r[0])
  {
    s[StartOfText(s, 0, |s|)..]
  }

  function Trim(s: string): (r: string)
    ensures r == "" <==> Blank(s)
    ensures r != "" ==> !IsSpace(r[0]) && !IsSpace(r[|r| - 1])
  {
    var e := EndOfText(s, |s|);
    s[StartOfText(s, 0, e)..e]
  }

  lemma TrimStartSlice(s: string) returns (b: nat)
    ensures b <= |s| && TrimStart(s) == s[b..] && Blank(s[..b]) && (b < |s| ==> !IsSpace(s[b]))
    ensures forall i | 0 <= i < b :: IsSpace(s[i])
  {
    b := StartOfText(s, 0, |s|);
  }

  lemma TrimSlice(s: string) returns (b: nat, e: nat)
    ensures b <= e <= |s| && Trim(s) == s[b..e] && Blank(s[..b]) && Blank(s[e..])
    ensures forall i | 0 <= i < b || e <= i < |s| :: IsSpace(s[i])
  {
    e := EndOfText(s, |s|);
    b := StartOfText(s, 0, e);
  }

  /** `split_whitespace`: the maximal runs of non-space characters, `run` being the one in progress. */
  function WordsFrom(s: string, run: string): (r: seq<string>)
  {
    var done := if run == "" then [] else [run];
    if s == "" then done
    else if IsSpace(s[0]) then done + WordsFrom(s[1..], "")
    else WordsFrom(s[1..], run + [s[0]])
  }

  function Words(s: string): seq<string>
  {
    WordsFrom(s, "")
  }

  function Concat(parts: seq<string>): string
  {
    if parts == [] then "" else parts[0] + Concat(parts[1..])
  }

  /** The characters that are not white space, in order. */
  function Solid(s: string): string
  {
    if s == "" then ""
    else if IsSpace(s[0]) then Solid(s[1..])
    else [s[0]] + Solid(s[1..])
  }

  lemma {:induction false} SolidConcat(a: string, b: string)
    ensures Solid(a + b) == Solid(a) + Solid(b)
  {
    hide IsSpace;
    if a == "" {
      assert a + b == b;
    } else {
      SolidConcat(a[1..], b);
      var whole, rest := a + b, Solid(a[1..]) + Solid(b);
      assert whole[0] == a[0] && whole[1..] == a[1..] + b;
      assert [a[0]] + rest == ([a[0]] + Solid(a[1..])) + Solid(b);
    }
  }

  lemma {:induction false} SolidBlank(s: string)
    requires Blank(s)
    ensures Solid(s) == ""
  {
    hide IsSpace;
    if s != "" { SolidBlank(s[1..]); }
  }

  // ---- words

  predicate NoSpace(s: string)
  {
    forall i | 0 <= i < |s| :: !IsSpace(s[i])
  }

  lemma {:induction false} RunIsWord(s: string, run: string)
    requires NoSpace(s)
    ensures WordsFrom(s, run) == if run + s == "" then [] else [run + s]
    decreases |s|
  {
    hide IsSpace;
    if s != "" {
      RunIsWord(s[1..], run + [s[0]]);
      assert run + [s[0]] + s[1..] == run + s;
    } else {
      assert run + s == run;
    }
  }

  /** Text without white space is one word, whole. */
  lemma WordIsWhole(w: string)
    requires w != "" && NoSpace(w)
    ensures Words(w) == [w]
  {
    RunIsWord(w, "");
    assert "" + w == w;
  }

  lemma {:induction false} WordsFromSolid(s: string, run: string)
    requires NoSpace(run)
    ensures forall w | w in WordsFrom(s, run) :: w != "" && NoSpace(w)
    decreases |s|
  {
    hide IsSpace;
    if s != "" { WordsFromSolid(s[1..], if IsSpace(s[0]) then "" else run + [s[0]]); }
  }

  lemma {:induction false} ConcatConcat(a: seq<string>, b: seq<string>)
    ensures Concat(a + b) == Concat(a) + Concat(b)
  {
    if a == [] {
      assert a + b == b;
    } else {
      ConcatConcat(a[1..], b);
      var whole, first := a + b, a[0];
      assert whole[0] == first && whole[1..] == a[1..] + b;
      assert first + (Concat(a[1..]) + Concat(b)) == (first + Concat(a[1..])) + Concat(b);
    }
  }

  lemma {:induction false} WordsFromKeep(s: string, run: string)
    ensures Concat(WordsFrom(s, run)) == run + Solid(s)
    decreases |s|
  {
    hide IsSpace;
    var done := if run == "" then [] else [run];
    assert Concat(done) == run;
    if s != "" {
      if IsSpace(s[0]) {
        WordsFromKeep(s[1..], "");
        ConcatConcat(done, WordsFrom(s[1..], ""));
      } else {
        WordsFromKeep(s[1..], run + [s[0]]);
        assert run + [s[0]] + Solid(s[1..]) == run + Solid(s);
      }
    }
  }

  /** Words are not empty and hold no white space, and together they are the rest of the text, in order. */
  lemma WordsKeepText(s: string)
    ensures forall w | w in Words(s) :: w != "" && NoSpace(w)
    ensures Concat(Words(s)) == Solid(s)
  {
    WordsFromSolid(s, "");
    WordsFromKeep(s, "");
  }

  /** White space separates: the words on both sides of it are the words of both sides. */
  lemma {:induction false} WordsAcross(a: string, run: string, c: char, b: string)
    requires IsSpace(c)
    ensures WordsFrom(a + [c] + b, run) == WordsFrom(a, run) + Words(b)
    decreases |a|
  {
    hide IsSpace;
    var s := a + [c] + b;
    if a == "" {
      assert s[0] == c && s[1..] == b;
    } else {
      var run' := if IsSpace(a[0]) then "" else run + [a[0]];
      WordsAcross(a[1..], run', c, b);
      assert s[0] == a[0] && s[1..] == a[1..] + [c] + b;
    }
  }

  // ---- searching

  /** The first `c` of `s` at `i` or later, or the end. */
  function IndexFrom(s: string, c: char, i: nat): (r: nat)
    requires i <= |s|
    ensures i <= r <= |s| && (r < |s| ==> s[r] == c) && forall k | i <= k < r :: s[k] != c
    decreases |s| - i
  {
    if i == |s| || s[i] == c then i else IndexFrom(s, c, i + 1)
  }

  lemma SliceOfSlice(body: string, a: nat, b: nat, s: nat, e: nat)
    requires a <= b <= |body| && s <= e <= b - a
    ensures body[a..b][s..e] == body[a + s..a + e]
  {
    assert |body[a..b][s..e]| == |body[a + s..a + e]|;
    assert forall k | 0 <= k < e - s :: body[a..b][s..e][k] == body[a..b][s + k] == body[a + s + k];
  }

  ghost predicate OccursAt(m: string, t: string, p: int)
  {
    0 <= p <= p + |m| <= |t| && t[p..p + |m|] == m
  }

  ghost predicate Has(t: string, m: string)
  {
    exists p :: OccursAt(m, t, p)
  }

  lemma OccursInConcat(a: string, b: string, m: string, p: nat)
    ensures OccursAt(m, a, p) ==> OccursAt(m, a + b, p)
    ensures OccursAt(m, b, p) ==> OccursAt(m, a + b, |a| + p)
  {
    if OccursAt(m, a, p) { assert (a + b)[p..p + |m|] == a[p..p + |m|]; }
    if OccursAt(m, b, p) { assert (a + b)[|a| + p..|a| + p + |m|] == b[p..p + |m|]; }
  }

  lemma HasMiddle(a: string, b: string, c: string)
    ensures Has(a + b + c, b)
  {
    assert OccursAt(b, a + b + c, |a|);
  }

  lemma HasTransitive(t: string, mid: string, part: string)
    requires Has(t, mid) && Has(mid, part)
    ensures Has(t, part)
  {
    var p :| OccursAt(mid, t, p);
    var q :| OccursAt(part, mid, q);
    SliceOfSlice(t, p, p + |mid|, q, q + |part|);
    assert OccursAt(part, t, p + q);
  }

  // ---- lines

  function Join(parts: seq<string>, sep: string): string
  {
    if parts == [] then ""
    else if |parts| == 1 then parts[0]
    else parts[0] + sep + Join(parts[1..], sep)
  }

  /** `split(c)`: the pieces between the separators, one more than there are of them. */
  function Split(s: string, c: char := '\n'): (pieces: seq<string>)
    ensures pieces != []
  {
    if s == "" then [""]
    else
      var rest := Split(s[1..], c);
      if s[0] == c then [""] + rest else Prefixed(s[0], rest)
  }

  /** The pieces with `c` in front of the first. */
  function Prefixed(c: char, pieces: seq<string>): (r: seq<string>)
    requires pieces != []
    ensures r != []
  {
    [[c] + pieces[0]] + pieces[1..]
  }

  lemma PrefixedConcat(c: char, a: seq<string>, b: seq<string>)
    requires a != []
    ensures Prefixed(c, a + b) == Prefixed(c, a) + b
  {
    assert (a + b)[0] == a[0] && (a + b)[1..] == a[1..] + b;
  }

  lemma {:induction false} SplitConcat(a: string, b: string, c: char := '\n')
    ensures Split(a + [c] + b, c) == Split(a, c) + Split(b, c)
    decreases |a|
  {
    hide Prefixed;
    var s := a + [c] + b;
    if a == "" {
      assert s[1..] == b;
    } else {
      SplitConcat(a[1..], b, c);
      assert s[0] == a[0] && s[1..] == a[1..] + [c] + b;
      PrefixedConcat(a[0], Split(a[1..], c), Split(b, c));
      assert [""] + (Split(a[1..], c) + Split(b, c)) == ([""] + Split(a[1..], c)) + Split(b, c);
    }
  }

  lemma {:induction false} PiecesHoldNone(s: string, c: char := '\n')
    ensures forall p | p in Split(s, c) :: c !in p
  {
    if s != "" { PiecesHoldNone(s[1..], c); }
  }

  lemma {:induction false} SplitOne(p: string, c: char := '\n')
    requires c !in p
    ensures Split(p, c) == [p]
  {
    if p != "" {
      assert p[0] in p;
      SplitOne(p[1..], c);
      assert p == [p[0]] + p[1..];
      assert [p[1..]][1..] == [];
    }
  }

  /** Splitting undoes joining. */
  lemma {:induction false} SplitJoin(pieces: seq<string>, c: char := '\n')
    requires pieces != [] && forall p | p in pieces :: c !in p
    ensures Split(Join(pieces, [c]), c) == pieces
    decreases |pieces|
  {
    SplitOne(pieces[0], c);
    if |pieces| > 1 {
      SplitJoin(pieces[1..], c);
      SplitConcat(pieces[0], Join(pieces[1..], [c]), c);
    }
  }

  /** Joining undoes splitting. */
  lemma {:induction false} JoinSplit(s: string, c: char := '\n')
    ensures Join(Split(s, c), [c]) == s
  {
    if s != "" {
      JoinSplit(s[1..], c);
      var rest := Split(s[1..], c);
      if s[0] == c {
        assert Split(s, c)[1..] == rest;
      } else {
        assert Split(s, c)[1..] == rest[1..];
      }
    }
  }

  /** A piece is what stands between two separators, or a separator and an end. */
  lemma PieceMeans(s: string, part: string, c: char)
    requires c !in part
    ensures part in Split(s, c) <==> Has([c] + s + [c], [c] + part + [c])
  {
    hide Split;
    var whole, piece := [c] + s + [c], [c] + part + [c];
    if part in Split(s, c) {
      var a, b := AroundPiece(s, part, c);
      assert whole == a + piece + b;
      HasMiddle(a, piece, b);
    }
    if Has(whole, piece) {
      var p :| OccursAt(piece, whole, p);
      var a, b := whole[..p], whole[p + |piece|..];
      assert whole == a + piece + b;
      SplitAround(a, part, b, c);
      SplitAround("", s, "", c);
      assert "" + ([c] + s + [c]) + "" == whole;
      var k := |Split(a, c)|;
      assert (Split(a, c) + [part] + Split(b, c))[k] == part;
      assert ([""] + Split(s, c) + [""])[k] == part && 0 < k <= |Split(s, c)|;
    }
  }

  lemma SplitAround(a: string, s: string, b: string, c: char)
    ensures Split(a + ([c] + s + [c]) + b, c) == Split(a, c) + Split(s, c) + Split(b, c)
    ensures c !in s ==> Split(s, c) == [s]
    ensures Split("", c) == [""]
  {
    hide Prefixed;
    assert a + ([c] + s + [c]) + b == a + [c] + (s + [c] + b);
    SplitConcat(a, s + [c] + b, c);
    SplitConcat(s, b, c);
    if c !in s { SplitOne(s, c); }
  }

  /** What stands around a piece in the text between two separators. */
  lemma {:induction false} AroundPiece(s: string, part: string, c: char) returns (a: string, b: string)
    requires part in Split(s, c)
    ensures [c] + s + [c] == a + ([c] + part + [c]) + b
  {
    hide Split;
    var i := IndexFrom(s, c, 0);
    var first := s[..i];
    SplitOne(first, c);
    if i == |s| {
      assert first == s;
      a, b := "", "";
    } else {
      var rest := s[i + 1..];
      assert s == first + [c] + rest;
      SplitConcat(first, rest, c);
      if part == first {
        a, b := "", rest + [c];
      } else {
        assert part in Split(rest, c);
        var x, y := AroundPiece(rest, part, c);
        a, b := [c] + first + x, y;
        assert [c] + s + [c] == [c] + first + ([c] + rest + [c]);
      }
    }
  }

  function WithoutReturn(line: string): string
  {
    if line != "" && line[|line| - 1] == '\r' then line[..|line| - 1] else line
  }

  /** The end of the line that starts at `i`, its newline included. */
  function LineEnd(body: string, i: nat): (e: nat)
    requires i < |body|
    ensures i < e <= |body|
  {
    var n := IndexFrom(body, '\n', i);
    if n < |body| then n + 1 else n
  }

  function LowerAscii(c: char): char
  {
    if 'A' <= c <= 'Z' then c + ' ' else c
  }

  predicate EqualsIgnoringCase(a: string, b: string)
  {
    |a| == |b| && forall k | 0 <= k < |a| :: LowerAscii(a[k]) == LowerAscii(b[k])
  }
}
