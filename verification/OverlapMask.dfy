/** Masking source lines that are already in context (src/context_overlap.rs). */
module OverlapMask {
  import opened Prelude
  import opened Text

  /** How a word is compared: its lower case, which is never empty for a word that is not. */
  type Lower = string -> string

  ghost predicate IsLower(lower: Lower)
  {
    forall w | w != "" :: lower(w) != ""
  }

  function Lowered(lower: Lower, words: seq<string>): (r: seq<string>)
    ensures |r| == |words| && forall i | 0 <= i < |r| :: r[i] == lower(words[i])
  {
    seq(|words|, i requires 0 <= i < |words| => lower(words[i]))
  }

  /** The words in lower case, with single spaces. */
  function Normalize(lower: Lower, text: string): string
  {
    Join(Lowered(lower, Words(text)), " ")
  }

  /** Whether `part` occurs in `t` at `p` or later. */
  predicate ContainsFrom(t: string, part: string, p: nat)
    decreases |t| - p
  {
    p + |part| <= |t| && (t[p..p + |part|] == part || ContainsFrom(t, part, p + 1))
  }

  lemma {:induction false} ContainsMeans(t: string, part: string, p: nat)
    ensures ContainsFrom(t, part, p) <==> exists q | p <= q :: OccursAt(part, t, q)
    decreases |t| - p
  {
    if p + |part| <= |t| {
      ContainsMeans(t, part, p + 1);
      if t[p..p + |part|] == part { assert OccursAt(part, t, p); }
    }
  }

  /** The text is in one of the fragments of the context, which are normalized already. */
  predicate ContainsText(fragments: seq<string>, lower: Lower, text: string)
  {
    var candidate := Normalize(lower, text);
    candidate != "" && exists i :: 0 <= i < |fragments| && ContainsFrom(fragments[i], candidate, 0)
  }

  predicate Blankish(line: string)
  {
    Trim(line) == ""
  }

  /** The simple mask: a line that is not blank and is in the context itself. */
  predicate Covered(fragments: seq<string>, lower: Lower, line: string)
  {
    !Blankish(line) && ContainsText(fragments, lower, line)
  }

  // ---- words of joined lines

  /** The words of a paragraph are the words of its lines. */
  lemma {:induction false} WordsOfLines(lines: seq<string>)
    requires lines != []
    ensures Words(Join(lines, "\n")) == FlatMap(WordsIn(), lines)
    decreases |lines|
  {
    hide Words;
    if |lines| == 1 {
      assert lines == [lines[0]];
      FlatMapOne(WordsIn(), lines[0]);
    } else {
      WordsOfLines(lines[1..]);
      TwoLines(lines[0], Join(lines[1..], "\n"));
    }
  }

  function WordsIn(): string -> seq<string>
  {
    line => Words(line)
  }

  lemma TwoLines(a: string, b: string)
    ensures Words(a + "\n" + b) == Words(a) + Words(b)
  {
    WordsAcross(a, "", '\n', b);
    assert a + "\n" + b == a + ['\n'] + b;
  }

  lemma {:induction false} NonBlankHasWords(s: string, run: string)
    requires run != "" || !Blank(s)
    ensures WordsFrom(s, run) != [] && forall w | w in WordsFrom(s, run) :: w != ""
    decreases |s|
  {
    hide IsSpace;
    if s != "" {
      if IsSpace(s[0]) {
        if !Blank(s[1..]) {
          NonBlankHasWords(s[1..], "");
        } else {
          BlankHasNoWords(s[1..]);
        }
      } else {
        NonBlankHasWords(s[1..], run + [s[0]]);
      }
    }
  }

  lemma {:induction false} BlankHasNoWords(s: string)
    requires Blank(s)
    ensures WordsFrom(s, "") == []
  {
    hide IsSpace;
    if s != "" { BlankHasNoWords(s[1..]); }
  }

  lemma {:induction false} JoinConcat(a: seq<string>, b: seq<string>, sep: string)
    requires a != [] && b != []
    ensures Join(a + b, sep) == Join(a, sep) + sep + Join(b, sep)
    decreases |a|
  {
    assert (a + b)[0] == a[0] && (a + b)[1..] == a[1..] + b;
    if |a| > 1 { JoinConcat(a[1..], b, sep); } else { assert a[1..] + b == b; }
  }

  /** A run of words, joined, is in all the words, joined. */
  lemma MiddleOfJoin(a: seq<string>, b: seq<string>, c: seq<string>, sep: string)
    requires b != []
    ensures Has(Join(a + b + c, sep), Join(b, sep))
  {
    hide Join;
    var before := if a == [] then "" else Join(a, sep) + sep;
    var after := if c == [] then "" else sep + Join(c, sep);
    if a == [] { assert a + b == b; } else { JoinConcat(a, b, sep); }
    if c == [] { assert a + b + c == a + b; } else { JoinConcat(a + b, c, sep); }
    HasMiddle(before, Join(b, sep), after);
    assert before + Join(b, sep) + after == Join(a + b + c, sep);
  }

  /** What a line normalizes to is part of what its paragraph normalizes to. */
  lemma LineInParagraph(lower: Lower, lines: seq<string>, i: nat)
    requires i < |lines| && Words(lines[i]) != []
    ensures Has(Normalize(lower, Join(lines, "\n")), Normalize(lower, lines[i]))
  {
    hide Join, Words, Has, FlatMap;
    var f := WordsIn();
    var before, after, words := FlatMap(f, lines[..i]), FlatMap(f, lines[i + 1..]), Words(lines[i]);
    WordsOfLines(lines);
    FlatMapConcat(f, lines[..i], lines[i..]);
    FlatMapNext(f, lines, i);
    assert lines[..i] + lines[i..] == lines;
    assert f(lines[i]) == words;
    assert before + (words + after) == before + words + after;
    MiddleOfJoin(Lowered(lower, before), Lowered(lower, words), Lowered(lower, after), " ");
    LoweredConcat(lower, before, words, after);
  }

  lemma LoweredConcat(lower: Lower, a: seq<string>, b: seq<string>, c: seq<string>)
    ensures Lowered(lower, a + b + c) == Lowered(lower, a) + Lowered(lower, b) + Lowered(lower, c)
  {
  }

  lemma NormalizedLineIsNotEmpty(lower: Lower, line: string)
    requires IsLower(lower) && !Blankish(line)
    ensures Words(line) != [] && Normalize(lower, line) != ""
  {
    NonBlankHasWords(line, "");
    assert Words(line)[0] in Words(line);
    JoinNonEmpty(Lowered(lower, Words(line)), " ");
  }

  lemma JoinNonEmpty(parts: seq<string>, sep: string)
    requires parts != [] && parts[0] != ""
    ensures Join(parts, sep) != ""
  {
  }

  /** When a paragraph is in the context, so is each of its lines. */
  lemma ParagraphCoversLines(fragments: seq<string>, lower: Lower, lines: seq<string>, i: nat)
    requires IsLower(lower) && i < |lines| && !Blankish(lines[i])
    requires ContainsText(fragments, lower, Join(lines, "\n"))
    ensures Covered(fragments, lower, lines[i])
  {
    hide Normalize, Blankish, Words, Join;
    var paragraph, line := Normalize(lower, Join(lines, "\n")), Normalize(lower, lines[i]);
    NormalizedLineIsNotEmpty(lower, lines[i]);
    LineInParagraph(lower, lines, i);
    var k :| 0 <= k < |fragments| && ContainsFrom(fragments[k], paragraph, 0);
    ContainsMeans(fragments[k], paragraph, 0);
    ContainsMeans(fragments[k], line, 0);
    HasTransitive(fragments[k], paragraph, line);
  }

  // ---- the mask

  function MaskedLines(fragments: seq<string>, lower: Lower, lines: seq<string>): (r: seq<string>)
    ensures |r| == |lines|
    ensures forall i | 0 <= i < |r| :: r[i] == if Covered(fragments, lower, lines[i]) then "" else lines[i]
  {
    seq(|lines|, i requires 0 <= i < |lines| => if Covered(fragments, lower, lines[i]) then "" else lines[i])
  }

  function CountTrue(mask: seq<bool>): nat
  {
    if mask == [] then 0 else CountTrue(mask[..|mask| - 1]) + if mask[|mask| - 1] then 1 else 0
  }

  /** First pass: paragraphs that are in the context as a whole. */
  method MaskParagraphs(fragments: seq<string>, lower: Lower, lines: seq<string>, masked: array<bool>)
    requires IsLower(lower) && masked.Length == |lines| && forall i | 0 <= i < |lines| :: !masked[i]
    modifies masked
    ensures forall i | 0 <= i < |lines| :: masked[i] ==> Covered(fragments, lower, lines[i])
  {
    hide Covered, ContainsText, Blankish;
    var start := 0;
    while start < |lines|
      invariant 0 <= start <= |lines|
      invariant forall i | 0 <= i < start :: masked[i] ==> Covered(fragments, lower, lines[i])
      invariant forall i | start <= i < |lines| :: !masked[i]
    {
      if Blankish(lines[start]) {
        start := start + 1;
        continue;
      }
      var end := start + 1;
      while end < |lines| && !Blankish(lines[end])
        invariant start < end <= |lines| && forall i | start <= i < end :: !Blankish(lines[i])
      {
        end := end + 1;
      }
      var paragraph := lines[start..end];
      if ContainsText(fragments, lower, Join(paragraph, "\n")) {
        forall i | start <= i < end ensures Covered(fragments, lower, lines[i]) {
          assert paragraph[i - start] == lines[i];
          ParagraphCoversLines(fragments, lower, paragraph, i - start);
        }
        for i := start to end
          invariant forall k | 0 <= k < i :: masked[k] ==> Covered(fragments, lower, lines[k])
          invariant forall k | end <= k < |lines| :: !masked[k]
        {
          masked[i] := true;
        }
      }
      start := end;
    }
  }

  /** Second pass: single lines. Together the passes are the simple mask. */
  method MaskSourcePreservingLines(fragments: seq<string>, lower: Lower, text: string)
    returns (out: string, removed: nat, fullySuppressed: bool)
    requires IsLower(lower)
    ensures var lines := Split(text);
            && out == Join(MaskedLines(fragments, lower, lines), "\n")
            && removed == |set i | 0 <= i < |lines| && Covered(fragments, lower, lines[i])|
            && (fullySuppressed <==>
                forall i | 0 <= i < |lines| :: Blankish(lines[i]) || Covered(fragments, lower, lines[i]))
  {
    hide Covered, ContainsText, Blankish, Join, Split;
    var lines := Split(text);
    var masked := new bool[|lines|](_ => false);
    MaskParagraphs(fragments, lower, lines, masked);
    for i := 0 to |lines|
      invariant forall k | 0 <= k < i :: masked[k] <==> Covered(fragments, lower, lines[k])
      invariant forall k | i <= k < |lines| :: masked[k] ==> Covered(fragments, lower, lines[k])
    {
      CoveredMeans(fragments, lower, lines[i]);
      if !masked[i] && !Blankish(lines[i]) && ContainsText(fragments, lower, lines[i]) {
        masked[i] := true;
      }
    }
    ghost var simple := SimpleMask(fragments, lower, lines);
    assert masked[..] == simple;
    out, removed, fullySuppressed := Apply(lines, masked[..]);
    CountIsSize(simple);
    assert (set i | 0 <= i < |lines| && Covered(fragments, lower, lines[i])) == set i | 0 <= i < |simple| && simple[i];
    assert AppliedLines(lines, simple) == MaskedLines(fragments, lower, lines);
  }

  function SimpleMask(fragments: seq<string>, lower: Lower, lines: seq<string>): (r: seq<bool>)
    ensures |r| == |lines| && forall i | 0 <= i < |r| :: r[i] == Covered(fragments, lower, lines[i])
  {
    seq(|lines|, i requires 0 <= i < |lines| => Covered(fragments, lower, lines[i]))
  }

  function AppliedLines(lines: seq<string>, mask: seq<bool>): (r: seq<string>)
    requires |mask| == |lines|
    ensures |r| == |lines| && forall i | 0 <= i < |r| :: r[i] == if mask[i] then "" else lines[i]
  {
    seq(|lines|, i requires 0 <= i < |lines| => if mask[i] then "" else lines[i])
  }

  /** Empties the masked lines and counts them. */
  method Apply(lines: seq<string>, mask: seq<bool>) returns (out: string, removed: nat, fullySuppressed: bool)
    requires |mask| == |lines|
    ensures out == Join(AppliedLines(lines, mask), "\n") && removed == CountTrue(mask)
    ensures fullySuppressed <==> forall i | 0 <= i < |lines| :: Blankish(lines[i]) || mask[i]
  {
    hide Blankish, Join;
    var kept: seq<string> := [];
    removed, fullySuppressed := 0, true;
    for i := 0 to |lines|
      invariant removed == CountTrue(mask[..i]) && kept == AppliedLines(lines, mask)[..i]
      invariant fullySuppressed <==> forall k | 0 <= k < i :: Blankish(lines[k]) || mask[k]
    {
      assert mask[..i + 1][..i] == mask[..i];
      if mask[i] {
        removed := removed + 1;
      } else if !Blankish(lines[i]) {
        fullySuppressed := false;
      }
      kept := kept + [if mask[i] then "" else lines[i]];
    }
    assert mask[..|mask|] == mask && kept == AppliedLines(lines, mask);
    out := Join(kept, "\n");
  }

  lemma CoveredMeans(fragments: seq<string>, lower: Lower, line: string)
    ensures Covered(fragments, lower, line) <==> !Blankish(line) && ContainsText(fragments, lower, line)
  {
  }

  /** A line is masked exactly if it is not blank and its words, in lower case with single spaces, are in some fragment. */
  lemma CoveredIff(fragments: seq<string>, lower: Lower, line: string)
    requires IsLower(lower)
    ensures Covered(fragments, lower, line) <==>
      !Blank(line)
      && exists i :: 0 <= i < |fragments|
                     && Has(fragments[i], Join(seq(|Words(line)|, k requires 0 <= k < |Words(line)| => lower(Words(line)[k])), " "))
  {
    hide Words, Join, Trim, Blank;
    var candidate := Normalize(lower, line);
    assert Lowered(lower, Words(line)) == seq(|Words(line)|, k requires 0 <= k < |Words(line)| => lower(Words(line)[k]));
    assert Blankish(line) <==> Blank(line);
    if !Blank(line) { NormalizedLineIsNotEmpty(lower, line); }
    forall i | 0 <= i < |fragments| ensures ContainsFrom(fragments[i], candidate, 0) <==> Has(fragments[i], candidate) {
      ContainsMeans(fragments[i], candidate, 0);
    }
  }

  /** The count of masked lines is how many there are. */
  lemma {:induction false} CountIsSize(mask: seq<bool>)
    ensures CountTrue(mask) == |set i | 0 <= i < |mask| && mask[i]|
  {
    var all := set i | 0 <= i < |mask| && mask[i];
    if mask != [] {
      var n := |mask| - 1;
      CountIsSize(mask[..n]);
      var before := set i | 0 <= i < n && mask[..n][i];
      assert all == before + if mask[n] then {n} else {};
      assert n !in before;
    } else {
      assert all == {};
    }
  }

  /** The masked text. */
  function Masked(fragments: seq<string>, lower: Lower, text: string): string
  {
    Join(MaskedLines(fragments, lower, Split(text)), "\n")
  }

  /** Masking keeps the number of lines and every line that is not masked, and doing it again changes nothing. */
  lemma MaskKeepsLines(fragments: seq<string>, lower: Lower, text: string)
    ensures Split(Masked(fragments, lower, text)) == MaskedLines(fragments, lower, Split(text))
    ensures |Split(Masked(fragments, lower, text))| == |Split(text)|
    ensures Masked(fragments, lower, Masked(fragments, lower, text)) == Masked(fragments, lower, text)
  {
    hide Join, Split, Covered, Blankish, ContainsText;
    var lines := Split(text);
    var masked := MaskedLines(fragments, lower, lines);
    PiecesHoldNone(text);
    forall p | p in masked ensures '\n' !in p {
      var i :| 0 <= i < |masked| && masked[i] == p;
      assert lines[i] in lines;
    }
    SplitJoin(masked);
    EmptyIsNotCovered(fragments, lower);
    assert MaskedLines(fragments, lower, masked) == masked;
  }

  lemma EmptyIsNotCovered(fragments: seq<string>, lower: Lower)
    ensures !Covered(fragments, lower, "")
  {
  }
}
