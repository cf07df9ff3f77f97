/** Trimming the bytes of a text is trimming the text: white space as `char` has it, found in UTF-8 (src/wiki.rs). */
module Utf8Text {
  import opened Text
  import opened Publishing
  import Splitter

  /** The bytes of a character, by section 3 of RFC 3629. */
  function Bytes(c: char): (b: string)
    ensures 0 < |b| <= 4
  {
    var n := c as int;
    if n < 0x80 then [c]
    else if n < 0x800 then [Byte(0xC0 + n / 64), Byte(0x80 + n % 64)]
    else if n < 0x1_0000 then [Byte(0xE0 + n / 4096), Byte(0x80 + n / 64 % 64), Byte(0x80 + n % 64)]
    else [Byte(0xF0 + n / 262144), Byte(0x80 + n / 4096 % 64), Byte(0x80 + n / 64 % 64), Byte(0x80 + n % 64)]
  }

  function Byte(n: int): char
    requires 0 <= n < 256
  {
    n as char
  }

  function Encoded(t: string): string
  {
    if t == "" then "" else Bytes(t[0]) + Encoded(t[1..])
  }

  lemma {:induction false} EncodedConcat(a: string, b: string)
    ensures Encoded(a + b) == Encoded(a) + Encoded(b)
  {
    hide Bytes;
    if a == "" {
      assert a + b == b;
    } else {
      EncodedConcat(a[1..], b);
      var whole, first := a + b, Bytes(a[0]);
      assert whole[0] == a[0] && whole[1..] == a[1..] + b;
      assert first + (Encoded(a[1..]) + Encoded(b)) == (first + Encoded(a[1..])) + Encoded(b);
    }
  }

  lemma EncodedOne(c: char)
    ensures Encoded([c]) == Bytes(c)
  {
    assert [c][1..] == "";
  }

  /** The length that the chunker budgets with is the number of bytes. */
  lemma {:induction false} LenIsBytes(t: string)
    ensures Splitter.Len(t) == |Encoded(t)|
  {
    if t != "" { LenIsBytes(t[1..]); }
  }

  /** Further bytes are told apart from first ones. */
  lemma BytesAreShaped(c: char)
    ensures var b := Bytes(c);
      && Utf8Len(b[0]) == |b|
      && (forall k | 0 < k < |b| :: '\U{80}' <= b[k] < '\U{C0}')
      && (|b| == 1 ==> b[0] < '\U{80}') && (|b| == 2 ==> '\U{C0}' <= b[0] < '\U{E0}')
      && (|b| == 3 ==> '\U{E0}' <= b[0] < '\U{F0}') && (|b| == 4 ==> '\U{F0}' <= b[0])
  {
  }

  lemma {:induction false} EncodedIsUtf8(t: string)
    ensures Utf8(Encoded(t))
  {
    hide Bytes;
    if t != "" {
      EncodedIsUtf8(t[1..]);
      BytesAreShaped(t[0]);
      var first, rest := Bytes(t[0]), Encoded(t[1..]);
      var s := first + rest;
      forall i | 0 <= i < |s|
        ensures i + Utf8Len(s[i]) <= |s| && forall k | i < k < i + Utf8Len(s[i]) :: '\U{80}' <= s[k] < '\U{C0}'
      {
        if i >= |first| {
          assert s[i] == rest[i - |first|];
          assert forall k | i < k < |s| :: s[k] == rest[k - |first|];
        } else if i > 0 {
          assert Utf8Len(s[i]) == 1;
        }
      }
    }
  }

  // ---- one character of white space

  lemma SpaceOfOne(c: char)
    requires |Bytes(c)| == 1
    ensures IsSpace(c) <==> '\t' <= Bytes(c)[0] <= '\r' || Bytes(c)[0] == ' '
  {
  }

  lemma SpaceOfTwo(c: char)
    requires |Bytes(c)| == 2
    ensures var b := Bytes(c); IsSpace(c) <==> b[0] == '\U{C2}' && (b[1] == '\U{85}' || b[1] == '\U{A0}')
  {
  }

  lemma SpaceOfThree(c: char)
    requires |Bytes(c)| == 3
    ensures var b := Bytes(c); IsSpace(c) <==> IsWideSpace(b[0], b[1], b[2])
  {
  }

  lemma SpaceOfFour(c: char)
    requires |Bytes(c)| == 4
    ensures !IsSpace(c)
  {
  }

  /** White space is found where its character starts. */
  lemma SpaceStartsHere(a: string, c: char, rest: string)
    ensures SpaceAt(a + Bytes(c) + rest, |a|) == if IsSpace(c) then |Bytes(c)| else 0
  {
    hide Bytes, IsSpace, IsWideSpace;
    var s, b := a + Bytes(c) + rest, Bytes(c);
    BytesAreShaped(c);
    assert forall k | 0 <= k < |b| :: s[|a| + k] == b[k];
    if |b| == 1 {
      SpaceOfOne(c);
      FirstByteOnly(s, |a|);
    } else if |b| == 2 {
      SpaceOfTwo(c);
      WideStartsHigh(s, |a|);
    } else if |b| == 3 {
      SpaceOfThree(c);
    } else {
      SpaceOfFour(c);
      WideStartsHigh(s, |a|);
    }
  }

  lemma FirstByteOnly(s: string, i: nat)
    requires i < |s| && s[i] < '\U{80}'
    ensures SpaceAt(s, i) == if '\t' <= s[i] <= '\r' || s[i] == ' ' then 1 else 0
  {
  }

  lemma WideStartsHigh(s: string, i: nat)
    ensures i + 2 < |s| && !('\U{E1}' <= s[i] < '\U{E4}') ==> !IsWideSpace(s[i], s[i + 1], s[i + 2])
  {
  }

  /** And where it ends, whatever stands before it. */
  lemma SpaceEndsHere(a: string, c: char)
    ensures SpaceBefore(a + Bytes(c), |a + Bytes(c)|) == if IsSpace(c) then |Bytes(c)| else 0
  {
    hide Bytes, IsSpace, IsWideSpace, SpaceAt;
    var s, b := a + Bytes(c), Bytes(c);
    var e := |s|;
    BytesAreShaped(c);
    assert s + "" == s;
    SpaceStartsHere(a, c, "");
    if |b| == 4 { SpaceOfFour(c); }
    forall i | |a| < i < e ensures SpaceAt(s, i) == 0 {
      assert s[i] == b[i - |a|];
      LaterByteStartsNone(s, i);
    }
    forall i | 0 <= i < |a| ensures SpaceAt(s, i) != e - i {
      SpaceIsContinued(s, i, e - i);
      assert s[|a|] == b[0];
    }
  }

  lemma LaterByteStartsNone(s: string, i: nat)
    requires i < |s| && '\U{80}' <= s[i] < '\U{C0}'
    ensures SpaceAt(s, i) == 0
  {
  }

  /** White space of `n` bytes goes on with bytes that start no character. */
  lemma SpaceIsContinued(s: string, i: nat, n: nat)
    requires i + n <= |s|
    ensures SpaceAt(s, i) == n ==> forall k | i < k < i + n :: '\U{80}' <= s[k] < '\U{C0}'
  {
  }

  // ---- trimming

  lemma EncodedSplit(t: string, i: nat)
    requires i <= |t|
    ensures Encoded(t) == Encoded(t[..i]) + Encoded(t[i..])
  {
    hide Encoded;
    EncodedConcat(t[..i], t[i..]);
    assert t == t[..i] + t[i..];
  }

  lemma {:induction false} StartInBytes(a: string, t: string, i: nat)
    requires i <= |t|
    ensures TextStart(a + Encoded(t[i..]), |a|) == |a| + |Encoded(t[i..StartOfText(t, i, |t|)])|
    decreases |t| - i
  {
    hide Bytes, IsSpace, SpaceAt;
    var s, b := a + Encoded(t[i..]), StartOfText(t, i, |t|);
    if i == |t| {
      assert t[i..] == "" && t[i..b] == "";
      NoSpaceAtEnd(s);
    } else {
      var c, rest := t[i], t[i + 1..];
      assert t[i..][0] == c && t[i..][1..] == rest;
      assert s == a + Bytes(c) + Encoded(rest);
      SpaceStartsHere(a, c, Encoded(rest));
      if IsSpace(c) {
        StartInBytes(a + Bytes(c), t, i + 1);
        assert t[i..b] == [c] + t[i + 1..b];
        assert (a + Bytes(c)) + Encoded(rest) == s;
        assert t[i..b][1..] == t[i + 1..b];
      } else {
        assert t[i..b] == "";
      }
    }
  }

  lemma NoSpaceAtEnd(s: string)
    ensures SpaceAt(s, |s|) == 0
  {
  }

  lemma {:induction false} EndInBytes(t: string, e: nat)
    requires e <= |t|
    ensures TextEnd(Encoded(t[..e]), |Encoded(t[..e])|) == |Encoded(t[..EndOfText(t, e)])|
    decreases e
  {
    hide Bytes, IsSpace, SpaceBefore;
    var s := Encoded(t[..e]);
    if e == 0 {
      NoSpaceBeforeStart(s);
    } else {
      var a, c := Encoded(t[..e - 1]), t[e - 1];
      EncodedConcat(t[..e - 1], [c]);
      EncodedOne(c);
      assert t[..e] == t[..e - 1] + [c];
      SpaceEndsHere(a, c);
      EndInBytes(t, e - 1);
      if IsSpace(c) { EndOfPrefix(s, a, Bytes(c), |a|); }
    }
  }

  lemma NoSpaceBeforeStart(s: string)
    ensures SpaceBefore(s, 0) == 0
  {
  }

  /** What stands after it does not change where a text ends. */
  lemma {:induction false} EndOfPrefix(s: string, a: string, b: string, e: nat)
    requires s == a + b && e <= |a|
    ensures TextEnd(s, e) == TextEnd(a, e)
    decreases e
  {
    PrefixSpace(s, a, b, e);
    var n := SpaceBefore(a, e);
    if n > 0 { EndOfPrefix(s, a, b, e - n); }
  }

  lemma PrefixSpace(s: string, a: string, b: string, e: nat)
    requires s == a + b && e <= |a|
    ensures SpaceBefore(s, e) == SpaceBefore(a, e)
  {
    hide SpaceAt;
    forall i | 0 <= i < e ensures SpaceAt(s, i) == e - i <==> SpaceAt(a, i) == e - i {
      SameSpace(s, a, b, i, e - i);
    }
  }

  lemma SameSpace(s: string, a: string, b: string, i: nat, n: nat)
    requires s == a + b && i + n <= |a| && n > 0
    ensures SpaceAt(s, i) == n <==> SpaceAt(a, i) == n
  {
    hide IsWideSpace;
    assert s[i] == a[i];
    assert i + 1 < |a| ==> s[i + 1] == a[i + 1];
    assert i + 2 < |a| ==> s[i + 2] == a[i + 2];
  }

  /** Trimming the bytes is trimming the text, and the bytes are white space exactly when the text is. */
  lemma TrimmedBytes(t: string)
    ensures Empty(Encoded(t)) <==> Blank(t)
    ensures WithoutEnd(Encoded(t)) == Encoded(t[..EndOfText(t, |t|)])
    ensures Trimmed(Encoded(t)) == Encoded(Trim(t))
  {
    hide Encoded, TextStart, TextEnd, IsSpace;
    StartsIn(t);
    EndsIn(t);
    var b := StartOfText(t, 0, |t|);
    EncodedSplit(t, b);
    var rest := t[b..];
    assert Encoded(t)[TextStart(Encoded(t), 0)..] == Encoded(rest);
    EndsIn(rest);
    EmptyIff(t, b);
    TrimInTwo(t);
  }

  lemma StartsIn(t: string)
    ensures TextStart(Encoded(t), 0) == |Encoded(t[..StartOfText(t, 0, |t|)])|
  {
    hide Encoded, TextStart;
    StartInBytes("", t, 0);
    assert t[0..] == t && "" + Encoded(t) == Encoded(t);
    assert t[0..StartOfText(t, 0, |t|)] == t[..StartOfText(t, 0, |t|)];
  }

  lemma EndsIn(t: string)
    ensures WithoutEnd(Encoded(t)) == Encoded(t[..EndOfText(t, |t|)])
  {
    hide Encoded, TextEnd;
    var e := EndOfText(t, |t|);
    EndInBytes(t, |t|);
    assert t[..|t|] == t;
    EncodedSplit(t, e);
  }

  lemma EmptyIff(t: string, b: nat)
    requires b == StartOfText(t, 0, |t|)
    ensures |Encoded(t[..b])| == |Encoded(t)| <==> Blank(t)
  {
    hide Encoded, IsSpace;
    EncodedSplit(t, b);
    NoBytesNoText(t[b..]);
  }

  lemma NoBytesNoText(t: string)
    ensures Encoded(t) == "" <==> t == ""
  {
  }

  /** Dropping what is white space at the start, and then at the end. */
  lemma TrimInTwo(t: string)
    ensures var rest := t[StartOfText(t, 0, |t|)..]; Trim(t) == rest[..EndOfText(rest, |rest|)]
  {
    hide IsSpace;
    var b, e := StartOfText(t, 0, |t|), EndOfText(t, |t|);
    var rest := t[b..];
    var f := EndOfText(rest, |rest|);
    if b == |t| {
      assert Blank(t);
    } else {
      assert !IsSpace(t[b]);
      assert e > b;
      StartBounded(t, 0, e);
      LastSolid(t, b, e, f);
    }
  }

  lemma {:induction false} StartBounded(t: string, i: nat, e: nat)
    requires i <= e <= |t| && StartOfText(t, i, |t|) < e
    ensures StartOfText(t, i, e) == StartOfText(t, i, |t|)
    decreases e - i
  {
    hide IsSpace;
    if i < e && IsSpace(t[i]) { StartBounded(t, i + 1, e); }
  }

  lemma LastSolid(t: string, b: nat, e: nat, f: nat)
    requires b < e <= |t| && f <= |t| - b && !IsSpace(t[b]) && !IsSpace(t[e - 1])
    requires (forall k | e <= k < |t| :: IsSpace(t[k])) && forall k | f <= k < |t| - b :: IsSpace(t[b..][k])
    requires f > 0 ==> !IsSpace(t[b..][f - 1])
    ensures f == e - b
  {
    hide IsSpace;
    var rest := t[b..];
    assert forall k | 0 <= k < |rest| :: rest[k] == t[b + k];
    assert rest[e - b - 1] == t[e - 1];
    assert f > 0 ==> rest[f - 1] == t[b + f - 1];
  }

  lemma LastByte(t: string)
    requires t != ""
    ensures var b := Encoded(t); b != "" && (b[|b| - 1] == '\n' <==> t[|t| - 1] == '\n')
  {
    hide Encoded;
    var front, c := t[..|t| - 1], t[|t| - 1];
    EncodedConcat(front, [c]);
    EncodedOne(c);
    BytesAreShaped(c);
    assert t == front + [c];
    NewlineByte(c);
  }

  lemma NewlineByte(c: char)
    ensures Bytes(c)[|Bytes(c)| - 1] == '\n' <==> c == '\n'
  {
    BytesAreShaped(c);
  }

  lemma EncodedNewline()
    ensures Encoded("\n") == "\n" && Encoded("") == ""
  {
    EncodedOne('\n');
  }

  /** What closes a gap: an empty line and the text after it, on a line that ends. */
  function Rest(tail: string): string
  {
    if Blank(tail) then "" else if tail[|tail| - 1] == '\n' then "\n" + tail else "\n" + tail + "\n"
  }

  lemma RestInBytes(tail: string)
    ensures Encoded(Rest(tail)) ==
      if Empty(Encoded(tail)) then ""
      else if Encoded(tail) != "" && Encoded(tail)[|Encoded(tail)| - 1] == '\n' then "\n" + Encoded(tail)
      else "\n" + Encoded(tail) + "\n"
  {
    hide Encoded, Empty, Blank;
    TrimmedBytes(tail);
    EncodedNewline();
    if !Blank(tail) {
      NotBlankNotEmpty(tail);
      LastByte(tail);
      EncodedConcat("\n", tail);
      EncodedConcat("\n" + tail, "\n");
    }
  }

  lemma NotBlankNotEmpty(t: string)
    ensures !Blank(t) ==> t != ""
  {
  }

  /**
   * What dropping a section leaves of the text around it: the text before it without white space at its end, an empty
   * line, and the text after it as it is unless it is white space, on a line that ends.
   */
  lemma ClosingText(before: string, tail: string)
    ensures Closing(Encoded(before), Encoded(tail)) ==
      Encoded(before[..EndOfText(before, |before|)] + "\n" + Rest(tail))
  {
    hide Encoded, Empty, WithoutEnd, Rest, Blank;
    var head := before[..EndOfText(before, |before|)];
    TrimmedBytes(before);
    EncodedNewline();
    EncodedConcat(head, "\n");
    EncodedConcat(head + "\n", Rest(tail));
    RestInBytes(tail);
    EmptyBytes(tail);
    ClosingSteps(Encoded(before), Encoded(tail), Encoded(head) + "\n", Encoded(Rest(tail)));
  }

  lemma EmptyBytes(tail: string)
    ensures Encoded(tail) == "" ==> Empty(Encoded(tail))
  {
  }

  lemma ClosingSteps(before: string, tail: string, head: string, rest: string)
    requires head == WithoutEnd(before) + "\n" && (tail == "" ==> Empty(tail))
    requires rest == if Empty(tail) then "" else if tail != "" && tail[|tail| - 1] == '\n' then "\n" + tail else "\n" + tail + "\n"
    ensures Closing(before, tail) == head + rest
  {
    hide Empty, WithoutEnd;
    assert head + ("\n" + tail) == head + "\n" + tail;
    assert head + ("\n" + tail + "\n") == head + "\n" + tail + "\n";
    assert head + "" == head;
  }

  // ---- the lines that matter

  predicate IsAscii(s: string)
  {
    forall i | 0 <= i < |s| :: s[i] < '\U{80}'
  }

  lemma {:induction false} AsciiStays(t: string)
    ensures IsAscii(t) <==> IsAscii(Encoded(t))
    ensures IsAscii(t) ==> Encoded(t) == t
  {
    hide Bytes;
    if t != "" {
      var b, rest := Bytes(t[0]), Encoded(t[1..]);
      AsciiStays(t[1..]);
      AsciiByte(t[0]);
      assert t == [t[0]] + t[1..];
      assert IsAscii(b + rest) <==> IsAscii(b) && IsAscii(rest) by {
        assert forall i | 0 <= i < |rest| :: (b + rest)[|b| + i] == rest[i];
        assert forall i | 0 <= i < |b| :: (b + rest)[i] == b[i];
      }
      assert IsAscii(t) <==> t[0] < '\U{80}' && IsAscii(t[1..]) by {
        assert forall i | 0 < i < |t| :: t[i] == t[1..][i - 1];
      }
    }
  }

  lemma AsciiByte(c: char)
    ensures c < '\U{80}' <==> IsAscii(Bytes(c))
    ensures c < '\U{80}' ==> Bytes(c) == [c]
  {
    if '\U{80}' <= c { assert Bytes(c)[0] >= '\U{80}'; }
  }

  predicate SpellsHeading(s: string)
  {
    |s| == 11 && forall i | 0 <= i < 11 :: s[i] == "## see also"[i] || s[i] == "## SEE ALSO"[i]
  }

  lemma SpellingIgnoresCase(s: string)
    ensures EqualsIgnoringCase(s, "## see also") <==> SpellsHeading(s)
    ensures SpellsHeading(s) ==> IsAscii(s)
  {
    var lower, upper := "## see also", "## SEE ALSO";
    assert forall i | 0 <= i < 11 :: lower[i] == LowerAscii(lower[i]) == LowerAscii(upper[i]);
    if |s| == 11 {
      forall i | 0 <= i < 11
        ensures LowerAscii(s[i]) == LowerAscii(lower[i]) <==> s[i] == lower[i] || s[i] == upper[i]
      {
      }
    }
  }

  /** Which lines open See Also, and which are headings, by their text. */
  lemma LinesByText(line: string)
    ensures IsSeeAlso(Encoded(line)) <==> SpellsHeading(Trim(line))
    ensures IsHeading(Encoded(line)) <==> "#" <= TrimStart(line)
  {
    hide Encoded, Trim, Trimmed, SpellsHeading, IsAscii, TextStart;
    TrimmedBytes(line);
    var t := Trim(line);
    AsciiStays(t);
    SpellingIgnoresCase(t);
    SpellingIgnoresCase(Encoded(t));
    HashFirst(line);
  }

  lemma FirstByteOf(t: string)
    ensures (t != "" && t[0] == '#') <==> (Encoded(t) != "" && Encoded(t)[0] == '#')
  {
    hide Bytes;
    if t != "" {
      AsciiByte(t[0]);
      BytesAreShaped(t[0]);
      assert Encoded(t)[0] == Bytes(t[0])[0];
      if Bytes(t[0])[0] == '#' { assert IsAscii(Bytes(t[0])) by { ShortIsAscii(t[0]); } }
    }
  }

  lemma ShortIsAscii(c: char)
    ensures Bytes(c)[0] < '\U{80}' ==> IsAscii(Bytes(c))
  {
    BytesAreShaped(c);
  }

  lemma HashFirst(line: string)
    ensures IsHeading(Encoded(line)) <==> "#" <= TrimStart(line)
  {
    hide Encoded, TextStart, IsSpace;
    var b := StartOfText(line, 0, |line|);
    StartsIn(line);
    EncodedSplit(line, b);
    var front, rest := Encoded(line[..b]), line[b..];
    FirstByteOf(rest);
    assert TrimStart(line) == rest;
    assert "#" <= rest <==> rest != "" && rest[0] == '#';
    assert Encoded(rest) != "" ==> (front + Encoded(rest))[|front|] == Encoded(rest)[0];
  }
}
