/** What of a text stands outside its comments, and that the scan by lines sees exactly that (src/wiki.rs). */
module VisibleText {
  import opened Prelude
  import opened Text
  import opened Publishing

  // ---- visible text

  /** Where a comment that opens at `b` ends: after the first closing mark, or with the text. */
  function CloseAfter(s: string, b: nat): (e: nat)
    requires b <= |s|
    ensures b <= e <= |s|
  {
    var e := Find(s, "-->", b);
    if e == |s| then |s| else e + 3
  }

  /** A comment opens at `b`: the mark stands there, and not in an earlier comment. */
  ghost predicate Opens(s: string, b: nat)
    requires b <= |s|
    decreases b
  {
    "<!--" <= s[b..] && forall a: nat | a < b && Opens(s, a) :: CloseAfter(s, a) <= b
  }

  ghost predicate Covers(s: string, b: nat, k: nat)
  {
    b <= k < |s| && Opens(s, b) && k < CloseAfter(s, b)
  }

  ghost predicate InComment(s: string, k: nat)
  {
    exists b: nat :: Covers(s, b, k)
  }

  /** The bytes from `i` to `e` that stand outside every comment. */
  ghost function Outside(s: string, i: nat, e: nat): string
    requires i <= e <= |s|
    decreases e - i
  {
    if i == e then "" else (if InComment(s, i) then "" else [s[i]]) + Outside(s, i + 1, e)
  }

  predicate IsLineStart(body: string, i: nat)
  {
    i < |body| && (i == 0 || body[i - 1] == '\n')
  }

  /** On the line at `i`, something outside every comment of the text is not white space. */
  ghost predicate LineShows(s: string, i: nat)
  {
    IsLineStart(s, i) && LineFits(s, i) && !Empty(Outside(s, i, i + |LineAt(s, i)|))
  }

  predicate LineFits(s: string, i: nat)
    requires i < |s|
  {
    i + |LineAt(s, i)| <= |s|
  }

  ghost predicate ShowsText(s: string)
  {
    exists i: nat :: LineShows(s, i)
  }

  // ---- the scan by lines sees exactly that

  /** What the scan knows at `i`: whether the last comment that opened is still open. */
  ghost predicate Scanning(s: string, i: nat, inside: bool)
    requires i <= |s|
  {
    if inside then exists b: nat :: OpenFrom(s, b, i)
    else forall b: nat | b < i && Opens(s, b) :: CloseAfter(s, b) <= i
  }

  ghost predicate OpenFrom(s: string, b: nat, i: nat)
    requires i <= |s|
  {
    b <= i && Opens(s, b) && Find(s, "-->", b) >= i
  }

  lemma {:induction false} OutsideConcat(s: string, i: nat, m: nat, e: nat)
    requires i <= m <= e <= |s|
    ensures Outside(s, i, e) == Outside(s, i, m) + Outside(s, m, e)
    decreases m - i
  {
    hide InComment;
    if i < m {
      OutsideConcat(s, i + 1, m, e);
      Regroup(if InComment(s, i) then "" else [s[i]], Outside(s, i + 1, m), Outside(s, m, e));
    } else {
      assert Outside(s, i, m) == "";
    }
  }

  lemma {:induction false} AllInside(s: string, i: nat, e: nat)
    requires i <= e <= |s| && forall k | i <= k < e :: InComment(s, k)
    ensures Outside(s, i, e) == ""
    decreases e - i
  {
    hide InComment;
    if i < e { AllInside(s, i + 1, e); }
  }

  lemma {:induction false} AllOutside(s: string, i: nat, e: nat)
    requires i <= e <= |s| && forall k | i <= k < e :: !InComment(s, k)
    ensures Outside(s, i, e) == s[i..e]
    decreases e - i
  {
    hide InComment;
    if i < e {
      AllOutside(s, i + 1, e);
      assert s[i..e] == [s[i]] + s[i + 1..e];
    }
  }

  lemma MarkBytes(s: string, k: nat, n: nat, mark: string)
    requires k <= n < |s| && n - k < |mark| && mark <= s[k..]
    ensures s[n] == mark[n - k]
  {
    assert s[k..][n - k] == s[n];
  }

  /** A mark stays within its line. */
  lemma MarkInLine(s: string, k: nat, n: nat, mark: string)
    requires k <= n <= |s| && (n < |s| ==> s[n] == '\n' || s[n] == '\r')
    requires mark == "<!--" || mark == "-->"
    ensures mark <= s[k..] <==> mark <= s[k..n]
  {
    if mark <= s[k..] && n < |s| && n - k < |mark| {
      MarkBytes(s, k, n, mark);
      assert false;
    }
    if mark <= s[k..n] { assert s[k..] == s[k..n] + s[n..]; }
  }

  lemma {:induction false} FindIs(s: string, pat: string, i: nat, j: nat)
    requires pat != "" && i <= j <= |s| && (forall k | i <= k < j :: !(pat <= s[k..])) && (j < |s| ==> pat <= s[j..])
    ensures Find(s, pat, i) == j
    decreases j - i
  {
    if i < j { FindIs(s, pat, i + 1, j); }
  }

  /** The first mark of a line, as a place in the text; `r` is the end of the line if there is none. */
  lemma FirstInLine(s: string, i: nat, n: nat, mark: string) returns (r: nat)
    requires i <= n <= |s| && (n < |s| ==> s[n] == '\n' || s[n] == '\r') && (mark == "<!--" || mark == "-->")
    ensures i <= r <= n && r == i + Find(s[i..n], mark, 0)
    ensures forall k | i <= k < r :: !(mark <= s[k..])
    ensures r < n ==> mark <= s[r..] && r + |mark| <= n
  {
    var line := s[i..n];
    r := i + Find(line, mark, 0);
    forall k | i <= k < r ensures !(mark <= s[k..]) {
      MarkInLine(s, k, n, mark);
      assert line[k - i..] == s[k..n];
    }
    if r < n {
      MarkInLine(s, r, n, mark);
      assert line[r - i..] == s[r..n];
    }
  }

  /** Inside a comment up to `m`, which its closing mark does not precede. */
  lemma StillInside(s: string, b: nat, i: nat, m: nat)
    requires i <= m <= |s| && OpenFrom(s, b, i) && forall k | i <= k < m :: !("-->" <= s[k..])
    ensures OpenFrom(s, b, m) && Outside(s, i, m) == ""
  {
    hide Opens;
    forall k | i <= k < m ensures InComment(s, k) { assert Covers(s, b, k); }
    AllInside(s, i, m);
  }

  lemma Closes(s: string, b: nat, i: nat, m: nat)
    requires i <= m && m + 3 <= |s| && OpenFrom(s, b, i) && "-->" <= s[m..]
    requires forall k | i <= k < m :: !("-->" <= s[k..])
    ensures Scanning(s, m + 3, false) && Outside(s, i, m + 3) == ""
  {
    hide Outside, InComment, Find, Opens;
    ClosesAt(s, b, i, m);
    forall k | i <= k < m + 3 ensures InComment(s, k) { Covered(s, b, k); }
    AllInside(s, i, m + 3);
    forall a: nat | a < m + 3 && Opens(s, a) ensures CloseAfter(s, a) <= m + 3 {
      OpensApart(s, a, b);
    }
  }

  lemma ClosesAt(s: string, b: nat, i: nat, m: nat)
    requires i <= m && m + 3 <= |s| && OpenFrom(s, b, i) && "-->" <= s[m..]
    requires forall k | i <= k < m :: !("-->" <= s[k..])
    ensures Opens(s, b) && b <= i && CloseAfter(s, b) == m + 3
  {
    hide Opens;
    assert forall k | b <= k < i :: !("-->" <= s[k..]);
    FindIs(s, "-->", b, m);
  }

  lemma Covered(s: string, b: nat, k: nat)
    requires b <= k < |s| && Opens(s, b) && k < CloseAfter(s, b)
    ensures InComment(s, k)
  {
    assert Covers(s, b, k);
  }

  /** Of two comments, the one that opens first closes before the other opens. */
  lemma OpensApart(s: string, a: nat, b: nat)
    requires a <= |s| && b <= |s| && Opens(s, a) && Opens(s, b)
    ensures a < b ==> CloseAfter(s, a) <= b
    ensures b < a ==> CloseAfter(s, b) <= a
  {
    hide Find;
  }

  lemma CoversMeans(s: string, b: nat, k: nat)
    requires Covers(s, b, k)
    ensures b <= k < |s| && "<!--" <= s[b..] && Opens(s, b) && k < CloseAfter(s, b)
  {
  }

  lemma StaysOutside(s: string, i: nat, m: nat)
    requires i <= m <= |s| && Scanning(s, i, false) && forall k | i <= k < m :: !("<!--" <= s[k..])
    ensures Scanning(s, m, false) && Outside(s, i, m) == s[i..m]
  {
    forall k | i <= k < m ensures !InComment(s, k) {
      if b: nat :| Covers(s, b, k) {
        CoversMeans(s, b, k);
        assert false;
      }
    }
    AllOutside(s, i, m);
  }

  lemma OpensHere(s: string, m: nat)
    requires m <= |s| && Scanning(s, m, false) && "<!--" <= s[m..]
    ensures Scanning(s, m, true)
  {
    assert Opens(s, m);
    assert OpenFrom(s, m, m);
  }

  lemma Opener(s: string, i: nat) returns (b: nat)
    requires i <= |s| && Scanning(s, i, true)
    ensures OpenFrom(s, b, i)
  {
    b :| OpenFrom(s, b, i);
  }

  lemma ScansOn(s: string, b: nat, i: nat)
    requires i <= |s| && OpenFrom(s, b, i)
    ensures Scanning(s, i, true)
  {
  }

  lemma VisibleInside(line: string)
    ensures var e := Find(line, "-->", 0);
      Visible(line, true) == if e == |line| then ("", true) else Visible(line[e + 3..], false)
  {
    hide Find, After;
  }

  lemma VisibleOutside(line: string)
    ensures var b := Find(line, "<!--", 0);
      Visible(line, false) == if b == |line| then (line, false) else After(line[..b], Visible(line[b..], true))
  {
    hide Find, After;
  }

  lemma LineFrom(s: string, i: nat, m: nat, n: nat)
    requires i <= m <= n <= |s|
    ensures s[i..n][m - i..] == s[m..n] && s[i..n][..m - i] == s[i..m]
  {
  }

  /** On one line, from `i` to its end `n`. */
  lemma {:induction false} VisibleIsOutside(s: string, i: nat, n: nat, inside: bool)
    requires i <= n <= |s| && (n < |s| ==> s[n] == '\n' || s[n] == '\r') && Scanning(s, i, inside)
    ensures var seen := Visible(s[i..n], inside);
      seen.0 == Outside(s, i, n) && Scanning(s, n, seen.1)
    decreases n - i, if inside then 0 else 1
  {
    hide Opens, Outside, Find, Visible, Scanning;
    var line := s[i..n];
    if inside {
      VisibleInside(line);
      var b := Opener(s, i);
      var m := FirstInLine(s, i, n, "-->");
      if m == n {
        StillInside(s, b, i, n);
        ScansOn(s, b, n);
      } else {
        Closes(s, b, i, m);
        VisibleIsOutside(s, m + 3, n, false);
        OutsideConcat(s, i, m + 3, n);
        LineFrom(s, i, m + 3, n);
      }
    } else {
      VisibleOutside(line);
      var m := FirstInLine(s, i, n, "<!--");
      StaysOutside(s, i, m);
      if m < n {
        OpensHere(s, m);
        VisibleIsOutside(s, m, n, true);
        OutsideConcat(s, i, m, n);
        LineFrom(s, i, m, n);
      }
    }
  }

  /** No comment opens or closes in a line break. */
  lemma PastLineBreak(s: string, n: nat, e: nat, inside: bool)
    requires n <= e <= |s| && Scanning(s, n, inside) && forall k | n <= k < e :: s[k] == '\n' || s[k] == '\r'
    ensures Scanning(s, e, inside)
  {
    forall k | n <= k < e ensures !("<!--" <= s[k..]) && !("-->" <= s[k..]) { assert s[k..][0] == s[k]; }
    if inside {
      var b: nat :| OpenFrom(s, b, n);
      assert OpenFrom(s, b, e);
    }
  }

  /** The line at `i`: its text, then at most a carriage return and a line feed. */
  lemma LineParts(s: string, i: nat)
    requires i < |s|
    ensures var n, e := i + |LineAt(s, i)|, LineEnd(s, i);
      && n <= e <= |s| && LineAt(s, i) == s[i..n] && (n < |s| ==> s[n] == '\n' || s[n] == '\r')
      && (forall k | n <= k < e :: s[k] == '\n' || s[k] == '\r')
      && (e < |s| ==> s[e - 1] == '\n') && forall k | i <= k < e - 1 :: s[k] != '\n'
  {
    hide IndexFrom;
    var m := IndexFrom(s, '\n', i);
    var piece := s[i..m];
    if i < m {
      assert piece[|piece| - 1] == s[m - 1] && piece[..|piece| - 1] == s[i..m - 1];
    }
  }

  lemma {:induction false} ContentFrom(s: string, i: nat, inside: bool)
    requires i <= |s| && (i < |s| ==> IsLineStart(s, i)) && Scanning(s, i, inside)
    ensures HasContent(s, i, inside) <==> exists j: nat :: i <= j && LineShows(s, j)
    decreases |s| - i
  {
    hide Scanning, Visible, Outside, LineAt, LineEnd, Empty;
    if i < |s| {
      var n, e := i + |LineAt(s, i)|, LineEnd(s, i);
      LineParts(s, i);
      VisibleIsOutside(s, i, n, inside);
      var seen := Visible(LineAt(s, i), inside);
      assert LineShows(s, i) <==> !Empty(seen.0);
      PastLineBreak(s, n, e, seen.1);
      ContentFrom(s, e, seen.1);
      assert forall j: nat | i < j < e :: !IsLineStart(s, j);
    }
  }

  /** The line-by-line scan finds content exactly when something outside every comment is not white space. */
  lemma ContentIsVisibleText(s: string)
    ensures HasContent(s, 0, false) <==> ShowsText(s)
  {
    hide HasContent, LineShows;
    ContentFrom(s, 0, false);
  }
}
