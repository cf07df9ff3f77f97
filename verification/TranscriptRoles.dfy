/** Which role owns each line of a transcript, and who a claim is from (src/capture.rs). */
module TranscriptRoles {
  import opened Prelude
  import opened Text

  /** A turn as recorded: the role as given, and what was said. */
  datatype Turn = Turn(role: string, text: string)

  predicate IsUser(t: Turn)
  {
    t.role == "user"
  }

  function Shown(t: Turn): string
  {
    (if IsUser(t) then "User" else "Assistant") + ": " + t.text
  }

  function AllShown(turns: seq<Turn>): (r: seq<string>)
    ensures |r| == |turns| && forall i | 0 <= i < |r| :: r[i] == Shown(turns[i])
  {
    seq(|turns|, i requires 0 <= i < |turns| => Shown(turns[i]))
  }

  /** The transcript: turns separated by a blank line. */
  function Transcript(turns: seq<Turn>): string
  {
    Join(AllShown(turns), "\n\n")
  }

  // ---- the lines of a text

  /** `str::lines`: a line break ends a line, a carriage return before it is dropped, and no empty line follows the last break. */
  function LinesOf(s: string): seq<string>
  {
    var pieces := Split(s);
    var n := |pieces| - 1;
    var whole := seq(n, i requires 0 <= i < n => WithoutReturn(pieces[i]));
    if pieces[n] == "" then whole else whole + [pieces[n]]
  }

  // ---- who wrote each line

  /** A piece of the transcript between line breaks, and the turn that wrote it. */
  datatype Owned = Owned(text: string, turn: nat)

  function OwnedBy(pieces: seq<string>, turn: nat): (r: seq<Owned>)
    ensures |r| == |pieces| && forall i | 0 <= i < |r| :: r[i] == Owned(pieces[i], turn)
  {
    seq(|pieces|, i requires 0 <= i < |pieces| => Owned(pieces[i], turn))
  }

  /** Turn by turn: its own lines, then the separator, which goes with the turn before it. */
  function Ownership(turns: seq<Turn>, n: nat): seq<Owned>
    requires n <= |turns|
  {
    if n == 0 then []
    else
      Ownership(turns, n - 1)
      + OwnedBy(Split(Shown(turns[n - 1])), n - 1)
      + (if n < |turns| then [Owned("", n - 1)] else [])
  }

  function Texts(owned: seq<Owned>): (r: seq<string>)
    ensures |r| == |owned| && forall i | 0 <= i < |r| :: r[i] == owned[i].text
  {
    seq(|owned|, i requires 0 <= i < |owned| => owned[i].text)
  }

  lemma TextsNext(turns: seq<Turn>, n: nat)
    requires 0 < n <= |turns|
    ensures Texts(Ownership(turns, n)) ==
      Texts(Ownership(turns, n - 1)) + Split(Shown(turns[n - 1])) + if n < |turns| then [""] else []
  {
    hide Split, Shown;
    var before, own := Ownership(turns, n - 1), OwnedBy(Split(Shown(turns[n - 1])), n - 1);
    var separator := if n < |turns| then [Owned("", n - 1)] else [];
    assert Ownership(turns, n) == before + own + separator;
    TextsConcat(before + own, separator);
    TextsConcat(before, own);
    assert Texts(own) == Split(Shown(turns[n - 1]));
  }

  lemma TextsConcat(a: seq<Owned>, b: seq<Owned>)
    ensures Texts(a + b) == Texts(a) + Texts(b)
  {
  }

  /** Everything from turn `n` on, as it stands in the transcript. */
  lemma {:induction false} OwnershipIsTheTranscript(turns: seq<Turn>, n: nat)
    requires n < |turns|
    ensures Texts(Ownership(turns, n)) + Split(Join(AllShown(turns)[n..], "\n\n")) == Split(Transcript(turns))
  {
    hide Split, Texts, Shown;
    var shown := AllShown(turns);
    if n == 0 {
      assert shown[0..] == shown;
      assert Texts(Ownership(turns, 0)) == [];
    } else {
      OwnershipIsTheTranscript(turns, n - 1);
      var rest := Join(shown[n..], "\n\n");
      assert shown[n - 1..][0] == shown[n - 1] && shown[n - 1..][1..] == shown[n..];
      assert Join(shown[n - 1..], "\n\n") == shown[n - 1] + "\n\n" + rest;
      SplitBlankLine(shown[n - 1], rest);
      TextsNext(turns, n);
    }
  }

  lemma SplitBlankLine(a: string, b: string)
    ensures Split(a + "\n\n" + b) == Split(a) + [""] + Split(b)
  {
    SplitConcat(a, "\n" + b);
    SplitConcat("", b);
    assert a + "\n\n" + b == a + "\n" + ("\n" + b);
    assert "" + "\n" + b == "\n" + b;
  }

  /** A turn as the model reads it: anyone but the user speaks as the assistant. */
  ghost function Labelled(t: Turn): string
  {
    if t.role == "user" then "User: " + t.text else "Assistant: " + t.text
  }

  lemma LabelIsShown(t: Turn)
    ensures Shown(t) == Labelled(t)
  {
    assert "User" + ": " == "User: " && "Assistant" + ": " == "Assistant: ";
  }

  /** The transcript is the turns, each behind its label, with an empty line between them. */
  lemma TranscriptReads(turns: seq<Turn>)
    ensures Transcript(turns) == Join(seq(|turns|, i requires 0 <= i < |turns| => Labelled(turns[i])), "\n\n")
  {
    hide Join, Shown, Labelled;
    var labelled := seq(|turns|, i requires 0 <= i < |turns| => Labelled(turns[i]));
    forall i | 0 <= i < |turns| ensures AllShown(turns)[i] == labelled[i] {
      LabelIsShown(turns[i]);
    }
    assert AllShown(turns) == labelled;
  }

  /** The pieces of the transcript are those of the turns, in order, with the separators between them. */
  lemma AllOwned(turns: seq<Turn>)
    requires turns != []
    ensures Texts(Ownership(turns, |turns|)) == Split(Transcript(turns))
  {
    hide Split, Texts, Shown;
    var n := |turns|;
    OwnershipIsTheTranscript(turns, n - 1);
    var shown := AllShown(turns);
    assert shown[n - 1..] == [shown[n - 1]];
    TextsNext(turns, n);
  }

  /** The last piece is empty exactly when the last turn ends with a line break. */
  lemma {:induction false} LastPiece(s: string)
    requires s != ""
    ensures Split(s)[|Split(s)| - 1] == "" <==> s[|s| - 1] == '\n'
  {
    if |s| > 1 { LastPiece(s[1..]); }
  }

  // ---- the roles of the lines

  function RoleName(t: Turn): string
  {
    if IsUser(t) then "user" else "assistant"
  }

  predicate WithinTurns(owned: seq<Owned>, turns: seq<Turn>)
  {
    forall i | 0 <= i < |owned| :: owned[i].turn < |turns|
  }

  lemma {:induction false} OwnedWithin(turns: seq<Turn>, n: nat)
    requires n <= |turns|
    ensures WithinTurns(Ownership(turns, n), turns)
  {
    hide Split, Shown;
    if n > 0 { OwnedWithin(turns, n - 1); }
  }

  function RolesOf(turns: seq<Turn>, owned: seq<Owned>): (r: seq<string>)
    requires WithinTurns(owned, turns)
    ensures |r| == |owned| && forall i | 0 <= i < |r| :: r[i] == RoleName(turns[owned[i].turn])
  {
    seq(|owned|, i requires 0 <= i < |owned| => RoleName(turns[owned[i].turn]))
  }

  /** One role per line of every turn, and one per separator. */
  method CountRoles(turns: seq<Turn>) returns (roles: seq<string>)
    ensures WithinTurns(Ownership(turns, |turns|), turns)
    ensures roles == RolesOf(turns, Ownership(turns, |turns|))
  {
    hide Split, Shown, RoleName;
    roles := [];
    for i := 0 to |turns|
      invariant WithinTurns(Ownership(turns, i), turns) && roles == RolesOf(turns, Ownership(turns, i))
    {
      OwnedWithin(turns, i + 1);
      var normalized := RoleName(turns[i]);
      var count := |Split(Shown(turns[i]))|;
      ghost var before := roles;
      for k := 0 to count
        invariant roles == before + seq(k, _ => normalized)
      {
        roles := roles + [normalized];
      }
      if i + 1 < |turns| {
        roles := roles + [normalized];
      }
    }
  }

  /** Pads with the last role, or cuts, to a given length. */
  method Align(roles: seq<string>, n: nat) returns (r: seq<string>)
    ensures |r| == n
    ensures forall i | 0 <= i < n ::
      r[i] == if i < |roles| then roles[i] else if roles == [] then "assistant" else roles[|roles| - 1]
  {
    r := roles;
    if |r| < n {
      var last := if r == [] then "assistant" else r[|r| - 1];
      while |r| < n
        invariant |roles| <= |r| <= n && r[..|roles|] == roles && forall i | |roles| <= i < |r| :: r[i] == last
      {
        r := r + [last];
      }
    } else {
      r := r[..n];
    }
  }

  /** Transcripts have as many pieces as roles, and as lines unless the last turn ends with a line break. */
  lemma LinesAndOwners(turns: seq<Turn>)
    ensures var lines, owned := LinesOf(Transcript(turns)), Ownership(turns, |turns|);
            && |lines| <= |owned| <= |lines| + 1
            && (|owned| == |lines| + 1 <==> turns != [] && EndsWithBreak(turns[|turns| - 1].text))
            && forall i | 0 <= i < |lines| :: lines[i] == owned[i].text || lines[i] == WithoutReturn(owned[i].text)
  {
    hide LinesOf, Split, Transcript, Ownership, Texts, WithoutReturn;
    if turns == [] {
      NoTurns();
    } else {
      AllOwned(turns);
      OwnLines(turns, Ownership(turns, |turns|));
      LastOfTranscript(turns);
    }
  }

  lemma NoTurns()
    ensures LinesOf(Transcript([])) == [] && Ownership([], 0) == []
  {
    hide Prefixed;
    assert Transcript([]) == "" && Split("") == [""];
  }

  predicate EndsWithBreak(s: string)
  {
    s != "" && s[|s| - 1] == '\n'
  }

  lemma OwnLines(turns: seq<Turn>, owned: seq<Owned>)
    requires Texts(owned) == Split(Transcript(turns))
    ensures var lines := LinesOf(Transcript(turns));
            && |lines| <= |owned| <= |lines| + 1
            && (|owned| == |lines| + 1 <==> Split(Transcript(turns))[|owned| - 1] == "")
            && forall i | 0 <= i < |lines| :: lines[i] == owned[i].text || lines[i] == WithoutReturn(owned[i].text)
  {
    hide Split, Transcript, WithoutReturn;
  }

  lemma LastOfTranscript(turns: seq<Turn>)
    requires turns != []
    ensures var pieces := Split(Transcript(turns));
            pieces[|pieces| - 1] == "" <==> EndsWithBreak(turns[|turns| - 1].text)
  {
    hide Split;
    var n := |turns|;
    var shown := AllShown(turns);
    OwnershipIsTheTranscript(turns, n - 1);
    assert shown[n - 1..] == [shown[n - 1]];
    LastPiece(Shown(turns[n - 1]));
    var before := Texts(Ownership(turns, n - 1));
    var own := Split(Shown(turns[n - 1]));
    assert (before + own)[|before + own| - 1] == own[|own| - 1];
  }

  /** Each line has exactly one role: that of the turn that wrote the line, or of the turn before a separator. */
  ghost predicate Attributed(turns: seq<Turn>, lines: seq<string>, roles: seq<string>)
  {
    var owned := Ownership(turns, |turns|);
    && lines == LinesOf(Transcript(turns)) && |roles| == |lines| <= |owned|
    && WithinTurns(owned, turns)
    && forall i | 0 <= i < |lines| :: roles[i] == RoleName(turns[owned[i].turn])
  }

  method BuildLineRoles(turns: seq<Turn>) returns (lines: seq<string>, roles: seq<string>)
    ensures Attributed(turns, lines, roles)
  {
    hide Ownership, LinesOf, Transcript, RoleName;
    lines := LinesOf(Transcript(turns));
    roles := CountRoles(turns);
    LinesAndOwners(turns);
    roles := Align(roles, |lines|);
  }

  // ---- who a claim is from

  datatype Range = Range(start: nat, end: nat)

  /** The first range that starts inside the transcript. */
  ghost predicate FirstInBounds(ranges: seq<Range>, n: nat, k: int)
  {
    0 <= k < |ranges| && 1 <= ranges[k].start <= n && forall j | 0 <= j < k :: !(1 <= ranges[j].start <= n)
  }

  /** The role at the start of the first range inside the transcript; an agent when there is none. */
  method AuthorForRanges(roles: seq<string>, ranges: seq<Range>) returns (author: string)
    ensures forall k | FirstInBounds(ranges, |roles|, k) :: author == roles[ranges[k].start - 1]
    ensures (forall k | 0 <= k < |ranges| :: !(1 <= ranges[k].start <= |roles|)) ==> author == "assistant"
  {
    for k := 0 to |ranges|
      invariant forall j | 0 <= j < k :: !(1 <= ranges[j].start <= |roles|)
    {
      var r := ranges[k];
      if r.start == 0 {
        continue;
      }
      var index := r.start - 1;
      if index < |roles| {
        return roles[index];
      }
    }
    author := "assistant";
  }

  datatype Authority = Explicit | Implicit

  /** A claim is explicit exactly when its first evidence inside the transcript starts in a line a user turn wrote. */
  ghost predicate FromUser(turns: seq<Turn>, n: nat, ranges: seq<Range>)
  {
    var owned := Ownership(turns, |turns|);
    exists k :: FirstInBounds(ranges, n, k) && ranges[k].start <= |owned|
             && owned[ranges[k].start - 1].turn < |turns| && turns[owned[ranges[k].start - 1].turn].role == "user"
  }

  method AuthorityOf(turns: seq<Turn>, ranges: seq<Range>) returns (authority: Authority)
    ensures authority == Explicit <==> FromUser(turns, |LinesOf(Transcript(turns))|, ranges)
  {
    hide Ownership, LinesOf, Transcript;
    var lines, roles := BuildLineRoles(turns);
    var author := AuthorForRanges(roles, ranges);
    authority := if author == "user" then Explicit else Implicit;
    FirstExists(ranges, |roles|);
    NamesDiffer();
    ghost var owned := Ownership(turns, |turns|);
    if k :| FirstInBounds(ranges, |roles|, k) {
      assert roles[ranges[k].start - 1] == RoleName(turns[owned[ranges[k].start - 1].turn]);
      forall j | FirstInBounds(ranges, |roles|, j) ensures j == k { OneFirst(ranges, |roles|, j, k); }
    }
  }

  lemma NamesDiffer()
    ensures "user" != "assistant"
  {
    assert |"user"| != |"assistant"|;
  }

  lemma OneFirst(ranges: seq<Range>, n: nat, j: int, k: int)
    requires FirstInBounds(ranges, n, j) && FirstInBounds(ranges, n, k)
    ensures j == k
  {
  }

  lemma {:induction false} FirstExists(ranges: seq<Range>, n: nat)
    ensures (exists k :: FirstInBounds(ranges, n, k)) || forall k | 0 <= k < |ranges| :: !(1 <= ranges[k].start <= n)
  {
    var k := 0;
    while k < |ranges| && !(1 <= ranges[k].start <= n)
      invariant 0 <= k <= |ranges| && forall j | 0 <= j < k :: !(1 <= ranges[j].start <= n)
    {
      k := k + 1;
    }
    if k < |ranges| { assert FirstInBounds(ranges, n, k); }
  }
}
