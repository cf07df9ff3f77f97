/** Extracting the first JSON array or object from a model response (src/capture.rs). */
module JsonBlob {
  import opened Prelude
  import opened Text

  // ---- the scanner

  /** Bracket depth, inside a string, after a backslash. */
  datatype State = State(depth: int, inStr: bool, esc: bool)

  function Feed(open: char, close: char, st: State, c: char): State
  {
    if st.inStr then
      if st.esc then st.(esc := false)
      else if c == '\\' then st.(esc := true)
      else if c == '"' then st.(inStr := false)
      else st
    else if c == '"' then st.(inStr := true)
    else if c == open then st.(depth := st.depth + 1)
    else if c == close then st.(depth := st.depth - 1)
    else st
  }

  /** The character that brings the depth back to zero. */
  predicate Closes(open: char, close: char, st: State, c: char)
  {
    !st.inStr && c != '"' && c != open && c == close && st.depth == 1
  }

  function Run(open: char, close: char, st: State, t: string): State
    decreases |t|
  {
    if t == "" then st else Run(open, close, Feed(open, close, st, t[0]), t[1..])
  }

  /** Where the scan of `t` returns. */
  function Find(open: char, close: char, st: State, t: string): (r: Option<nat>)
    ensures r.Some? ==> r.value < |t|
    decreases |t|
  {
    if t == "" then None
    else if Closes(open, close, st, t[0]) then Some(0)
    else
      match Find(open, close, Feed(open, close, st, t[0]), t[1..])
      case Some(i) => Some(i + 1)
      case None => None
  }

  function Opener(s: string, i: nat): (r: nat)
    requires i <= |s|
    ensures i <= r <= |s| && (forall k | i <= k < r :: s[k] != '[' && s[k] != '{')
    ensures r < |s| ==> s[r] == '[' || s[r] == '{'
    decreases |s| - i
  {
    if i == |s| || s[i] == '[' || s[i] == '{' then i else Opener(s, i + 1)
  }

  function CloserOf(open: char): char
  {
    if open == '[' then ']' else '}'
  }

  /** The balanced piece at the first opener. */
  function Blob(s: string): Option<string>
  {
    var start := Opener(s, 0);
    if start == |s| then None
    else
      match Find(s[start], CloserOf(s[start]), State(0, false, false), s[start..])
      case Some(i) => Some(s[start..start + i + 1])
      case None => None
  }

  // ---- fences

  const FENCE: string := "```"

  function TrimEndFences(s: string): string
  {
    if |s| >= 3 && s[|s| - 3..] == FENCE then TrimEndFences(s[..|s| - 3]) else s
  }

  function WithoutOpeningFence(s: string): string
  {
    if FENCE + "json" <= s then TrimStart(s[7..])
    else if FENCE <= s then TrimStart(s[3..])
    else s
  }

  /** The response without white space and code fences around it. */
  function Unfenced(raw: string): string
  {
    Trim(TrimEndFences(WithoutOpeningFence(Trim(raw))))
  }

  method ExtractJsonBlob(raw: string) returns (r: Option<string>)
    ensures r == Blob(Unfenced(raw)) == Blob(raw)
  {
    hide Unfenced, Find;
    FencesDoNotMatter(raw);
    var s := Unfenced(raw);
    var start := Opener(s, 0);
    if start == |s| { return None; }
    var open := s[start];
    var end := ScanToClose(s[start..], open, CloserOf(open));
    r := match end case Some(i) => Some(s[start..start + i + 1]) case None => None;
  }

  /** The loop over the text from its opener. */
  method ScanToClose(t: string, open: char, close: char) returns (end: Option<nat>)
    requires open != close && open != '"' && close != '"'
    ensures end == Find(open, close, State(0, false, false), t)
  {
    var st := State(0, false, false);
    for i := 0 to |t|
      invariant Find(open, close, State(0, false, false), t) == Shifted(i, Find(open, close, st, t[i..]))
    {
      hide Find;
      FindStep(open, close, st, t, i);
      var c := t[i];
      if st.inStr {
        if st.esc {
          st := st.(esc := false);
        } else if c == '\\' {
          st := st.(esc := true);
        } else if c == '"' {
          st := st.(inStr := false);
        }
        continue;
      }
      if c == '"' {
        st := st.(inStr := true);
      } else if c == open {
        st := st.(depth := st.depth + 1);
      } else if c == close {
        st := st.(depth := st.depth - 1);
        if st.depth == 0 {
          return Some(i);
        }
      }
    }
    end := None;
  }

  function Shifted(i: nat, r: Option<nat>): Option<nat>
  {
    match r case Some(k) => Some(i + k) case None => None
  }

  lemma FindStep(open: char, close: char, st: State, t: string, i: nat)
    requires i < |t|
    ensures Shifted(i, Find(open, close, st, t[i..])) ==
      if Closes(open, close, st, t[i]) then Some(i)
      else Shifted(i + 1, Find(open, close, Feed(open, close, st, t[i]), t[i + 1..]))
  {
    hide Closes, Feed;
    assert t[i..][0] == t[i] && t[i..][1..] == t[i + 1..];
  }

  // ---- JSON texts, by the grammar of RFC 8259

  /** A character of a string: unescaped, or a backslash and what follows it. */
  datatype Piece = Plain(c: char) | Escaped(c: char)

  /** White space may stand wherever the grammar allows it. */
  datatype Json = Scalar(text: string) | Text(pieces: seq<Piece>) | Arr(items: Items) | Obj(members: Members)

  datatype Items =
    | NoItems(ws: string)
    | LastItem(pre: string, value: Json, post: string)
    | ThenItem(pre: string, value: Json, post: string, rest: Items)

  datatype Members =
    | NoMembers(ws: string)
    | LastMember(pre: string, key: seq<Piece>, mid: string, gap: string, value: Json, post: string)
    | ThenMember(pre: string, key: seq<Piece>, mid: string, gap: string, value: Json, post: string, rest: Members)

  function PrintPieces(pieces: seq<Piece>): string
  {
    if pieces == [] then ""
    else (if pieces[0].Plain? then [pieces[0].c] else ['\\', pieces[0].c]) + PrintPieces(pieces[1..])
  }

  function Quoted(pieces: seq<Piece>): string
  {
    "\"" + PrintPieces(pieces) + "\""
  }

  function Print(v: Json): string
  {
    match v
    case Scalar(text) => text
    case Text(pieces) => Quoted(pieces)
    case Arr(items) => "[" + PrintItems(items) + "]"
    case Obj(members) => "{" + PrintMembers(members) + "}"
  }

  function PrintItems(items: Items): string
  {
    match items
    case NoItems(ws) => ws
    case LastItem(pre, value, post) => pre + Print(value) + post
    case ThenItem(pre, value, post, rest) => pre + Print(value) + post + "," + PrintItems(rest)
  }

  function PrintMembers(members: Members): string
  {
    match members
    case NoMembers(ws) => ws
    case LastMember(pre, key, mid, gap, value, post) => pre + Quoted(key) + mid + ":" + gap + Print(value) + post
    case ThenMember(pre, key, mid, gap, value, post, rest) =>
      pre + Quoted(key) + mid + ":" + gap + Print(value) + post + "," + PrintMembers(rest)
  }

  /** Insignificant white space, section 2 of RFC 8259. */
  predicate Ws(s: string)
  {
    forall i | 0 <= i < |s| :: s[i] == ' ' || s[i] == '\t' || s[i] == '\n' || s[i] == '\r'
  }

  /** Text without quotes and brackets: numbers, literal names and white space. */
  predicate Bare(s: string)
  {
    forall i | 0 <= i < |s| ::
      s[i] != '"' && s[i] != '[' && s[i] != ']' && s[i] != '{' && s[i] != '}'
  }

  predicate WellQuoted(pieces: seq<Piece>)
  {
    forall i | 0 <= i < |pieces| :: pieces[i].Plain? ==> pieces[i].c != '"' && pieces[i].c != '\\'
  }

  predicate IsJson(v: Json)
  {
    match v
    case Scalar(text) => Bare(text)
    case Text(pieces) => WellQuoted(pieces)
    case Arr(items) => AreItems(items)
    case Obj(members) => AreMembers(members)
  }

  predicate AreItems(items: Items)
  {
    match items
    case NoItems(ws) => Ws(ws)
    case LastItem(pre, value, post) => Ws(pre) && IsJson(value) && Ws(post)
    case ThenItem(pre, value, post, rest) => Ws(pre) && IsJson(value) && Ws(post) && AreItems(rest)
  }

  predicate AreMembers(members: Members)
  {
    match members
    case NoMembers(ws) => Ws(ws)
    case LastMember(pre, key, mid, gap, value, post) =>
      Ws(pre) && WellQuoted(key) && Ws(mid) && Ws(gap) && IsJson(value) && Ws(post)
    case ThenMember(pre, key, mid, gap, value, post, rest) =>
      Ws(pre) && WellQuoted(key) && Ws(mid) && Ws(gap) && IsJson(value) && Ws(post) && AreMembers(rest)
  }

  // ---- what printed values read like

  function AsPieces(s: string): (r: seq<Piece>)
    ensures |r| == |s| && forall i | 0 <= i < |r| :: r[i] == Plain(s[i])
  {
    seq(|s|, i requires 0 <= i < |s| => Plain(s[i]))
  }

  function AsItems(values: seq<Json>): Items
  {
    if values == [] then NoItems("")
    else if |values| == 1 then LastItem("", values[0], "")
    else ThenItem("", values[0], "", AsItems(values[1..]))
  }

  /** A key and its value. */
  datatype Entry = Entry(key: string, value: Json)

  function AsMembers(entries: seq<Entry>): Members
  {
    if entries == [] then NoMembers("")
    else if |entries| == 1 then LastMember("", AsPieces(entries[0].key), "", "", entries[0].value, "")
    else ThenMember("", AsPieces(entries[0].key), "", "", entries[0].value, "", AsMembers(entries[1..]))
  }

  function Printed(values: seq<Json>): (r: seq<string>)
    ensures |r| == |values| && forall i | 0 <= i < |r| :: r[i] == Print(values[i])
  {
    seq(|values|, i requires 0 <= i < |values| => Print(values[i]))
  }

  function EntryText(e: Entry): string
  {
    "\"" + e.key + "\":" + Print(e.value)
  }

  function Entries(entries: seq<Entry>): (r: seq<string>)
    ensures |r| == |entries| && forall i | 0 <= i < |r| :: r[i] == EntryText(entries[i])
  {
    seq(|entries|, i requires 0 <= i < |entries| => EntryText(entries[i]))
  }

  lemma {:induction false} PiecesRead(s: string)
    ensures PrintPieces(AsPieces(s)) == s
  {
    if s != "" {
      PiecesRead(s[1..]);
      assert AsPieces(s)[1..] == AsPieces(s[1..]);
    }
  }

  lemma {:induction false} ItemsRead(values: seq<Json>)
    ensures PrintItems(AsItems(values)) == Join(Printed(values), ",")
  {
    hide Print;
    if |values| > 1 {
      ItemsRead(values[1..]);
      assert Printed(values)[1..] == Printed(values[1..]);
      assert "" + Print(values[0]) + "" == Print(values[0]);
    }
  }

  lemma {:induction false} MembersRead(entries: seq<Entry>)
    ensures PrintMembers(AsMembers(entries)) == Join(Entries(entries), ",")
  {
    hide Print, PrintPieces;
    if entries != [] {
      PiecesRead(entries[0].key);
      assert Quoted(AsPieces(entries[0].key)) == "\"" + entries[0].key + "\"";
      assert "" + Quoted(AsPieces(entries[0].key)) + "" + ":" + "" + Print(entries[0].value) + "" == EntryText(entries[0]);
    }
    if |entries| > 1 {
      MembersRead(entries[1..]);
      assert Entries(entries)[1..] == Entries(entries[1..]);
    }
  }

  /** Printed values read as JSON does: quotes around text, commas between what brackets enclose. */
  lemma PrintedReads(s: string, values: seq<Json>, entries: seq<Entry>)
    ensures Print(Text(AsPieces(s))) == "\"" + s + "\""
    ensures Print(Arr(AsItems(values))) == "[" + Join(Printed(values), ",") + "]"
    ensures Print(Obj(AsMembers(entries))) == "{" + Join(Entries(entries), ",") + "}"
  {
    hide PrintItems, PrintMembers, PrintPieces;
    PiecesRead(s);
    ItemsRead(values);
    MembersRead(entries);
  }

  // ---- a value leaves the scan as it found it

  predicate Brackets(open: char, close: char)
  {
    (open == '[' && close == ']') || (open == '{' && close == '}')
  }

  function Outside(depth: int): State
  {
    State(depth, false, false)
  }

  /** The scan goes through `t` without returning, and ends in the state it started in. */
  ghost predicate Passes(open: char, close: char, depth: int, t: string)
  {
    Find(open, close, Outside(depth), t) == None && Run(open, close, Outside(depth), t) == Outside(depth)
  }

  lemma {:induction false} FindConcat(open: char, close: char, st: State, a: string, b: string)
    requires Find(open, close, st, a) == None
    ensures Run(open, close, st, a + b) == Run(open, close, Run(open, close, st, a), b)
    ensures Find(open, close, st, a + b) ==
      match Find(open, close, Run(open, close, st, a), b) case Some(i) => Some(|a| + i) case None => None
    decreases |a|
  {
    hide Closes, Feed;
    if a == "" {
      assert a + b == b;
    } else {
      FindConcat(open, close, Feed(open, close, st, a[0]), a[1..], b);
      assert (a + b)[0] == a[0] && (a + b)[1..] == a[1..] + b;
    }
  }

  lemma PassesConcat(open: char, close: char, depth: int, a: string, b: string)
    requires Passes(open, close, depth, a) && Passes(open, close, depth, b)
    ensures Passes(open, close, depth, a + b)
  {
    hide Find, Run;
    FindConcat(open, close, Outside(depth), a, b);
  }

  lemma {:induction false} BarePasses(open: char, close: char, depth: int, t: string)
    requires Brackets(open, close) && Bare(t)
    ensures Passes(open, close, depth, t)
    decreases |t|
  {
    if t != "" {
      assert t[0] != '"' && t[0] != open && t[0] != close;
      BarePasses(open, close, depth, t[1..]);
    }
  }

  lemma WsPasses(open: char, close: char, depth: int, t: string)
    requires Brackets(open, close) && Ws(t)
    ensures Passes(open, close, depth, t)
  {
    hide Passes;
    BarePasses(open, close, depth, t);
  }

  lemma {:induction false} PiecesPass(open: char, close: char, depth: int, pieces: seq<Piece>)
    requires WellQuoted(pieces)
    ensures Find(open, close, State(depth, true, false), PrintPieces(pieces)) == None
    ensures Run(open, close, State(depth, true, false), PrintPieces(pieces)) == State(depth, true, false)
    decreases |pieces|
  {
    if pieces != [] {
      var inside := State(depth, true, false);
      var first := if pieces[0].Plain? then [pieces[0].c] else ['\\', pieces[0].c];
      PiecesPass(open, close, depth, pieces[1..]);
      PiecePasses(open, close, depth, pieces[0]);
      FindConcat(open, close, inside, first, PrintPieces(pieces[1..]));
    }
  }

  lemma PiecePasses(open: char, close: char, depth: int, piece: Piece)
    requires piece.Plain? ==> piece.c != '"' && piece.c != '\\'
    ensures var first := if piece.Plain? then [piece.c] else ['\\', piece.c];
            && Find(open, close, State(depth, true, false), first) == None
            && Run(open, close, State(depth, true, false), first) == State(depth, true, false)
  {
    var inside, c := State(depth, true, false), piece.c;
    if piece.Plain? {
      One(open, close, inside, c);
    } else {
      One(open, close, inside, '\\');
      One(open, close, State(depth, true, true), c);
      FindConcat(open, close, inside, ['\\'], [c]);
      assert ['\\'] + [c] == ['\\', c];
    }
  }

  lemma One(open: char, close: char, st: State, c: char)
    ensures Run(open, close, st, [c]) == Feed(open, close, st, c)
    ensures Find(open, close, st, [c]) == if Closes(open, close, st, c) then Some(0) else None
  {
    assert [c][1..] == "";
  }

  lemma QuotedPasses(open: char, close: char, depth: int, pieces: seq<Piece>)
    requires Brackets(open, close) && WellQuoted(pieces)
    ensures Passes(open, close, depth, Quoted(pieces))
  {
    hide Find, Run;
    var inside := State(depth, true, false);
    One(open, close, Outside(depth), '"');
    PiecesPass(open, close, depth, pieces);
    One(open, close, inside, '"');
    FindConcat(open, close, Outside(depth), "\"", PrintPieces(pieces));
    FindConcat(open, close, Outside(depth), "\"" + PrintPieces(pieces), "\"");
  }

  /** A bracketed text passes if its inside does: brackets of the other kind are not counted. */
  lemma BracketedPasses(open: char, close: char, depth: int, o: char, c: char, t: string)
    requires Brackets(open, close) && Brackets(o, c) && depth >= 1
    requires Passes(open, close, if o == open then depth + 1 else depth, t)
    ensures Passes(open, close, depth, [o] + t + [c])
  {
    hide Find, Run;
    var inner := if o == open then depth + 1 else depth;
    One(open, close, Outside(depth), o);
    One(open, close, Outside(inner), c);
    FindConcat(open, close, Outside(depth), [o], t);
    FindConcat(open, close, Outside(depth), [o] + t, [c]);
  }

  lemma {:induction false} ValuePasses(open: char, close: char, depth: int, v: Json)
    requires Brackets(open, close) && depth >= 1 && IsJson(v)
    ensures Passes(open, close, depth, Print(v))
    decreases v
  {
    hide Passes;
    match v {
      case Scalar(text) => BarePasses(open, close, depth, text);
      case Text(pieces) => QuotedPasses(open, close, depth, pieces);
      case Arr(items) =>
        var inner := if open == '[' then depth + 1 else depth;
        ItemsPass(open, close, inner, items);
        BracketedPasses(open, close, depth, '[', ']', PrintItems(items));
      case Obj(members) =>
        var inner := if open == '{' then depth + 1 else depth;
        MembersPass(open, close, inner, members);
        BracketedPasses(open, close, depth, '{', '}', PrintMembers(members));
    }
  }

  lemma {:induction false} ItemsPass(open: char, close: char, depth: int, items: Items)
    requires Brackets(open, close) && depth >= 1 && AreItems(items)
    ensures Passes(open, close, depth, PrintItems(items))
    decreases items
  {
    hide Passes;
    match items {
      case NoItems(ws) => WsPasses(open, close, depth, ws);
      case LastItem(pre, value, post) =>
        ValuePasses(open, close, depth, value);
        ItemPasses(open, close, depth, pre, Print(value), post);
      case ThenItem(pre, value, post, rest) =>
        ValuePasses(open, close, depth, value);
        ItemPasses(open, close, depth, pre, Print(value), post);
        ItemsPass(open, close, depth, rest);
        BarePasses(open, close, depth, ",");
        PassesConcat(open, close, depth, pre + Print(value) + post, ",");
        PassesConcat(open, close, depth, pre + Print(value) + post + ",", PrintItems(rest));
    }
  }

  lemma ItemPasses(open: char, close: char, depth: int, pre: string, value: string, post: string)
    requires Brackets(open, close) && Ws(pre) && Ws(post) && Passes(open, close, depth, value)
    ensures Passes(open, close, depth, pre + value + post)
  {
    hide Passes;
    WsPasses(open, close, depth, pre);
    WsPasses(open, close, depth, post);
    PassesConcat(open, close, depth, pre, value);
    PassesConcat(open, close, depth, pre + value, post);
  }

  lemma {:induction false} MembersPass(open: char, close: char, depth: int, members: Members)
    requires Brackets(open, close) && depth >= 1 && AreMembers(members)
    ensures Passes(open, close, depth, PrintMembers(members))
    decreases members
  {
    hide Passes, Quoted;
    match members {
      case NoMembers(ws) => WsPasses(open, close, depth, ws);
      case LastMember(pre, key, mid, gap, value, post) =>
        ValuePasses(open, close, depth, value);
        MemberPasses(open, close, depth, pre, key, mid, gap, Print(value), post);
      case ThenMember(pre, key, mid, gap, value, post, rest) =>
        ValuePasses(open, close, depth, value);
        var first := pre + Quoted(key) + mid + ":" + gap + Print(value) + post;
        MemberPasses(open, close, depth, pre, key, mid, gap, Print(value), post);
        MembersPass(open, close, depth, rest);
        BarePasses(open, close, depth, ",");
        PassesConcat(open, close, depth, first, ",");
        PassesConcat(open, close, depth, first + ",", PrintMembers(rest));
    }
  }

  lemma MemberPasses(open: char, close: char, depth: int, pre: string, key: seq<Piece>, mid: string, gap: string,
                     value: string, post: string)
    requires Brackets(open, close) && Ws(pre) && WellQuoted(key) && Ws(mid) && Ws(gap) && Ws(post)
    requires Passes(open, close, depth, value)
    ensures Passes(open, close, depth, pre + Quoted(key) + mid + ":" + gap + value + post)
  {
    hide Passes, Quoted;
    QuotedPasses(open, close, depth, key);
    ItemPasses(open, close, depth, pre, Quoted(key), mid);
    BarePasses(open, close, depth, ":");
    WsPasses(open, close, depth, gap);
    WsPasses(open, close, depth, post);
    var lead := pre + Quoted(key) + mid;
    PassesConcat(open, close, depth, lead, ":");
    PassesConcat(open, close, depth, lead + ":", gap);
    PassesConcat(open, close, depth, lead + ":" + gap, value);
    PassesConcat(open, close, depth, lead + ":" + gap + value, post);
  }

  /** Scanning a printed array or object from its opener returns at its last character, whatever follows. */
  lemma WholeValueFound(v: Json, suffix: string)
    requires IsJson(v) && (v.Arr? || v.Obj?)
    ensures var t := Print(v);
            && t != "" && (t[0] == '[' || t[0] == '{')
            && Find(t[0], CloserOf(t[0]), State(0, false, false), t + suffix) == Some(|t| - 1)
  {
    hide Find, Run, PrintItems, PrintMembers;
    var t := Print(v);
    var open, close := t[0], CloserOf(t[0]);
    var inner := t[1..|t| - 1];
    assert t == [open] + inner + [close];
    if v.Arr? {
      ItemsPass(open, close, 1, v.items);
      assert inner == PrintItems(v.items);
    } else {
      MembersPass(open, close, 1, v.members);
      assert inner == PrintMembers(v.members);
    }
    One(open, close, Outside(0), open);
    FindConcat(open, close, Outside(0), [open], inner);
    FindReturns(open, close, [open] + inner, suffix);
    assert t + suffix == ([open] + inner) + ([close] + suffix);
  }

  lemma FindReturns(open: char, close: char, a: string, suffix: string)
    requires Brackets(open, close) && Find(open, close, Outside(0), a) == None
    requires Run(open, close, Outside(0), a) == Outside(1)
    ensures Find(open, close, Outside(0), a + ([close] + suffix)) == Some(|a|)
  {
    FindConcat(open, close, Outside(0), a, [close] + suffix);
    assert Find(open, close, Outside(1), [close] + suffix) == Some(0);
  }

  // ---- what surrounds the value

  /** `t` is in `s` after `k` characters without an opener. */
  ghost predicate Holds(s: string, t: string, k: int)
  {
    OccursAt(t, s, k) && forall i | 0 <= i < k :: s[i] != '[' && s[i] != '{'
  }

  predicate Enclosed(t: string)
  {
    |t| >= 2 && (t[0] == '[' || t[0] == '{') && (t[|t| - 1] == ']' || t[|t| - 1] == '}')
  }

  lemma CutAround(s: string, t: string, k: int, b: nat, e: nat)
    requires Holds(s, t, k) && b <= k && k + |t| <= e <= |s|
    ensures Holds(s[b..e], t, k - b)
  {
    SliceOfSlice(s, b, e, k - b, k - b + |t|);
  }

  /** The first and the last character of the value in the text. */
  lemma EndsOf(s: string, t: string, k: int)
    requires Holds(s, t, k) && Enclosed(t)
    ensures 0 <= k < k + |t| <= |s| && s[k] == t[0] && s[k + |t| - 1] == t[|t| - 1]
  {
    assert s[k..k + |t|][0] == t[0] && s[k..k + |t|][|t| - 1] == t[|t| - 1];
  }

  lemma TrimHolds(s: string, t: string, k: int) returns (k': int)
    requires Holds(s, t, k) && Enclosed(t)
    ensures Holds(Trim(s), t, k')
  {
    hide Trim;
    EndsOf(s, t, k);
    var b, e := TrimSlice(s);
    assert !IsSpace(s[k]) && !IsSpace(s[k + |t| - 1]);
    CutAround(s, t, k, b, e);
    k' := k - b;
  }

  /** Dropping characters before the opener. */
  lemma TrimStartHolds(s: string, t: string, k: int, n: nat) returns (k': int)
    requires Holds(s, t, k) && Enclosed(t) && n <= |s| && forall i | 0 <= i < n :: s[i] != '[' && s[i] != '{'
    ensures Holds(TrimStart(s[n..]), t, k')
  {
    hide TrimStart;
    EndsOf(s, t, k);
    CutAround(s, t, k, n, |s|);
    var tail := s[n..];
    assert s[n..|s|] == tail;
    var b := TrimStartSlice(tail);
    EndsOf(tail, t, k - n);
    assert !IsSpace(tail[k - n]);
    CutAround(tail, t, k - n, b, |tail|);
    assert tail[b..|tail|] == tail[b..];
    k' := k - n - b;
  }

  lemma {:induction false} TrimFencesHolds(s: string, t: string, k: int)
    requires Holds(s, t, k) && Enclosed(t)
    ensures Holds(TrimEndFences(s), t, k)
    decreases |s|
  {
    if |s| >= 3 && s[|s| - 3..] == FENCE {
      EndsOf(s, t, k);
      assert forall i | |s| - 3 <= i < |s| :: s[i] == s[|s| - 3..][i - |s| + 3] == '`';
      CutAround(s, t, k, 0, |s| - 3);
      assert s[0..|s| - 3] == s[..|s| - 3];
      TrimFencesHolds(s[..|s| - 3], t, k);
    }
  }

  /** Stripping white space and fences takes nothing from the value. */
  lemma UnfencedHolds(raw: string, t: string, k: int) returns (k': int)
    requires Holds(raw, t, k) && Enclosed(t)
    ensures Holds(Unfenced(raw), t, k')
  {
    hide Trim, TrimStart, TrimEndFences, Holds;
    var s := Trim(raw);
    var k1 := TrimHolds(raw, t, k);
    var inner := WithoutOpeningFence(s);
    if FENCE + "json" <= s {
      assert forall i | 0 <= i < 7 :: s[i] == (FENCE + "json")[i];
      k1 := TrimStartHolds(s, t, k1, 7);
    } else if FENCE <= s {
      assert forall i | 0 <= i < 3 :: s[i] == FENCE[i];
      k1 := TrimStartHolds(s, t, k1, 3);
    }
    TrimFencesHolds(inner, t, k1);
    k' := TrimHolds(TrimEndFences(inner), t, k1);
  }

  lemma {:induction false} OpenerAt(s: string, i: nat, k: nat)
    requires i <= k < |s| && (s[k] == '[' || s[k] == '{') && forall j | i <= j < k :: s[j] != '[' && s[j] != '{'
    ensures Opener(s, i) == k
    decreases k - i
  {
    if i < k { OpenerAt(s, i + 1, k); }
  }

  // ---- fences do not matter

  predicate Bracketless(t: string)
  {
    forall c | c in t :: c != '[' && c != ']' && c != '{' && c != '}'
  }

  lemma {:induction false} FindMore(open: char, close: char, st: State, a: string, b: string)
    requires Find(open, close, st, a).Some?
    ensures Find(open, close, st, a + b) == Find(open, close, st, a)
    decreases |a|
  {
    hide Closes, Feed;
    assert (a + b)[0] == a[0] && (a + b)[1..] == a[1..] + b;
    if !Closes(open, close, st, a[0]) { FindMore(open, close, Feed(open, close, st, a[0]), a[1..], b); }
  }

  lemma {:induction false} NothingCloses(open: char, close: char, st: State, b: string)
    requires close !in b
    ensures Find(open, close, st, b) == None
    decreases |b|
  {
    hide Feed;
    if b != "" {
      assert b[0] in b;
      NothingCloses(open, close, Feed(open, close, st, b[0]), b[1..]);
    }
  }

  /** Text without brackets around it does not change what is found. */
  lemma BlobInside(a: string, s: string, b: string)
    requires Bracketless(a) && Bracketless(b)
    ensures Blob(a + s + b) == Blob(s)
  {
    hide Find;
    var whole := a + s + b;
    var k := Opener(s, 0);
    assert forall i | 0 <= i < |a| :: whole[i] == a[i] && a[i] in a;
    assert forall i | 0 <= i < |s| :: whole[|a| + i] == s[i];
    if k == |s| {
      forall i | 0 <= i < |whole| ensures whole[i] != '[' && whole[i] != '{' {
        if i >= |a| + |s| { assert whole[i] == b[i - |a| - |s|] && b[i - |a| - |s|] in b; }
        if |a| <= i < |a| + |s| { assert whole[i] == s[i - |a|]; }
      }
    } else {
      OpenerAt(whole, 0, |a| + k);
      var rest := s[k..];
      assert whole[|a| + k..] == rest + b;
      var open, close := s[k], CloserOf(s[k]);
      var found := Find(open, close, State(0, false, false), rest);
      if found.Some? {
        FindMore(open, close, State(0, false, false), rest, b);
        assert whole[|a| + k..|a| + k + found.value + 1] == s[k..k + found.value + 1];
      } else {
        FindConcat(open, close, State(0, false, false), rest, b);
        NothingCloses(open, close, Run(open, close, State(0, false, false), rest), b);
      }
    }
  }

  lemma BlankIsBracketless(t: string)
    requires Blank(t)
    ensures Bracketless(t)
  {
  }

  lemma BothBracketless(a: string, b: string)
    requires Bracketless(a) && Bracketless(b)
    ensures Bracketless(a + b)
  {
  }

  /** Trailing fences are dropped from the end. */
  lemma {:induction false} FencesDropped(s: string) returns (b: string)
    ensures s == TrimEndFences(s) + b && Bracketless(b)
    decreases |s|
  {
    if |s| >= 3 && s[|s| - 3..] == FENCE {
      var n := |s| - 3;
      b := FencesDropped(s[..n]);
      b := b + FENCE;
      assert s == s[..n] + s[n..];
    } else {
      b := "";
    }
  }

  lemma PrefixDropped(s: string, n: nat) returns (a: string)
    requires n <= |s| && Bracketless(s[..n])
    ensures s == a + TrimStart(s[n..]) && Bracketless(a)
  {
    hide TrimStart, Blank;
    var tail := s[n..];
    var k := TrimStartSlice(tail);
    a := s[..n] + tail[..k];
    BlankIsBracketless(tail[..k]);
    BothBracketless(s[..n], tail[..k]);
    assert s == s[..n] + tail && tail == tail[..k] + tail[k..];
  }

  lemma TrimDropped(s: string) returns (a: string, b: string)
    ensures s == a + Trim(s) + b && Bracketless(a) && Bracketless(b)
  {
    hide Trim, Blank;
    var i, j := TrimSlice(s);
    a, b := s[..i], s[j..];
    BlankIsBracketless(a);
    BlankIsBracketless(b);
    assert s == s[..i] + s[i..j] + s[j..];
  }

  lemma OpeningFenceDropped(s: string)
    ensures Blob(WithoutOpeningFence(s)) == Blob(s)
  {
    hide Blob, TrimStart, Bracketless;
    FenceIsBracketless();
    if FENCE <= s {
      var n := if FENCE + "json" <= s then 7 else 3;
      assert s[..n] == if FENCE + "json" <= s then FENCE + "json" else FENCE;
      var front := PrefixDropped(s, n);
      BlobInside(front, TrimStart(s[n..]), "");
      assert front + TrimStart(s[n..]) + "" == s;
    }
  }

  lemma ClosingFencesDropped(s: string)
    ensures Blob(TrimEndFences(s)) == Blob(s)
  {
    hide Blob, TrimEndFences, Bracketless;
    FenceIsBracketless();
    var fences := FencesDropped(s);
    BlobInside("", TrimEndFences(s), fences);
    assert "" + TrimEndFences(s) + fences == s;
  }

  lemma SpaceDropped(s: string)
    ensures Blob(Trim(s)) == Blob(s)
  {
    hide Blob, Trim, Bracketless;
    var a, b := TrimDropped(s);
    BlobInside(a, Trim(s), b);
  }

  /** Stripping white space and fences makes no difference, whatever the response is. */
  lemma FencesDoNotMatter(raw: string)
    ensures Blob(Unfenced(raw)) == Blob(raw)
  {
    hide Blob, Trim, WithoutOpeningFence, TrimEndFences;
    SpaceDropped(raw);
    OpeningFenceDropped(Trim(raw));
    ClosingFencesDropped(WithoutOpeningFence(Trim(raw)));
    SpaceDropped(TrimEndFences(WithoutOpeningFence(Trim(raw))));
  }

  lemma FenceIsBracketless()
    ensures Bracketless(FENCE) && Bracketless(FENCE + "json") && Bracketless("")
  {
  }

  /**
   * For any printed array or object, any text without an opener before it and any text after it, exactly the value
   * is returned, although only the outer kind of bracket is counted.
   */
  lemma ExtractsTheValue(prefix: string, v: Json, suffix: string)
    requires IsJson(v) && (v.Arr? || v.Obj?)
    requires forall i | 0 <= i < |prefix| :: prefix[i] != '[' && prefix[i] != '{'
    ensures Blob(Unfenced(prefix + Print(v) + suffix)) == Some(Print(v))
  {
    hide Unfenced, Print, Find, IsJson;
    var raw, t := prefix + Print(v) + suffix, Print(v);
    PrintIsEnclosed(v);
    assert raw[|prefix|..|prefix| + |t|] == t;
    var k := UnfencedHolds(raw, t, |prefix|);
    var s := Unfenced(raw);
    EndsOf(s, t, k);
    OpenerAt(s, 0, k);
    var rest := s[k + |t|..];
    assert s[k..] == t + rest;
    WholeValueFound(v, rest);
  }

  lemma PrintIsEnclosed(v: Json)
    requires v.Arr? || v.Obj?
    ensures Enclosed(Print(v))
  {
  }
}
