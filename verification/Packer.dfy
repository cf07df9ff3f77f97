/** Packing the units of a section into overlapping chunks (src/chunker.rs). */
module Packer {
  import opened Prelude
  import opened Text
  import opened Splitter

  function Total(units: seq<string>): nat
  {
    if units == [] then 0 else Len(units[0]) + Total(units[1..])
  }

  /** The length of the units joined by a blank line. */
  function JoinedLen(units: seq<string>): nat
  {
    Total(units) + if units == [] then 0 else (|units| - 1) * 2
  }

  lemma {:induction false} JoinedLenIsLength(units: seq<string>)
    ensures JoinedLen(units) == Len(Join(units, "\n\n"))
  {
    if |units| > 1 {
      JoinedLenIsLength(units[1..]);
      LenConcat(units[0], "\n\n");
      LenConcat(units[0] + "\n\n", Join(units[1..], "\n\n"));
      LenConcat("\n", "\n");
      assert "\n\n" == "\n" + "\n" && "\n"[1..] == "";
    } else if |units| == 1 {
      assert Total(units[1..]) == 0;
    } else {
      EmptyText();
    }
  }

  lemma {:induction false} TotalConcat(a: seq<string>, b: seq<string>)
    ensures Total(a + b) == Total(a) + Total(b)
  {
    if a == [] {
      assert a + b == b;
    } else {
      TotalConcat(a[1..], b);
      assert (a + b)[0] == a[0] && (a + b)[1..] == a[1..] + b;
    }
  }

  lemma JoinedMore(a: seq<string>, u: string)
    ensures JoinedLen(a + [u]) == if a == [] then Len(u) else JoinedLen(a) + 2 + Len(u)
    ensures JoinedLen([u] + a) == if a == [] then Len(u) else JoinedLen(a) + 2 + Len(u)
  {
    assert [u][1..] == [];
    assert Total([u]) == Len(u);
    TotalConcat(a, [u]);
    TotalConcat([u], a);
  }

  /** The last `n` units fit into the budget, and one more would not. */
  ghost predicate LongestFitting(units: seq<string>, n: nat, budget: nat)
  {
    && n <= |units| && JoinedLen(units[|units| - n..]) <= budget
    && (n < |units| ==> JoinedLen(units[|units| - n - 1..]) > budget)
  }

  ghost predicate NonEmpty(units: seq<string>)
  {
    forall i | 0 <= i < |units| :: units[i] != ""
  }

  lemma JoinedSuffix(units: seq<string>, i: nat)
    requires i < |units|
    ensures JoinedLen(units[i..]) == Len(units[i]) + if i + 1 == |units| then 0 else 2 + JoinedLen(units[i + 1..])
  {
    assert units[i..] == [units[i]] + units[i + 1..];
    JoinedMore(units[i + 1..], units[i]);
  }

  lemma LenPositive(s: string)
    requires s != ""
    ensures Len(s) > 0
  {
  }

  /** The units carried over: as many complete units from the end as fit. */
  method OverlapUnits(units: seq<string>, budget: nat) returns (selected: seq<string>)
    requires NonEmpty(units)
    ensures |selected| <= |units| && selected == units[|units| - |selected|..]
    ensures LongestFitting(units, |selected|, budget)
  {
    hide JoinedLen, Len;
    assert units[|units|..] == [];
    NothingJoined();
    if budget == 0 {
      if units != [] {
        JoinedSuffix(units, |units| - 1);
        LenPositive(units[|units| - 1]);
      }
      return [];
    }
    selected := [];
    var used := 0;
    while |selected| < |units|
      invariant |selected| <= |units| && selected == units[|units| - |selected|..]
      invariant used == JoinedLen(selected) <= budget
    {
      var i := |units| - |selected| - 1;
      JoinedSuffix(units, i);
      var added := Len(units[i]) + if selected == [] then 0 else 2;
      if used + added > budget {
        break;
      }
      selected := [units[i]] + selected;
      assert selected == units[i..];
      used := used + added;
    }
  }

  lemma NothingJoined()
    ensures JoinedLen([]) == 0
  {
  }

  // ---- windows over the units

  /** Units `from` up to `to` in one chunk. */
  datatype Window = Window(from: nat, to: nat)

  datatype Budget = Budget(body: nat, overlap: nat)

  function Units(kept: seq<string>, w: Window): seq<string>
    requires w.from <= w.to <= |kept|
  {
    kept[w.from..w.to]
  }

  /** Within the body budget, unless it is a single unit. */
  ghost predicate Fits(kept: seq<string>, w: Window, b: Budget)
  {
    && w.from < w.to <= |kept|
    && (JoinedLen(Units(kept, w)) <= b.body || w.to == w.from + 1)
  }

  /** The window was closed because the next unit did not fit. */
  ghost predicate Full(kept: seq<string>, w: Window, b: Budget)
    requires w.from < w.to <= |kept|
  {
    w.to < |kept| && JoinedLen(Units(kept, w)) + 2 + Len(kept[w.to]) > b.body
  }

  /**
   * A window that starts at `from` shares with the one before it the longest suffix within the overlap budget, or
   * nothing when that would leave no room for the next unit.
   */
  ghost predicate Resumes(kept: seq<string>, w: Window, from: nat, b: Budget)
    requires w.from < w.to < |kept|
  {
    exists n :: ResumesAfter(kept, w, from, b, n)
  }

  ghost predicate ResumesAfter(kept: seq<string>, w: Window, from: nat, b: Budget, n: nat)
    requires w.from < w.to < |kept|
  {
    && LongestFitting(Units(kept, w), n, b.overlap)
    && from == if n > 0 && JoinedLen(kept[w.to - n..w.to]) + 2 + Len(kept[w.to]) > b.body then w.to else w.to - n
  }

  ghost predicate Chained(kept: seq<string>, windows: seq<Window>, b: Budget)
  {
    && (forall k | 0 <= k < |windows| :: Fits(kept, windows[k], b))
    && (|windows| > 0 ==> windows[0].from == 0)
    && forall k | 0 <= k < |windows| - 1 :: Follows(kept, windows[k], windows[k + 1].from, windows[k + 1].to, b)
  }

  ghost predicate Follows(kept: seq<string>, w: Window, from: nat, to: nat, b: Budget)
  {
    w.from < w.to < |kept| && Full(kept, w, b) && Resumes(kept, w, from, b) && w.to < to
  }

  /** What the next window does: it starts later, ends later, and leaves no gap. */
  lemma FollowingWindow(kept: seq<string>, w: Window, from: nat, to: nat, b: Budget)
    requires Follows(kept, w, from, to, b)
    ensures w.from < from <= w.to < to
    ensures from == w.to || LongestFitting(Units(kept, w), w.to - from, b.overlap)
  {
    hide JoinedLen, Len;
    var n :| ResumesAfter(kept, w, from, b, n);
    if n == w.to - w.from {
      assert kept[w.to - n..w.to] == Units(kept, w);
    }
  }

  /** The units that are not white space. */
  function Kept(units: seq<string>): (r: seq<string>)
    ensures NonEmpty(r)
  {
    if units == [] then [] else (if Trim(units[0]) == "" then [] else [units[0]]) + Kept(units[1..])
  }

  lemma {:induction false} KeptStep(units: seq<string>, i: nat)
    requires i < |units|
    ensures Kept(units[..i + 1]) == Kept(units[..i]) + if Trim(units[i]) == "" then [] else [units[i]]
  {
    hide Trim, Kept;
    KeptFirst(units[..i + 1]);
    KeptFirst(units[..i]);
    if i == 0 {
      assert units[..1][1..] == [] && units[..0] == [];
      KeptFirst([]);
    } else {
      KeptStep(units[1..], i - 1);
      assert units[..i + 1][1..] == units[1..][..i] && units[..i][1..] == units[1..][..i - 1];
    }
  }

  /** Kept are exactly the units that are not blank, in order: unit `pos[j]` is the `j`-th of them. */
  lemma {:induction false} KeptMeans(units: seq<string>) returns (pos: seq<nat>)
    ensures |pos| == |Kept(units)| && (forall i, j | 0 <= i < j < |pos| :: pos[i] < pos[j])
    ensures forall j | 0 <= j < |pos| :: pos[j] < |units| && Kept(units)[j] == units[pos[j]]
    ensures forall i: nat {:trigger i in pos} | i < |units| :: i in pos <==> !Blank(units[i])
    decreases |units|
  {
    hide Kept, Trim, Blank;
    KeptFirst([]);
    var n := |units| - 1;
    if units == [] {
      pos := [];
    } else {
      pos := KeptMeans(units[..n]);
      KeptStep(units, n);
      assert units[..n + 1] == units;
      forall i: nat | i < n ensures i in pos <==> !Blank(units[i]) { assert units[..n][i] == units[i]; }
      assert n !in pos;
      assert Blank(units[n]) <==> Trim(units[n]) == "";
      if !Blank(units[n]) { pos := pos + [n]; }
    }
  }

  lemma KeptFirst(units: seq<string>)
    ensures Kept(units) ==
      if units == [] then [] else (if Trim(units[0]) == "" then [] else [units[0]]) + Kept(units[1..])
  {
    hide Trim;
  }

  /** The chunks closed so far and the one being filled. */
  ghost predicate Packing(kept: seq<string>, windows: seq<Window>, open: Window, b: Budget)
  {
    && open.to == |kept|
    && (kept == [] ==> open.from == 0 && windows == [])
    && (kept != [] ==> Fits(kept, open, b))
    && (windows == [] ==> open.from == 0)
    && (windows != [] ==> Follows(kept, windows[|windows| - 1], open.from, open.to, b))
    && Chained(kept, windows, b)
  }

  ghost predicate Bodies(kept: seq<string>, windows: seq<Window>, bodies: seq<seq<string>>)
  {
    && |bodies| == |windows|
    && forall k | 0 <= k < |windows| ::
         windows[k].from <= windows[k].to <= |kept| && bodies[k] == Units(kept, windows[k])
  }

  lemma LongestInside(kept: seq<string>, w: Window, n: nat, b: Budget)
    requires w.from <= w.to <= |kept| && LongestFitting(Units(kept, w), n, b.overlap)
    ensures n <= w.to - w.from
  {
  }

  lemma FollowsLonger(kept: seq<string>, unit: string, w: Window, from: nat, to: nat, b: Budget)
    requires Follows(kept, w, from, to, b)
    ensures Follows(kept + [unit], w, from, to, b)
  {
    hide JoinedLen, Len, LongestFitting;
    var longer := kept + [unit];
    var n :| ResumesAfter(kept, w, from, b, n);
    LongestInside(kept, w, n, b);
    assert Units(longer, w) == Units(kept, w);
    assert longer[w.to] == kept[w.to] && longer[w.to - n..w.to] == kept[w.to - n..w.to];
    assert ResumesAfter(longer, w, from, b, n);
  }

  lemma ChainedLonger(kept: seq<string>, unit: string, windows: seq<Window>, bodies: seq<seq<string>>, b: Budget)
    requires Chained(kept, windows, b) && Bodies(kept, windows, bodies)
    ensures Chained(kept + [unit], windows, b) && Bodies(kept + [unit], windows, bodies)
  {
    hide JoinedLen, Follows;
    var longer := kept + [unit];
    forall k | 0 <= k < |windows| ensures Fits(longer, windows[k], b) && bodies[k] == Units(longer, windows[k]) {
      assert Fits(kept, windows[k], b);
      assert Units(longer, windows[k]) == Units(kept, windows[k]);
    }
    forall k | 0 <= k < |windows| - 1 ensures Follows(longer, windows[k], windows[k + 1].from, windows[k + 1].to, b) {
      FollowsLonger(kept, unit, windows[k], windows[k + 1].from, windows[k + 1].to, b);
    }
  }

  /** The unit goes into the open chunk. */
  lemma UnitFits(kept: seq<string>, windows: seq<Window>, open: Window, bodies: seq<seq<string>>, unit: string, b: Budget)
    requires Packing(kept, windows, open, b) && Bodies(kept, windows, bodies)
    requires open.from <= |kept|
    requires kept != [] ==> JoinedLen(kept[open.from..]) + 2 + Len(unit) <= b.body
    ensures Packing(kept + [unit], windows, Window(open.from, open.to + 1), b) && Bodies(kept + [unit], windows, bodies)
  {
    hide JoinedLen, Follows;
    var longer, wider := kept + [unit], Window(open.from, open.to + 1);
    ChainedLonger(kept, unit, windows, bodies, b);
    JoinedMore(kept[open.from..], unit);
    assert Units(longer, wider) == kept[open.from..] + [unit];
    if windows != [] {
      var last := windows[|windows| - 1];
      FollowsLonger(kept, unit, last, open.from, open.to, b);
      StillFollows(longer, last, open.from, open.to, b);
    }
  }

  lemma StillFollows(kept: seq<string>, w: Window, from: nat, to: nat, b: Budget)
    requires Follows(kept, w, from, to, b)
    ensures Follows(kept, w, from, to + 1, b)
  {
  }

  /** The open chunk is closed and the unit starts the next one after the `n` units carried over. */
  lemma UnitStartsChunk(
      kept: seq<string>, windows: seq<Window>, open: Window, bodies: seq<seq<string>>, unit: string, b: Budget, n: nat,
      carried: nat)
    requires Packing(kept, windows, open, b) && Bodies(kept, windows, bodies) && kept != []
    requires open.from < |kept| && JoinedLen(kept[open.from..]) + 2 + Len(unit) > b.body
    requires LongestFitting(kept[open.from..], n, b.overlap)
    requires n <= |kept| && carried == if n > 0 && JoinedLen(kept[|kept| - n..]) + 2 + Len(unit) > b.body then 0 else n
    ensures Packing(kept + [unit], windows + [open], Window(|kept| - carried, |kept| + 1), b)
    ensures Bodies(kept + [unit], windows + [open], bodies + [kept[open.from..]])
  {
    hide JoinedLen, Len, Follows, LongestFitting;
    var longer := kept + [unit];
    var next := Window(|kept| - carried, |kept| + 1);
    ChainedLonger(kept, unit, windows, bodies, b);
    assert Units(longer, open) == kept[open.from..] && Units(kept, open) == kept[open.from..];
    LongestInside(kept, open, n, b);
    ClosedByUnit(kept, open, unit, b, n, carried);
    assert Units(longer, next) == kept[|kept| - carried..] + [unit];
    JoinedMore(kept[|kept| - carried..], unit);
    if windows != [] { FollowsLonger(kept, unit, windows[|windows| - 1], open.from, open.to, b); }
    AppendWindow(longer, windows, open, b);
  }

  lemma ClosedByUnit(kept: seq<string>, open: Window, unit: string, b: Budget, n: nat, carried: nat)
    requires open.from < open.to == |kept| && JoinedLen(kept[open.from..]) + 2 + Len(unit) > b.body
    requires LongestFitting(kept[open.from..], n, b.overlap)
    requires n <= |kept| && carried == if n > 0 && JoinedLen(kept[|kept| - n..]) + 2 + Len(unit) > b.body then 0 else n
    ensures carried <= |kept| && Follows(kept + [unit], open, |kept| - carried, |kept| + 1, b)
  {
    hide JoinedLen, Len, LongestFitting;
    var longer := kept + [unit];
    assert Units(longer, open) == kept[open.from..] == Units(kept, open);
    LongestInside(kept, open, n, b);
    assert longer[open.to - n..open.to] == kept[|kept| - n..];
    assert ResumesAfter(longer, open, |kept| - carried, b, n);
  }

  lemma AppendWindow(kept: seq<string>, windows: seq<Window>, w: Window, b: Budget)
    requires Chained(kept, windows, b) && Fits(kept, w, b) && (windows == [] ==> w.from == 0)
    requires windows != [] ==> Follows(kept, windows[|windows| - 1], w.from, w.to, b)
    ensures Chained(kept, windows + [w], b)
  {
    hide Follows, Fits;
    var more := windows + [w];
    forall k | 0 <= k < |more| ensures Fits(kept, more[k], b) {
    }
    forall k | 0 <= k < |more| - 1 ensures Follows(kept, more[k], more[k + 1].from, more[k + 1].to, b) {
      assert more[k] == windows[k];
    }
  }

  /** Fills chunks unit by unit; `bodies` are the groups of units that are rendered, in order. */
  method PackUnits(units: seq<string>, b: Budget) returns (bodies: seq<seq<string>>, ghost windows: seq<Window>)
    ensures var kept := Kept(units);
            && Bodies(kept, windows, bodies) && Chained(kept, windows, b)
            && (kept == [] <==> windows == []) && (kept != [] ==> windows[|windows| - 1].to == |kept|)
  {
    hide JoinedLen, Len, Trim, LongestFitting, Follows, Chained, Bodies, Packing, Kept, NonEmpty;
    ghost var open := Window(0, 0);
    ghost var kept: seq<string> := [];
    bodies, windows := [], [];
    NothingPacked(b);
    var current: seq<string> := [];
    for i := 0 to |units|
      invariant kept == Kept(units[..i]) && open.from <= |kept| && current == kept[open.from..]
      invariant open.to == |kept| && (kept != [] ==> current != []) && (kept == [] ==> windows == [])
      invariant Packing(kept, windows, open, b) && Bodies(kept, windows, bodies)
    {
      var unit := units[i];
      KeptStep(units, i);
      if Trim(unit) == "" {
        continue;
      }
      if current != [] && JoinedLen(current) + 2 + Len(unit) > b.body {
        KeptNonEmpty(units, i, open.from);
        bodies := bodies + [current];
        var carried := OverlapUnits(current, b.overlap);
        ghost var n := |carried|;
        assert kept[|kept| - n..] == carried;
        if carried != [] && JoinedLen(carried) + 2 + Len(unit) > b.body {
          carried := [];
        }
        UnitStartsChunk(kept, windows, open, bodies[..|bodies| - 1], unit, b, n, |carried|);
        windows, open := windows + [open], Window(|kept| - |carried|, |kept| + 1);
        current := carried;
      } else {
        UnitFits(kept, windows, open, bodies, unit, b);
        open := Window(open.from, open.to + 1);
      }
      current := current + [unit];
      kept := kept + [unit];
    }
    assert units[..|units|] == units;
    if current != [] {
      LastWindow(kept, windows, open, bodies, b);
      bodies, windows := bodies + [current], windows + [open];
    }
  }

  lemma KeptNonEmpty(units: seq<string>, i: nat, from: nat)
    requires i <= |units| && from <= |Kept(units[..i])|
    ensures NonEmpty(Kept(units[..i])[from..])
  {
    hide Kept;
  }

  lemma NothingPacked(b: Budget)
    ensures Packing([], [], Window(0, 0), b) && Bodies([], [], []) && Kept([]) == []
  {
  }

  lemma LastWindow(kept: seq<string>, windows: seq<Window>, open: Window, bodies: seq<seq<string>>, b: Budget)
    requires Packing(kept, windows, open, b) && Bodies(kept, windows, bodies) && kept != []
    ensures open.from <= |kept| && Chained(kept, windows + [open], b)
    ensures Bodies(kept, windows + [open], bodies + [kept[open.from..]])
  {
    hide JoinedLen, Follows;
    AppendWindow(kept, windows, open, b);
    assert Units(kept, open) == kept[open.from..];
  }

  /** Every kept unit is in some chunk: the windows leave no gap from the first unit to the last. */
  lemma {:induction false} WindowsCover(kept: seq<string>, windows: seq<Window>, b: Budget, n: nat, i: nat)
    requires Chained(kept, windows, b) && n < |windows| && i < windows[n].to
    ensures exists k :: 0 <= k <= n && windows[k].from <= i < windows[k].to
  {
    hide Follows, Fits;
    if i < windows[n].from {
      FollowingWindow(kept, windows[n - 1], windows[n].from, windows[n].to, b);
      WindowsCover(kept, windows, b, n - 1, i);
    }
  }

  // ---- rendering

  /** The chunk that is written for a group of units. */
  function Render(prefix: string, body: seq<string>): string
  {
    if prefix == "" then Join(body, "\n\n") else prefix + "\n\n" + Join(body, "\n\n")
  }

  /** Chunks without substance and immediate repetitions are dropped. */
  function Pushed(chunks: seq<string>, prefix: string, body: seq<string>, substantive: string -> bool): seq<string>
  {
    if body == [] || !substantive(Join(body, "\n\n")) then chunks
    else if chunks != [] && chunks[|chunks| - 1] == Render(prefix, body) then chunks
    else chunks + [Render(prefix, body)]
  }

  function Rendered(prefix: string, bodies: seq<seq<string>>, substantive: string -> bool): seq<string>
  {
    if bodies == [] then []
    else
      var n := |bodies| - 1;
      Pushed(Rendered(prefix, bodies[..n], substantive), prefix, bodies[n], substantive)
  }

  function Overhead(prefix: string): nat
  {
    if prefix == "" then 0 else Len(prefix) + 2
  }

  function BudgetFor(prefix: string, target: nat, overlap: nat): Budget
  {
    var room := if target < Overhead(prefix) then 0 else target - Overhead(prefix);
    var body := if room < 32 then 32 else room;
    Budget(body, if overlap < body / 2 then overlap else body / 2)
  }

  lemma RenderedLength(prefix: string, body: seq<string>)
    ensures Len(Render(prefix, body)) == Overhead(prefix) + JoinedLen(body)
  {
    var joined := Join(body, "\n\n");
    JoinedLenIsLength(body);
    if prefix != "" {
      LenConcat(prefix, "\n\n");
      LenConcat(prefix + "\n\n", joined);
      LenConcat("\n", "\n");
      assert "\n\n" == "\n" + "\n" && "\n"[1..] == "";
    }
  }

  /** Every chunk is the rendering of a group that has substance. */
  lemma {:induction false} ChunksAreRendered(prefix: string, bodies: seq<seq<string>>, substantive: string -> bool, c: string)
    requires c in Rendered(prefix, bodies, substantive)
    ensures exists k ::
      0 <= k < |bodies| && bodies[k] != [] && substantive(Join(bodies[k], "\n\n")) && c == Render(prefix, bodies[k])
    decreases |bodies|
  {
    var n := |bodies| - 1;
    if c in Rendered(prefix, bodies[..n], substantive) {
      ChunksAreRendered(prefix, bodies[..n], substantive, c);
      var k :| 0 <= k < n && bodies[..n][k] != [] && substantive(Join(bodies[..n][k], "\n\n"))
        && c == Render(prefix, bodies[..n][k]);
      assert bodies[k] == bodies[..n][k];
    }
  }

  // ---- every group with substance is a chunk

  predicate Substantive(body: seq<string>, substantive: string -> bool)
  {
    body != [] && substantive(Join(body, "\n\n"))
  }

  /** A chunk reads: the heading path, an empty line, and the units with empty lines between them. */
  ghost predicate Shows(c: string, prefix: string, body: seq<string>)
  {
    if prefix == "" then c == Join(body, "\n\n") else c == prefix + "\n\n" + Join(body, "\n\n")
  }

  /** The groups with substance, in order. */
  ghost predicate Picks(bodies: seq<seq<string>>, substantive: string -> bool, picks: seq<nat>)
  {
    && (forall j | 0 <= j < |picks| :: picks[j] < |bodies| && Substantive(bodies[picks[j]], substantive))
    && (forall i, j | 0 <= i < j < |picks| :: picks[i] < picks[j])
    && (forall k: nat {:trigger k in picks} | k < |bodies| && Substantive(bodies[k], substantive) :: k in picks)
  }

  /**
   * Group `picks[j]` is chunk `at[j]`: the first one is the first chunk, the next one is the same chunk if it shows the
   * same and else the next chunk, and the last one is the last chunk.
   */
  ghost predicate Placed(prefix: string, bodies: seq<seq<string>>, picks: seq<nat>, chunks: seq<string>, at: seq<nat>)
    requires forall j | 0 <= j < |picks| :: picks[j] < |bodies|
  {
    && |at| == |picks| && (picks == [] <==> chunks == [])
    && (picks != [] ==> at[0] == 0 && at[|at| - 1] == |chunks| - 1)
    && (forall j | 0 <= j < |at| :: at[j] < |chunks| && Shows(chunks[at[j]], prefix, bodies[picks[j]]))
    && (forall j | 0 < j < |at| ::
          at[j] == at[j - 1] + if SameJoin(bodies[picks[j - 1]], bodies[picks[j]]) then 0 else 1)
  }

  predicate SameJoin(a: seq<string>, b: seq<string>)
  {
    Join(a, "\n\n") == Join(b, "\n\n")
  }

  /** Each group with substance has its chunk, in the order of the groups, and there are no other chunks. */
  lemma {:induction false} GroupsAreChunks(prefix: string, bodies: seq<seq<string>>, substantive: string -> bool)
    returns (picks: seq<nat>, at: seq<nat>)
    ensures Picks(bodies, substantive, picks)
    ensures Placed(prefix, bodies, picks, Rendered(prefix, bodies, substantive), at)
    decreases |bodies|
  {
    hide Join, Picks, Placed, SameJoin, Shows;
    var n := |bodies| - 1;
    if bodies == [] {
      picks, at := [], [];
      NothingPlaced(prefix, substantive);
    } else {
      var earlier, chunks := Rendered(prefix, bodies[..n], substantive), Rendered(prefix, bodies, substantive);
      picks, at := GroupsAreChunks(prefix, bodies[..n], substantive);
      MorePicks(bodies, substantive, picks);
      LongerBodies(prefix, bodies, picks, earlier, at);
      if Substantive(bodies[n], substantive) {
        LastShown(prefix, bodies, picks, earlier, at);
        if picks != [] { SameText(prefix, bodies[picks[|picks| - 1]], bodies[n]); }
        NewShows(prefix, bodies[n]);
        NextPlace(prefix, bodies, picks, earlier, at, chunks);
        picks, at := picks + [n], at + [|chunks| - 1];
      }
    }
  }

  lemma NothingPlaced(prefix: string, substantive: string -> bool)
    ensures Picks([], substantive, []) && Placed(prefix, [], [], [], [])
  {
  }

  lemma MorePicks(bodies: seq<seq<string>>, substantive: string -> bool, picks: seq<nat>)
    requires bodies != [] && Picks(bodies[..|bodies| - 1], substantive, picks)
    ensures forall j | 0 <= j < |picks| :: picks[j] < |bodies| - 1
    ensures Substantive(bodies[|bodies| - 1], substantive) ==> Picks(bodies, substantive, picks + [|bodies| - 1])
    ensures !Substantive(bodies[|bodies| - 1], substantive) ==> Picks(bodies, substantive, picks)
  {
    hide Substantive;
    var n := |bodies| - 1;
    assert forall m | 0 <= m < n :: bodies[..n][m] == bodies[m];
    var more := picks + [n];
    assert more[|picks|] == n;
    forall k: nat | k < n && Substantive(bodies[k], substantive) ensures k in picks && k in more {
      assert k in picks by { assert Substantive(bodies[..n][k], substantive); }
    }
  }

  lemma LongerBodies(prefix: string, bodies: seq<seq<string>>, picks: seq<nat>, chunks: seq<string>, at: seq<nat>)
    requires bodies != [] && forall j | 0 <= j < |picks| :: picks[j] < |bodies| - 1
    requires Placed(prefix, bodies[..|bodies| - 1], picks, chunks, at)
    ensures Placed(prefix, bodies, picks, chunks, at)
  {
    hide SameJoin, Shows;
    assert forall j | 0 <= j < |picks| :: bodies[..|bodies| - 1][picks[j]] == bodies[picks[j]];
  }

  lemma LastShown(prefix: string, bodies: seq<seq<string>>, picks: seq<nat>, chunks: seq<string>, at: seq<nat>)
    requires (forall j | 0 <= j < |picks| :: picks[j] < |bodies|) && Placed(prefix, bodies, picks, chunks, at)
    ensures picks == [] <==> chunks == []
    ensures picks != [] ==> chunks[|chunks| - 1] == Render(prefix, bodies[picks[|picks| - 1]])
  {
    hide SameJoin, Join;
    if picks != [] { assert Shows(chunks[at[|at| - 1]], prefix, bodies[picks[|at| - 1]]); }
  }

  lemma NewShows(prefix: string, body: seq<string>)
    ensures Shows(Render(prefix, body), prefix, body)
  {
  }

  /** Under one heading path chunks are the same exactly when their units are. */
  lemma SameText(prefix: string, a: seq<string>, b: seq<string>)
    ensures Render(prefix, a) == Render(prefix, b) <==> SameJoin(a, b)
  {
    hide Join;
    if prefix != "" {
      var front := prefix + "\n\n";
      assert Render(prefix, a)[|front|..] == Join(a, "\n\n") && Render(prefix, b)[|front|..] == Join(b, "\n\n");
    }
  }

  lemma NextPlace(prefix: string, bodies: seq<seq<string>>, picks: seq<nat>, earlier: seq<string>, at: seq<nat>,
                  chunks: seq<string>)
    requires bodies != [] && (forall j | 0 <= j < |picks| :: picks[j] < |bodies|)
    requires Placed(prefix, bodies, picks, earlier, at)
    requires chunks != [] && Shows(chunks[|chunks| - 1], prefix, bodies[|bodies| - 1])
    requires chunks == (if picks != [] && SameJoin(bodies[picks[|picks| - 1]], bodies[|bodies| - 1])
                        then earlier else earlier + [chunks[|chunks| - 1]])
    ensures Placed(prefix, bodies, picks + [|bodies| - 1], chunks, at + [|chunks| - 1])
  {
    hide SameJoin, Shows;
  }

  /** The chunks of a section, from its heading path and the units of its blocks. */
  method ChunkSection(
      headings: seq<string>, units: seq<string>, target: nat, overlap: nat, substantive: string -> bool)
    returns (chunks: seq<string>, bodies: seq<seq<string>>, ghost windows: seq<Window>)
    ensures var prefix := Join(headings, "\n");
            && chunks == Rendered(prefix, bodies, substantive)
            && Bodies(Kept(units), windows, bodies)
            && Chained(Kept(units), windows, BudgetFor(prefix, target, overlap))
            && (windows != [] ==> windows[|windows| - 1].to == |Kept(units)|)
            && (Kept(units) != [] ==> windows != [])
  {
    hide Chained, Bodies, Kept, Join, BudgetFor;
    var prefix := Join(headings, "\n");
    bodies, windows := PackUnits(units, BudgetFor(prefix, target, overlap));
    chunks := [];
    for i := 0 to |bodies|
      invariant chunks == Rendered(prefix, bodies[..i], substantive)
    {
      assert bodies[..i + 1][..i] == bodies[..i];
      chunks := Pushed(chunks, prefix, bodies[i], substantive);
    }
    assert bodies[..|bodies|] == bodies;
  }

  lemma {:induction false} JoinHas(parts: seq<string>, sep: string, m: nat)
    requires m < |parts|
    ensures Has(Join(parts, sep), parts[m])
    decreases |parts|
  {
    var rest := parts[1..];
    if |parts| == 1 {
      HasMiddle("", parts[0], "");
      assert "" + parts[0] + "" == parts[0];
    } else if m == 0 {
      HasMiddle("", parts[0], sep + Join(rest, sep));
      assert "" + parts[0] + (sep + Join(rest, sep)) == Join(parts, sep);
    } else {
      JoinHas(rest, sep, m - 1);
      HasMiddle(parts[0] + sep, Join(rest, sep), "");
      assert parts[0] + sep + Join(rest, sep) + "" == Join(parts, sep);
      HasTransitive(Join(parts, sep), Join(rest, sep), rest[m - 1]);
    }
  }

  lemma ShowsItsUnits(c: string, prefix: string, body: seq<string>, m: nat)
    requires Shows(c, prefix, body) && m < |body|
    ensures Has(c, body[m])
  {
    hide Join;
    var joined := Join(body, "\n\n");
    JoinHas(body, "\n\n", m);
    if prefix != "" {
      HasMiddle(prefix + "\n\n", joined, "");
      assert prefix + "\n\n" + joined + "" == c;
      HasTransitive(c, joined, body[m]);
    }
  }

  /** No unit of a section is lost: one that is not blank is in a group, and in a chunk as soon as that group has substance. */
  lemma UnitsAreChunked(
      prefix: string, units: seq<string>, windows: seq<Window>, bodies: seq<seq<string>>, b: Budget,
      substantive: string -> bool, i: nat)
    requires Bodies(Kept(units), windows, bodies) && Chained(Kept(units), windows, b)
    requires Kept(units) != [] ==> windows != [] && windows[|windows| - 1].to == |Kept(units)|
    requires i < |units| && !Blank(units[i])
    ensures exists k ::
      && 0 <= k < |bodies| && units[i] in bodies[k]
      && (Substantive(bodies[k], substantive) ==>
            exists c :: c in Rendered(prefix, bodies, substantive) && Shows(c, prefix, bodies[k]) && Has(c, units[i]))
  {
    hide Kept, Chained, Rendered, Substantive, Shows, Has, Blank;
    var kept, chunks := Kept(units), Rendered(prefix, bodies, substantive);
    var pos := KeptMeans(units);
    assert i in pos;
    var j: nat :| j < |pos| && pos[j] == i;
    WindowsCover(kept, windows, b, |windows| - 1, j);
    var k :| 0 <= k < |windows| && windows[k].from <= j < windows[k].to;
    var m := j - windows[k].from;
    assert bodies[k][m] == kept[j] == units[i];
    if Substantive(bodies[k], substantive) {
      var picks, at := GroupsAreChunks(prefix, bodies, substantive);
      assert k in picks;
      var n: nat :| n < |picks| && picks[n] == k;
      ShowsItsUnits(chunks[at[n]], prefix, bodies[k], m);
      assert chunks[at[n]] in chunks;
    }
  }

  /** What is left for the units is what the headings leave of the target, and never less than 32. */
  lemma BudgetIsLargest(prefix: string, target: nat, overlap: nat, n: nat)
    ensures n <= BudgetFor(prefix, target, overlap).body <==> n <= 32 || Overhead(prefix) + n <= target
    ensures var b := BudgetFor(prefix, target, overlap);
      n <= b.overlap <==> n <= overlap && n + n <= b.body
  {
  }

  /** A chunk was closed because the next unit would not have fitted its target. */
  lemma ClosedChunkIsFull(
      prefix: string, kept: seq<string>, windows: seq<Window>, bodies: seq<seq<string>>, target: nat, overlap: nat, k: nat)
    requires Bodies(kept, windows, bodies) && Chained(kept, windows, BudgetFor(prefix, target, overlap))
    requires k < |windows| - 1
    ensures windows[k].to < |kept| && Len(Render(prefix, bodies[k] + [kept[windows[k].to]])) > target
  {
    hide JoinedLen, Render, Len;
    var w, b := windows[k], BudgetFor(prefix, target, overlap);
    assert Follows(kept, w, windows[k + 1].from, windows[k + 1].to, b);
    var unit := kept[w.to];
    JoinedMore(bodies[k], unit);
    RenderedLength(prefix, bodies[k] + [unit]);
    BudgetIsLargest(prefix, target, overlap, b.body);
    BudgetIsLargest(prefix, target, overlap, b.body + 1);
  }

  /** A chunk stays within its target unless the heading path alone leaves too little room or it is one unit. */
  lemma ChunkFitsTarget(
      prefix: string, kept: seq<string>, windows: seq<Window>, bodies: seq<seq<string>>, target: nat, overlap: nat,
      substantive: string -> bool, c: string)
    requires Bodies(kept, windows, bodies) && Chained(kept, windows, BudgetFor(prefix, target, overlap))
    requires c in Rendered(prefix, bodies, substantive)
    ensures Len(c) <= target || Len(c) <= Overhead(prefix) + 32 || exists i :: 0 <= i < |kept| && c == Render(prefix, [kept[i]])
  {
    hide Follows, JoinedLen, Render, Rendered;
    ChunksAreRendered(prefix, bodies, substantive, c);
    var k :| 0 <= k < |bodies| && c == Render(prefix, bodies[k]);
    RenderedLength(prefix, bodies[k]);
    var w := windows[k];
    assert Fits(kept, w, BudgetFor(prefix, target, overlap));
    if w.to == w.from + 1 {
      assert Units(kept, w) == [kept[w.from]];
    }
  }

  // ---- tables

  /** The table with only these rows. */
  function TableOf(header: string, rows: seq<string>): string
  {
    header + "\n" + Join(rows, "\n")
  }

  lemma {:induction false} RowsLength(rows: seq<string>)
    requires rows != []
    ensures Len(Join(rows, "\n")) == Total(rows) + |rows| - 1
  {
    if |rows| > 1 {
      RowsLength(rows[1..]);
      LenConcat(rows[0], "\n");
      LenConcat(rows[0] + "\n", Join(rows[1..], "\n"));
      assert "\n"[1..] == "";
    } else {
      assert Total(rows[1..]) == 0;
    }
  }

  /** The tables of the row groups, each within the budget or of one row. */
  ghost predicate TablesOf(header: string, groups: seq<seq<string>>, chunks: seq<string>, budget: nat)
  {
    && |chunks| == |groups|
    && forall k | 0 <= k < |groups| ::
         groups[k] != [] && chunks[k] == header + "\n" + Join(groups[k], "\n") && (|groups[k]| == 1 || Len(chunks[k]) <= budget)
  }

  lemma NoTables(header: string, budget: nat)
    ensures TablesOf(header, [], [], budget)
  {
  }

  lemma OneMoreTable(header: string, groups: seq<seq<string>>, chunks: seq<string>, budget: nat, open: seq<string>)
    requires TablesOf(header, groups, chunks, budget) && open != []
    requires |open| > 1 ==> Len(header) + 1 + Total(open) + |open| - 1 <= budget
    ensures TablesOf(header, groups + [open], chunks + [TableOf(header, open)], budget)
    ensures Flatten(groups + [open]) == Flatten(groups) + open
  {
    hide Join, Len;
    TableLength(header, open);
    FlattenNext(groups, open);
  }

  /** Row groups of an oversized table: every row once and in order, and each table within the budget or of one row. */
  method SplitRows(header: string, rows: seq<string>, budget: nat) returns (chunks: seq<string>, ghost groups: seq<seq<string>>)
    requires Len(header) + 1 < budget
    ensures Flatten(groups) == rows && TablesOf(header, groups, chunks, budget)
  {
    hide Len, Join, TableOf, TablesOf;
    NoTables(header, budget);
    var rowBudget := budget - Len(header) - 1;
    chunks, groups := [], [];
    var open: seq<string> := [];
    for i := 0 to |rows|
      invariant Flatten(groups) + open == rows[..i] && TablesOf(header, groups, chunks, budget)
      invariant i > 0 ==> open != []
      invariant |open| > 1 ==> Total(open) + |open| - 1 <= rowBudget
    {
      var prospective := Total(open) + |open| + Len(rows[i]);
      if open != [] && prospective > rowBudget {
        OneMoreTable(header, groups, chunks, budget, open);
        chunks, groups := chunks + [TableOf(header, open)], groups + [open];
        open := [];
      }
      TotalConcat(open, [rows[i]]);
      TotalOne(rows[i]);
      open := open + [rows[i]];
      assert rows[..i + 1] == rows[..i] + [rows[i]];
    }
    assert rows[..|rows|] == rows;
    if open != [] {
      OneMoreTable(header, groups, chunks, budget, open);
      chunks, groups := chunks + [TableOf(header, open)], groups + [open];
    }
  }

  lemma TotalOne(row: string)
    ensures Total([row]) == Len(row)
  {
    assert Total([row][1..]) == 0;
  }

  lemma TableLength(header: string, rows: seq<string>)
    requires rows != []
    ensures Len(TableOf(header, rows)) == Len(header) + 1 + Total(rows) + |rows| - 1
  {
    RowsLength(rows);
    LenConcat(header, "\n");
    LenConcat(header + "\n", Join(rows, "\n"));
    assert "\n"[1..] == "";
  }
}
