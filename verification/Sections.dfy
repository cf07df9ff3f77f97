/** Sections of a Markdown document and the heading path each of them carries (src/chunker.rs). */
module Sections {
  import opened Prelude
  import opened Strings

  datatype Block = Heading(level: nat, rendered: string) | Body(text: string)

  datatype Section = Section(headings: seq<string>, blocks: seq<string>)

  /** Heading `i` still encloses what stands at `n`: no heading in between is of its level or above. */
  ghost predicate Encloses(blocks: seq<Block>, i: int, n: nat)
    requires n <= |blocks|
  {
    && 0 <= i < n && blocks[i].Heading?
    && forall j | i < j < n && blocks[j].Heading? :: blocks[j].level > blocks[i].level
  }

  /** The headings that enclose position `n`, outermost first. */
  ghost predicate IsPath(blocks: seq<Block>, n: nat, path: seq<nat>)
    requires n <= |blocks|
  {
    && (forall a, b | 0 <= a < b < |path| :: path[a] < path[b])
    && forall i :: i in path <==> Encloses(blocks, i, n)
  }

  ghost predicate Holds(blocks: seq<Block>, path: seq<nat>, stack: seq<(nat, string)>)
  {
    && |stack| == |path|
    && forall a | 0 <= a < |path| ::
         path[a] < |blocks| && blocks[path[a]] == Heading(stack[a].0, stack[a].1)
  }

  /** Along a path the levels rise strictly. */
  lemma LevelsRise(blocks: seq<Block>, n: nat, path: seq<nat>, stack: seq<(nat, string)>, a: nat, b: nat)
    requires n <= |blocks| && IsPath(blocks, n, path) && Holds(blocks, path, stack) && a < b < |path|
    ensures stack[a].0 < stack[b].0
  {
    assert path[a] in path && path[b] in path;
    assert Encloses(blocks, path[a], n) && Encloses(blocks, path[b], n);
  }

  /** Nothing but a heading changes the path. */
  lemma BodyKeepsPath(blocks: seq<Block>, n: nat, path: seq<nat>)
    requires n < |blocks| && IsPath(blocks, n, path) && blocks[n].Body?
    ensures IsPath(blocks, n + 1, path)
  {
    forall i ensures Encloses(blocks, i, n + 1) <==> Encloses(blocks, i, n) {
    }
  }

  /** A heading closes those of its level and below, which are the last ones, and joins the path. */
  lemma HeadingOnPath(blocks: seq<Block>, n: nat, path: seq<nat>, stack: seq<(nat, string)>, keep: nat)
    requires n < |blocks| && blocks[n].Heading? && IsPath(blocks, n, path) && Holds(blocks, path, stack)
    requires keep <= |path| && (forall a | keep <= a < |path| :: stack[a].0 >= blocks[n].level)
    requires keep > 0 ==> stack[keep - 1].0 < blocks[n].level
    ensures IsPath(blocks, n + 1, path[..keep] + [n])
    ensures Holds(blocks, path[..keep] + [n], stack[..keep] + [(blocks[n].level, blocks[n].rendered)])
  {
    var next := path[..keep] + [n];
    forall a | 0 <= a < keep ensures stack[a].0 < blocks[n].level && path[a] < n {
      if a < keep - 1 { LevelsRise(blocks, n, path, stack, a, keep - 1); }
      assert path[a] in path;
    }
    forall i ensures i in next <==> Encloses(blocks, i, n + 1) {
      if i in next && i != n {
        var a :| 0 <= a < keep && path[..keep][a] == i;
        assert path[a] in path;
      }
      if Encloses(blocks, i, n + 1) && i != n {
        assert Encloses(blocks, i, n);
        var a :| 0 <= a < |path| && path[a] == i;
        assert a < keep;
        assert next[a] == i;
      }
      assert next[keep] == n;
    }
  }

  function Texts(stack: seq<(nat, string)>): (r: seq<string>)
    ensures |r| == |stack| && forall i | 0 <= i < |r| :: r[i] == stack[i].1
  {
    seq(|stack|, i requires 0 <= i < |stack| => stack[i].1)
  }

  /** The headings on the path, as rendered. */
  ghost predicate Renders(blocks: seq<Block>, path: seq<nat>, headings: seq<string>)
  {
    && |headings| == |path|
    && forall a | 0 <= a < |path| ::
         path[a] < |blocks| && blocks[path[a]].Heading? && headings[a] == blocks[path[a]].rendered
  }

  /** The rendered headings that enclose position `n`, outermost first. */
  ghost predicate IsHeadingPath(blocks: seq<Block>, n: nat, headings: seq<string>)
    requires n <= |blocks|
  {
    exists path :: IsPath(blocks, n, path) && Renders(blocks, path, headings)
  }

  function Bodies(blocks: seq<Block>): seq<string>
  {
    if blocks == [] then []
    else
      var last := blocks[|blocks| - 1];
      Bodies(blocks[..|blocks| - 1]) + if last.Body? then [last.text] else []
  }

  function Parts(sections: seq<Section>): (r: seq<seq<string>>)
    ensures |r| == |sections| && forall k | 0 <= k < |r| :: r[k] == sections[k].blocks
  {
    seq(|sections|, k requires 0 <= k < |sections| => sections[k].blocks)
  }

  /** The blocks from `lo` on are the bodies `texts`, and a heading or the document's start stands before them. */
  ghost predicate IsRun(blocks: seq<Block>, texts: seq<string>, lo: nat)
  {
    && lo + |texts| <= |blocks|
    && (forall k | 0 <= k < |texts| :: blocks[lo + k] == Body(texts[k]))
    && (lo > 0 ==> blocks[lo - 1].Heading?)
  }

  /** The section is the whole run of bodies from `lo` on, under the headings that enclose it. */
  ghost predicate Placed(blocks: seq<Block>, section: Section, lo: nat)
  {
    var hi := lo + |section.blocks|;
    && lo < hi && IsRun(blocks, section.blocks, lo) && (hi < |blocks| ==> blocks[hi].Heading?)
    && IsHeadingPath(blocks, lo, section.headings)
  }

  /** Position `n` belongs to section `k`. */
  predicate Within(sections: seq<Section>, places: seq<nat>, k: int, n: nat)
  {
    0 <= k < |sections| && k < |places| && places[k] <= n < places[k] + |sections[k].blocks|
  }

  /** Every body before `n` belongs to a section. */
  ghost predicate Covers(blocks: seq<Block>, sections: seq<Section>, places: seq<nat>, n: nat)
  {
    forall i | 0 <= i < n && i < |blocks| && blocks[i].Body? :: exists k :: Within(sections, places, k, i)
  }

  /** The sections stand where `places` says, in order and with room for a heading between them. */
  ghost predicate AllPlaced(blocks: seq<Block>, sections: seq<Section>, places: seq<nat>)
  {
    && |places| == |sections|
    && (forall k | 0 <= k < |sections| :: Placed(blocks, sections[k], places[k]))
    && forall j, k | 0 <= j < k < |sections| :: places[j] + |sections[j].blocks| < places[k]
  }

  /** The sections lie before the heading, or the start, in front of position `n`. */
  ghost predicate EndBefore(sections: seq<Section>, places: seq<nat>, n: nat)
  {
    |places| == |sections| && forall k | 0 <= k < |sections| :: places[k] + |sections[k].blocks| < n
  }

  lemma PathTexts(blocks: seq<Block>, n: nat, path: seq<nat>, stack: seq<(nat, string)>)
    requires n <= |blocks| && IsPath(blocks, n, path) && Holds(blocks, path, stack)
    ensures IsHeadingPath(blocks, n, Texts(stack))
  {
    assert Renders(blocks, path, Texts(stack));
  }

  /** Pops the headings of the level or below. */
  method PopTo(stack: seq<(nat, string)>, level: nat) returns (kept: seq<(nat, string)>, ghost keep: nat)
    ensures keep <= |stack| && kept == stack[..keep]
    ensures forall a | keep <= a < |stack| :: stack[a].0 >= level
    ensures keep > 0 ==> stack[keep - 1].0 < level
  {
    kept, keep := stack, |stack|;
    while kept != [] && kept[|kept| - 1].0 >= level
      invariant keep <= |stack| && kept == stack[..keep]
      invariant forall a | keep <= a < |stack| :: stack[a].0 >= level
      decreases keep
    {
      kept, keep := kept[..|kept| - 1], keep - 1;
    }
  }

  /** Puts the heading at `n` on the stack, in place of those it closes. */
  method Enter(blocks: seq<Block>, n: nat, stack: seq<(nat, string)>, ghost path: seq<nat>)
    returns (stack': seq<(nat, string)>, ghost path': seq<nat>)
    requires n < |blocks| && blocks[n].Heading? && IsPath(blocks, n, path) && Holds(blocks, path, stack)
    ensures IsPath(blocks, n + 1, path') && Holds(blocks, path', stack')
    ensures IsHeadingPath(blocks, n + 1, Texts(stack'))
  {
    hide IsPath, IsHeadingPath, Encloses, Holds, Texts;
    ghost var keep;
    var kept;
    kept, keep := PopTo(stack, blocks[n].level);
    SameLength(blocks, path, stack);
    HeadingOnPath(blocks, n, path, stack, keep);
    stack', path' := kept + [(blocks[n].level, blocks[n].rendered)], path[..keep] + [n];
    PathTexts(blocks, n + 1, path', stack');
  }

  /**
   * The sections are the maximal runs of body blocks, in order and with nothing left out, and every section carries
   * the headings that enclose it: exactly those not closed by a later heading of the same level or above.
   */
  method MarkdownSections(blocks: seq<Block>) returns (sections: seq<Section>, ghost places: seq<nat>)
    ensures AllPlaced(blocks, sections, places) && Covers(blocks, sections, places, |blocks|)
    ensures Flatten(Parts(sections)) == Bodies(blocks)
  {
    hide *;
    sections, places := [], [];
    var stack: seq<(nat, string)> := [];
    ghost var path: seq<nat> := [];
    var current := Section([], []);
    ghost var at: nat := 0;
    StartOfDocument(blocks);
    for n := 0 to |blocks|
      invariant IsPath(blocks, n, path) && Holds(blocks, path, stack)
      invariant n == at + |current.blocks| && IsRun(blocks, current.blocks, at)
      invariant IsHeadingPath(blocks, at, current.headings)
      invariant Flatten(Parts(sections)) + current.blocks == Bodies(blocks[..n])
      invariant AllPlaced(blocks, sections, places)
      invariant EndBefore(sections, places, at) && Covers(blocks, sections, places, at)
    {
      BodiesNext(blocks, n);
      match blocks[n] {
        case Heading(_, _) =>
          if current.blocks != [] {
            Place(blocks, sections, places, current, at);
            sections, places := sections + [current], places + [at];
          }
          PassHeading(blocks, sections, places, n);
          stack, path := Enter(blocks, n, stack, path);
          NewRun(blocks, n);
          current, at := Section(Texts(stack), []), n + 1;
        case Body(text) =>
          BodyKeepsPath(blocks, n, path);
          RunGrows(blocks, current.blocks, at);
          current := current.(blocks := current.blocks + [text]);
      }
    }
    assert blocks[..|blocks|] == blocks;
    if current.blocks != [] {
      Place(blocks, sections, places, current, at);
      sections, places := sections + [current], places + [at];
    }
  }

  lemma SameLength(blocks: seq<Block>, path: seq<nat>, stack: seq<(nat, string)>)
    requires Holds(blocks, path, stack)
    ensures |stack| == |path|
  {
  }

  /** A heading is no body, and room between sections. */
  lemma PassHeading(blocks: seq<Block>, sections: seq<Section>, places: seq<nat>, n: nat)
    requires n < |blocks| && blocks[n].Heading? && Covers(blocks, sections, places, n)
    requires EndBefore(sections, places, n) || EndBefore(sections, places, n + 1)
    ensures Covers(blocks, sections, places, n + 1) && EndBefore(sections, places, n + 1)
  {
  }

  lemma NewRun(blocks: seq<Block>, n: nat)
    requires n < |blocks| && blocks[n].Heading?
    ensures IsRun(blocks, [], n + 1)
  {
  }

  lemma RunGrows(blocks: seq<Block>, texts: seq<string>, lo: nat)
    requires IsRun(blocks, texts, lo) && lo + |texts| < |blocks| && blocks[lo + |texts|].Body?
    ensures IsRun(blocks, texts + [blocks[lo + |texts|].text], lo)
  {
  }

  lemma Place(blocks: seq<Block>, sections: seq<Section>, places: seq<nat>, section: Section, lo: nat)
    requires AllPlaced(blocks, sections, places) && EndBefore(sections, places, lo)
    requires Covers(blocks, sections, places, lo)
    requires section.blocks != [] && IsRun(blocks, section.blocks, lo) && IsHeadingPath(blocks, lo, section.headings)
    requires lo + |section.blocks| < |blocks| ==> blocks[lo + |section.blocks|].Heading?
    ensures AllPlaced(blocks, sections + [section], places + [lo])
    ensures EndBefore(sections + [section], places + [lo], lo + |section.blocks| + 1)
    ensures Covers(blocks, sections + [section], places + [lo], lo + |section.blocks|)
    ensures Flatten(Parts(sections + [section])) == Flatten(Parts(sections)) + section.blocks
  {
    hide IsRun, IsHeadingPath, Flatten;
    FlattenNext(Parts(sections), section.blocks);
    assert Parts(sections + [section]) == Parts(sections) + [section.blocks];
    var all, where := sections + [section], places + [lo];
    forall i | 0 <= i < lo + |section.blocks| && i < |blocks| && blocks[i].Body?
      ensures exists k :: Within(all, where, k, i)
    {
      if i < lo {
        var k :| Within(sections, places, k, i);
        assert Within(all, where, k, i);
      } else {
        assert Within(all, where, |sections|, i);
      }
    }
  }

  lemma BodiesNext(blocks: seq<Block>, n: nat)
    requires n < |blocks|
    ensures Bodies(blocks[..n + 1]) == Bodies(blocks[..n]) + if blocks[n].Body? then [blocks[n].text] else []
  {
    assert blocks[..n + 1][..n] == blocks[..n];
  }

  lemma StartOfDocument(blocks: seq<Block>)
    ensures IsPath(blocks, 0, []) && Holds(blocks, [], []) && IsHeadingPath(blocks, 0, [])
    ensures AllPlaced(blocks, [], []) && EndBefore([], [], 0) && Covers(blocks, [], [], 0) && IsRun(blocks, [], 0)
    ensures Flatten(Parts([])) == [] && Bodies(blocks[..0]) == []
  {
    var none: seq<nat> := [];
    assert IsPath(blocks, 0, none);
  }

  // ---- what that says of a single block

  lemma {:induction false} BodiesKeepPath(blocks: seq<Block>, lo: nat, n: nat, path: seq<nat>)
    requires lo <= n <= |blocks| && IsPath(blocks, lo, path) && forall i | lo <= i < n :: blocks[i].Body?
    ensures IsPath(blocks, n, path)
    decreases n - lo
  {
    hide IsPath;
    if lo < n {
      BodyKeepsPath(blocks, lo, path);
      BodiesKeepPath(blocks, lo + 1, n, path);
    }
  }

  lemma HeadingsAlongRun(blocks: seq<Block>, texts: seq<string>, lo: nat, n: nat, headings: seq<string>)
    requires IsRun(blocks, texts, lo) && lo <= n <= lo + |texts| && IsHeadingPath(blocks, lo, headings)
    ensures IsHeadingPath(blocks, n, headings)
  {
    hide IsPath, Renders;
    var path :| IsPath(blocks, lo, path) && Renders(blocks, path, headings);
    forall i | lo <= i < n ensures blocks[i].Body? { assert blocks[lo + (i - lo)] == Body(texts[i - lo]); }
    BodiesKeepPath(blocks, lo, n, path);
  }

  /** The block at `n` stands in section `k`, at its own place there, and the section carries its headings. */
  ghost predicate Files(blocks: seq<Block>, sections: seq<Section>, places: seq<nat>, k: int, n: nat)
    requires n < |blocks|
  {
    && Within(sections, places, k, n) && blocks[n] == Body(sections[k].blocks[n - places[k]])
    && IsHeadingPath(blocks, n, sections[k].headings)
  }

  /** Every body is in exactly one section, and that carries the headings that enclose the body. */
  lemma EveryBodyUnderItsHeadings(blocks: seq<Block>, sections: seq<Section>, places: seq<nat>, n: nat)
    requires AllPlaced(blocks, sections, places) && Covers(blocks, sections, places, |blocks|)
    requires n < |blocks| && blocks[n].Body?
    ensures exists k :: Files(blocks, sections, places, k, n)
    ensures forall j, k | Within(sections, places, j, n) && Within(sections, places, k, n) :: j == k
  {
    hide IsHeadingPath, Placed, Within;
    var k :| Within(sections, places, k, n);
    WithinFiles(blocks, sections, places, k, n);
    forall j | Within(sections, places, j, n) ensures j == k { OneSection(blocks, sections, places, j, k, n); }
  }

  lemma WithinFiles(blocks: seq<Block>, sections: seq<Section>, places: seq<nat>, k: int, n: nat)
    requires AllPlaced(blocks, sections, places) && n < |blocks| && Within(sections, places, k, n)
    ensures Files(blocks, sections, places, k, n)
  {
    hide IsHeadingPath;
    var lo, section := places[k], sections[k];
    assert Placed(blocks, section, lo);
    assert blocks[lo + (n - lo)] == Body(section.blocks[n - lo]);
    HeadingsAlongRun(blocks, section.blocks, lo, n, section.headings);
  }

  lemma OneSection(blocks: seq<Block>, sections: seq<Section>, places: seq<nat>, j: int, k: int, n: nat)
    requires AllPlaced(blocks, sections, places) && Within(sections, places, j, n) && Within(sections, places, k, n)
    ensures j == k
  {
    hide Placed;
  }

  lemma {:induction false} RisingUnique(p: seq<nat>, q: seq<nat>)
    requires forall a, b | 0 <= a < b < |p| :: p[a] < p[b]
    requires forall a, b | 0 <= a < b < |q| :: q[a] < q[b]
    requires forall i :: i in p <==> i in q
    ensures p == q
    decreases |p|
  {
    if p == [] || q == [] {
      SameEmptiness(p, q);
    } else {
      var m, n := |p| - 1, |q| - 1;
      assert p[m] in q && q[n] in p;
      assert p[m] == q[n];
      forall i ensures i in p[..m] <==> i in q[..n] {
        if i in p[..m] { assert i in q; }
        if i in q[..n] { assert i in p; }
      }
      RisingUnique(p[..m], q[..n]);
      assert p == p[..m] + [p[m]] && q == q[..n] + [q[n]];
    }
  }

  /** A place has one heading path, so a section can carry no other headings. */
  lemma HeadingPathIsDetermined(blocks: seq<Block>, n: nat, a: seq<string>, b: seq<string>)
    requires n <= |blocks| && IsHeadingPath(blocks, n, a) && IsHeadingPath(blocks, n, b)
    ensures a == b
  {
    hide Encloses;
    var p :| IsPath(blocks, n, p) && Renders(blocks, p, a);
    var q :| IsPath(blocks, n, q) && Renders(blocks, q, b);
    RisingUnique(p, q);
  }
}
