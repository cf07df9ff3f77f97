/** Revising stale statements in place (src/cross_supersede.rs). */
module Supersede {
  import opened Prelude
  import opened Text
  import opened Sentences
  import opened Statements
  import opened Revisions

  // ---- positions and bytes

  /** A text in bytes, for any encoding of its characters. */
  function Encode<B>(enc: char -> seq<B>, s: string): seq<B>
  {
    FlatMap(enc, s)
  }

  /** The byte position of a character position. */
  function Offset<B>(enc: char -> seq<B>, body: string, i: nat): nat
    requires i <= |body|
  {
    |Encode(enc, body[..i])|
  }

  /** The bytes of a span are the span of the bytes. */
  lemma EncodeSpan<B>(enc: char -> seq<B>, body: string, s: nat, e: nat)
    requires s <= e <= |body|
    ensures Offset(enc, body, s) <= Offset(enc, body, e) <= |Encode(enc, body)|
    ensures Encode(enc, body)[Offset(enc, body, s)..Offset(enc, body, e)] == Encode(enc, body[s..e])
  {
    FlatMapConcat(enc, body[..s], body[s..e]);
    FlatMapConcat(enc, body[..e], body[e..]);
    assert body[..s] + body[s..e] == body[..e] && body[..e] + body[e..] == body;
  }

  /** Replacing a span of characters replaces the span of their bytes. */
  lemma EncodeReplaced<B>(enc: char -> seq<B>, body: string, s: nat, e: nat, text: string)
    requires s <= e <= |body|
    ensures Offset(enc, body, s) <= Offset(enc, body, e) <= |Encode(enc, body)|
    ensures Encode(enc, body[..s] + text + body[e..])
         == Encode(enc, body)[..Offset(enc, body, s)] + Encode(enc, text) + Encode(enc, body)[Offset(enc, body, e)..]
  {
    EncodeSpan(enc, body, 0, s);
    EncodeSpan(enc, body, s, e);
    EncodeSpan(enc, body, e, |body|);
    assert body[0..s] == body[..s] && body[e..|body|] == body[e..] && body[..|body|] == body;
    FlatMapConcat(enc, body[..s], text);
    FlatMapConcat(enc, body[..s] + text, body[e..]);
  }

  // ---- the edits of a round

  function WithoutDots(s: string): (r: string)
    ensures r <= s && (r != "" ==> r[|r| - 1] != '.') && forall i | |r| <= i < |s| :: s[i] == '.'
  {
    if s != "" && s[|s| - 1] == '.' then WithoutDots(s[..|s| - 1]) else s
  }

  function BuildRevision(was: string, truth: string, slug: string): string
  {
    WithoutDots(Trim(truth)) + ". (Previously: " + WithoutDots(Trim(was)) + ", superseded \U{2014} see " + slug + ".)"
  }

  /**
   * A revision starts with the new truth, and the old wording stays inside the note that supersedes it, before the slug
   * of the guide that does.
   */
  lemma RevisionKeepsWording(was: string, truth: string, slug: string) returns (p: nat, q: nat)
    ensures var r := BuildRevision(was, truth, slug); var old', new' := WithoutDots(Trim(was)), WithoutDots(Trim(truth));
      new' <= r && |new'| < p && p + |old'| < q && OccursAt(old', r, p) && OccursAt(slug, r, q)
  {
    hide WithoutDots, Trim;
    var old', new' := WithoutDots(Trim(was)), WithoutDots(Trim(truth));
    var a := new' + ". (Previously: ";
    var c := ", superseded \U{2014} see ";
    var r := BuildRevision(was, truth, slug);
    p, q := |a|, |a + old' + c|;
    assert r == a + old' + (c + slug + ".)") && r == (a + old' + c) + slug + ".)";
    assert r[p..p + |old'|] == old' && r[q..q + |slug|] == slug;
  }

  lemma RevisionHas(was: string, truth: string, slug: string, out: string)
    requires Has(out, BuildRevision(was, truth, slug))
    ensures Has(out, WithoutDots(Trim(was))) && Has(out, WithoutDots(Trim(truth))) && Has(out, slug)
  {
    hide WithoutDots, Trim, BuildRevision;
    var r := BuildRevision(was, truth, slug);
    var p, q := RevisionKeepsWording(was, truth, slug);
    assert OccursAt(WithoutDots(Trim(truth)), r, 0);
    HasTransitive(out, r, WithoutDots(Trim(was)));
    HasTransitive(out, r, WithoutDots(Trim(truth)));
    HasTransitive(out, r, slug);
  }

  /** The statements of a body, as the splitter finds them. */
  ghost predicate InOrder(body: string, statements: seq<Statement>)
  {
    && (forall i | 0 <= i < |statements| :: Exact(body, statements[i]))
    && forall i, j | 0 <= i < j < |statements| :: statements[i].end <= statements[j].start
  }

  /** Revise statement `which`: new truth and the guide it comes from. */
  datatype Revision = Revision(which: nat, truth: string, slug: string)

  function EditFor(statements: seq<Statement>, r: Revision): Edit<char>
    requires r.which < |statements|
  {
    var s := statements[r.which];
    Edit(s.start, s.end, BuildRevision(s.text, r.truth, r.slug))
  }

  function EditsFor(statements: seq<Statement>, revisions: seq<Revision>): (edits: seq<Edit<char>>)
    requires forall k | 0 <= k < |revisions| :: revisions[k].which < |statements|
    ensures |edits| == |revisions| && forall k | 0 <= k < |edits| :: edits[k] == EditFor(statements, revisions[k])
  {
    seq(|revisions|, k requires 0 <= k < |revisions| => EditFor(statements, revisions[k]))
  }

  lemma {:induction false} OnceEach<T>(s: seq<T>)
    requires forall i, j | 0 <= i < j < |s| :: s[i] != s[j]
    ensures forall x | x in multiset(s) :: multiset(s)[x] == 1
  {
    if s != [] {
      assert s == [s[0]] + s[1..];
      OnceEach(s[1..]);
      assert s[0] !in s[1..];
    }
  }

  lemma Apart(body: string, statements: seq<Statement>, a: Revision, b: Revision)
    requires InOrder(body, statements) && a.which < |statements| && b.which < |statements| && a.which != b.which
    ensures var e, f := EditFor(statements, a), EditFor(statements, b);
            e.start != f.start && (e.end <= f.start || f.end <= e.start)
  {
    assert Exact(body, statements[a.which]) && Exact(body, statements[b.which]);
  }

  lemma Inside(body: string, statements: seq<Statement>, a: Revision)
    requires InOrder(body, statements) && a.which < |statements|
    ensures var e := EditFor(statements, a); e.start <= e.end <= |body|
  {
    assert Exact(body, statements[a.which]);
  }

  /** Statements revised at most once each give disjoint edits. */
  lemma EditsAreDisjoint(body: string, statements: seq<Statement>, revisions: seq<Revision>)
    requires InOrder(body, statements)
    requires forall k | 0 <= k < |revisions| :: revisions[k].which < |statements|
    requires forall k, l | 0 <= k < l < |revisions| :: revisions[k].which != revisions[l].which
    ensures Disjoint(body, multiset(EditsFor(statements, revisions)))
  {
    hide EditFor, Exact;
    var edits := EditsFor(statements, revisions);
    forall k, l | 0 <= k < |edits| && 0 <= l < |edits| && k != l
      ensures edits[k].start != edits[l].start
      ensures edits[k].end <= edits[l].start || edits[l].end <= edits[k].start
    {
      Apart(body, statements, revisions[k], revisions[l]);
    }
    OnceEach(edits);
    forall k | 0 <= k < |edits| ensures edits[k].start <= edits[k].end <= |body| {
      Inside(body, statements, revisions[k]);
    }
  }

  /** The splitter's statements are in order and exact, whatever the body. */
  lemma SplitIsInOrder(body: string)
    ensures InOrder(body, StatementsOf(CodeRules(), body, ParagraphsOf(LineKinds(), body)))
  {
    if body == "" {
      SentencesOfEmpty();
    } else {
      SentencesPartitionProse(LineKinds(), body, 0);
      StatementsAreExact(CodeRules().prose, body, SentencesOf(LineKinds(), body), 0);
    }
  }

  lemma SentencesOfEmpty()
    ensures StatementsOf(CodeRules(), "", ParagraphsOf(LineKinds(), "")) == []
  {
    assert ParagraphsOf(LineKinds(), "") == [];
    assert AllSentences(CodeRules(), "", []) == [];
  }

  /**
   * Revising statements of a split body, each at most once: the result still holds the old wording of every
   * revised statement, with the new one and where it comes from, and every character outside the revised statements, moved by what the edits before it gained.
   */
  lemma RoundKeepsWording(body: string, revisions: seq<Revision>, order: seq<Edit<char>>, k: nat, at: nat)
    requires var statements := StatementsOf(CodeRules(), body, ParagraphsOf(LineKinds(), body));
             && (forall j | 0 <= j < |revisions| :: revisions[j].which < |statements|)
             && (forall j, l | 0 <= j < l < |revisions| :: revisions[j].which != revisions[l].which)
             && multiset(order) == multiset(EditsFor(statements, revisions))
    requires LeftToRight(body, order, 0) && k < |revisions| && at < |body|
    ensures var statements := StatementsOf(CodeRules(), body, ParagraphsOf(LineKinds(), body));
            var out := Substitute(body, order, 0);
            && Has(out, WithoutDots(Trim(statements[revisions[k].which].text)))
            && Has(out, WithoutDots(Trim(revisions[k].truth))) && Has(out, revisions[k].slug)
            && ((forall i | 0 <= i < |order| :: at < order[i].start || order[i].end <= at) ==>
                0 <= at + Shift(order, at) < |out| && out[at + Shift(order, at)] == body[at])
  {
    hide StatementsOf, ParagraphsOf, CodeRules, Trim, WithoutDots, BuildRevision, LeftToRight, Shift;
    var statements := StatementsOf(CodeRules(), body, ParagraphsOf(LineKinds(), body));
    var out := Substitute(body, order, 0);
    var edits := EditsFor(statements, revisions);
    var s := statements[revisions[k].which];
    assert edits[k] in multiset(order);
    var i :| 0 <= i < |order| && order[i] == edits[k];
    var p := NewTextIsThere(body, order, 0, i);
    assert OccursAt(edits[k].text, out, p);
    RevisionHas(s.text, revisions[k].truth, revisions[k].slug, out);
    if forall i | 0 <= i < |order| :: at < order[i].start || order[i].end <= at {
      OutsideUnchanged(body, order, 0, at);
    }
  }
}
