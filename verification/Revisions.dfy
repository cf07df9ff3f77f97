/** Replacing statement spans in a guide body (src/cross_supersede.rs). `T` is the unit spans count in: bytes. */
module Revisions {
  import opened Prelude

  datatype Edit<+T> = Edit(start: nat, end: nat, text: seq<T>)

  /** Each edit once, its span inside the body, and no two spans that overlap or start at the same place. */
  ghost predicate Disjoint<T(!new)>(body: seq<T>, edits: multiset<Edit<T>>)
  {
    && (forall e | e in edits :: edits[e] == 1 && e.start <= e.end <= |body|)
    && forall e, f | e in edits && f in edits && e != f ::
         e.start != f.start && (e.end <= f.start || f.end <= e.start)
  }

  predicate Fits<T>(body: seq<T>, e: Edit<T>, from: nat)
  {
    from <= e.start <= e.end <= |body|
  }

  predicate Precedes<T>(a: Edit<T>, b: Edit<T>)
  {
    a.end <= b.start && a.start < b.start
  }

  /** Spans at or after `from`, from left to right. */
  ghost predicate LeftToRight<T>(body: seq<T>, edits: seq<Edit<T>>, from: nat)
  {
    && from <= |body|
    && (forall i {:trigger edits[i]} | 0 <= i < |edits| :: Fits(body, edits[i], from))
    && forall i, j {:trigger Precedes(edits[i], edits[j])} | 0 <= i < j < |edits| :: Precedes(edits[i], edits[j])
  }

  lemma TailLeftToRight<T>(body: seq<T>, edits: seq<Edit<T>>, from: nat)
    requires edits != [] && LeftToRight(body, edits, from)
    ensures edits[0].end <= |body| && LeftToRight(body, edits[1..], edits[0].end)
  {
    forall i | 0 <= i < |edits[1..]| ensures Fits(body, edits[1..][i], edits[0].end) {
      assert Precedes(edits[0], edits[i + 1]) && Fits(body, edits[i + 1], from);
    }
    forall i, j | 0 <= i < j < |edits[1..]| ensures Precedes(edits[1..][i], edits[1..][j]) {
      assert Precedes(edits[i + 1], edits[j + 1]);
    }
  }

  /** Simultaneous substitution: what lies between the spans, and the new texts in their place. */
  ghost function Substitute<T>(body: seq<T>, edits: seq<Edit<T>>, from: nat): seq<T>
    requires LeftToRight(body, edits, from)
  {
    if edits == [] then body[from..]
    else
      TailLeftToRight(body, edits, from);
      body[from..edits[0].start] + edits[0].text + Substitute(body, edits[1..], edits[0].end)
  }

  lemma LeftToRightFrom<T>(body: seq<T>, edits: seq<Edit<T>>, from: nat, mid: nat)
    requires LeftToRight(body, edits, mid) && from <= mid
    ensures LeftToRight(body, edits, from)
  {
    forall i | 0 <= i < |edits| ensures Fits(body, edits[i], from) {
      assert Fits(body, edits[i], mid);
    }
  }

  lemma SubstituteFrom<T>(body: seq<T>, edits: seq<Edit<T>>, from: nat, mid: nat)
    requires LeftToRight(body, edits, mid) && from <= mid
    ensures LeftToRight(body, edits, from)
    ensures Substitute(body, edits, from) == body[from..mid] + Substitute(body, edits, mid)
  {
    LeftToRightFrom(body, edits, from, mid);
    if edits == [] {
      assert body[from..] == body[from..mid] + body[mid..];
    } else {
      TailLeftToRight(body, edits, mid);
      assert Fits(body, edits[0], mid);
      var rest := edits[0].text + Substitute(body, edits[1..], edits[0].end);
      SplitAt(body, from, mid, edits[0].start, rest);
      assert Substitute(body, edits, from) == body[from..edits[0].start] + rest;
      assert Substitute(body, edits, mid) == body[mid..edits[0].start] + rest;
    }
  }

  lemma SplitAt<T>(body: seq<T>, from: nat, mid: nat, to: nat, rest: seq<T>)
    requires from <= mid <= to <= |body|
    ensures body[from..to] + rest == body[from..mid] + (body[mid..to] + rest)
  {
  }

  /** One more edit to the left of those already made. */
  lemma SubstituteStep<T>(body: seq<T>, edits: seq<Edit<T>>)
    requires edits != [] && LeftToRight(body, edits, 0)
    ensures LeftToRight(body, edits[1..], 0)
    ensures var done, e := Substitute(body, edits[1..], 0), edits[0];
            e.start <= e.end <= |done| && Substitute(body, edits, 0) == done[..e.start] + e.text + done[e.end..]
  {
    var e := edits[0];
    TailLeftToRight(body, edits, 0);
    SubstituteFrom(body, edits[1..], 0, e.end);
    var rest := Substitute(body, edits[1..], e.end);
    var done := body[0..e.end] + rest;
    assert Fits(body, e, 0);
    assert done[e.end..] == rest;
    assert done[..e.start] == body[0..e.start];
  }

  predicate NotBefore<T>(a: Edit<T>, b: Edit<T>)
  {
    a.start >= b.start
  }

  ghost predicate Descending<T>(edits: seq<Edit<T>>)
  {
    forall i, j {:trigger NotBefore(edits[i], edits[j])} | 0 <= i < j < |edits| :: NotBefore(edits[i], edits[j])
  }

  lemma InsertDescending<T>(s: seq<Edit<T>>, k: nat, e: Edit<T>)
    requires Descending(s) && k <= |s| && (k < |s| ==> !NotBefore(s[k], e))
    requires forall i | 0 <= i < k :: NotBefore(s[i], e)
    ensures Descending(s[..k] + [e] + s[k..])
  {
    var t := s[..k] + [e] + s[k..];
    forall i, j | 0 <= i < j < |t| ensures NotBefore(t[i], t[j]) {
      if i < k {
        if j > k { assert NotBefore(s[i], s[j - 1]); }
        if j < k { assert NotBefore(s[i], s[j]); }
      } else {
        assert j - 1 > k ==> NotBefore(s[k], s[j - 1]);
        if i > k { assert NotBefore(s[i - 1], s[j - 1]); }
      }
    }
  }

  lemma EmptyDescends<T>()
    ensures Descending<T>([])
  {
  }

  lemma InsertedMultiset<T>(s: seq<T>, k: nat, e: T)
    requires k <= |s|
    ensures multiset(s[..k] + [e] + s[k..]) == multiset(s) + multiset{e}
  {
    assert s == s[..k] + s[k..];
  }

  /** The edits that start at `v`, in order. */
  function StartingAt<T>(edits: seq<Edit<T>>, v: nat): seq<Edit<T>>
  {
    if edits == [] then []
    else (if edits[0].start == v then [edits[0]] else []) + StartingAt(edits[1..], v)
  }

  /** Edits of the same start keep their order. */
  ghost predicate Stable<T>(sorted: seq<Edit<T>>, edits: seq<Edit<T>>)
  {
    forall v :: StartingAt(sorted, v) == StartingAt(edits, v)
  }

  lemma {:induction false} StartingAtConcat<T>(a: seq<Edit<T>>, b: seq<Edit<T>>, v: nat)
    ensures StartingAt(a + b, v) == StartingAt(a, v) + StartingAt(b, v)
  {
    if a == [] {
      assert a + b == b;
    } else {
      StartingAtConcat(a[1..], b, v);
      assert (a + b)[0] == a[0] && (a + b)[1..] == a[1..] + b;
      var one := if a[0].start == v then [a[0]] else [];
      Regroup(one, StartingAt(a[1..], v), StartingAt(b, v));
    }
  }

  lemma StartingAtOne<T>(e: Edit<T>, v: nat)
    ensures StartingAt([e], v) == if e.start == v then [e] else []
  {
    assert [e][1..] == [];
  }

  lemma {:induction false} NoneStartsAt<T>(edits: seq<Edit<T>>, v: nat)
    requires forall e | e in edits :: e.start != v
    ensures StartingAt(edits, v) == []
  {
    if edits != [] { NoneStartsAt(edits[1..], v); }
  }

  lemma InsertStable<T>(s: seq<Edit<T>>, edits: seq<Edit<T>>, k: nat, e: Edit<T>)
    requires Stable(s, edits) && Descending(s) && k <= |s| && (k < |s| ==> !NotBefore(s[k], e))
    ensures Stable(s[..k] + [e] + s[k..], edits + [e])
  {
    hide StartingAt;
    forall v ensures StartingAt(s[..k] + [e] + s[k..], v) == StartingAt(edits + [e], v) {
      StartingAtConcat(s[..k] + [e], s[k..], v);
      StartingAtConcat(s[..k], [e], v);
      StartingAtConcat(s[..k], s[k..], v);
      assert s == s[..k] + s[k..];
      StartingAtConcat(edits, [e], v);
      StartingAtOne(e, v);
      if v == e.start {
        forall f | f in s[k..] ensures f.start != v {
          var i :| k <= i < |s| && s[i] == f;
          assert i > k ==> NotBefore(s[k], s[i]);
        }
        NoneStartsAt(s[k..], v);
      }
    }
  }

  /** The sort by falling start that keeps the order of equal starts. */
  method SortDescending<T>(edits: seq<Edit<T>>) returns (sorted: seq<Edit<T>>)
    ensures Descending(sorted) && Stable(sorted, edits) && multiset(sorted) == multiset(edits)
  {
    hide Descending, Stable;
    sorted := [];
    EmptyDescends<T>();
    EmptyStable<T>();
    assert edits[..0] == [];
    for n := 0 to |edits|
      invariant Descending(sorted) && Stable(sorted, edits[..n]) && multiset(sorted) == multiset(edits[..n])
    {
      var e := edits[n];
      var k := 0;
      while k < |sorted| && NotBefore(sorted[k], e)
        invariant 0 <= k <= |sorted| && forall i | 0 <= i < k :: NotBefore(sorted[i], e)
      {
        k := k + 1;
      }
      InsertDescending(sorted, k, e);
      InsertStable(sorted, edits[..n], k, e);
      InsertedMultiset(sorted, k, e);
      assert edits[..n + 1] == edits[..n] + [e];
      sorted := sorted[..k] + [e] + sorted[k..];
    }
    assert edits[..|edits|] == edits;
  }

  lemma EmptyStable<T>()
    ensures Stable<T>([], [])
  {
  }

  lemma FirstStart<T>(p: seq<Edit<T>>, q: seq<Edit<T>>)
    requires Descending(q) && Stable(p, q) && p != []
    ensures q != [] && q[0].start >= p[0].start
  {
    var v := p[0].start;
    assert p[0] in StartingAt(p, v) && StartingAt(p, v) == StartingAt(q, v);
    if forall e | e in q :: e.start != v {
      NoneStartsAt(q, v);
      assert false;
    }
    var i :| 0 <= i < |q| && q[i].start == v;
    assert i > 0 ==> NotBefore(q[0], q[i]);
  }

  lemma StableTail<T>(p: seq<Edit<T>>, q: seq<Edit<T>>)
    requires Stable(p, q) && p != [] && q != [] && p[0].start == q[0].start
    ensures p[0] == q[0] && Stable(p[1..], q[1..])
  {
    var v := p[0].start;
    assert StartingAt(p, v)[0] == StartingAt(q, v)[0];
    forall w ensures StartingAt(p[1..], w) == StartingAt(q[1..], w) {
      assert StartingAt(p, w) == StartingAt(q, w);
      var one := if v == w then [p[0]] else [];
      Cancel(one, StartingAt(p[1..], w), StartingAt(q[1..], w));
    }
  }

  lemma Cancel<T>(a: seq<T>, x: seq<T>, y: seq<T>)
    requires a + x == a + y
    ensures x == y
  {
    assert x == (a + x)[|a|..] && y == (a + y)[|a|..];
  }

  /** That determines the order: there is one such sort. */
  lemma {:induction false} StableSortUnique<T>(p: seq<Edit<T>>, q: seq<Edit<T>>)
    requires Descending(p) && Descending(q) && Stable(p, q)
    ensures p == q
  {
    hide StartingAt, Stable;
    if p != [] { FirstStart(p, q); }
    if q != [] {
      Mirrored(p, q);
      FirstStart(q, p);
      StableTail(p, q);
      DescendingTail(p);
      DescendingTail(q);
      StableSortUnique(p[1..], q[1..]);
      assert p == [p[0]] + p[1..] && q == [q[0]] + q[1..];
    }
  }

  lemma Mirrored<T>(p: seq<Edit<T>>, q: seq<Edit<T>>)
    requires Stable(p, q)
    ensures Stable(q, p)
  {
  }

  lemma DescendingTail<T>(p: seq<Edit<T>>)
    requires Descending(p) && p != []
    ensures Descending(p[1..])
  {
    forall i, j | 0 <= i < j < |p[1..]| ensures NotBefore(p[1..][i], p[1..][j]) {
      assert NotBefore(p[i + 1], p[j + 1]);
    }
  }

  function Reverse<T>(s: seq<T>): (r: seq<T>)
    ensures |r| == |s| && forall k | 0 <= k < |s| :: r[k] == s[|s| - 1 - k]
  {
    seq(|s|, k requires 0 <= k < |s| => s[|s| - 1 - k])
  }

  lemma {:induction false} ReverseMultiset<T>(s: seq<T>)
    ensures multiset(Reverse(s)) == multiset(s)
  {
    if s != [] {
      var last := s[|s| - 1];
      assert Reverse(s) == [last] + Reverse(s[..|s| - 1]);
      assert s == s[..|s| - 1] + [last];
      ReverseMultiset(s[..|s| - 1]);
    }
  }

  lemma OnePlace<T>(s: seq<T>, i: nat, j: nat)
    requires i < j < |s| && multiset(s)[s[i]] == 1
    ensures s[i] != s[j]
  {
    assert s == s[..i] + [s[i]] + s[i + 1..];
    assert s[j] == s[i + 1..][j - i - 1];
    assert s[j] in multiset(s[i + 1..]);
  }

  /** Disjoint edits in falling order are the edits from left to right, read backwards. */
  lemma DescendingDisjoint<T(!new)>(body: seq<T>, sorted: seq<Edit<T>>)
    requires Descending(sorted) && Disjoint(body, multiset(sorted))
    ensures LeftToRight(body, Reverse(sorted), 0)
  {
    var asc := Reverse(sorted);
    forall i | 0 <= i < |asc| ensures Fits(body, asc[i], 0) {
      assert sorted[|sorted| - 1 - i] in multiset(sorted);
    }
    forall i, j | 0 <= i < j < |asc| ensures Precedes(asc[i], asc[j]) {
      var a, b := |sorted| - 1 - i, |sorted| - 1 - j;
      assert sorted[a] in multiset(sorted) && sorted[b] in multiset(sorted);
      OnePlace(sorted, b, a);
      assert NotBefore(sorted[b], sorted[a]);
    }
  }

  lemma {:induction false} LeftToRightUnique<T>(body: seq<T>, p: seq<Edit<T>>, q: seq<Edit<T>>)
    requires LeftToRight(body, p, 0) && LeftToRight(body, q, 0) && multiset(p) == multiset(q)
    ensures p == q
  {
    hide LeftToRight;
    assert |p| == |multiset(p)| && |q| == |multiset(q)|;
    if p != [] {
      FirstIsLeftmost(body, p, q[0]);
      FirstIsLeftmost(body, q, p[0]);
      TailMultiset(p);
      TailMultiset(q);
      TailLeftToRight(body, p, 0);
      TailLeftToRight(body, q, 0);
      LeftToRightFrom(body, p[1..], 0, p[0].end);
      LeftToRightFrom(body, q[1..], 0, q[0].end);
      LeftToRightUnique(body, p[1..], q[1..]);
      assert p == [p[0]] + p[1..] && q == [q[0]] + q[1..];
    }
  }

  lemma FirstIsLeftmost<T>(body: seq<T>, p: seq<Edit<T>>, e: Edit<T>)
    requires LeftToRight(body, p, 0) && e in multiset(p)
    ensures p != [] && (p[0] == e || p[0].start < e.start)
  {
    var i :| 0 <= i < |p| && p[i] == e;
    if i > 0 { assert Precedes(p[0], p[i]); }
  }

  lemma NextEdit<T>(body: seq<T>, order: seq<Edit<T>>, k: nat)
    requires LeftToRight(body, order, 0) && 0 < k <= |order|
    ensures LeftToRight(body, order[k..], 0) && LeftToRight(body, order[k - 1..], 0)
    ensures var done, e := Substitute(body, order[k..], 0), order[k - 1];
            e.start <= e.end <= |done|
            && Substitute(body, order[k - 1..], 0) == done[..e.start] + e.text + done[e.end..]
  {
    SuffixLeftToRight(body, order, k);
    SuffixLeftToRight(body, order, k - 1);
    assert order[k - 1..][1..] == order[k..];
    SubstituteStep(body, order[k - 1..]);
  }

  /** One edit in place, skipped if its span does not fit. */
  function OneEdit<T>(body: seq<T>, e: Edit<T>): seq<T>
  {
    if e.start <= e.end && e.end <= |body| then body[..e.start] + e.text + body[e.end..] else body
  }

  function InTurn<T>(body: seq<T>, edits: seq<Edit<T>>): seq<T>
  {
    if edits == [] then body else OneEdit(InTurn(body, edits[..|edits| - 1]), edits[|edits| - 1])
  }

  /** From right to left, the edits of disjoint spans are simultaneous. */
  lemma {:induction false} DisjointInTurn<T(!new)>(body: seq<T>, sorted: seq<Edit<T>>, n: nat)
    requires Descending(sorted) && Disjoint(body, multiset(sorted)) && n <= |sorted|
    ensures var order := Reverse(sorted);
      LeftToRight(body, order, 0) && LeftToRight(body, order[|order| - n..], 0)
      && InTurn(body, sorted[..n]) == Substitute(body, order[|order| - n..], 0)
    decreases n
  {
    hide Substitute, LeftToRight, Disjoint, Descending;
    var order := Reverse(sorted);
    DescendingDisjoint(body, sorted);
    SuffixLeftToRight(body, order, |order| - n);
    if n == 0 {
      NoEdits(body);
      assert order[|order|..] == [];
    } else {
      DisjointInTurn(body, sorted, n - 1);
      assert sorted[..n][..n - 1] == sorted[..n - 1];
      NextEdit(body, order, |order| - (n - 1));
    }
  }

  lemma NoEdits<T>(body: seq<T>)
    ensures LeftToRight(body, [], 0) && Substitute(body, [], 0) == body
  {
  }

  /** Applies the edits in place from right to left; for disjoint spans that is simultaneous substitution. */
  method ApplyRevisions<T(!new)>(body: seq<T>, edits: seq<Edit<T>>) returns (out: seq<T>, ghost sorted: seq<Edit<T>>)
    ensures multiset(sorted) == multiset(edits) && Descending(sorted) && Stable(sorted, edits)
    ensures out == InTurn(body, sorted)
    ensures Disjoint(body, multiset(edits)) ==>
      LeftToRight(body, Reverse(sorted), 0) && out == Substitute(body, Reverse(sorted), 0)
  {
    hide Substitute, LeftToRight, Disjoint, Descending, Stable;
    var falling := SortDescending(edits);
    sorted := falling;
    out := body;
    for n := 0 to |falling|
      invariant out == InTurn(body, falling[..n])
    {
      assert falling[..n + 1][..n] == falling[..n];
      var e := falling[n];
      if e.start <= e.end && e.end <= |out| {
        out := out[..e.start] + e.text + out[e.end..];
      }
    }
    assert falling[..|falling|] == falling && Reverse(falling)[0..] == Reverse(falling);
    if Disjoint(body, multiset(edits)) { DisjointInTurn(body, falling, |falling|); }
  }

  /**
   * A span revised twice is not revised twice: the text that comes second in the input takes the place of the first
   * bytes of the other one, as many as the span had, and the rest of that one stays behind it.
   */
  lemma SpanRevisedTwice<T>(
      a: seq<T>, span: seq<T>, b: seq<T>, first: seq<T>, second: seq<T>, sorted: seq<Edit<T>>)
    requires |span| <= |first| && Descending(sorted)
    requires Stable(sorted, [Edit(|a|, |a| + |span|, first), Edit(|a|, |a| + |span|, second)])
    ensures InTurn(a + span + b, sorted) == a + second + first[|span|..] + b
  {
    hide InTurn, OneEdit, Stable;
    var n := |span|;
    StableSortUnique(sorted, [Edit(|a|, |a| + n, first), Edit(|a|, |a| + n, second)]);
    TwoInTurn(a + span + b, Edit(|a|, |a| + n, first), Edit(|a|, |a| + n, second));
    EditOf(a, span, b, n, first);
    EditOf(a, first, b, n, second);
    assert span[n..] + b == b;
    assert a + second + (first[n..] + b) == a + second + first[n..] + b;
  }

  lemma EditOf<T>(a: seq<T>, mid: seq<T>, c: seq<T>, n: nat, text: seq<T>)
    requires n <= |mid|
    ensures OneEdit(a + mid + c, Edit(|a|, |a| + n, text)) == a + text + (mid[n..] + c)
  {
    Overwritten(a, mid, c, n);
  }

  lemma TwoInTurn<T>(body: seq<T>, e: Edit<T>, f: Edit<T>)
    ensures InTurn(body, [e, f]) == OneEdit(OneEdit(body, e), f)
  {
    hide OneEdit;
    assert [e, f][..1] == [e] && [e][..0] == [];
    assert InTurn(body, [e]) == OneEdit(body, e);
  }

  lemma Overwritten<T>(a: seq<T>, b: seq<T>, c: seq<T>, n: nat)
    requires n <= |b|
    ensures (a + b + c)[..|a|] == a && (a + b + c)[|a| + n..] == b[n..] + c
  {
  }

  lemma SuffixLeftToRight<T>(body: seq<T>, edits: seq<Edit<T>>, k: nat)
    requires LeftToRight(body, edits, 0) && k <= |edits|
    ensures LeftToRight(body, edits[k..], 0)
  {
    forall i, j | 0 <= i < j < |edits[k..]| ensures Precedes(edits[k..][i], edits[k..][j]) {
      assert Precedes(edits[k + i], edits[k + j]);
    }
  }

  /** How far text at or after `at` moves. */
  function Shift<T>(edits: seq<Edit<T>>, at: nat): int
  {
    if edits == [] then 0
    else
      (if edits[0].end <= at then |edits[0].text| - (edits[0].end - edits[0].start) else 0) + Shift(edits[1..], at)
  }

  lemma {:induction false} NoShift<T>(body: seq<T>, edits: seq<Edit<T>>, at: nat)
    requires LeftToRight(body, edits, at + 1)
    ensures Shift(edits, at) == 0
  {
    if edits != [] {
      TailLeftToRight(body, edits, at + 1);
      assert Fits(body, edits[0], at + 1);
      LeftToRightFrom(body, edits[1..], at + 1, edits[0].end);
      NoShift(body, edits[1..], at);
    }
  }

  /** A byte outside every span is in the result, moved by what the spans before it gained. */
  lemma {:induction false} OutsideUnchanged<T>(body: seq<T>, edits: seq<Edit<T>>, from: nat, at: nat)
    requires LeftToRight(body, edits, from) && from <= at < |body|
    requires forall i | 0 <= i < |edits| :: at < edits[i].start || edits[i].end <= at
    ensures 0 <= at - from + Shift(edits, at) < |Substitute(body, edits, from)|
    ensures Substitute(body, edits, from)[at - from + Shift(edits, at)] == body[at]
  {
    if edits != [] {
      var e := edits[0];
      TailLeftToRight(body, edits, from);
      assert Fits(body, e, from);
      var rest := Substitute(body, edits[1..], e.end);
      if e.end <= at {
        OutsideUnchanged(body, edits[1..], e.end, at);
        assert Substitute(body, edits, from) == (body[from..e.start] + e.text) + rest;
      } else {
        LeftToRightFrom(body, edits[1..], at + 1, e.end);
        NoShift(body, edits[1..], at);
        assert Substitute(body, edits, from) == body[from..e.start] + (e.text + rest);
      }
    }
  }

  /** The new text of every edit is in the result. */
  lemma {:induction false} NewTextIsThere<T>(body: seq<T>, edits: seq<Edit<T>>, from: nat, i: nat) returns (p: nat)
    requires LeftToRight(body, edits, from) && i < |edits|
    ensures p + |edits[i].text| <= |Substitute(body, edits, from)|
    ensures Substitute(body, edits, from)[p..p + |edits[i].text|] == edits[i].text
  {
    var e := edits[0];
    TailLeftToRight(body, edits, from);
    assert Fits(body, e, from);
    var before := body[from..e.start] + e.text;
    var rest := Substitute(body, edits[1..], e.end);
    if i == 0 {
      p := e.start - from;
    } else {
      var q := NewTextIsThere(body, edits[1..], e.end, i - 1);
      p := |before| + q;
      assert (before + rest)[p..p + |edits[i].text|] == rest[q..q + |edits[i].text|];
    }
  }
}
