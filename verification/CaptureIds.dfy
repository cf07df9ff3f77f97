/**
 * What a capture id tells apart. The id is a truncated digest of the project, the harness, the session and the
 * transcript, with NUL bytes between them.
 */
module CaptureIds {
  import opened CaptureModel
  import opened CaptureRuns
  import opened CaptureSafety

  /** What the id needs of an encoding of text: it loses nothing and writes a NUL byte for NUL alone. */
  ghost predicate Encodes(utf8: string -> Bytes)
  {
    && (forall a, b :: utf8(a) == utf8(b) ==> a == b)
    && (forall a :: 0 in utf8(a) <==> '\0' in a)
  }

  /** Text put together is encoded piece by piece. */
  ghost predicate EncodesPieces(utf8: string -> Bytes)
  {
    utf8("\0") == [0] && forall a, b :: utf8(a + b) == utf8(a) + utf8(b)
  }

  /** What is digested for one capture of one project. */
  datatype Source = Source(project: string, harness: string, session: string, transcript: Bytes)

  predicate NoNul(c: Source)
  {
    '\0' !in c.project && '\0' !in c.harness && '\0' !in c.session
  }

  function Message(env: Identity, c: Source): Bytes
  {
    IdMessage(env.(project := c.project), c.harness, c.session, c.transcript)
  }

  lemma FirstNul(a: Bytes, rest: Bytes, k: nat)
    requires 0 !in a && k <= |a| + |rest| && (a + [0] + rest)[k] == 0
    ensures |a| <= k
  {
    assert forall i | 0 <= i < |a| :: (a + [0] + rest)[i] == a[i] && a[i] in a;
  }

  /** A NUL byte ends the part before it when neither part has another. */
  lemma PartsEqual(a: Bytes, rest: Bytes, b: Bytes, other: Bytes)
    requires 0 !in a && 0 !in b && a + [0] + rest == b + [0] + other
    ensures a == b && rest == other
  {
    var s, t := a + [0] + rest, b + [0] + other;
    assert |s| == |a| + 1 + |rest| && |t| == |b| + 1 + |other|;
    FirstNul(a, rest, |b|);
    FirstNul(b, other, |a|);
    assert a == s[..|a|] && b == t[..|b|];
    assert rest == s[|a| + 1..] && other == t[|b| + 1..];
  }

  lemma SameAfter(front: Bytes, a: Bytes, b: Bytes)
    requires front + a == front + b
    ensures a == b
  {
    assert a == (front + a)[|front|..] && b == (front + b)[|front|..];
  }

  /** Without NUL in the names, the digested bytes differ as soon as one of the four does. */
  lemma MessagesTellApart(env: Identity, c: Source, d: Source)
    requires Encodes(env.utf8) && NoNul(c) && NoNul(d)
    ensures Message(env, c) == Message(env, d) <==> c == d
  {
    if Message(env, c) == Message(env, d) {
      var utf8 := env.utf8;
      var afterHarness, afterHarness' := utf8(c.session) + [0] + c.transcript, utf8(d.session) + [0] + d.transcript;
      var afterProject, afterProject' := utf8(c.harness) + [0] + afterHarness, utf8(d.harness) + [0] + afterHarness';
      SameAfter(utf8(CAPTURE_ID_TAG) + [0], utf8(c.project) + [0] + afterProject, utf8(d.project) + [0] + afterProject');
      PartsEqual(utf8(c.project), afterProject, utf8(d.project), afterProject');
      PartsEqual(utf8(c.harness), afterHarness, utf8(d.harness), afterHarness');
      PartsEqual(utf8(c.session), c.transcript, utf8(d.session), d.transcript);
    }
  }

  /** So two captures share an id exactly if they are the same one or the digests of two texts agree in 32 digits. */
  lemma SameIdMeans(env: Identity, root: Path, c: Source, root': Path, d: Source)
    requires Encodes(env.utf8) && NoNul(c) && NoNul(d)
    ensures
      var r := MakeRequest(env.(project := c.project), root, c.harness, c.session, c.transcript);
      var q := MakeRequest(env.(project := d.project), root', d.harness, d.session, d.transcript);
      r.id == q.id <==>
        c == d || (Message(env, c) != Message(env, d)
                   && Truncated(env.sha(Message(env, c))) == Truncated(env.sha(Message(env, d))))
  {
    hide IdMessage;
    MessagesTellApart(env, c, d);
  }

  /** With a NUL in a name two captures always share one: the parts can be cut elsewhere. */
  lemma NulMergesIds(env: Identity, root: Path, a: string, b: string, c: string, transcript: Bytes)
    requires EncodesPieces(env.utf8)
    ensures MakeRequest(env, root, a + "\0" + b, c, transcript).id == MakeRequest(env, root, a, b + "\0" + c, transcript).id
  {
    var utf8 := env.utf8;
    assert utf8(a + "\0" + b) == utf8(a + "\0") + utf8(b) == utf8(a) + [0] + utf8(b);
    assert utf8(b + "\0" + c) == utf8(b + "\0") + utf8(c) == utf8(b) + [0] + utf8(c);
    var rest := utf8(c) + [0] + transcript;
    assert utf8(a + "\0" + b) + [0] + rest == utf8(a) + [0] + (utf8(b + "\0" + c) + [0] + transcript);
  }

  /** So what `EnqueuedIsNeverLost` makes an exception for is nothing but such an agreement of two digests. */
  lemma ClashIsACollision(env: Identity, enabled: bool, s: Machine, r: Request, q: Request) returns (c: Source, d: Source)
    requires WellFormed(env) && Reachable(env, enabled, s) && r in s.enqueued && q in s.enqueued && Clash(r, q)
    ensures c == Source(env.project, r.harness, r.session, c.transcript)
    ensures d == Source(env.project, q.harness, q.session, d.transcript)
    ensures r == MakeRequest(env, r.root, r.harness, r.session, c.transcript)
    ensures q == MakeRequest(env, q.root, q.harness, q.session, d.transcript)
    ensures c != d && Truncated(env.sha(Message(env, c))) == Truncated(env.sha(Message(env, d)))
    ensures Encodes(env.utf8) && NoNul(c) && NoNul(d) ==> Message(env, c) != Message(env, d)
  {
    hide DiskOk, PcOk, IdMessage;
    ReachableInv(env, enabled, s);
    assert Made(env, r) && Made(env, q);
    var t :| r == MakeRequest(env, r.root, r.harness, r.session, t);
    var u :| q == MakeRequest(env, q.root, q.harness, q.session, u);
    c, d := Source(env.project, r.harness, r.session, t), Source(env.project, q.harness, q.session, u);
    if Encodes(env.utf8) && NoNul(c) && NoNul(d) { MessagesTellApart(env, c, d); }
  }
}
