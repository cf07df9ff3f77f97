/** Safety of every run of the capture store: what each step keeps, and what follows for whole runs. */
module CaptureSafety {
  import opened Prelude
  import opened Strings
  import opened CaptureModel
  import opened CaptureRuns

  /** Nothing durable is taken back: files only gain entries, the history only gains commits. */
  ghost predicate Grows(before: Disk, after: Disk)
  {
    TreeExtends(before.files, after.files) && before.history <= after.history
  }

  /** Objects added and requests enqueued do not disturb the manifests on disk. */
  lemma ManifestsKeep(env: Identity, s: Machine, t: Machine)
    requires DiskOk(env, s)
    requires t.disk.files.manifests == s.disk.files.manifests && t.disk.history == s.disk.history
    requires Extends(s.disk.files.objects, t.disk.files.objects) && s.enqueued <= t.enqueued
    ensures forall id | id in t.disk.files.manifests :: ManifestOk(env, t, id)
  {
    forall id | id in t.disk.files.manifests ensures ManifestOk(env, t, id) {
      assert ManifestOk(env, s, id);
    }
  }

  /** Only the lock holder depends on the files, the index and the history. */
  lemma OthersKeep(env: Identity, s: Machine, t: Machine, w: nat)
    requires forall v | 0 <= v < |s.workers| :: PcOk(env, s, v)
    requires w < |s.workers| && s.lock == Some(w) && t.lock == s.lock
    requires |t.workers| == |s.workers| && forall v | 0 <= v < |s.workers| && v != w :: t.workers[v] == s.workers[v]
    requires s.enqueued <= t.enqueued && PcOk(env, t, w)
    ensures forall v | 0 <= v < |t.workers| :: PcOk(env, t, v)
  {
    forall v | 0 <= v < |t.workers| ensures PcOk(env, t, v) {
      if v != w { assert PcOk(env, s, v); }
    }
  }

  lemma EnqueueKeeps(env: Identity, s: Machine, r: Request, transcript: Bytes, t: Machine)
    requires Inv(env, s) && BelongsTo(env, r)
    requires r == MakeRequest(env, r.root, r.harness, r.session, transcript)
    requires AddEntry(s.disk, InboxEntry(r, transcript)).Some?
    requires t == s.(disk := AddEntry(s.disk, InboxEntry(r, transcript)).value, enqueued := s.enqueued + {r})
    ensures Inv(env, t) && Grows(s.disk, t.disk)
    ensures NotLost(s) ==> NotLost(t)
  {
    hide CommitOf, ManifestOk, HistoryOk, ValidPath, Integrity, ObjectOk, RequestsOk, NotLost, MakeRequest, AddEntry, BelongsTo;
    EntryIsAdded(s.disk, InboxEntry(r, transcript));
    EnqueueKeepsRequests(env, s, r, transcript, t);
    ManifestsKeep(env, s, t);
    forall w | 0 <= w < |t.workers| ensures PcOk(env, t, w) {
      assert PcOk(env, s, w);
    }
  }

  lemma EntryIsAdded(d: Disk, entry: InboxEntry)
    requires AddEntry(d, entry).Some?
    ensures var e := AddEntry(d, entry).value; e == d.(inbox := d.inbox[entry.request.id := entry])
  {
  }

  lemma EnqueueKeepsRequests(env: Identity, s: Machine, r: Request, transcript: Bytes, t: Machine)
    requires RequestsOk(env, s) && BelongsTo(env, r)
    requires r == MakeRequest(env, r.root, r.harness, r.session, transcript)
    requires AddEntry(s.disk, InboxEntry(r, transcript)).Some?
    requires t == s.(disk := AddEntry(s.disk, InboxEntry(r, transcript)).value, enqueued := s.enqueued + {r})
    ensures RequestsOk(env, t)
    ensures NotLost(s) ==> NotLost(t)
  {
    hide CommitOf, StableId;
    assert Made(env, r);
    assert r.transcriptHash == env.sha(transcript);
    hide MakeRequest;
  }

  lemma EditKeeps(env: Identity, s: Machine, workspace: map<Path, Bytes>, t: Machine)
    requires Inv(env, s) && RealPaths(workspace) && t == s.(disk := s.disk.(workspace := workspace))
    ensures Inv(env, t) && Grows(s.disk, t.disk)
    ensures NotLost(s) ==> NotLost(t)
  {
    hide CommitOf, ManifestOk, HistoryOk, ValidPath, Integrity, ObjectOk;
    ManifestsKeep(env, s, t);
    forall w | 0 <= w < |t.workers| ensures PcOk(env, t, w) {
      assert PcOk(env, s, w);
    }
  }

  /** A step that moves one worker and touches nothing but the inbox and, when it may, the lock. */
  lemma QuietKeeps(env: Identity, s: Machine, w: nat, t: Machine)
    requires Inv(env, s) && w < |s.workers| && |t.workers| == |s.workers|
    requires t == s.(disk := t.disk, lock := t.lock, workers := s.workers[w := t.workers[w]])
    requires t.disk == s.disk.(inbox := t.disk.inbox) && t.disk.inbox.Keys <= s.disk.inbox.Keys
    requires forall id | id in t.disk.inbox :: t.disk.inbox[id] == s.disk.inbox[id]
    requires forall id | id in s.disk.inbox && id !in t.disk.inbox :: CommitOf(s.disk.history, id).Some?
    requires t.lock == s.lock || (t.lock == Some(w) && s.lock.None?) || HasLock(s.workers[w])
    requires PcOk(env, t, w)
    ensures Inv(env, t) && Grows(s.disk, t.disk)
    ensures NotLost(s) ==> NotLost(t)
  {
    ManifestsKeep(env, s, t);
    assert PcOk(env, s, w);
    forall v | 0 <= v < |t.workers| ensures PcOk(env, t, v) {
      if v != w { assert PcOk(env, s, v); }
    }
  }

  /** With capturing disabled an entry is dropped without a commit; the invariant does not mind. */
  lemma DiscardKeeps(env: Identity, s: Machine, w: nat, t: Machine)
    requires Inv(env, s) && w < |s.workers| && s.workers[w].Queued?
    requires t == WithPc(s, w, Idle).(disk := DropEntry(s.disk, s.workers[w].request.id))
    ensures Inv(env, t) && Grows(s.disk, t.disk)
  {
    hide CommitOf, ManifestOk, HistoryOk, ValidPath, Integrity, ObjectOk;
    ManifestsKeep(env, s, t);
    forall v | 0 <= v < |t.workers| ensures PcOk(env, t, v) {
      assert PcOk(env, s, v);
    }
  }

  lemma BeginKeeps(env: Identity, s: Machine, w: nat, t: Machine)
    requires WellFormed(env) && Inv(env, s) && w < |s.workers| && s.workers[w].Holding?
    requires BeginStep(env, s, w) == Some(t)
    ensures Inv(env, t) && Grows(s.disk, t.disk)
    ensures NotLost(s) ==> NotLost(t)
  {
    hide Inv, PcOk, Grows, NotLost, Verified, CommitOf, Collected;
    BeginPcOk(env, s, w, t);
    QuietKeeps(env, s, w, t);
  }

  lemma BeginPcOk(env: Identity, s: Machine, w: nat, t: Machine)
    requires Inv(env, s) && w < |s.workers| && s.workers[w].Holding? && BeginStep(env, s, w) == Some(t)
    ensures PcOk(env, t, w)
  {
    hide ManifestOk, ValidPath, Integrity, CommitOf, Collected, RequestsOk;
    assert PcOk(env, s, w);
    CommitOfIsTrailer(s.disk.history, s.workers[w].request.id);
    CollectedValid(s.disk.workspace);
  }

  lemma CollectedValid(workspace: map<Path, Bytes>)
    requires RealPaths(workspace)
    ensures forall i | 0 <= i < |Collected(workspace)| :: ValidPath(Collected(workspace)[i].0)
  {
    var paths := Sorted(CanonicalFiles(workspace).Keys);
    forall i | 0 <= i < |paths| ensures ValidPath(paths[i]) { assert paths[i] in paths; }
  }

  lemma PutObjectStored(env: Identity, s: Machine, w: nat, t: Machine)
    requires w < |s.workers| && s.workers[w].Writing? && PutObjectStep(env, s, w) == Some(t)
    ensures var pc := s.workers[w];
      && pc.todo != []
      && var (path, bytes) := pc.todo[0];
         && Extends(s.disk.files.objects, t.disk.files.objects)
         && t.disk == s.disk.(files := s.disk.files.(objects := t.disk.files.objects))
         && t.disk.files.objects == s.disk.files.objects[env.sha(bytes) := bytes]
         && t == WithPc(s, w, pc.(todo := pc.todo[1..], done := pc.done[path := env.sha(bytes)])).(disk := t.disk)
  {
  }

  lemma PutObjectDisk(env: Identity, s: Machine, w: nat, t: Machine)
    requires Inv(env, s) && w < |s.workers| && s.workers[w].Writing? && PutObjectStep(env, s, w) == Some(t)
    ensures DiskOk(env, t)
  {
    hide PutObjectStep, ManifestOk, HistoryOk, Head, PcOk;
    PutObjectStored(env, s, w, t);
    ManifestsKeep(env, s, t);
  }

  lemma PutObjectPc(env: Identity, s: Machine, w: nat, t: Machine)
    requires WellFormed(env) && Inv(env, s) && w < |s.workers| && s.workers[w].Writing?
    requires PutObjectStep(env, s, w) == Some(t)
    ensures PcOk(env, t, w) && s.lock == Some(w)
  {
    hide PutObjectStep, DiskOk, Head;
    PutObjectStored(env, s, w, t);
    assert PcOk(env, s, w);
  }

  lemma PutObjectKeeps(env: Identity, s: Machine, w: nat, t: Machine)
    requires WellFormed(env) && Inv(env, s) && w < |s.workers| && s.workers[w].Writing?
    requires PutObjectStep(env, s, w) == Some(t)
    ensures Inv(env, t) && Grows(s.disk, t.disk)
    ensures NotLost(s) ==> NotLost(t)
  {
    hide CommitOf, DiskOk, Head, PutObjectStep, PcOk;
    PutObjectStored(env, s, w, t);
    PutObjectDisk(env, s, w, t);
    PutObjectPc(env, s, w, t);
    OthersKeep(env, s, t, w);
  }

  lemma OldManifestOk(env: Identity, s: Machine, added: CaptureId, id: CaptureId, t: Machine)
    requires id in s.disk.files.manifests && ManifestOk(env, s, id)
    requires t.disk.history == s.disk.history && t.disk.files.objects == s.disk.files.objects && s.enqueued <= t.enqueued
    requires added !in s.disk.files.manifests && added in t.disk.files.manifests
    requires t.disk.files.manifests == s.disk.files.manifests[added := t.disk.files.manifests[added]]
    ensures ManifestOk(env, t, id)
  {
    hide CommitOf, ValidPath, ObjectOk;
  }

  lemma PutManifestKeeps(env: Identity, s: Machine, w: nat, t: Machine)
    requires Inv(env, s) && w < |s.workers| && s.workers[w].Writing? && PutManifestStep(s, w) == Some(t)
    ensures Inv(env, t) && Grows(s.disk, t.disk)
    ensures NotLost(s) ==> NotLost(t)
  {
    hide CommitOf, ManifestOk, HistoryOk, ValidPath, Integrity, ObjectOk;
    assert PcOk(env, s, w);
    var r := s.workers[w].request;
    CommitOfIsTrailer(s.disk.history, r.id);
    NewManifestOk(env, s, r, s.workers[w].done, t);
    forall id | id in t.disk.files.manifests ensures ManifestOk(env, t, id) {
      if id != r.id { OldManifestOk(env, s, r.id, id, t); }
    }
    OthersKeep(env, s, t, w);
  }

  /** The manifest written for `r` is sound, because its parent is the newest capture committed. */
  lemma NewManifestOk(env: Identity, s: Machine, r: Request, files: map<Path, Hash>, t: Machine)
    requires DiskOk(env, s) && r in t.enqueued && BelongsTo(env, r) && r.id !in s.disk.files.manifests
    requires t.disk.files.objects == s.disk.files.objects && t.disk.history == s.disk.history
    requires t.disk.files.manifests ==
             s.disk.files.manifests[r.id := NewManifest(r, PreviousCapture(s.disk.history), files)]
    requires forall p | p in files :: ValidPath(p) && ObjectOk(env.sha, s.disk.files.objects, files[p])
    ensures ManifestOk(env, t, r.id)
  {
    var history := s.disk.history;
    var m := NewManifest(r, PreviousCapture(history), files);
    PreviousIsLast(history);
    CommitOfIsTrailer(history, r.id);
    if m.parent.Some? {
      CommitOfIsTrailer(history, m.parent.value);
      assert m.parent.value in s.disk.files.manifests;
      assert ManifestOk(env, s, m.parent.value);
    }
    assert Describes(m, r);
  }

  lemma StageKeeps(env: Identity, s: Machine, w: nat, t: Machine)
    requires Inv(env, s) && w < |s.workers|
    requires (s.workers[w].Staging? &&
              Advance(s, w, Some(AddObjects(s.disk)), ObjectsStaged(s.workers[w].request)) == Some(t))
      || (s.workers[w].ObjectsStaged? &&
          Advance(s, w, AddManifest(s.disk, s.workers[w].request.id), ManifestStaged(s.workers[w].request)) == Some(t))
    ensures Inv(env, t) && Grows(s.disk, t.disk)
    ensures NotLost(s) ==> NotLost(t)
  {
    hide CommitOf, ManifestOk, HistoryOk, ValidPath, Integrity, ObjectOk;
    assert PcOk(env, s, w);
    ManifestsKeep(env, s, t);
    assert TreeExtends(Head(t.disk.history), t.disk.index);
    OthersKeep(env, s, t, w);
  }

  lemma MakeCommitKeeps(env: Identity, s: Machine, w: nat, t: Machine)
    requires Inv(env, s) && w < |s.workers| && s.workers[w].ManifestStaged?
    requires Advance(s, w, CommitIndex(s.disk, s.workers[w].request.id), Recorded(s.workers[w].request)) == Some(t)
    ensures Inv(env, t) && Grows(s.disk, t.disk)
    ensures NotLost(s) ==> NotLost(t)
  {
    hide CommitOf, ManifestOk, HistoryOk, ValidPath, Integrity, ObjectOk;
    assert PcOk(env, s, w);
    var c := Commit(s.disk.index, Some(s.workers[w].request.id));
    assert AddsOneCapture(Head(s.disk.history), c);
    LaterCommitKeepsManifests(env, s, c, t);
    OthersKeep(env, s, t, w);
  }

  /** One more commit leaves every manifest with a parent committed before it. */
  lemma LaterCommitKeepsManifests(env: Identity, s: Machine, c: Commit, t: Machine)
    requires DiskOk(env, s) && AddsOneCapture(Head(s.disk.history), c)
    requires t.disk.history == s.disk.history + [c] && t.disk.files == s.disk.files && t.enqueued == s.enqueued
    ensures HistoryOk(t.disk.history)
    ensures forall id | id in t.disk.files.manifests :: ManifestOk(env, t, id)
    ensures forall id ::
      CommitOf(t.disk.history, id) == if c.trailer == Some(id) then Some(|s.disk.history|) else CommitOf(s.disk.history, id)
  {
    var history := s.disk.history;
    CommitOfAppend(history, c, c.trailer.value);
    forall id ensures CommitOf(history + [c], id) == if c.trailer == Some(id) then Some(|history|) else CommitOf(history, id) {
      CommitOfAppend(history, c, id);
    }
    CommitOfIsTrailer(history, c.trailer.value);
    forall id | id in t.disk.files.manifests ensures ManifestOk(env, t, id) {
      assert ManifestOk(env, s, id);
    }
  }

  lemma PassingStepKeeps(env: Identity, enabled: bool, s: Machine, a: Action, t: Machine)
    requires Inv(env, s)
    requires a.Load? || a.Keep? || a.Acquire? || a.FindCommitted? || a.Remove? || a.Stop?
    requires a.w < |s.workers| && WorkerStep(env, enabled, s, a) == Some(t)
    ensures Inv(env, t) && Grows(s.disk, t.disk)
    ensures NotLost(s) ==> NotLost(t)
  {
    assert PcOk(env, s, a.w);
    QuietKeeps(env, s, a.w, t);
  }

  lemma WorkerStepKeeps(env: Identity, enabled: bool, s: Machine, a: Action, t: Machine)
    requires WellFormed(env) && Inv(env, s) && !a.Enqueue? && !a.EditWorkspace? && a.w < |s.workers|
    requires WorkerStep(env, enabled, s, a) == Some(t)
    ensures Inv(env, t) && Grows(s.disk, t.disk)
    ensures enabled && NotLost(s) ==> NotLost(t)
  {
    assert PcOk(env, s, a.w);
    match a
    case Discard(w) => DiscardKeeps(env, s, w, t);
    case Begin(w) => BeginKeeps(env, s, w, t);
    case PutObject(w) => PutObjectKeeps(env, s, w, t);
    case PutManifest(w) => PutManifestKeeps(env, s, w, t);
    case StageObjects(w) => StageKeeps(env, s, w, t);
    case StageManifest(w) => StageKeeps(env, s, w, t);
    case MakeCommit(w) => MakeCommitKeeps(env, s, w, t);
    case _ => PassingStepKeeps(env, enabled, s, a, t);
  }

  lemma StepKeeps(env: Identity, enabled: bool, s: Machine, a: Action, t: Machine)
    requires WellFormed(env) && Inv(env, s) && Step(env, enabled, s, a) == Some(t)
    ensures Inv(env, t) && Grows(s.disk, t.disk)
    ensures enabled && NotLost(s) ==> NotLost(t)
  {
    match a
    case Enqueue(root, harness, session, transcript) =>
      EnqueueKeeps(env, s, MakeRequest(env, root, harness, session, transcript), transcript, t);
    case EditWorkspace(workspace) => EditKeeps(env, s, workspace, t);
    case _ => WorkerStepKeeps(env, enabled, s, a, t);
  }

  // ---- whole runs

  lemma {:induction false} RunKeeps(env: Identity, enabled: bool, s: Machine, actions: seq<Action>, t: Machine)
    requires WellFormed(env) && Inv(env, s) && Run(env, enabled, s, actions) == Some(t)
    ensures Inv(env, t) && Grows(s.disk, t.disk)
    ensures enabled && NotLost(s) ==> NotLost(t)
    decreases |actions|
  {
    if actions != [] {
      var next := Step(env, enabled, s, actions[0]).value;
      StepKeeps(env, enabled, s, actions[0], next);
      RunKeeps(env, enabled, next, actions[1..], t);
    }
  }

  ghost predicate Reachable(env: Identity, enabled: bool, s: Machine)
  {
    exists start, actions :: Initial(start) && Run(env, enabled, start, actions) == Some(s)
  }

  lemma ReachableInv(env: Identity, enabled: bool, s: Machine)
    requires WellFormed(env) && Reachable(env, enabled, s)
    ensures Inv(env, s)
    ensures enabled ==> NotLost(s)
  {
    var start, actions :| Initial(start) && Run(env, enabled, start, actions) == Some(s);
    assert forall w | 0 <= w < |start.workers| :: PcOk(env, start, w);
    RunKeeps(env, enabled, start, actions, s);
  }

  /** In no run does a capture get two commits, whoever crashes where. */
  lemma AtMostOneCommit(env: Identity, enabled: bool, s: Machine, j: nat, k: nat)
    requires WellFormed(env) && Reachable(env, enabled, s)
    requires j < |s.disk.history| && k < |s.disk.history|
    requires s.disk.history[j].trailer.Some? && s.disk.history[j].trailer == s.disk.history[k].trailer
    ensures j == k
  {
    ReachableInv(env, enabled, s);
    CommitOfIsTrailer(s.disk.history, s.disk.history[j].trailer.value);
  }

  /** Two captures of different sessions, harnesses or transcripts under one id. */
  predicate Clash(r: Request, q: Request)
  {
    r.id == q.id
    && (r.harness != q.harness || r.session != q.session || r.transcriptHash != q.transcriptHash)
  }

  /** Request `r` is committed: its own manifest is in the newest commit, and one commit is about it. */
  ghost predicate IsCommitted(d: Disk, r: Request)
  {
    && r.id in Head(d.history).manifests
    && (var m := Head(d.history).manifests[r.id];
        m.id == r.id && m.project == r.project && m.harness == r.harness && m.session == r.session
        && m.transcriptHash == r.transcriptHash)
    && exists k :: 0 <= k < |d.history| && d.history[k].trailer == Some(r.id)
  }

  /** Capture `r` waits in the inbox, fit to be loaded, or is committed, unless another one has taken its id. */
  ghost predicate Kept(env: Identity, s: Machine, r: Request)
  {
    || (Loadable(env, s.disk, r.id) && s.disk.inbox[r.id].request == r)
    || IsCommitted(s.disk, r)
    || exists q :: q in s.enqueued && Clash(r, q) && IsCommitted(s.disk, q)
  }

  /** While capturing is enabled, no run loses an enqueued capture. */
  lemma EnqueuedIsNeverLost(env: Identity, s: Machine, r: Request)
    requires WellFormed(env) && Reachable(env, true, s) && r in s.enqueued
    ensures Kept(env, s, r)
  {
    hide PcOk, CommitOf, HistoryOk;
    ReachableInv(env, true, s);
    if !(r.id in s.disk.inbox && s.disk.inbox[r.id].request == r) {
      CommitOfIsTrailer(s.disk.history, r.id);
      assert s.disk.history[CommitOf(s.disk.history, r.id).value].trailer == Some(r.id);
      assert r.id in s.disk.files.manifests && ManifestOk(env, s, r.id);
      var q :| q in s.enqueued && Describes(s.disk.files.manifests[r.id], q);
      assert q.project == r.project;
      assert IsCommitted(s.disk, q);
    }
  }

  /** No worker ever refuses an inbox entry: each is complete, of this project, and its transcript has its checksum. */
  lemma InboxIsLoadable(env: Identity, enabled: bool, s: Machine, id: CaptureId)
    requires WellFormed(env) && Reachable(env, enabled, s) && id in s.disk.inbox
    ensures Loadable(env, s.disk, id)
  {
    hide DiskOk, PcOk;
    ReachableInv(env, enabled, s);
  }

  /** Committed bytes are never rewritten: not in the work tree, and not in later commits. */
  lemma CommittedNeverChanges(env: Identity, enabled: bool, s: Machine, actions: seq<Action>, t: Machine, k: nat)
    requires WellFormed(env) && Reachable(env, enabled, s) && Run(env, enabled, s, actions) == Some(t)
    requires k < |s.disk.history|
    ensures s.disk.history <= t.disk.history
    ensures TreeExtends(s.disk.history[k].tree, Head(t.disk.history))
    ensures TreeExtends(s.disk.history[k].tree, t.disk.files)
    ensures TreeExtends(s.disk.files, t.disk.files)
  {
    ReachableInv(env, enabled, s);
    RunKeeps(env, enabled, s, actions, t);
    TreesGrow(t.disk.history, k);
    assert t.disk.history[k] == s.disk.history[k];
  }

  lemma {:induction false} TreesGrow(history: seq<Commit>, k: nat)
    requires HistoryOk(history) && k < |history|
    ensures TreeExtends(history[k].tree, Head(history))
    decreases |history| - k
  {
    if k < |history| - 1 {
      assert AddsOneCapture(history[k].tree, history[k + 1]);
      TreesGrow(history, k + 1);
    }
  }

  // ---- the parent graph

  /** Where a manifest stands: its commit, or after all commits while it has none. */
  ghost function Rank(d: Disk, id: CaptureId): nat
  {
    var k := CommitOf(d.history, id);
    if k.Some? then k.value else |d.history|
  }

  lemma {:induction false} AncestorsRankLower(env: Identity, s: Machine, id: CaptureId, n: nat)
    requires DiskOk(env, s) && id in s.disk.files.manifests && n > 0
    ensures var a := Ancestor(ParentsOf(s.disk.files.manifests), id, n);
      a.Some? ==> a.value in s.disk.files.manifests && Rank(s.disk, a.value) < Rank(s.disk, id)
    decreases n
  {
    var parents := ParentsOf(s.disk.files.manifests);
    assert ManifestOk(env, s, id);
    if parents[id].Some? && n > 1 {
      AncestorsRankLower(env, s, parents[id].value, n - 1);
    } else if parents[id].Some? {
      assert Ancestor(parents, parents[id].value, 0) == parents[id];
    }
  }

  /** Parents form no cycle, in any reachable state and including manifests a crash left uncommitted. */
  lemma ParentsAreAcyclic(env: Identity, enabled: bool, s: Machine)
    requires WellFormed(env) && Reachable(env, enabled, s)
    ensures Acyclic(ParentsOf(s.disk.files.manifests))
  {
    ReachableInv(env, enabled, s);
    forall id, n: nat | id in s.disk.files.manifests && n > 0
      ensures Ancestor(ParentsOf(s.disk.files.manifests), id, n) != Some(id)
    {
      AncestorsRankLower(env, s, id, n);
    }
  }

  /** In a reachable state verification refuses exactly the stores with staged files. */
  lemma VerifiedUnlessStaged(env: Identity, enabled: bool, s: Machine)
    requires WellFormed(env) && Reachable(env, enabled, s)
    ensures Verified(env, s.disk) <==> s.disk.index == Head(s.disk.history)
  {
    ReachableInv(env, enabled, s);
    ParentsAreAcyclic(env, enabled, s);
    var history := s.disk.history;
    forall k | 0 < k < |history| ensures TreeExtends(history[k - 1].tree, history[k].tree) {
      assert AddsOneCapture(history[k - 1].tree, history[k]);
    }
    forall h | h in s.disk.files.objects ensures |h| == 64 {
      assert ValidHash(env.sha(s.disk.files.objects[h]));
    }
    forall id | id in s.disk.files.manifests
      ensures Integrity(env, s.disk.files, id, s.disk.files.manifests[id])
    {
      assert ManifestOk(env, s, id);
    }
  }
}
