/**
 * The commit transaction and materialization as functions of the disk, what they promise, and why
 * an uninterrupted transaction is one of the runs of `CaptureRuns`.
 */
module CaptureCommit {
  import opened Prelude
  import opened Strings
  import opened CaptureModel
  import opened CaptureRuns
  import opened CaptureSafety

  /** Writes the objects of a snapshot in order, stopping at the first that `create_only` refuses. */
  function PutObjects(sha: Bytes -> Hash, files: Tree, todo: seq<(Path, Bytes)>): (Tree, bool)
    decreases |todo|
  {
    if todo == [] then (files, true)
    else
      var next := CreateObject(files, sha(todo[0].1), todo[0].1);
      if next.None? then (files, false) else PutObjects(sha, next.value, todo[1..])
  }

  /** The manifest entries gathered while the objects of `todo` are written. */
  function Hashes(sha: Bytes -> Hash, done: map<Path, Hash>, todo: seq<(Path, Bytes)>): map<Path, Hash>
    decreases |todo|
  {
    if todo == [] then done else Hashes(sha, done[todo[0].0 := sha(todo[0].1)], todo[1..])
  }

  /** Staging and committing a manifest that is already on disk. */
  function Publish(d: Disk, id: CaptureId): (Disk, Option<Outcome>)
  {
    var objects := AddObjects(d);
    var staged := AddManifest(objects, id);
    if staged.None? then (objects, None)
    else
      var committed := CommitIndex(staged.value, id);
      if committed.None? then (staged.value, None)
      else (committed.value, Some(Committed(|d.history|)))
  }

  function WriteSnapshot(env: Identity, d: Disk, r: Request, todo: seq<(Path, Bytes)>): (Disk, Option<Outcome>)
  {
    var (files, ok) := PutObjects(env.sha, d.files, todo);
    var written := d.(files := files);
    var parent := PreviousCapture(d.history);
    var m := NewManifest(r, parent, Hashes(env.sha, map[], todo));
    if !ok || (parent.Some? && parent.value !in files.manifests) then (written, None)
    else Publish(written.(files := files.(manifests := files.manifests[r.id := m])), r.id)
  }

  /** `commit_workspace_capture_locked` run to its end; no outcome stands for an error. */
  ghost function CommitLocked(env: Identity, d: Disk, r: Request): (Disk, Option<Outcome>)
  {
    if !Verified(env, d) then (d, None)
    else if r.id !in d.files.manifests then WriteSnapshot(env, d, r, Collected(d.workspace))
    else if !Describes(d.files.manifests[r.id], r) then (d, None)
    else
      var oid := CommitOf(d.history, r.id);
      if oid.Some? then (d, Some(AlreadyCommitted(oid.value))) else Publish(d, r.id)
  }

  /** `latest_capture_manifest`: the first manifest listed by the newest commit touching captures. */
  ghost function LatestCapture(history: seq<Commit>): Option<CaptureId>
  {
    var touched := TouchedManifest(history);
    if touched.Some? && touched.value != {} then Some(Min(touched.value)) else None
  }

  /** The workspace that `materialize_latest` builds before it rebuilds the local index. */
  ghost function Materialized(env: Identity, d: Disk): Option<map<Path, Bytes>>
  {
    var latest := LatestCapture(d.history);
    if latest.None? then Some(d.workspace)
    else if latest.value !in d.files.manifests then None
    else
      var m := d.files.manifests[latest.value];
      if m.project != env.project || m.schema != SCHEMA_VERSION || !Integrity(env, d.files, m.id, m) then None
      else Some(map p | p in m.files :: d.files.objects[m.files[p]])
  }

  // ---- what the transaction does

  /** No digest of the snapshot names different bytes, among themselves or already on disk. */
  ghost predicate NoClash(sha: Bytes -> Hash, objects: map<Hash, Bytes>, todo: seq<(Path, Bytes)>)
  {
    && (forall i, j | 0 <= i < |todo| && 0 <= j < |todo| :: sha(todo[i].1) == sha(todo[j].1) ==> todo[i].1 == todo[j].1)
    && forall i | 0 <= i < |todo| :: sha(todo[i].1) in objects ==> objects[sha(todo[i].1)] == todo[i].1
  }

  lemma NoClashStep(sha: Bytes -> Hash, objects: map<Hash, Bytes>, todo: seq<(Path, Bytes)>)
    requires todo != [] && (sha(todo[0].1) in objects ==> objects[sha(todo[0].1)] == todo[0].1)
    ensures NoClash(sha, objects[sha(todo[0].1) := todo[0].1], todo[1..]) <==> NoClash(sha, objects, todo)
  {
    var rest := todo[1..];
    assert forall i | 0 < i < |todo| :: todo[i] == rest[i - 1];
    if NoClash(sha, objects[sha(todo[0].1) := todo[0].1], rest) {
      forall i | 0 <= i < |todo| ensures sha(todo[i].1) in objects ==> objects[sha(todo[i].1)] == todo[i].1 {
        if i > 0 { assert rest[i - 1] == todo[i]; }
      }
      forall i, j | 0 <= i < |todo| && 0 <= j < |todo| && sha(todo[i].1) == sha(todo[j].1)
        ensures todo[i].1 == todo[j].1
      {
        if i > 0 { assert rest[i - 1] == todo[i]; }
        if j > 0 { assert rest[j - 1] == todo[j]; }
      }
    }
  }

  lemma {:induction false} PutObjectsStores(sha: Bytes -> Hash, files: Tree, todo: seq<(Path, Bytes)>)
    ensures var (after, ok) := PutObjects(sha, files, todo);
      && (ok <==> NoClash(sha, files.objects, todo))
      && after.manifests == files.manifests && Extends(files.objects, after.objects)
      && (ok ==> forall i | 0 <= i < |todo| ::
            sha(todo[i].1) in after.objects && after.objects[sha(todo[i].1)] == todo[i].1)
      && ((forall h | h in files.objects :: sha(files.objects[h]) == h) ==>
            forall h | h in after.objects :: sha(after.objects[h]) == h)
    decreases |todo|
  {
    if todo != [] {
      var next := CreateObject(files, sha(todo[0].1), todo[0].1);
      if next.Some? {
        hide NoClash;
        var rest := todo[1..];
        assert next.value.objects == files.objects[sha(todo[0].1) := todo[0].1];
        PutObjectsStores(sha, next.value, rest);
        NoClashStep(sha, files.objects, todo);
        assert forall i | 0 < i < |todo| :: todo[i] == rest[i - 1];
        assert sha(todo[0].1) in next.value.objects;
      } else {
        assert todo[0] in todo;
      }
    }
  }

  lemma {:induction false} HashesOf(sha: Bytes -> Hash, done: map<Path, Hash>, todo: seq<(Path, Bytes)>)
    requires forall i, j | 0 <= i < j < |todo| :: todo[i].0 != todo[j].0
    ensures var hashes := Hashes(sha, done, todo);
      && (forall i | 0 <= i < |todo| :: todo[i].0 in hashes && hashes[todo[i].0] == sha(todo[i].1))
      && (forall p | p in hashes :: p in done || exists i :: 0 <= i < |todo| && todo[i].0 == p)
      && (forall p | p in done :: p in hashes)
      && (forall p | p in done && (forall i | 0 <= i < |todo| :: todo[i].0 != p) :: hashes[p] == done[p])
    decreases |todo|
  {
    if todo != [] {
      var next := done[todo[0].0 := sha(todo[0].1)];
      var rest := todo[1..];
      var hashes := Hashes(sha, done, todo);
      HashesOf(sha, next, rest);
      assert forall i | 0 < i < |todo| :: todo[i] == rest[i - 1];
      forall p | p in hashes && p !in done ensures exists i :: 0 <= i < |todo| && todo[i].0 == p {
        if p in next {
          assert todo[0].0 == p;
        } else {
          var i :| 0 <= i < |rest| && rest[i].0 == p;
          assert todo[i + 1].0 == p;
        }
      }
    }
  }

  /** `todo` lists exactly the entries of `files`, each path once. */
  ghost predicate Lists(todo: seq<(Path, Bytes)>, files: map<Path, Bytes>)
  {
    && (forall i | 0 <= i < |todo| :: todo[i].0 in files && todo[i].1 == files[todo[i].0])
    && (forall p | p in files :: exists i :: 0 <= i < |todo| && todo[i].0 == p)
    && (forall i, j | 0 <= i < j < |todo| :: todo[i].0 != todo[j].0)
  }

  lemma ListingLists(files: map<Path, Bytes>, paths: seq<Path>)
    requires forall p :: p in paths <==> p in files
    requires forall i, j | 0 <= i < j < |paths| :: paths[i] != paths[j]
    ensures Lists(Listing(files, paths), files)
  {
    var todo := Listing(files, paths);
    forall i | 0 <= i < |todo| ensures todo[i].0 in files { assert paths[i] in paths; }
    forall p | p in files ensures exists i :: 0 <= i < |todo| && todo[i].0 == p {
      assert p in paths;
      var i :| 0 <= i < |paths| && paths[i] == p;
      assert todo[i].0 == p;
    }
  }

  lemma CollectedLists(workspace: map<Path, Bytes>)
    ensures Lists(Collected(workspace), CanonicalFiles(workspace))
  {
    SortedDistinct(Sorted(CanonicalFiles(workspace).Keys));
    ListingLists(CanonicalFiles(workspace), Sorted(CanonicalFiles(workspace).Keys));
  }

  // ---- the promises

  /** Under `Inv` a capture that has a manifest and no commit can be published. */
  lemma PublishCommits(d: Disk, id: CaptureId)
    requires id in d.files.manifests && id !in Head(d.history).manifests
    requires d.index == Head(d.history)
    ensures var (after, outcome) := Publish(d, id);
      && outcome == Some(Committed(|d.history|))
      && after == d.(index := after.index, history := d.history + [Commit(after.index, Some(id))])
      && after.index == Tree(d.files.objects, Head(d.history).manifests[id := d.files.manifests[id]])
  {
  }

  /** A fresh snapshot commits exactly when no digest clashes, also when the workspace has no file. */
  lemma SnapshotOutcome(env: Identity, s: Machine, r: Request)
    requires Inv(env, s) && r.id !in s.disk.files.manifests
    requires s.disk.index == Head(s.disk.history)
    ensures var d := s.disk; var todo := Collected(d.workspace);
      var (after, outcome) := WriteSnapshot(env, d, r, todo);
      && (outcome.Some? <==> NoClash(env.sha, d.files.objects, todo))
      && (outcome.Some? ==> outcome == Some(Committed(|d.history|)))
  {
    var d := s.disk;
    var todo := Collected(d.workspace);
    PutObjectsStores(env.sha, d.files, todo);
    PreviousIsLast(d.history);
    var parent := PreviousCapture(d.history);
    if parent.Some? { CommitOfIsTrailer(d.history, parent.value); }
    var (files, ok) := PutObjects(env.sha, d.files, todo);
    if ok {
      var m := NewManifest(r, parent, Hashes(env.sha, map[], todo));
      var written := d.(files := files.(manifests := files.manifests[r.id := m]));
      PublishCommits(written, r.id);
    }
  }

  /** The digests of a stored snapshot lead back to its bytes. */
  ghost predicate Stored(sha: Bytes -> Hash, objects: map<Hash, Bytes>, hashes: map<Path, Hash>, files: map<Path, Bytes>)
  {
    hashes.Keys == files.Keys && forall p | p in files :: hashes[p] in objects && objects[hashes[p]] == files[p]
  }

  lemma SnapshotStored(sha: Bytes -> Hash, files: Tree, todo: seq<(Path, Bytes)>, snapshot: map<Path, Bytes>)
    requires Lists(todo, snapshot) && PutObjects(sha, files, todo).1
    ensures Stored(sha, PutObjects(sha, files, todo).0.objects, Hashes(sha, map[], todo), snapshot)
  {
    PutObjectsStores(sha, files, todo);
    HashesOf(sha, map[], todo);
    var hashes := Hashes(sha, map[], todo);
    assert hashes.Keys == snapshot.Keys by {
      forall p ensures p in hashes <==> p in snapshot {
        if p in hashes { var i :| 0 <= i < |todo| && todo[i].0 == p; }
      }
    }
    forall p | p in snapshot ensures
      var objects := PutObjects(sha, files, todo).0.objects;
      hashes[p] in objects && objects[hashes[p]] == snapshot[p]
    {
      var i :| 0 <= i < |todo| && todo[i].0 == p;
    }
  }

  lemma NewestIsLatest(history: seq<Commit>)
    requires HistoryOk(history)
    ensures LatestCapture(history) == history[|history| - 1].trailer
  {
    var n := |history|;
    if n > 1 {
      var before := Head(history[..n - 1]).manifests;
      assert AddsOneCapture(history[n - 2].tree, history[n - 1]);
      var id := history[n - 1].trailer.value;
      var after := Head(history).manifests;
      var touched := set x | x in before.Keys + after.Keys && !(x in before && x in after && before[x] == after[x]);
      assert touched == {id} by {
        assert id in touched;
      }
      assert Min({id}) == id;
    } else {
      assert history[..0] == [];
      assert TouchedManifest(history[..0]) == None;
    }
  }

  /** The manifest a snapshot of this disk gets. */
  ghost function SnapshotManifest(env: Identity, d: Disk, r: Request): Manifest
  {
    NewManifest(r, PreviousCapture(d.history), Hashes(env.sha, map[], Collected(d.workspace)))
  }

  /** A fresh commit adds one commit, with the snapshot's manifest and every object on disk. */
  lemma FreshCommit(env: Identity, s: Machine, r: Request)
    requires Inv(env, s) && r.id !in s.disk.files.manifests && s.disk.index == Head(s.disk.history)
    requires WriteSnapshot(env, s.disk, r, Collected(s.disk.workspace)).1.Some?
    ensures var d := s.disk; var m := SnapshotManifest(env, d, r);
      var after := WriteSnapshot(env, d, r, Collected(d.workspace)).0;
      && after.history == d.history + [Commit(after.index, Some(r.id))]
      && after.index == Tree(after.files.objects, Head(d.history).manifests[r.id := m])
      && after.files.manifests == d.files.manifests[r.id := m]
      && after.inbox == d.inbox && after.workspace == d.workspace
      && Extends(d.files.objects, after.files.objects)
      && m.schema == SCHEMA_VERSION && m.id == r.id && m.project == r.project && m.harness == r.harness
      && m.session == r.session && m.transcriptHash == r.transcriptHash
      && m.parent == d.history[|d.history| - 1].trailer
      && Stored(env.sha, after.files.objects, m.files, CanonicalFiles(d.workspace))
      && forall h | h in after.files.objects :: env.sha(after.files.objects[h]) == h
  {
    var d := s.disk;
    var todo := Collected(d.workspace);
    PutObjectsStores(env.sha, d.files, todo);
    var (files, ok) := PutObjects(env.sha, d.files, todo);
    assert ok;
    CollectedLists(d.workspace);
    SnapshotStored(env.sha, d.files, todo, CanonicalFiles(d.workspace));
    PreviousIsLast(d.history);
    var m := SnapshotManifest(env, d, r);
    PublishCommits(d.(files := files.(manifests := files.manifests[r.id := m])), r.id);
  }

  lemma SnapshotManifestOk(env: Identity, s: Machine, r: Request)
    requires WellFormed(env) && Inv(env, s) && BelongsTo(env, r) && r.id !in s.disk.files.manifests
    requires s.disk.index == Head(s.disk.history)
    requires WriteSnapshot(env, s.disk, r, Collected(s.disk.workspace)).1.Some?
    ensures Integrity(env, WriteSnapshot(env, s.disk, r, Collected(s.disk.workspace)).0.files, r.id,
                      SnapshotManifest(env, s.disk, r))
  {
    var d := s.disk;
    var m := SnapshotManifest(env, d, r);
    var after := WriteSnapshot(env, d, r, Collected(d.workspace)).0;
    FreshCommit(env, s, r);
    PreviousIsLast(d.history);
    if m.parent.Some? {
      CommitOfIsTrailer(d.history, m.parent.value);
      assert ManifestOk(env, s, m.parent.value);
    }
    var files := CanonicalFiles(d.workspace);
    forall p | p in m.files ensures ValidPath(p) && ObjectOk(env.sha, after.files.objects, m.files[p]) {
      assert p in files && after.files.objects[m.files[p]] == files[p];
      assert env.sha(after.files.objects[m.files[p]]) == m.files[p];
    }
  }

  /** What is materialized from any store, sound or not, is this project's newest capture, and each file has its digest. */
  lemma MaterializesOnlySound(env: Identity, d: Disk)
    requires LatestCapture(d.history).Some? && Materialized(env, d).Some?
    ensures var id, files := LatestCapture(d.history).value, Materialized(env, d).value;
      && id in d.files.manifests
      && var m := d.files.manifests[id];
         && m.project == env.project && m.schema == SCHEMA_VERSION && files.Keys == m.files.Keys
         && forall p | p in files :: ValidPath(p) && env.sha(files[p]) == m.files[p]
  {
    hide LatestCapture, ValidPath;
  }

  lemma MaterializesManifest(env: Identity, d: Disk, id: CaptureId, files: map<Path, Bytes>)
    requires LatestCapture(d.history) == Some(id) && id in d.files.manifests
    requires Integrity(env, d.files, id, d.files.manifests[id])
    requires Stored(env.sha, d.files.objects, d.files.manifests[id].files, files)
    ensures Materialized(env, d) == Some(files)
  {
    var m := d.files.manifests[id];
    assert (map p | p in m.files :: d.files.objects[m.files[p]]) == files;
  }

  /**
   * Round trip: what a fresh commit snapshots is what materializing gives back, byte for byte and
   * without the derived files. Nothing is assumed about collisions of the digest.
   */
  lemma MaterializeAfterCommit(env: Identity, enabled: bool, s: Machine, r: Request)
    requires WellFormed(env) && Reachable(env, enabled, s) && r in s.enqueued
    requires r.id !in s.disk.files.manifests && CommitLocked(env, s.disk, r).1.Some?
    ensures Materialized(env, CommitLocked(env, s.disk, r).0) == Some(CanonicalFiles(s.disk.workspace))
  {
    ReachableInv(env, enabled, s);
    var d := s.disk;
    var after := WriteSnapshot(env, d, r, Collected(d.workspace)).0;
    FreshCommit(env, s, r);
    SnapshotManifestOk(env, s, r);
    NextIsLatest(env, s, r.id, Commit(after.index, Some(r.id)));
    MaterializesManifest(env, after, r.id, CanonicalFiles(d.workspace));
  }

  lemma LatestStays(env: Identity, s: Machine, r: Request, u: Machine)
    requires WellFormed(env) && Inv(env, s) && Inv(env, u) && r.id !in s.disk.files.manifests
    requires s.disk.index == Head(s.disk.history)
    requires var (after, outcome) := WriteSnapshot(env, s.disk, r, Collected(s.disk.workspace));
      outcome.Some? && u.disk.history == after.history
    ensures Materialized(env, u.disk) == Some(CanonicalFiles(s.disk.workspace))
  {
    hide WriteSnapshot, Integrity, CanonicalFiles, Materialized, PcOk, RequestsOk, CommitOf, LatestCapture, HistoryOk;
    var d, m := s.disk, SnapshotManifest(env, s.disk, r);
    var after := WriteSnapshot(env, d, r, Collected(d.workspace)).0;
    FreshCommit(env, s, r);
    NextIsLatest(env, s, r.id, Commit(after.index, Some(r.id)));
    assert Head(u.disk.history) == after.index;
    assert u.disk.files.manifests[r.id] == m && ManifestOk(env, u, r.id);
    StoredStays(env.sha, after.files.objects, u.disk.files.objects, m.files, CanonicalFiles(d.workspace));
    MaterializesManifest(env, u.disk, r.id, CanonicalFiles(d.workspace));
  }

  lemma StoredStays(sha: Bytes -> Hash, objects: map<Hash, Bytes>, more: map<Hash, Bytes>, hashes: map<Path, Hash>,
                    files: map<Path, Bytes>)
    requires Stored(sha, objects, hashes, files) && Extends(objects, more)
    ensures Stored(sha, more, hashes, files)
  {
  }

  /**
   * And it gives them back in every reachable state with that history: whatever was written, edited, enqueued or left
   * by crashes since, as long as no other capture is committed.
   */
  lemma MaterializeUntilNextCommit(env: Identity, enabled: bool, s: Machine, r: Request, u: Machine)
    requires WellFormed(env) && Reachable(env, enabled, s) && Reachable(env, enabled, u) && r in s.enqueued
    requires r.id !in s.disk.files.manifests
    requires var (after, outcome) := CommitLocked(env, s.disk, r); outcome.Some? && u.disk.history == after.history
    ensures Materialized(env, u.disk) == Some(CanonicalFiles(s.disk.workspace))
  {
    hide WriteSnapshot, Materialized;
    ReachableInv(env, enabled, s);
    ReachableInv(env, enabled, u);
    VerifiedUnlessStaged(env, enabled, s);
    LatestStays(env, s, r, u);
  }

  lemma NextIsLatest(env: Identity, s: Machine, id: CaptureId, c: Commit)
    requires Inv(env, s) && c.trailer == Some(id) && id !in s.disk.files.manifests
    requires id in c.tree.manifests && Extends(s.disk.index.objects, c.tree.objects)
    requires s.disk.index == Head(s.disk.history)
    requires c.tree.manifests == Head(s.disk.history).manifests[id := c.tree.manifests[id]]
    ensures LatestCapture(s.disk.history + [c]) == Some(id)
  {
    assert AddsOneCapture(Head(s.disk.history), c);
    CommitOfAppend(s.disk.history, c, id);
    NewestIsLatest(s.disk.history + [c]);
  }

  /** Running the transaction again finds the first commit, whatever the workspace holds by then. */
  lemma RecommitFindsFirstCommit(env: Identity, enabled: bool, s: Machine, r: Request, workspace: map<Path, Bytes>, k: nat)
    requires WellFormed(env) && Reachable(env, enabled, s)
    requires s.disk.index == Head(s.disk.history)
    requires k < |s.disk.history| && s.disk.history[k].trailer == Some(r.id)
    ensures var d := s.disk.(workspace := workspace);
      && r.id in d.files.manifests
      && CommitLocked(env, d, r)
         == (d, if Describes(d.files.manifests[r.id], r) then Some(AlreadyCommitted(k)) else None)
  {
    var d := s.disk.(workspace := workspace);
    ReachableInv(env, enabled, s);
    VerifiedUnlessStaged(env, enabled, s);
    CommitOfIsTrailer(s.disk.history, r.id);
    assert Verified(env, d);
  }

  /**
   * Recovery: with nothing staged, the transaction ends in a commit exactly when its inputs allow it.
   * A manifest left by a crash is completed as it stands; a fresh snapshot needs clash-free digests.
   */
  lemma RecoveryCompletes(env: Identity, enabled: bool, s: Machine, r: Request)
    requires WellFormed(env) && Reachable(env, enabled, s) && r in s.enqueued
    requires s.disk.index == Head(s.disk.history) && CommitOf(s.disk.history, r.id).None?
    ensures var d := s.disk; var todo := Collected(d.workspace); var outcome := CommitLocked(env, d, r).1;
      && (outcome.Some? <==>
            if r.id in d.files.manifests then Describes(d.files.manifests[r.id], r)
            else NoClash(env.sha, d.files.objects, todo))
      && (outcome.Some? ==> outcome == Some(Committed(|d.history|)))
  {
    ReachableInv(env, enabled, s);
    VerifiedUnlessStaged(env, enabled, s);
    CommitOfIsTrailer(s.disk.history, r.id);
    if r.id in s.disk.files.manifests {
      PublishCommits(s.disk, r.id);
    } else {
      SnapshotOutcome(env, s, r);
    }
  }

  lemma OnlyOutcomesCommit(env: Identity, d: Disk, r: Request)
    ensures var (after, outcome) := CommitLocked(env, d, r);
      outcome.None? || outcome.value.AlreadyCommitted? ==> after.history == d.history
  {
    hide PutObjects, Hashes, Verified, Describes, CommitOf, Collected;
  }

  /**
   * What an outcome tells its caller: the capture is committed, as its own, at that place. A store where another
   * capture holds the id is refused and left as it was, and no failure adds a commit.
   */
  lemma OutcomeMeansCommitted(env: Identity, enabled: bool, s: Machine, r: Request)
    requires WellFormed(env) && Reachable(env, enabled, s) && r in s.enqueued
    ensures var (after, outcome) := CommitLocked(env, s.disk, r);
      && (outcome.None? || outcome.value.AlreadyCommitted? ==> after.history == s.disk.history)
      && (outcome.Some? ==>
            && IsCommitted(after, r)
            && outcome.value.oid < |after.history| && after.history[outcome.value.oid].trailer == Some(r.id))
      && (r.id in s.disk.files.manifests
          && (var m := s.disk.files.manifests[r.id];
              m.harness != r.harness || m.session != r.session || m.transcriptHash != r.transcriptHash)
          ==> outcome.None? && after == s.disk)
  {
    hide Inv, Verified, Reachable, WriteSnapshot, CommitOf;
    var d := s.disk;
    OnlyOutcomesCommit(env, d, r);
    ReachableInv(env, enabled, s);
    VerifiedUnlessStaged(env, enabled, s);
    InvHistory(env, s);
    CommitOfIsTrailer(d.history, r.id);
    var (after, outcome) := CommitLocked(env, d, r);
    if outcome.Some? && r.id !in d.files.manifests {
      SnapshotOutcome(env, s, r);
      FreshCommit(env, s, r);
      assert after.history[|d.history|].trailer == Some(r.id);
    } else if outcome.Some? && CommitOf(d.history, r.id).None? {
      PublishCommits(d, r.id);
      assert after.history[|d.history|].trailer == Some(r.id);
    }
  }

  lemma InvHistory(env: Identity, s: Machine)
    requires Inv(env, s)
    ensures HistoryOk(s.disk.history) && TreeExtends(Head(s.disk.history), s.disk.files)
  {
  }

  // ---- crashes after staging

  /** Something is staged and no transaction that staged it is alive. */
  ghost predicate StagedByTheDead(s: Machine)
  {
    && s.disk.index != Head(s.disk.history)
    && forall w | 0 <= w < |s.workers| :: var pc := s.workers[w];
         !pc.Writing? && !pc.Staging? && !pc.ObjectsStaged? && !pc.ManifestStaged?
  }

  lemma StagedStays(env: Identity, enabled: bool, s: Machine, a: Action, t: Machine)
    requires StagedByTheDead(s) && Step(env, enabled, s, a) == Some(t)
    ensures StagedByTheDead(t)
    ensures t.disk.history == s.disk.history && t.disk.files == s.disk.files && t.disk.index == s.disk.index
  {
    if a.Enqueue? || a.EditWorkspace? {
      assert t.workers == s.workers;
    } else {
      assert !a.Begin? && !a.PutObject? && !a.PutManifest? && !a.StageObjects? && !a.StageManifest? && !a.MakeCommit?;
      assert t.workers == s.workers[a.w := t.workers[a.w]];
    }
  }

  /** The cost of refusing staged files: a crash between `git add` and commit stops every later capture. */
  lemma {:induction false} StagedCrashBlocksForever(
      env: Identity, enabled: bool, s: Machine, actions: seq<Action>, t: Machine)
    requires StagedByTheDead(s) && Run(env, enabled, s, actions) == Some(t)
    ensures StagedByTheDead(t)
    ensures t.disk.history == s.disk.history && t.disk.files == s.disk.files && t.disk.index == s.disk.index
    decreases |actions|
  {
    if actions != [] {
      var next := Step(env, enabled, s, actions[0]).value;
      StagedStays(env, enabled, s, actions[0], next);
      StagedCrashBlocksForever(env, enabled, next, actions[1..], t);
    }
  }

  /**
   * What a crash of the lock holder leaves behind: a store blocked for good if the index differs from the head, and
   * else one that verifies. Before staging it verifies; between the two `git add` it is blocked exactly when the first
   * one added something; after the second one it is blocked.
   */
  lemma CrashLeaves(env: Identity, enabled: bool, s: Machine, w: nat, t: Machine)
    requires WellFormed(env) && Reachable(env, enabled, s)
    requires w < |s.workers| && HasLock(s.workers[w]) && Step(env, enabled, s, Stop(w)) == Some(t)
    ensures Verified(env, t.disk) || StagedByTheDead(t)
    ensures !(Verified(env, t.disk) && StagedByTheDead(t))
    ensures StagedByTheDead(t) <==> s.disk.index != Head(s.disk.history)
    ensures s.workers[w].Writing? || s.workers[w].Staging? ==> Verified(env, t.disk)
    ensures s.workers[w].ObjectsStaged? ==>
      (StagedByTheDead(t) <==> s.disk.index.objects != Head(s.disk.history).objects)
    ensures s.workers[w].ManifestStaged? ==> StagedByTheDead(t)
  {
    hide Verified, DiskOk, RequestsOk, Reachable, Head;
    ReachableInv(env, enabled, s);
    VerifiedUnlessStaged(env, enabled, s);
    assert PcOk(env, s, w);
    assert Verified(env, t.disk) <==> Verified(env, s.disk);
    forall v | 0 <= v < |t.workers| ensures v == w || !HasLock(t.workers[v]) {
      assert PcOk(env, s, v);
    }
    assert s.workers[w].ManifestStaged? ==> s.workers[w].request.id in t.disk.index.manifests;
  }

  /** Never losing a capture is a property of the runs in which capturing is enabled, and of no others. */
  lemma NeverLostIffEnabled(env: Identity, enabled: bool)
    requires WellFormed(env)
    ensures enabled <==> forall s, r | Reachable(env, enabled, s) && r in s.enqueued :: Kept(env, s, r)
  {
    hide Inv, Verified;
    if enabled {
      hide Kept, Reachable;
      forall s, r | Reachable(env, enabled, s) && r in s.enqueued ensures Kept(env, s, r) {
        EnqueuedIsNeverLost(env, s, r);
      }
    } else {
      var empty := Tree(map[], map[]);
      var start := Machine(Disk(map[], empty, empty, [Commit(empty, None)], map[]), None, [Idle], {});
      var r := MakeRequest(env, "", "", "", []);
      var queued := Step(env, false, start, Enqueue("", "", "", [])).value;
      var loaded := Step(env, false, queued, Load(0, r.id)).value;
      var lost := Step(env, false, loaded, Discard(0)).value;
      var actions := [Enqueue("", "", "", []), Load(0, r.id), Discard(0)];
      assert actions[1..] == [Load(0, r.id), Discard(0)] && actions[1..][1..] == [Discard(0)];
      assert actions[1..][1..][1..] == [];
      assert Run(env, false, lost, []) == Some(lost);
      assert Run(env, false, loaded, [Discard(0)]) == Some(lost);
      assert Run(env, false, queued, actions[1..]) == Some(lost);
      assert Initial(start) && Run(env, false, start, actions) == Some(lost);
      assert lost.enqueued == {r};
      assert r in lost.enqueued && !Kept(env, lost, r);
    }
  }

  // ---- the transaction is a run

  lemma {:induction false} RunConcat(env: Identity, enabled: bool, s: Machine, a: seq<Action>, b: seq<Action>)
    requires Run(env, enabled, s, a).Some?
    ensures Run(env, enabled, s, a + b) == Run(env, enabled, Run(env, enabled, s, a).value, b)
    decreases |a|
  {
    hide Run, Step;
    if a == [] {
      RunStep(env, enabled, s, a);
      assert a + b == b;
    } else {
      RunStep(env, enabled, s, a);
      RunStep(env, enabled, s, a + b);
      RunConcat(env, enabled, Step(env, enabled, s, a[0]).value, a[1..], b);
      assert (a + b)[0] == a[0] && (a + b)[1..] == a[1..] + b;
    }
  }

  lemma RunStep(env: Identity, enabled: bool, s: Machine, actions: seq<Action>)
    ensures Run(env, enabled, s, actions) ==
      if actions == [] then Some(s)
      else
        var t := Step(env, enabled, s, actions[0]);
        if t.None? then None else Run(env, enabled, t.value, actions[1..])
  {
    hide Step;
  }

  /** Worker `w` writes its remaining objects one step at a time, as far as `create_only` lets it. */
  lemma {:induction false} ObjectsRun(env: Identity, s: Machine, w: nat) returns (actions: seq<Action>, t: Machine)
    requires w < |s.workers| && s.workers[w].Writing?
    ensures Run(env, true, s, actions) == Some(t)
    ensures var pc := s.workers[w]; var (files, ok) := PutObjects(env.sha, s.disk.files, pc.todo);
      && t.disk == s.disk.(files := files) && |t.workers| == |s.workers|
      && (ok ==> t.workers[w] == Writing(pc.request, [], Hashes(env.sha, pc.done, pc.todo)))
    decreases |s.workers[w].todo|
  {
    var next := PutObjectStep(env, s, w);
    if next.None? {
      actions, t := [], s;
    } else {
      var rest, last := ObjectsRun(env, next.value, w);
      assert Step(env, true, s, PutObject(w)) == next;
      assert ([PutObject(w)] + rest)[1..] == rest;
      actions, t := [PutObject(w)] + rest, last;
    }
  }

  lemma RunThen(env: Identity, s: Machine, actions: seq<Action>, m: Machine, a: Action, t: Machine)
    requires Run(env, true, s, actions) == Some(m) && Step(env, true, m, a) == Some(t)
    ensures Run(env, true, s, actions + [a]) == Some(t)
  {
    RunConcat(env, true, s, actions, [a]);
    assert [a][1..] == [];
  }

  lemma PublishRun(env: Identity, s: Machine, w: nat) returns (actions: seq<Action>, t: Machine)
    requires w < |s.workers| && s.workers[w].Staging?
    ensures Run(env, true, s, actions) == Some(t)
    ensures t.disk == Publish(s.disk, s.workers[w].request.id).0 && |t.workers| == |s.workers|
    ensures Publish(s.disk, s.workers[w].request.id).1.Some? ==> t.workers[w] == Recorded(s.workers[w].request)
  {
    hide CommitOf, Head, Verified;
    actions, t := [], s;
    var first := Step(env, true, s, StageObjects(w));
    if first.Some? {
      RunThen(env, s, actions, t, StageObjects(w), first.value);
      actions, t := actions + [StageObjects(w)], first.value;
      var second := Step(env, true, t, StageManifest(w));
      if second.Some? {
        RunThen(env, s, actions, t, StageManifest(w), second.value);
        actions, t := actions + [StageManifest(w)], second.value;
        var third := Step(env, true, t, MakeCommit(w));
        if third.Some? {
          RunThen(env, s, actions, t, MakeCommit(w), third.value);
          actions, t := actions + [MakeCommit(w)], third.value;
        }
      }
    }
  }

  lemma SnapshotRun(env: Identity, s: Machine, w: nat) returns (actions: seq<Action>, t: Machine)
    requires w < |s.workers| && s.workers[w].Writing? && s.workers[w].done == map[]
    requires s.workers[w].request.id !in s.disk.files.manifests
    ensures Run(env, true, s, actions) == Some(t) && |t.workers| == |s.workers|
    ensures var pc := s.workers[w]; var (disk, outcome) := WriteSnapshot(env, s.disk, pc.request, pc.todo);
      t.disk == disk && (outcome.Some? ==> t.workers[w] == Recorded(pc.request))
  {
    hide PutObjects, Run, Publish, CommitOf, Head, Verified;
    var pc := s.workers[w];
    actions, t := ObjectsRun(env, s, w);
    PutObjectsStores(env.sha, s.disk.files, pc.todo);
    if PutObjects(env.sha, s.disk.files, pc.todo).1 {
      var next := Step(env, true, t, PutManifest(w));
      if next.Some? {
        RunThen(env, s, actions, t, PutManifest(w), next.value);
        actions := actions + [PutManifest(w)];
        var rest, last := PublishRun(env, next.value, w);
        RunConcat(env, true, s, actions, rest);
        actions, t := actions + rest, last;
      }
    }
  }

  /**
   * The transaction is a sequence of machine steps of the worker that runs it, so everything proved
   * of all runs, with a crash after any step, holds of it.
   */
  lemma TransactionIsARun(env: Identity, s: Machine, w: nat) returns (actions: seq<Action>, t: Machine)
    requires w < |s.workers| && s.workers[w].Holding?
    ensures Run(env, true, s, actions) == Some(t) && |t.workers| == |s.workers|
    ensures var r := s.workers[w].request; var (disk, outcome) := CommitLocked(env, s.disk, r);
      t.disk == disk && (outcome.Some? ==> t.workers[w] == Recorded(r))
  {
    hide Verified, CommitOf, Collected, Describes, WriteSnapshot, Publish;
    actions, t := [], s;
    var next := Step(env, true, s, Begin(w));
    if next.Some? {
      RunThen(env, s, [], s, Begin(w), next.value);
      actions, t := [Begin(w)], next.value;
      var rest, last := [], t;
      if t.workers[w].Writing? {
        rest, last := SnapshotRun(env, t, w);
      } else if t.workers[w].Staging? {
        rest, last := PublishRun(env, t, w);
      }
      RunConcat(env, true, s, actions, rest);
      actions, t := actions + rest, last;
    }
  }
}
