/** The project store as the object whose methods change it, proved against `CaptureCommit`. */
module CaptureStore {
  import opened Prelude
  import opened Strings
  import opened CaptureModel
  import opened CaptureRuns
  import opened CaptureCommit

  // ---- the cycle check

  lemma {:induction false} AncestorAdd(parents: Parents, id: CaptureId, a: nat, b: nat)
    ensures Ancestor(parents, id, a + b)
         == if Ancestor(parents, id, a).Some? then Ancestor(parents, Ancestor(parents, id, a).value, b) else None
    decreases a
  {
    if a > 0 && id in parents && parents[id].Some? {
      AncestorAdd(parents, parents[id].value, a - 1, b);
    }
  }

  /** Along a cycle the chain of ancestors never ends. */
  lemma {:induction false} CycleNeverEnds(parents: Parents, id: CaptureId, m: nat, n: nat)
    requires m > 0 && Ancestor(parents, id, m) == Some(id)
    ensures Ancestor(parents, id, n).Some?
    decreases n
  {
    if n < m {
      AncestorAdd(parents, id, n, m - n);
    } else {
      AncestorAdd(parents, id, m, n - m);
      CycleNeverEnds(parents, id, m, n - m);
    }
  }

  /** Meeting an ancestor twice proves a cycle. */
  lemma MeetingTwice(parents: Parents, start: CaptureId, k: nat, n: nat)
    requires k < n && Ancestor(parents, start, n).Some? && Ancestor(parents, start, k) == Ancestor(parents, start, n)
    ensures !Acyclic(parents)
  {
    var x := Ancestor(parents, start, n).value;
    AncestorAdd(parents, start, k, n - k);
    assert Ancestor(parents, x, n - k) == Some(x) && x in parents;
  }

  /** The walk of `verify_immutable_objects` from every manifest towards the root. */
  lemma NextAncestor(parents: Parents, start: CaptureId, n: nat, id: CaptureId)
    requires Ancestor(parents, start, n) == Some(id)
    ensures Ancestor(parents, start, n + 1) == if id in parents then parents[id] else None
  {
    AncestorAdd(parents, start, n, 1);
  }

  lemma OneLessUnseen(keys: set<CaptureId>, seen: set<CaptureId>, id: CaptureId)
    requires id !in seen
    ensures id in keys ==> |keys - (seen + {id})| + 1 == |keys - seen|
    ensures id !in keys ==> |keys - (seen + {id})| == |keys - seen|
  {
    assert id in keys ==> keys - seen == (keys - (seen + {id})) + {id};
    assert id !in keys ==> keys - seen == keys - (seen + {id});
  }

  /** Follows the parents of `start` until the chain ends or comes to an id it has seen. */
  method WalkParents(parents: Parents, start: CaptureId) returns (cycle: bool)
    requires start in parents
    ensures cycle ==> !Acyclic(parents)
    ensures !cycle ==> forall m: nat | m > 0 :: Ancestor(parents, start, m) != Some(start)
  {
    hide Acyclic;
    var seen := {};
    var current := Some(start);
    ghost var n: nat := 0;
    while current.Some?
      invariant current == Ancestor(parents, start, n)
      invariant forall x | x in seen :: exists k: nat :: k < n && Ancestor(parents, start, k) == Some(x)
      decreases |parents.Keys - seen| + if current.Some? then 1 else 0
    {
      var id := current.value;
      if id in seen {
        ghost var k: nat :| k < n && Ancestor(parents, start, k) == Some(id);
        MeetingTwice(parents, start, k, n);
        return true;
      }
      NextAncestor(parents, start, n, id);
      OneLessUnseen(parents.Keys, seen, id);
      seen := seen + {id};
      current := if id in parents then parents[id] else None;
      n := n + 1;
    }
    forall m: nat | m > 0 ensures Ancestor(parents, start, m) != Some(start) {
      if Ancestor(parents, start, m) == Some(start) { CycleNeverEnds(parents, start, m, n); }
    }
    cycle := false;
  }

  method NoParentCycle(parents: Parents) returns (ok: bool)
    ensures ok <==> Acyclic(parents)
  {
    var starts := parents.Keys;
    while starts != {}
      invariant starts <= parents.Keys
      invariant forall id, n: nat | id in parents.Keys - starts && n > 0 :: Ancestor(parents, id, n) != Some(id)
    {
      var start :| start in starts;
      starts := starts - {start};
      var back := WalkParents(parents, start);
      if back { return false; }
    }
    return true;
  }

  // ---- snapshots

  /** Sorting a directory listing by path. */
  method SortByPath(files: seq<(Path, Bytes)>) returns (sorted: seq<(Path, Bytes)>)
    requires forall i, j | 0 <= i < j < |files| :: files[i].0 != files[j].0
    ensures forall x :: x in sorted <==> x in files
    ensures forall i, j | 0 <= i < j < |sorted| :: Lt(sorted[i].0, sorted[j].0)
  {
    sorted := [];
    for n := 0 to |files|
      invariant forall x :: x in sorted <==> x in files[..n]
      invariant forall i, j | 0 <= i < j < |sorted| :: Lt(sorted[i].0, sorted[j].0)
    {
      var file := files[n];
      var k := 0;
      while k < |sorted| && Lt(sorted[k].0, file.0)
        invariant 0 <= k <= |sorted|
        invariant forall i | 0 <= i < k :: Lt(sorted[i].0, file.0)
      {
        k := k + 1;
      }
      assert forall i | k <= i < |sorted| :: Lt(file.0, sorted[i].0) by {
        forall i | k <= i < |sorted| ensures Lt(file.0, sorted[i].0) {
          assert sorted[k] in files[..n] && sorted[i] in files[..n];
          LeTotal(sorted[k].0, file.0);
          if i > k { LtTransitive(file.0, sorted[k].0, sorted[i].0); }
        }
      }
      ghost var before := sorted;
      sorted := sorted[..k] + [file] + sorted[k..];
      assert forall x :: x in sorted <==> x in before || x == file by {
        forall x ensures x in sorted <==> x in before || x == file {
          assert before == before[..k] + before[k..];
        }
      }
      assert files[..n + 1] == files[..n] + [file];
    }
    assert files[..|files|] == files;
  }

  lemma SortedListing(files: map<Path, Bytes>, q: seq<(Path, Bytes)>)
    requires forall i, j | 0 <= i < j < |q| :: Lt(q[i].0, q[j].0)
    requires forall p, b :: (p, b) in q <==> p in files && files[p] == b
    ensures q == Listing(files, Sorted(files.Keys))
  {
    var paths := seq(|q|, i requires 0 <= i < |q| => q[i].0);
    forall p ensures p in paths <==> p in Sorted(files.Keys) {
      if p in paths {
        var i :| 0 <= i < |paths| && paths[i] == p;
        assert (q[i].0, q[i].1) in q;
      }
      if p in files {
        assert (p, files[p]) in q;
        var i :| 0 <= i < |q| && q[i] == (p, files[p]);
        assert paths[i] == p;
      }
    }
    SortedUnique(paths, Sorted(files.Keys));
    forall i | 0 <= i < |q| ensures q[i] == (paths[i], files[paths[i]]) {
      assert (q[i].0, q[i].1) in q;
    }
  }

  /** `collect_workspace`: walk in any order, skip derived files, sort by path. */
  method CollectWorkspace(workspace: map<Path, Bytes>) returns (files: seq<(Path, Bytes)>)
    ensures files == Collected(workspace)
  {
    var left := workspace.Keys;
    files := [];
    while left != {}
      invariant left <= workspace.Keys
      invariant forall p, b :: (p, b) in files <==> p in workspace && p !in left && Canonical(p) && workspace[p] == b
      invariant forall i, j | 0 <= i < j < |files| :: files[i].0 != files[j].0
    {
      var p :| p in left;
      if Canonical(p) {
        forall i | 0 <= i < |files| ensures files[i].0 != p {
          assert (files[i].0, files[i].1) in files;
        }
        files := files + [(p, workspace[p])];
      }
      left := left - {p};
    }
    ghost var unsorted := files;
    files := SortByPath(files);
    forall p, b ensures (p, b) in files <==> p in CanonicalFiles(workspace) && CanonicalFiles(workspace)[p] == b {
      assert (p, b) in files <==> (p, b) in unsorted;
    }
    SortedListing(CanonicalFiles(workspace), files);
  }

  /** Every object is named after its digest. */
  method NamesMatch(sha: Bytes -> Hash, objects: map<Hash, Bytes>) returns (ok: bool)
    ensures ok <==> forall h | h in objects :: |h| == 64 && sha(objects[h]) == h
  {
    var hashes := objects.Keys;
    while hashes != {}
      invariant hashes <= objects.Keys
      invariant forall h | h in objects && h !in hashes :: |h| == 64 && sha(objects[h]) == h
    {
      var h :| h in hashes;
      if |h| != 64 || sha(objects[h]) != h { return false; }
      hashes := hashes - {h};
    }
    ok := true;
  }

  /** Every manifest is sound; collects the parents on the way. */
  method CheckManifests(env: Identity, files: Tree) returns (ok: bool, parents: Parents)
    ensures ok <==> forall id | id in files.manifests :: Integrity(env, files, id, files.manifests[id])
    ensures ok ==> parents == ParentsOf(files.manifests)
  {
    hide Integrity;
    var ids := files.manifests.Keys;
    parents := map[];
    while ids != {}
      invariant ids <= files.manifests.Keys
      invariant parents == map id | id in files.manifests && id !in ids :: files.manifests[id].parent
      invariant forall id | id in files.manifests && id !in ids :: Integrity(env, files, id, files.manifests[id])
    {
      var id :| id in ids;
      if !Integrity(env, files, id, files.manifests[id]) { return false, parents; }
      parents := parents[id := files.manifests[id].parent];
      ids := ids - {id};
    }
    ok := true;
  }

  class ProjectStore {
    const env: Identity
    var inbox: map<CaptureId, InboxEntry>
    var files: Tree
    var index: Tree
    var history: seq<Commit>
    var workspace: map<Path, Bytes>

    ghost function View(): Disk
      reads this
    {
      Disk(inbox, files, index, history, workspace)
    }

    /** A freshly initialized store. */
    constructor (env: Identity, workspace: map<Path, Bytes>)
      ensures this.env == env
      ensures View() == Disk(map[], Tree(map[], map[]), Tree(map[], map[]),
                             [Commit(Tree(map[], map[]), None)], workspace)
    {
      this.env := env;
      inbox, files, index := map[], Tree(map[], map[]), Tree(map[], map[]);
      history, this.workspace := [Commit(Tree(map[], map[]), None)], workspace;
    }

    /** Enqueueing creates the entry, accepts an identical one, and fails on any other. */
    method EnqueueCapture(root: Path, harness: string, session: string, transcript: Bytes) returns (queued: Option<Request>)
      modifies this`inbox
      ensures var request := MakeRequest(env, root, harness, session, transcript);
        var next := AddEntry(old(View()), InboxEntry(request, transcript));
        && queued == (if next.Some? then Some(request) else None)
        && View() == (if next.Some? then next.value else old(View()))
      ensures queued.Some? ==> var r := queued.value;
        && r.root == root && r.harness == harness && r.session == session && r.transcriptHash == env.sha(transcript)
        && r.project == env.project && r.projectId == env.projectId && r.schema == SCHEMA_VERSION
        && r.id in inbox && inbox[r.id] == InboxEntry(r, transcript)
    {
      var request := MakeRequest(env, root, harness, session, transcript);
      if request.id in inbox {
        if inbox[request.id].request != request || inbox[request.id].transcript != transcript {
          return None;
        }
      } else {
        inbox := inbox[request.id := InboxEntry(request, transcript)];
      }
      return Some(request);
    }

    method LoadInboxCapture(id: CaptureId) returns (queued: Option<Request>)
      ensures queued.Some? <==> Loadable(env, View(), id)
      ensures queued.Some? ==> queued.value == inbox[id].request && queued.value.id == id
    {
      if !ValidId(id) || id !in inbox { return None; }
      var request := inbox[id].request;
      if request.id != id || !BelongsTo(env, request) { return None; }
      if env.sha(inbox[id].transcript) != request.transcriptHash { return None; }
      return Some(request);
    }

    method RemoveCompleted(id: CaptureId)
      modifies this`inbox
      ensures View() == DropEntry(old(View()), id)
    {
      inbox := inbox - {id};
    }

    method VerifyImmutableObjects() returns (ok: bool)
      ensures ok <==> Verified(env, View())
    {
      if !TreeExtends(index, files) || index != Head(history) || history == [] { return false; }
      for k := 1 to |history|
        invariant forall j | 0 < j < k :: TreeExtends(history[j - 1].tree, history[j].tree)
      {
        if !TreeExtends(history[k - 1].tree, history[k].tree) { return false; }
      }
      var named := NamesMatch(env.sha, files.objects);
      if !named { return false; }
      var sound, parents := CheckManifests(env, files);
      if !sound { return false; }
      ok := NoParentCycle(parents);
    }

    /** `create_only` for one object. */
    method CreateOnly(h: Hash, bytes: Bytes) returns (ok: bool)
      modifies this`files
      ensures ok <==> CreateObject(old(files), h, bytes).Some?
      ensures files == if ok then CreateObject(old(files), h, bytes).value else old(files)
    {
      if h in files.objects {
        return files.objects[h] == bytes;
      }
      files := files.(objects := files.objects[h := bytes]);
      return true;
    }

    /** Writes the objects of a snapshot and gathers its manifest entries. */
    method WriteObjects(todo: seq<(Path, Bytes)>) returns (entries: map<Path, Hash>, ok: bool)
      modifies this`files
      ensures (files, ok) == PutObjects(env.sha, old(files), todo)
      ensures ok ==> entries == Hashes(env.sha, map[], todo)
    {
      entries := map[];
      for n := 0 to |todo|
        invariant PutObjects(env.sha, files, todo[n..]) == PutObjects(env.sha, old(files), todo)
        invariant Hashes(env.sha, entries, todo[n..]) == Hashes(env.sha, map[], todo)
      {
        var (path, bytes) := todo[n];
        var hash := env.sha(bytes);
        assert todo[n..][0] == todo[n] && todo[n..][1..] == todo[n + 1..];
        ok := CreateOnly(hash, bytes);
        if !ok { return; }
        entries := entries[path := hash];
      }
      assert todo[|todo|..] == [];
      ok := true;
    }

    /** `git add` of the objects and the manifest, then `git commit`. */
    method StageAndCommit(id: CaptureId) returns (outcome: Option<Outcome>)
      modifies this`index, this`history
      ensures (View(), outcome) == Publish(old(View()), id)
    {
      index := index.(objects := files.objects);
      if id !in files.manifests { return None; }
      index := index.(manifests := index.manifests[id := files.manifests[id]]);
      if index == Head(history) { return None; }
      history := history + [Commit(index, Some(id))];
      return Some(Committed(|history| - 1));
    }

    /** The branch of the transaction for a capture that has no manifest yet. */
    method SnapshotAndCommit(request: Request) returns (outcome: Option<Outcome>)
      modifies this`files, this`index, this`history
      ensures (View(), outcome) == WriteSnapshot(env, old(View()), request, Collected(old(workspace)))
    {
      var todo := CollectWorkspace(workspace);
      var entries, ok := WriteObjects(todo);
      if !ok { return None; }
      var parent := PreviousCapture(history);
      if parent.Some? && parent.value !in files.manifests { return None; }
      var manifest := NewManifest(request, parent, entries);
      files := files.(manifests := files.manifests[request.id := manifest]);
      outcome := StageAndCommit(request.id);
    }

    /** The transaction, for a caller that holds the store lock. */
    method CommitWorkspaceCaptureLocked(request: Request) returns (outcome: Option<Outcome>)
      modifies this`files, this`index, this`history
      ensures (View(), outcome) == CommitLocked(env, old(View()), request)
    {
      var verified := VerifyImmutableObjects();
      if !verified { return None; }
      if request.id !in files.manifests {
        outcome := SnapshotAndCommit(request);
      } else {
        if !Describes(files.manifests[request.id], request) { return None; }
        var oid := CommitOf(history, request.id);
        if oid.Some? { return Some(AlreadyCommitted(oid.value)); }
        outcome := StageAndCommit(request.id);
      }
    }

    /** Rebuilds the workspace from the newest capture; a failure leaves the workspace alone. */
    method MaterializeLatest() returns (ok: bool)
      modifies this`workspace
      ensures ok <==> Materialized(env, old(View())).Some?
      ensures workspace == if ok then Materialized(env, old(View())).value else old(workspace)
    {
      var touched := TouchedManifest(history);
      if touched.None? || touched.value == {} { return true; }
      var latest := LeastOf(touched.value);
      if latest !in files.manifests { return false; }
      var m := files.manifests[latest];
      if m.project != env.project || m.schema != SCHEMA_VERSION || !Integrity(env, files, m.id, m) { return false; }
      var rebuilt := map[];
      var paths := m.files.Keys;
      while paths != {}
        invariant paths <= m.files.Keys
        invariant rebuilt == map p | p in m.files && p !in paths :: files.objects[m.files[p]]
      {
        var p :| p in paths;
        rebuilt := rebuilt[p := files.objects[m.files[p]]];
        paths := paths - {p};
      }
      workspace := rebuilt;
      return true;
    }
  }
}
