/**
 * Every interleaving of enqueuers, capture workers and crashes over one project store. Each durable
 * write of the commit transaction is a step of its own, and `Stop` can follow any of them.
 */
module CaptureRuns {
  import opened Prelude
  import opened Strings
  import opened CaptureModel

  /** What one capture process has done so far. From `Holding` on it owns the project-store lock. */
  datatype Pc =
    | Idle
    | Queued(request: Request)
    | Holding(request: Request)
    | Writing(request: Request, todo: seq<(Path, Bytes)>, done: map<Path, Hash>)
    | Staging(request: Request)
    | ObjectsStaged(request: Request)
    | ManifestStaged(request: Request)
    | Recorded(request: Request)
    | Finished

  /** `enqueued` records the requests for which `enqueue_capture` has returned. */
  datatype Machine = Machine(disk: Disk, lock: Option<nat>, workers: seq<Pc>, ghost enqueued: set<Request>)

  datatype Action =
    | Enqueue(root: Path, harness: string, session: string, transcript: Bytes)
    | Load(w: nat, id: CaptureId)
    | Keep(w: nat, request: Request)
    | Discard(w: nat)
    | Acquire(w: nat)
    | FindCommitted(w: nat)
    | EditWorkspace(workspace: map<Path, Bytes>)
    | Begin(w: nat)
    | PutObject(w: nat)
    | PutManifest(w: nat)
    | StageObjects(w: nat)
    | StageManifest(w: nat)
    | MakeCommit(w: nat)
    | Remove(w: nat)
    | Stop(w: nat)

  predicate HasLock(pc: Pc)
  {
    !pc.Idle? && !pc.Queued?
  }

  /** The snapshot of a workspace, in path order. */
  ghost function Collected(workspace: map<Path, Bytes>): seq<(Path, Bytes)>
  {
    Listing(CanonicalFiles(workspace), Sorted(CanonicalFiles(workspace).Keys))
  }

  ghost function Listing(files: map<Path, Bytes>, paths: seq<Path>): (r: seq<(Path, Bytes)>)
    requires forall p | p in paths :: p in files
    ensures |r| == |paths|
    ensures forall i | 0 <= i < |r| :: r[i] == (paths[i], files[paths[i]])
  {
    if paths == [] then [] else [(paths[0], files[paths[0]])] + Listing(files, paths[1..])
  }

  function WithPc(s: Machine, w: nat, pc: Pc): Machine
    requires w < |s.workers|
  {
    s.(workers := s.workers[w := pc])
  }

  /** Removing an inbox entry directory. */
  function DropEntry(d: Disk, id: CaptureId): Disk
  {
    d.(inbox := d.inbox - {id})
  }

  /** Renaming a complete entry directory into the inbox; an entry that exists must be the same. */
  function AddEntry(d: Disk, entry: InboxEntry): Option<Disk>
  {
    var id := entry.request.id;
    if id !in d.inbox then Some(d.(inbox := d.inbox[id := entry]))
    else if d.inbox[id] == entry then Some(d)
    else None
  }

  ghost function EnqueueStep(
      env: Identity, s: Machine, root: Path, harness: string, session: string, transcript: Bytes): Option<Machine>
  {
    var r := MakeRequest(env, root, harness, session, transcript);
    var disk := AddEntry(s.disk, InboxEntry(r, transcript));
    if disk.None? then None else Some(s.(disk := disk.value, enqueued := s.enqueued + {r}))
  }

  /** The checks of `commit_workspace_capture_locked` before its first write. */
  ghost function BeginStep(env: Identity, s: Machine, w: nat): Option<Machine>
    requires w < |s.workers| && s.workers[w].Holding?
  {
    var r := s.workers[w].request;
    var d := s.disk;
    if !Verified(env, d) then None
    else if r.id !in d.files.manifests then Some(WithPc(s, w, Writing(r, Collected(d.workspace), map[])))
    else if !Describes(d.files.manifests[r.id], r) then None
    else if CommitOf(d.history, r.id).Some? then Some(WithPc(s, w, Recorded(r)))
    else Some(WithPc(s, w, Staging(r)))
  }

  ghost function PutObjectStep(env: Identity, s: Machine, w: nat): Option<Machine>
    requires w < |s.workers| && s.workers[w].Writing?
  {
    var pc := s.workers[w];
    if pc.todo == [] then None
    else
      var (path, bytes) := pc.todo[0];
      var files := CreateObject(s.disk.files, env.sha(bytes), bytes);
      if files.None? then None
      else
        Some(WithPc(s, w, pc.(todo := pc.todo[1..], done := pc.done[path := env.sha(bytes)]))
               .(disk := s.disk.(files := files.value)))
  }

  ghost function PutManifestStep(s: Machine, w: nat): Option<Machine>
    requires w < |s.workers| && s.workers[w].Writing?
  {
    var pc := s.workers[w];
    var parent := PreviousCapture(s.disk.history);
    if pc.todo != [] || (parent.Some? && parent.value !in s.disk.files.manifests) then None
    else
      var m := NewManifest(pc.request, parent, pc.done);
      if m.id in s.disk.files.manifests && s.disk.files.manifests[m.id] != m then None
      else
        Some(WithPc(s, w, Staging(pc.request))
               .(disk := s.disk.(files := s.disk.files.(manifests := s.disk.files.manifests[m.id := m]))))
  }

  /** `git add -- objects`; the directory is there as soon as the store is, and git takes an empty one. */
  function AddObjects(d: Disk): Disk
  {
    d.(index := d.index.(objects := d.files.objects))
  }

  function AddManifest(d: Disk, id: CaptureId): Option<Disk>
  {
    if id !in d.files.manifests then None
    else Some(d.(index := d.index.(manifests := d.index.manifests[id := d.files.manifests[id]])))
  }

  /** `git commit`; git refuses when nothing is staged. */
  function CommitIndex(d: Disk, id: CaptureId): Option<Disk>
  {
    if d.index == Head(d.history) then None
    else Some(d.(history := d.history + [Commit(d.index, Some(id))]))
  }

  function Advance(s: Machine, w: nat, disk: Option<Disk>, pc: Pc): Option<Machine>
    requires w < |s.workers|
  {
    if disk.None? then None else Some(WithPc(s, w, pc).(disk := disk.value))
  }

  ghost function WorkerStep(env: Identity, enabled: bool, s: Machine, a: Action): Option<Machine>
    requires !a.Enqueue? && !a.EditWorkspace? && a.w < |s.workers|
  {
    var pc := s.workers[a.w];
    match a
    case Load(w, id) =>
      if pc.Idle? && Loadable(env, s.disk, id) then Some(WithPc(s, w, Queued(s.disk.inbox[id].request))) else None
    case Keep(w, r) => if pc.Idle? && r in s.enqueued then Some(WithPc(s, w, Queued(r))) else None
    case Discard(w) =>
      if pc.Queued? && !enabled then Some(WithPc(s, w, Idle).(disk := DropEntry(s.disk, pc.request.id))) else None
    case Acquire(w) =>
      if pc.Queued? && enabled && s.lock.None? then Some(WithPc(s, w, Holding(pc.request)).(lock := Some(w))) else None
    case FindCommitted(w) =>
      if pc.Holding? && CommitOf(s.disk.history, pc.request.id).Some? then Some(WithPc(s, w, Recorded(pc.request))) else None
    case Begin(w) => if pc.Holding? then BeginStep(env, s, w) else None
    case PutObject(w) => if pc.Writing? then PutObjectStep(env, s, w) else None
    case PutManifest(w) => if pc.Writing? then PutManifestStep(s, w) else None
    case StageObjects(w) =>
      if pc.Staging? then Advance(s, w, Some(AddObjects(s.disk)), ObjectsStaged(pc.request)) else None
    case StageManifest(w) =>
      if pc.ObjectsStaged? then Advance(s, w, AddManifest(s.disk, pc.request.id), ManifestStaged(pc.request)) else None
    case MakeCommit(w) =>
      if pc.ManifestStaged? then Advance(s, w, CommitIndex(s.disk, pc.request.id), Recorded(pc.request)) else None
    case Remove(w) =>
      if pc.Recorded? then Some(WithPc(s, w, Finished).(disk := DropEntry(s.disk, pc.request.id))) else None
    case Stop(w) => Some(WithPc(s, w, Idle).(lock := if HasLock(pc) then None else s.lock))
  }

  /** The state after one action, or `None` when the action is not possible. */
  ghost function Step(env: Identity, enabled: bool, s: Machine, a: Action): Option<Machine>
  {
    match a
    case Enqueue(root, harness, session, transcript) => EnqueueStep(env, s, root, harness, session, transcript)
    case EditWorkspace(workspace) =>
      if RealPaths(workspace) then Some(s.(disk := s.disk.(workspace := workspace))) else None
    case _ => if a.w < |s.workers| then WorkerStep(env, enabled, s, a) else None
  }

  ghost function Run(env: Identity, enabled: bool, s: Machine, actions: seq<Action>): Option<Machine>
    decreases |actions|
  {
    if actions == [] then Some(s)
    else
      var next := Step(env, enabled, s, actions[0]);
      if next.None? then None else Run(env, enabled, next.value, actions[1..])
  }

  /** A store just initialized: one commit without captures, an empty inbox, idle workers. */
  ghost predicate Initial(s: Machine)
  {
    && s.disk.history == [Commit(Tree(map[], map[]), None)]
    && s.disk.index == s.disk.files == Tree(map[], map[])
    && s.disk.inbox == map[] && RealPaths(s.disk.workspace)
    && s.lock.None? && s.enqueued == {}
    && forall w | 0 <= w < |s.workers| :: s.workers[w].Idle?
  }

  // ---- the invariant

  ghost predicate AddsOneCapture(before: Tree, c: Commit)
  {
    && c.trailer.Some? && c.trailer.value !in before.manifests
    && c.trailer.value in c.tree.manifests
    && c.tree.manifests == before.manifests[c.trailer.value := c.tree.manifests[c.trailer.value]]
    && Extends(before.objects, c.tree.objects)
  }

  ghost predicate HistoryOk(history: seq<Commit>)
  {
    && history != [] && history[0] == Commit(Tree(map[], map[]), None)
    && forall k | 0 < k < |history| :: AddsOneCapture(history[k - 1].tree, history[k])
  }

  /** A parent was committed, and before its child. */
  ghost predicate ParentCommitted(history: seq<Commit>, m: Manifest)
  {
    m.parent.Some? ==>
      && CommitOf(history, m.parent.value).Some?
      && (CommitOf(history, m.id).Some? ==> CommitOf(history, m.parent.value).value < CommitOf(history, m.id).value)
  }

  ghost predicate ManifestOk(env: Identity, s: Machine, id: CaptureId)
    requires id in s.disk.files.manifests
  {
    var m := s.disk.files.manifests[id];
    && Integrity(env, s.disk.files, id, m)
    && ParentCommitted(s.disk.history, m)
    && exists r :: r in s.enqueued && Describes(m, r)
  }

  ghost predicate DiskOk(env: Identity, s: Machine)
  {
    var d := s.disk;
    && HistoryOk(d.history)
    && TreeExtends(Head(d.history), d.index) && TreeExtends(d.index, d.files)
    && (forall h | h in d.files.objects :: env.sha(d.files.objects[h]) == h)
    && (forall id | id in d.files.manifests :: ManifestOk(env, s, id))
    && RealPaths(d.workspace)
  }

  ghost predicate PcOk(env: Identity, s: Machine, w: nat)
    requires w < |s.workers|
  {
    var d := s.disk;
    var pc := s.workers[w];
    && (HasLock(pc) ==> s.lock == Some(w))
    && (!pc.Idle? && !pc.Finished? ==> pc.request in s.enqueued)
    && (pc.Writing? || pc.Staging? ==> d.index == Head(d.history))
    && (pc.Writing? ==>
          && pc.request.id !in d.files.manifests
          && (forall i | 0 <= i < |pc.todo| :: ValidPath(pc.todo[i].0))
          && (forall p | p in pc.done :: ValidPath(p) && ObjectOk(env.sha, d.files.objects, pc.done[p])))
    && (pc.Staging? || pc.ObjectsStaged? || pc.ManifestStaged? ==>
          pc.request.id in d.files.manifests && pc.request.id !in Head(d.history).manifests)
    && (pc.ObjectsStaged? ==> d.index.manifests == Head(d.history).manifests)
    && (pc.ManifestStaged? ==>
          d.index.manifests == Head(d.history).manifests[pc.request.id := d.files.manifests[pc.request.id]])
    && (pc.Recorded? ==> CommitOf(d.history, pc.request.id).Some?)
  }

  /** `r` is what enqueueing some transcript makes. */
  ghost predicate Made(env: Identity, r: Request)
  {
    exists transcript :: r == MakeRequest(env, r.root, r.harness, r.session, transcript)
  }

  ghost predicate RequestsOk(env: Identity, s: Machine)
  {
    && (forall r | r in s.enqueued :: BelongsTo(env, r) && Made(env, r))
    && forall id | id in s.disk.inbox :: var entry := s.disk.inbox[id];
         entry.request.id == id && entry.request in s.enqueued
         && env.sha(entry.transcript) == entry.request.transcriptHash
  }

  /** An enqueued capture is in the inbox or in the history. */
  ghost predicate NotLost(s: Machine)
  {
    forall r | r in s.enqueued ::
      (r.id in s.disk.inbox && s.disk.inbox[r.id].request == r) || CommitOf(s.disk.history, r.id).Some?
  }

  ghost predicate Inv(env: Identity, s: Machine)
  {
    && DiskOk(env, s) && RequestsOk(env, s)
    && forall w | 0 <= w < |s.workers| :: PcOk(env, s, w)
  }

  // ---- facts about histories

  lemma {:induction false} CommitOfIsTrailer(history: seq<Commit>, id: CaptureId)
    requires HistoryOk(history)
    ensures CommitOf(history, id).Some? <==> id in Head(history).manifests
    ensures forall k | 0 <= k < |history| :: history[k].trailer == Some(id) <==> CommitOf(history, id) == Some(k)
  {
    var n := |history|;
    if n > 1 {
      var before := history[..n - 1];
      assert HistoryOk(before);
      CommitOfIsTrailer(before, id);
      assert AddsOneCapture(history[n - 2].tree, history[n - 1]);
      assert Head(before) == history[n - 2].tree;
      assert forall k | 0 <= k < n - 1 :: before[k] == history[k];
    } else {
      assert history[..0] == [];
    }
  }

  lemma PreviousIsLast(history: seq<Commit>)
    requires HistoryOk(history)
    ensures PreviousCapture(history) == history[|history| - 1].trailer
  {
    if |history| > 1 {
      assert AddsOneCapture(history[|history| - 2].tree, history[|history| - 1]);
    }
  }

  /** Appending a commit leaves the place of every other capture as it was. */
  lemma CommitOfAppend(history: seq<Commit>, c: Commit, id: CaptureId)
    requires HistoryOk(history) && AddsOneCapture(Head(history), c)
    ensures HistoryOk(history + [c])
    ensures CommitOf(history + [c], id) == if c.trailer == Some(id) then Some(|history|) else CommitOf(history, id)
  {
    var longer := history + [c];
    assert forall k | 0 <= k < |history| :: longer[k] == history[k];
    assert HistoryOk(longer);
    CommitOfIsTrailer(longer, id);
    CommitOfIsTrailer(history, id);
    assert longer[..|history|] == history;
    assert longer[|history|] == c;
  }
}
