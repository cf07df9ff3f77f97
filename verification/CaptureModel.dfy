/**
 * The durable project store of src/capture_store.rs as values: the inbox, the create-only object
 * and manifest files, the git index, a linear history, and the workspace being snapshot. Digests
 * are an arbitrary function; nothing here assumes that it is free of collisions.
 */
module CaptureModel {
  import opened Prelude
  import opened Strings
  import Text

  type Bytes = seq<bv8>
  type Hash = string
  type CaptureId = string
  type Path = string

  const SCHEMA_VERSION: nat := 1
  const CAPTURE_ID_TAG := "pc-capture-v1"

  datatype Request = Request(
    schema: nat, id: CaptureId, project: string, projectId: string, root: Path,
    harness: string, session: string, transcriptHash: Hash)

  datatype Manifest = Manifest(
    schema: nat, project: string, id: CaptureId, parent: Option<CaptureId>,
    harness: string, session: string, transcriptHash: Hash, files: map<Path, Hash>)

  datatype InboxEntry = InboxEntry(request: Request, transcript: Bytes)

  /** The contents of `objects/` and `captures/`: in the work tree, in the index, or in a commit. */
  datatype Tree = Tree(objects: map<Hash, Bytes>, manifests: map<CaptureId, Manifest>)

  /** A commit and the `PC-Capture-Id` trailer of its message; its place in the history is its oid. */
  datatype Commit = Commit(tree: Tree, trailer: Option<CaptureId>)

  datatype Disk = Disk(
    inbox: map<CaptureId, InboxEntry>, files: Tree, index: Tree, history: seq<Commit>,
    workspace: map<Path, Bytes>)

  /** Which project the store belongs to, SHA-256 in hexadecimal, and the bytes of a text. */
  datatype Identity = Identity(project: string, projectId: string, sha: Bytes -> Hash, utf8: string -> Bytes)

  datatype Outcome = Committed(oid: nat) | AlreadyCommitted(oid: nat)

  // ---- identifiers and paths

  predicate AsciiAlnum(c: char)
  {
    '0' <= c <= '9' || 'a' <= c <= 'z' || 'A' <= c <= 'Z'
  }

  predicate ValidId(id: CaptureId)
  {
    0 < |id| <= 128 && forall i | 0 <= i < |id| :: AsciiAlnum(id[i]) || id[i] == '-' || id[i] == '_'
  }

  predicate ValidHash(h: Hash)
  {
    |h| == 64 && forall i | 0 <= i < 64 :: '0' <= h[i] <= '9' || 'a' <= h[i] <= 'f' || 'A' <= h[i] <= 'F'
  }

  function Components(p: Path): (r: seq<string>)
    ensures |r| > 0
  {
    Text.Split(p, '/')
  }

  /** The components are the one way to read the path as parts without a slash that slashes join. */
  lemma ComponentsMean(p: Path, parts: seq<string>)
    requires parts != []
    ensures parts == Components(p) <==> Text.Join(parts, "/") == p && forall part | part in parts :: '/' !in part
  {
    if parts == Components(p) {
      Text.JoinSplit(p, '/');
      Text.PiecesHoldNone(p, '/');
    } else if Text.Join(parts, "/") == p && forall part | part in parts :: '/' !in part {
      Text.SplitJoin(parts, '/');
      assert false;
    }
  }

  /** A relative path made of normal components only. */
  predicate ValidPath(p: Path)
  {
    p != "" && p[0] != '/' && Components(p)[0] != "." && ".." !in Components(p)
  }

  predicate EndsWith(s: string, suffix: string)
  {
    |suffix| <= |s| && s[|s| - |suffix|..] == suffix
  }

  /** The files a snapshot keeps: everything but git data and rebuildable projections. */
  predicate Canonical(p: Path)
  {
    && ".git" !in Components(p)
    && p !in {"_index.md", "_citations.log", "taxonomy-index.json", "index.db"}
    && !EndsWith(p, ".db-shm") && !EndsWith(p, ".db-wal")
  }

  /** A valid id names one entry of a directory, and not one that snapshots leave out. */
  lemma IdIsOneName(id: CaptureId)
    requires ValidId(id)
    ensures Components(id) == [id] && id != "." && id != ".." && Canonical(id)
  {
    hide Components, Canonical, EndsWith;
    forall c | c in id ensures c != '/' && c != '.' {
      var i :| 0 <= i < |id| && id[i] == c;
    }
    ComponentsSplit(id);
    Text.SplitOne(id, '/');
    assert ".."[0] == "."[0] == '.';
    NoDotIsCanonical(id);
  }

  lemma NoDotIsCanonical(p: Path)
    requires Components(p) == [p] && '.' !in p
    ensures Canonical(p)
  {
    hide Components;
    assert ".git"[0] == '.';
    assert "_index.md"[6] == "_citations.log"[10] == "taxonomy-index.json"[14] == "index.db"[5] == '.';
    assert ".db-shm"[0] == ".db-wal"[0] == '.';
    assert |p| >= 7 ==> p[|p| - 7..][0] in p;
  }

  lemma ComponentsSplit(p: Path)
    ensures Components(p) == Text.Split(p, '/')
  {
  }

  /** Written as text: a `.git` between slashes or ends, one of four names, or one of two endings. */
  ghost predicate Derived(p: Path)
  {
    || Text.Has("/" + p + "/", "/.git/")
    || p == "_index.md" || p == "_citations.log" || p == "taxonomy-index.json" || p == "index.db"
    || (exists front {:trigger front + ".db-shm"} :: p == front + ".db-shm")
    || (exists front {:trigger front + ".db-wal"} :: p == front + ".db-wal")
  }

  lemma CanonicalUnlessDerived(p: Path)
    ensures Canonical(p) <==> !Derived(p)
  {
    hide Components, Text.Has;
    var shm, wal := ".db-shm", ".db-wal";
    assert Components(p) == Text.Split(p, '/') by { ComponentsSplit(p); }
    Text.PieceMeans(p, ".git", '/');
    assert "/" + ".git" + "/" == "/.git/" && ['/'] == "/";
    if EndsWith(p, shm) { assert p == p[..|p| - |shm|] + shm; }
    if EndsWith(p, wal) { assert p == p[..|p| - |wal|] + wal; }
  }

  function CanonicalFiles(workspace: map<Path, Bytes>): map<Path, Bytes>
  {
    map p | p in workspace && Canonical(p) :: workspace[p]
  }

  /** What the standard library guarantees of a digest. */
  ghost predicate WellFormed(env: Identity)
  {
    forall b :: ValidHash(env.sha(b))
  }

  /** And of a walk below a directory. */
  ghost predicate RealPaths(workspace: map<Path, Bytes>)
  {
    forall p | p in workspace :: ValidPath(p)
  }

  // ---- enqueueing

  /** The bytes a capture id is the digest of. */
  function IdMessage(env: Identity, harness: string, session: string, transcript: Bytes): Bytes
  {
    env.utf8(CAPTURE_ID_TAG) + [0]
      + (env.utf8(env.project) + [0]
         + (env.utf8(harness) + [0] + (env.utf8(session) + [0] + transcript)))
  }

  /** The first 32 digits of a digest. */
  function Truncated(h: Hash): string
  {
    if |h| < 32 then h else h[..32]
  }

  function StableId(env: Identity, harness: string, session: string, transcript: Bytes): (id: CaptureId)
    ensures id <= env.sha(IdMessage(env, harness, session, transcript))
    ensures WellFormed(env) ==> |id| == 32 && ValidId(id)
  {
    Truncated(env.sha(IdMessage(env, harness, session, transcript)))
  }

  function MakeRequest(env: Identity, root: Path, harness: string, session: string, transcript: Bytes): Request
  {
    Request(SCHEMA_VERSION, StableId(env, harness, session, transcript),
            env.project, env.projectId, root, harness, session, env.sha(transcript))
  }

  predicate BelongsTo(env: Identity, r: Request)
  {
    r.schema == SCHEMA_VERSION && r.project == env.project && r.projectId == env.projectId && ValidId(r.id)
  }

  predicate Loadable(env: Identity, d: Disk, id: CaptureId)
  {
    && ValidId(id) && id in d.inbox
    && d.inbox[id].request.id == id && BelongsTo(env, d.inbox[id].request)
    && env.sha(d.inbox[id].transcript) == d.inbox[id].request.transcriptHash
  }

  // ---- reading the history

  function Head(history: seq<Commit>): Tree
  {
    if history == [] then Tree(map[], map[]) else history[|history| - 1].tree
  }

  /** `git log -1 -- captures/<id>/manifest.json`: the newest commit that changed this manifest. */
  function CommitOf(history: seq<Commit>, id: CaptureId): (r: Option<nat>)
    ensures r.Some? ==> r.value < |history|
  {
    if history == [] then None
    else
      var before := Head(history[..|history| - 1]).manifests;
      var after := Head(history).manifests;
      if (id in before) != (id in after) || (id in before && before[id] != after[id]) then Some(|history| - 1)
      else CommitOf(history[..|history| - 1], id)
  }

  /** The newest trailer in the history. */
  function PreviousCapture(history: seq<Commit>): Option<CaptureId>
  {
    if history == [] then None
    else
      var last := history[|history| - 1].trailer;
      if last.Some? then last else PreviousCapture(history[..|history| - 1])
  }

  /** The manifests that the newest commit touches which touches any. */
  function TouchedManifest(history: seq<Commit>): Option<set<CaptureId>>
  {
    if history == [] then None
    else
      var before := Head(history[..|history| - 1]).manifests;
      var after := Head(history).manifests;
      var touched := set id | id in before.Keys + after.Keys
                              && !(id in before && id in after && before[id] == after[id]);
      if touched != {} then Some(touched) else TouchedManifest(history[..|history| - 1])
  }

  // ---- verification

  type Parents = map<CaptureId, Option<CaptureId>>

  function ParentsOf(manifests: map<CaptureId, Manifest>): Parents
  {
    map id | id in manifests :: manifests[id].parent
  }

  /** The id reached from `id` by `n` parent steps, if the chain is that long. */
  function Ancestor(parents: Parents, id: CaptureId, n: nat): Option<CaptureId>
    decreases n
  {
    if n == 0 then Some(id)
    else if id in parents && parents[id].Some? then Ancestor(parents, parents[id].value, n - 1)
    else None
  }

  /** No manifest is its own proper ancestor. */
  ghost predicate Acyclic(parents: Parents)
  {
    forall id, n: nat | id in parents && n > 0 :: Ancestor(parents, id, n) != Some(id)
  }

  predicate TreeExtends(a: Tree, b: Tree)
  {
    Extends(a.objects, b.objects) && Extends(a.manifests, b.manifests)
  }

  predicate ObjectOk(sha: Bytes -> Hash, objects: map<Hash, Bytes>, h: Hash)
  {
    ValidHash(h) && h in objects && sha(objects[h]) == h
  }

  predicate Integrity(env: Identity, files: Tree, id: CaptureId, m: Manifest)
  {
    && ValidId(id) && ValidId(m.id) && (m.parent.Some? ==> ValidId(m.parent.value))
    && m.schema == SCHEMA_VERSION && m.project == env.project && m.id == id
    && (m.parent.Some? ==> m.parent.value != m.id && m.parent.value in files.manifests)
    && forall p | p in m.files :: ValidPath(p) && ObjectOk(env.sha, files.objects, m.files[p])
  }

  /** What `verify_immutable_objects` accepts. */
  ghost predicate Verified(env: Identity, d: Disk)
  {
    && TreeExtends(d.index, d.files)
    && d.index == Head(d.history)
    && d.history != []
    && (forall k | 0 < k < |d.history| :: TreeExtends(d.history[k - 1].tree, d.history[k].tree))
    && (forall h | h in d.files.objects :: |h| == 64 && env.sha(d.files.objects[h]) == h)
    && (forall id | id in d.files.manifests :: Integrity(env, d.files, id, d.files.manifests[id]))
    && Acyclic(ParentsOf(d.files.manifests))
  }

  // ---- the commit transaction

  predicate Describes(m: Manifest, r: Request)
  {
    && m.schema == SCHEMA_VERSION && m.id == r.id && m.project == r.project
    && m.session == r.session && m.harness == r.harness && m.transcriptHash == r.transcriptHash
  }

  function NewManifest(r: Request, parent: Option<CaptureId>, files: map<Path, Hash>): Manifest
  {
    Manifest(SCHEMA_VERSION, r.project, r.id, parent, r.harness, r.session, r.transcriptHash, files)
  }

  /** `create_only` on an object: write it, accept equal bytes, refuse different ones. */
  function CreateObject(files: Tree, h: Hash, bytes: Bytes): Option<Tree>
  {
    if h !in files.objects then Some(files.(objects := files.objects[h := bytes]))
    else if files.objects[h] == bytes then Some(files)
    else None
  }
}
