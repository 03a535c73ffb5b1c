/** The cache root as a map from directory names to directories, and the file steps that change it. A crash
    stops the writer between two steps, so a crashed operation leaves what a prefix of its steps leaves.
    The clock advances with every step. */
module CacheTree {
  import opened Common
  import opened CacheIdentity

  /** A directory name: the hash of a pre-image, represented by the pre-image. */
  type Id = seq<byte>

  datatype Sidecar<T> = Sidecar(value: T, mtime: nat)
  datatype Archive = Archive(bytes: seq<byte>, mtime: nat)

  datatype Dir = Dir(
    namespace: Option<Sidecar<Text>>,
    key: Option<Sidecar<Text>>,
    version: Option<Sidecar<Text>>,
    createdAt: Option<Sidecar<nat>>,
    archive: Option<Archive>)

  datatype World = World(root: map<Id, Dir>, staged: map<string, Archive>, clock: nat)

  const EMPTY_DIR := Dir(None, None, None, None, None)

  /** One hour, in nanoseconds. */
  const STALE_WRITE_MAX_AGE: nat := 3_600_000_000_000

  datatype FileStep =
    | CreateDir(id: Id)
    | WriteNamespace(id: Id, text: Text)
    | WriteKey(id: Id, text: Text)
    | WriteVersion(id: Id, text: Text)
    | WriteCreatedAt(id: Id, nanos: nat)
    | WriteArchive(id: Id, bytes: seq<byte>)
    | RenameIn(src: string, id: Id)
    | Touch(id: Id)
    | RemoveDir(id: Id)
    | Stage(path: string, bytes: seq<byte>)
    | Pass(nanos: nat)

  predicate Archived(w: World, id: Id) {
    id in w.root && w.root[id].archive.Some?
  }

  predicate Enabled(w: World, step: FileStep) {
    match step
    case CreateDir(id) => id !in w.root
    case WriteNamespace(id, _) => id in w.root
    case WriteKey(id, _) => id in w.root
    case WriteVersion(id, _) => id in w.root
    case WriteCreatedAt(id, _) => id in w.root
    case WriteArchive(id, _) => id in w.root
    case RenameIn(src, id) => src in w.staged && id in w.root
    case Touch(id) => Archived(w, id)
    case RemoveDir(id) => id in w.root
    case Stage(_, _) => true
    case Pass(_) => true
  }

  /** The root after a step. */
  function RootAfter(w: World, step: FileStep): map<Id, Dir>
    requires Enabled(w, step)
  {
    var r, now := w.root, w.clock;
    match step
    case CreateDir(id) => r[id := EMPTY_DIR]
    case WriteNamespace(id, text) => r[id := r[id].(namespace := Some(Sidecar(text, now)))]
    case WriteKey(id, text) => r[id := r[id].(key := Some(Sidecar(text, now)))]
    case WriteVersion(id, text) => r[id := r[id].(version := Some(Sidecar(text, now)))]
    case WriteCreatedAt(id, nanos) => r[id := r[id].(createdAt := Some(Sidecar(nanos, now)))]
    case WriteArchive(id, bytes) => r[id := r[id].(archive := Some(Archive(bytes, now)))]
    case RenameIn(src, id) => r[id := r[id].(archive := Some(w.staged[src]))]
    case Touch(id) => r[id := r[id].(archive := Some(r[id].archive.value.(mtime := now)))]
    case RemoveDir(id) => r - {id}
    case Stage(_, _) => r
    case Pass(_) => r
  }

  function Apply(w: World, step: FileStep): World
    requires Enabled(w, step)
  {
    var staged :=
      match step
      case RenameIn(src, _) => w.staged - {src}
      case Stage(path, bytes) => w.staged[path := Archive(bytes, w.clock)]
      case _ => w.staged;
    World(RootAfter(w, step), staged, w.clock + 1 + if step.Pass? then step.nanos else 0)
  }

  ghost predicate Runs(w: World, steps: seq<FileStep>)
    decreases |steps|
  {
    steps == [] || (Enabled(w, steps[0]) && Runs(Apply(w, steps[0]), steps[1..]))
  }

  ghost function ApplyAll(w: World, steps: seq<FileStep>): World
    requires Runs(w, steps)
    decreases |steps|
  {
    if steps == [] then w else ApplyAll(Apply(w, steps[0]), steps[1..])
  }

  lemma {:induction false} RunsAppend(w: World, a: seq<FileStep>, b: seq<FileStep>)
    requires Runs(w, a)
    ensures Runs(w, a + b) <==> Runs(ApplyAll(w, a), b)
    ensures Runs(w, a + b) ==> ApplyAll(w, a + b) == ApplyAll(ApplyAll(w, a), b)
    decreases |a|
  {
    if a == [] {
      assert a + b == b;
    } else {
      assert (a + b)[0] == a[0] && (a + b)[1..] == a[1..] + b;
      RunsAppend(Apply(w, a[0]), a[1..], b);
    }
  }

  lemma RunsOne(w: World, a: seq<FileStep>, step: FileStep)
    requires Runs(w, a) && Enabled(ApplyAll(w, a), step)
    ensures Runs(w, a + [step]) && ApplyAll(w, a + [step]) == Apply(ApplyAll(w, a), step)
  {
    RunsAppend(w, a, [step]);
    assert [step][1..] == [];
    assert Runs(Apply(ApplyAll(w, a), step), []);
  }

  // Sizes

  function ArchiveSize(dir: Dir): nat {
    if dir.archive.Some? then |dir.archive.value.bytes| else 0
  }

  /** The bytes of all archives under the root. */
  ghost function TotalSize(root: map<Id, Dir>): nat {
    if root == map[] then 0
    else var id :| id in root; ArchiveSize(root[id]) + TotalSize(root - {id})
  }

  lemma {:induction false} TotalWithout(root: map<Id, Dir>, id: Id)
    requires id in root
    ensures TotalSize(root) == ArchiveSize(root[id]) + TotalSize(root - {id})
    decreases |root|
  {
    var first :| first in root && TotalSize(root) == ArchiveSize(root[first]) + TotalSize(root - {first});
    if first != id {
      TotalWithout(root - {first}, id);
      TotalWithout(root - {id}, first);
      assert root - {first} - {id} == root - {id} - {first};
    }
  }

  /** Every archive is counted in the total. */
  lemma TotalCovers(root: map<Id, Dir>, id: Id)
    requires id in root
    ensures ArchiveSize(root[id]) <= TotalSize(root)
  {
    TotalWithout(root, id);
  }

  lemma {:induction false} NoArchivesNoTotal(root: map<Id, Dir>)
    requires forall id | id in root :: root[id].archive.None?
    ensures TotalSize(root) == 0
    decreases |root|
  {
    if root == map[] {
    } else {
      var id :| id in root;
      TotalWithout(root, id);
      NoArchivesNoTotal(root - {id});
    }
  }

  // Staleness

  function MtimeOf<T>(file: Option<Sidecar<T>>): seq<nat> {
    if file.Some? then [file.value.mtime] else []
  }

  /** When the files of a directory were last written. */
  function Mtimes(dir: Dir): seq<nat> {
    MtimeOf(dir.namespace) + MtimeOf(dir.key) + MtimeOf(dir.version) + MtimeOf(dir.createdAt)
    + if dir.archive.Some? then [dir.archive.value.mtime] else []
  }

  /** Every file is over the age; an empty directory is always debris. */
  ghost predicate Stale(dir: Dir, now: nat) {
    forall mtime | mtime in Mtimes(dir) :: now > mtime + STALE_WRITE_MAX_AGE
  }

  // What quota enforcement may remove, and when it may stop

  /** Nothing unprotected was used before this entry. */
  ghost predicate LeastRecent(w: World, protect: Option<Id>, id: Id) {
    && Archived(w, id)
    && forall other | Archived(w, other) && protect != Some(other) ::
         w.root[id].archive.value.mtime <= w.root[other].archive.value.mtime
  }

  ghost predicate MayRemove(w: World, quota: nat, protect: Option<Id>, id: Id) {
    && id in w.root
    && if w.root[id].archive.None? then Stale(w.root[id], w.clock)
       else protect != Some(id) && TotalSize(w.root) > quota && LeastRecent(w, protect, id)
  }

  /** Every step removes a directory that may be removed at that moment. */
  ghost predicate Enforcement(w: World, quota: nat, protect: Option<Id>, steps: seq<FileStep>)
    decreases |steps|
  {
    steps == [] ||
    (&& steps[0].RemoveDir?
     && MayRemove(w, quota, protect, steps[0].id)
     && Enforcement(Apply(w, steps[0]), quota, protect, steps[1..]))
  }

  /** The store fits the quota or only the protected entry is left, and no debris that was stale when
      enforcement began is left. */
  ghost predicate Settled(before: nat, w: World, quota: nat, protect: Option<Id>) {
    && (TotalSize(w.root) <= quota || forall id | Archived(w, id) :: protect == Some(id))
    && forall id | id in w.root && w.root[id].archive.None? :: !Stale(w.root[id], before)
  }

  lemma {:induction false} EnforcementRuns(w: World, quota: nat, protect: Option<Id>, steps: seq<FileStep>)
    requires Enforcement(w, quota, protect, steps)
    ensures Runs(w, steps)
    ensures ApplyAll(w, steps).staged == w.staged && ApplyAll(w, steps).clock == w.clock + |steps|
    ensures forall id | id in ApplyAll(w, steps).root :: id in w.root && ApplyAll(w, steps).root[id] == w.root[id]
    ensures protect.Some? && Archived(w, protect.value) ==> Archived(ApplyAll(w, steps), protect.value)
    decreases |steps|
  {
    if steps == [] {
    } else {
      EnforcementRuns(Apply(w, steps[0]), quota, protect, steps[1..]);
    }
  }

  lemma {:induction false} EnforcementOne(w: World, quota: nat, protect: Option<Id>, steps: seq<FileStep>, id: Id)
    requires Enforcement(w, quota, protect, steps) && Runs(w, steps)
    requires MayRemove(ApplyAll(w, steps), quota, protect, id)
    ensures Enforcement(w, quota, protect, steps + [RemoveDir(id)])
    decreases |steps|
  {
    var more := steps + [RemoveDir(id)];
    if steps == [] {
      assert more == [RemoveDir(id)];
      assert Enforcement(Apply(w, more[0]), quota, protect, more[1..]);
    } else {
      assert more[0] == steps[0] && more[1..] == steps[1..] + [RemoveDir(id)];
      EnforcementOne(Apply(w, steps[0]), quota, protect, steps[1..], id);
    }
  }
}
