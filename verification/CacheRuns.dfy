/** Whole runs of the cache store: uploads, commits, lookups and enforcements, each possibly cut short by a
    crash after any file step. */
module CacheRuns {
  import opened Common
  import opened CacheIdentity
  import opened CacheTree
  import opened CacheStore

  // The invariant of the cache root

  predicate Named(dir: Dir) {
    dir.namespace.Some? && dir.key.Some? && dir.version.Some?
  }

  function TripleOf(dir: Dir): Triple
    requires Named(dir)
  {
    Triple(dir.namespace.value.value, dir.key.value.value, dir.version.value.value)
  }

  /** Files appear in the order they are written, name the directory they are in, and carry past times. */
  ghost predicate DirOk(id: Id, dir: Dir, now: nat) {
    && (dir.archive.Some? ==> dir.createdAt.Some?)
    && (dir.createdAt.Some? ==> dir.version.Some?)
    && (dir.version.Some? ==> dir.key.Some?)
    && (dir.key.Some? ==> dir.namespace.Some?)
    && (Named(dir) ==> Preimage(TripleOf(dir)) == id)
    && (dir.createdAt.Some? ==> dir.createdAt.value.value < now)
    && PastTimes(dir, now)
  }

  predicate PastTimes(dir: Dir, now: nat) {
    && (dir.namespace.Some? ==> dir.namespace.value.mtime < now)
    && (dir.key.Some? ==> dir.key.value.mtime < now)
    && (dir.version.Some? ==> dir.version.value.mtime < now)
    && (dir.createdAt.Some? ==> dir.createdAt.value.mtime < now)
    && (dir.archive.Some? ==> dir.archive.value.mtime < now)
  }

  ghost predicate Inv(w: World) {
    && (forall id | id in w.root :: DirOk(id, w.root[id], w.clock))
    && (forall id, other | id in w.root && other in w.root && id != other
                           && w.root[id].createdAt.Some? && w.root[other].createdAt.Some? ::
          w.root[id].createdAt.value.value != w.root[other].createdAt.value.value)
    && (forall path | path in w.staged :: w.staged[path].mtime < w.clock)
  }

  /** A step that the store may take at this point. */
  ghost predicate Good(w: World, step: FileStep) {
    && Enabled(w, step)
    && match step
       case WriteNamespace(id, _) => w.root[id] == EMPTY_DIR
       case WriteKey(id, _) =>
         && w.root[id].namespace.Some? && w.root[id].key.None? && w.root[id].version.None?
         && w.root[id].archive.None?
       case WriteVersion(id, text) =>
         && w.root[id].namespace.Some? && w.root[id].key.Some? && w.root[id].version.None? && w.root[id].archive.None?
         && Preimage(Triple(w.root[id].namespace.value.value, w.root[id].key.value.value, text)) == id
       case WriteCreatedAt(id, nanos) =>
         && w.root[id].version.Some? && w.root[id].createdAt.None? && w.root[id].archive.None?
         && nanos < w.clock
         && forall other | other in w.root && w.root[other].createdAt.Some? ::
           w.root[other].createdAt.value.value != nanos
       case WriteArchive(id, _) => w.root[id].createdAt.Some? && w.root[id].archive.None?
       case RenameIn(_, id) => w.root[id].createdAt.Some? && w.root[id].archive.None?
       case _ => true
  }

  /** The directory a step works on. */
  function Target(step: FileStep): Option<Id> {
    match step
    case CreateDir(id) => Some(id)
    case WriteNamespace(id, _) => Some(id)
    case WriteKey(id, _) => Some(id)
    case WriteVersion(id, _) => Some(id)
    case WriteCreatedAt(id, _) => Some(id)
    case WriteArchive(id, _) => Some(id)
    case RenameIn(_, id) => Some(id)
    case Touch(id) => Some(id)
    case RemoveDir(id) => Some(id)
    case Stage(_, _) => None
    case Pass(_) => None
  }

  lemma OtherDirsStay(w: World, step: FileStep, id: Id)
    requires Enabled(w, step) && Target(step) != Some(id)
    ensures id in RootAfter(w, step) <==> id in w.root
    ensures id in w.root ==> RootAfter(w, step)[id] == w.root[id]
  {
  }

  lemma TargetStaysOk(w: World, step: FileStep, id: Id)
    requires Inv(w) && Good(w, step) && Target(step) == Some(id) && id in RootAfter(w, step)
    ensures DirOk(id, RootAfter(w, step)[id], w.clock + 1)
  {
    if id in w.root {
      assert DirOk(id, w.root[id], w.clock);
    }
  }

  /** No other directory has the creation time of the one a step works on. */
  lemma TargetKeepsItsTime(w: World, step: FileStep, id: Id, other: Id)
    requires Inv(w) && Good(w, step) && Target(step) == Some(id) && id in RootAfter(w, step)
    requires other in w.root && other != id && w.root[other].createdAt.Some? && RootAfter(w, step)[id].createdAt.Some?
    ensures RootAfter(w, step)[id].createdAt.value.value != w.root[other].createdAt.value.value
  {
  }

  lemma GoodKeepsInv(w: World, step: FileStep)
    requires Inv(w) && Good(w, step)
    ensures Inv(Apply(w, step))
  {
    var next := Apply(w, step);
    forall id | id in next.root
      ensures DirOk(id, next.root[id], next.clock)
    {
      if Target(step) == Some(id) {
        TargetStaysOk(w, step, id);
      } else {
        OtherDirsStay(w, step, id);
        assert DirOk(id, w.root[id], w.clock);
      }
    }
    forall id, other | id in next.root && other in next.root && id != other
                       && next.root[id].createdAt.Some? && next.root[other].createdAt.Some?
      ensures next.root[id].createdAt.value.value != next.root[other].createdAt.value.value
    {
      if Target(step) == Some(id) {
        OtherDirsStay(w, step, other);
        TargetKeepsItsTime(w, step, id, other);
      } else if Target(step) == Some(other) {
        OtherDirsStay(w, step, id);
        TargetKeepsItsTime(w, step, other, id);
      } else {
        OtherDirsStay(w, step, id);
        OtherDirsStay(w, step, other);
      }
    }
  }

  ghost predicate GoodRun(w: World, steps: seq<FileStep>)
    decreases |steps|
  {
    steps == [] || (Good(w, steps[0]) && GoodRun(Apply(w, steps[0]), steps[1..]))
  }

  lemma {:induction false} GoodRunKeepsInv(w: World, steps: seq<FileStep>)
    requires Inv(w) && GoodRun(w, steps)
    ensures Runs(w, steps) && Inv(ApplyAll(w, steps))
    decreases |steps|
  {
    if steps == [] {
    } else {
      GoodKeepsInv(w, steps[0]);
      GoodRunKeepsInv(Apply(w, steps[0]), steps[1..]);
    }
  }

  lemma {:induction false} GoodRunAppends(w: World, a: seq<FileStep>, b: seq<FileStep>)
    requires GoodRun(w, a) && Runs(w, a) && GoodRun(ApplyAll(w, a), b)
    ensures GoodRun(w, a + b)
    decreases |a|
  {
    if a == [] {
      assert a + b == b;
    } else {
      assert (a + b)[0] == a[0] && (a + b)[1..] == a[1..] + b;
      GoodRunAppends(Apply(w, a[0]), a[1..], b);
    }
  }

  lemma {:induction false} GoodRunPrefix(w: World, steps: seq<FileStep>, n: nat)
    requires GoodRun(w, steps) && n <= |steps|
    ensures GoodRun(w, steps[..n])
    decreases n
  {
    if n == 0 {
    } else {
      assert steps[..n][0] == steps[0] && steps[..n][1..] == steps[1..][..n - 1];
      GoodRunPrefix(Apply(w, steps[0]), steps[1..], n - 1);
    }
  }

  lemma {:induction false} EnforcementIsGood(w: World, quota: nat, protect: Option<Id>, steps: seq<FileStep>)
    requires Enforcement(w, quota, protect, steps)
    ensures GoodRun(w, steps)
    decreases |steps|
  {
    if steps == [] {
    } else {
      EnforcementIsGood(Apply(w, steps[0]), quota, protect, steps[1..]);
    }
  }

  lemma GoodRunOne(w: World, a: seq<FileStep>, step: FileStep)
    requires GoodRun(w, a) && Runs(w, a) && Good(ApplyAll(w, a), step)
    ensures GoodRun(w, a + [step]) && Runs(w, a + [step])
    ensures ApplyAll(w, a + [step]) == Apply(ApplyAll(w, a), step)
  {
    RunsOne(w, a, step);
    var there := ApplyAll(w, a);
    assert [step][1..] == [] && GoodRun(Apply(there, step), []);
    GoodRunAppends(w, a, [step]);
  }

  /** A claimed directory with its first `n` sidecars written. */
  function PartDir(t: Triple, now: nat, n: nat): Dir
    requires n <= 4
  {
    var d := ClaimedDir(t, now);
    Dir(if n >= 1 then d.namespace else None, if n >= 2 then d.key else None, if n >= 3 then d.version else None,
        if n >= 4 then d.createdAt else None, None)
  }

  function PartWorld(w: World, t: Triple, n: nat): World
    requires n <= 4
  {
    World(w.root[Preimage(t) := PartDir(t, w.clock, n)], w.staged, w.clock + 1 + n)
  }

  /** The step that writes the next sidecar. */
  function SidecarStep(t: Triple, created: nat, n: nat): FileStep
    requires n < 4
  {
    if n == 0 then WriteNamespace(Preimage(t), t.namespace)
    else if n == 1 then WriteKey(Preimage(t), t.key)
    else if n == 2 then WriteVersion(Preimage(t), t.version)
    else WriteCreatedAt(Preimage(t), created)
  }

  /** A directory with the next sidecar. */
  function SidecarDir(dir: Dir, t: Triple, now: nat, created: nat, n: nat): Dir
    requires n < 4
  {
    if n == 0 then dir.(namespace := Some(Sidecar(t.namespace, now)))
    else if n == 1 then dir.(key := Some(Sidecar(t.key, now)))
    else if n == 2 then dir.(version := Some(Sidecar(t.version, now)))
    else dir.(createdAt := Some(Sidecar(created, now)))
  }

  lemma UpdatedTwice<K, V>(m: map<K, V>, k: K, v: V, w: V)
    ensures m[k := v][k := w] == m[k := w]
  {
  }

  lemma SidecarLeadsOn(w: World, t: Triple, n: nat)
    requires Preimage(t) !in w.root && n < 4
    ensures var step := SidecarStep(t, w.clock + 1, n);
      Enabled(PartWorld(w, t, n), step) && Apply(PartWorld(w, t, n), step) == PartWorld(w, t, n + 1)
  {
    UpdatedTwice(w.root, Preimage(t), PartDir(t, w.clock, n), PartDir(t, w.clock, n + 1));
    assert SidecarDir(PartDir(t, w.clock, n), t, w.clock + 1 + n, w.clock + 1, n) == PartDir(t, w.clock, n + 1);
  }

  lemma SidecarIsGood(w: World, t: Triple, n: nat)
    requires Inv(w) && Preimage(t) !in w.root && n < 4
    ensures Good(PartWorld(w, t, n), SidecarStep(t, w.clock + 1, n))
  {
    if n == 3 {
      assert forall other | other in w.root :: DirOk(other, w.root[other], w.clock);
    }
  }

  lemma NextSidecarIsGood(w: World, t: Triple, n: nat)
    requires Inv(w) && Preimage(t) !in w.root && n < 4
    ensures var step := BeginSteps(t, w.clock + 1)[n + 1];
      Good(PartWorld(w, t, n), step) && Apply(PartWorld(w, t, n), step) == PartWorld(w, t, n + 1)
  {
    assert BeginSteps(t, w.clock + 1)[n + 1] == SidecarStep(t, w.clock + 1, n);
    SidecarLeadsOn(w, t, n);
    SidecarIsGood(w, t, n);
  }

  lemma {:induction false} SidecarsAreGood(w: World, t: Triple, n: nat)
    requires Inv(w) && Preimage(t) !in w.root && n <= 4
    ensures GoodRun(PartWorld(w, t, n), BeginSteps(t, w.clock + 1)[n + 1..])
    decreases 4 - n
  {
    if n < 4 {
      NextSidecarIsGood(w, t, n);
      SidecarsAreGood(w, t, n + 1);
      assert BeginSteps(t, w.clock + 1)[n + 1..][1..] == BeginSteps(t, w.clock + 1)[n + 2..];
    }
  }

  /** Claiming a directory takes good steps, in a world that satisfies the invariant. */
  lemma BeginIsGood(w: World, t: Triple)
    requires Inv(w) && Preimage(t) !in w.root
    ensures GoodRun(w, BeginSteps(t, w.clock + 1))
  {
    SidecarsAreGood(w, t, 0);
    assert Apply(w, CreateDir(Preimage(t))) == PartWorld(w, t, 0);
  }

  /** So does a whole commit. */
  lemma CommitIsGood(w: World, t: Triple, source: Source)
    requires Inv(w) && Refusal(w, t, source).None?
    ensures GoodRun(w, CommitSteps(w, t, source))
  {
    var begin := BeginSteps(t, w.clock + 1);
    BeginIsGood(w, t);
    BeginRuns(w, t);
    ArchiveIsGood(w, t, source, begin);
    assert begin + [ArchiveStep(source, Preimage(t))] + [Touch(Preimage(t))] == CommitSteps(w, t, source);
  }

  /** Once its directory is claimed, placing and touching the archive are good steps. */
  lemma ArchiveIsGood(w: World, t: Triple, source: Source, begin: seq<FileStep>)
    requires GoodRun(w, begin) && Runs(w, begin) && (source.Staged? ==> source.path in w.staged)
    requires ApplyAll(w, begin) == World(w.root[Preimage(t) := ClaimedDir(t, w.clock)], w.staged, w.clock + 5)
    ensures GoodRun(w, begin + [ArchiveStep(source, Preimage(t))] + [Touch(Preimage(t))])
  {
    var id := Preimage(t);
    GoodRunOne(w, begin, ArchiveStep(source, id));
    GoodRunOne(w, begin + [ArchiveStep(source, id)], Touch(id));
  }

  // Events and runs

  datatype Event =
    | Upload(path: string, bytes: seq<byte>)
    | Pause(nanos: nat)
    | Commit(t: Triple, source: Source)
    | Lookup(t: Triple, restoreKeys: seq<Text>)
    | EnforceQuota

  /** What a complete execution of an event does. */
  ghost predicate Completes(w: World, quota: nat, e: Event, steps: seq<FileStep>, after: World) {
    match e
    case Upload(path, bytes) => steps == [Stage(path, bytes)] && after == Apply(w, Stage(path, bytes))
    case Pause(nanos) => steps == [Pass(nanos)] && after == Apply(w, Pass(nanos))
    case Commit(t, source) => exists r :: Commits(w, quota, t, source, r, steps, after)
    case Lookup(t, restoreKeys) =>
      if BadRequest(t.key, restoreKeys) then steps == [] && after == w
      else exists answer :: LookedUp(w, t, restoreKeys, answer, steps, after)
    case EnforceQuota => EnforcedTo(w, quota, None, steps, after) && Settled(w.clock, after, quota, None)
  }

  ghost predicate LookedUp(w: World, t: Triple, restoreKeys: seq<Text>, answer: Option<CacheEntry>,
                           steps: seq<FileStep>, after: World)
  {
    && Resolves(w, t, restoreKeys, answer)
    && if answer.None? then steps == [] && after == w
       else
         && Archived(w, answer.value.path) && steps == [Touch(answer.value.path)]
         && after == Apply(w, Touch(answer.value.path))
  }

  /** An event and the steps of it that were executed: all of them if it is done, else any prefix. */
  datatype Move = Move(event: Event, steps: seq<FileStep>, done: bool)

  ghost predicate IsMove(w: World, quota: nat, m: Move) {
    exists full, after :: Completes(w, quota, m.event, full, after) && m.steps <= full && (m.done ==> m.steps == full)
  }

  ghost predicate IsRun(w: World, quota: nat, moves: seq<Move>)
    decreases |moves|
  {
    moves == [] ||
    (&& IsMove(w, quota, moves[0])
     && Runs(w, moves[0].steps)
     && IsRun(ApplyAll(w, moves[0].steps), quota, moves[1..]))
  }

  ghost function EndOf(w: World, quota: nat, moves: seq<Move>): World
    requires IsRun(w, quota, moves)
    decreases |moves|
  {
    if moves == [] then w else EndOf(ApplyAll(w, moves[0].steps), quota, moves[1..])
  }

  lemma CompleteIsGood(w: World, quota: nat, e: Event, steps: seq<FileStep>, after: World)
    requires Inv(w) && Completes(w, quota, e, steps, after)
    ensures GoodRun(w, steps) && Runs(w, steps) && after == ApplyAll(w, steps)
  {
    match e
    case Upload(path, bytes) =>
      assert steps[1..] == [];
    case Pause(nanos) =>
      assert steps[1..] == [];
    case Commit(t, source) =>
      var r :| Commits(w, quota, t, source, r, steps, after);
      if Refusal(w, t, source).None? {
        var first := CommitSteps(w, t, source);
        CommitIsGood(w, t, source);
        var mid := ApplyAll(w, first);
        EnforcementIsGood(mid, quota, Some(Preimage(t)), steps[|first|..]);
        GoodRunAppends(w, first, steps[|first|..]);
        RunsAppend(w, first, steps[|first|..]);
        assert steps == first + steps[|first|..];
      }
    case Lookup(t, restoreKeys) =>
      if !BadRequest(t.key, restoreKeys) {
        var answer :| LookedUp(w, t, restoreKeys, answer, steps, after);
        if answer.Some? {
          assert steps[1..] == [];
        }
      }
    case EnforceQuota =>
      EnforcementIsGood(w, quota, None, steps);
  }

  lemma MoveIsGood(w: World, quota: nat, m: Move)
    requires Inv(w) && IsMove(w, quota, m)
    ensures GoodRun(w, m.steps) && Runs(w, m.steps) && Inv(ApplyAll(w, m.steps))
    ensures m.done ==> Completes(w, quota, m.event, m.steps, ApplyAll(w, m.steps))
  {
    var full, after :| Completes(w, quota, m.event, full, after) && m.steps <= full && (m.done ==> m.steps == full);
    CompleteIsGood(w, quota, m.event, full, after);
    assert m.steps == full[..|m.steps|];
    GoodRunPrefix(w, full, |m.steps|);
    GoodRunKeepsInv(w, m.steps);
  }

  /** The invariant holds after every run, however its events were cut. */
  lemma {:induction false} RunsKeepInv(w: World, quota: nat, moves: seq<Move>)
    requires Inv(w) && IsRun(w, quota, moves)
    ensures Inv(EndOf(w, quota, moves))
    decreases |moves|
  {
    if moves == [] {
    } else {
      MoveIsGood(w, quota, moves[0]);
      RunsKeepInv(ApplyAll(w, moves[0].steps), quota, moves[1..]);
    }
  }

  /** In every reachable world a directory with an archive has its four sidecars, and they name it. */
  lemma ArchivesAreComplete(quota: nat, moves: seq<Move>, id: Id)
    requires IsRun(World(map[], map[], 0), quota, moves)
    requires Archived(EndOf(World(map[], map[], 0), quota, moves), id)
    ensures var dir := EndOf(World(map[], map[], 0), quota, moves).root[id];
      Named(dir) && dir.createdAt.Some? && Preimage(TripleOf(dir)) == id
  {
    var start, end := World(map[], map[], 0), EndOf(World(map[], map[], 0), quota, moves);
    RunsKeepInv(start, quota, moves);
    assert DirOk(id, end.root[id], end.clock);
  }
}
