/** Commits, hits and enforcements of one process that run at the same time, interleaved file step by file step. A
    commit is not atomic here: between two of its steps others act, and a crash ends all of them. */
module CacheInterleaving {
  import opened Common
  import opened CacheIdentity
  import opened CacheTree
  import opened CacheStore
  import opened CacheRuns
  import opened CacheContents

  /** A commit that has claimed its directory and not yet placed its archive: it has taken `done` of the first six
      steps, the clock was read at `created`. */
  datatype Task = Task(t: Triple, source: Source, created: nat, done: nat)

  datatype State = State(w: World, tasks: seq<Task>)

  datatype Happening =
    | Begin(t: Triple, source: Source)   // a commit creates its directory
    | Advance(i: nat)                    // the i-th running commit takes its next step
    | Abandon(i: nat)                    // it fails and removes its directory
    | Hit(id: Id)                        // the touch of a lookup, or the last one of a commit
    | Remove(id: Id)                     // one removal of an enforcement
    | StageFile(path: string, bytes: seq<byte>)
    | PassTime(nanos: nat)
    | Crash

  function TaskStep(task: Task): FileStep
    requires 1 <= task.done <= 5
  {
    (BeginSteps(task.t, task.created) + [ArchiveStep(task.source, Preimage(task.t))])[task.done]
  }

  function IdOf(task: Task): Id {
    Preimage(task.t)
  }

  /** What may happen, wherever the running commits are. */
  ghost predicate Possible(s: State, h: Happening) {
    match h
    case Begin(t, source) => Refusal(s.w, t, source).None?
    case Advance(i) => i < |s.tasks| && 1 <= s.tasks[i].done <= 5 && Enabled(s.w, TaskStep(s.tasks[i]))
    case Abandon(i) => i < |s.tasks| && IdOf(s.tasks[i]) in s.w.root
    case Hit(id) => Archived(s.w, id)
    case Remove(id) => id in s.w.root
    case StageFile(_, _) => true
    case PassTime(_) => true
    case Crash => true
  }

  ghost function StepOf(s: State, h: Happening): Option<FileStep>
    requires Possible(s, h)
  {
    match h
    case Begin(t, _) => Some(CreateDir(Preimage(t)))
    case Advance(i) => Some(TaskStep(s.tasks[i]))
    case Abandon(i) => Some(RemoveDir(IdOf(s.tasks[i])))
    case Hit(id) => Some(Touch(id))
    case Remove(id) => Some(RemoveDir(id))
    case StageFile(path, bytes) => Some(Stage(path, bytes))
    case PassTime(nanos) => Some(Pass(nanos))
    case Crash => None
  }

  function Without<T>(tasks: seq<T>, i: nat): seq<T>
    requires i < |tasks|
  {
    tasks[..i] + tasks[i + 1..]
  }

  /** The running commits afterwards; one whose archive is in place is no longer among them. */
  ghost function TasksAfter(s: State, h: Happening): seq<Task>
    requires Possible(s, h)
  {
    match h
    case Begin(t, source) => s.tasks + [Task(t, source, s.w.clock + 1, 1)]
    case Advance(i) =>
      if s.tasks[i].done == 5 then Without(s.tasks, i)
      else s.tasks[i := s.tasks[i].(done := s.tasks[i].done + 1)]
    case Abandon(i) => Without(s.tasks, i)
    case Crash => []
    case _ => s.tasks
  }

  ghost function Next(s: State, h: Happening): State
    requires Possible(s, h)
  {
    var step := StepOf(s, h);
    State(if step.Some? then Apply(s.w, step.value) else s.w, TasksAfter(s, h))
  }

  // The invariant

  /** The directory of a running commit is as far as the commit is. */
  ghost predicate Claims(dir: Dir, task: Task) {
    && (if task.done >= 2 then dir.namespace.Some? && dir.namespace.value.value == task.t.namespace
        else dir.namespace.None?)
    && (if task.done >= 3 then dir.key.Some? && dir.key.value.value == task.t.key else dir.key.None?)
    && (if task.done >= 4 then dir.version.Some? && dir.version.value.value == task.t.version else dir.version.None?)
    && (if task.done >= 5 then dir.createdAt.Some? && dir.createdAt.value.value == task.created
        else dir.createdAt.None?)
    && dir.archive.None?
  }

  ghost predicate TaskOk(w: World, task: Task) {
    && 1 <= task.done <= 5 && ValidKey(task.t.key)
    && task.created + task.done <= w.clock + 1
    && IdOf(task) in w.root && Claims(w.root[IdOf(task)], task)
    && forall id | id in w.root && id != IdOf(task) && w.root[id].createdAt.Some? ::
         w.root[id].createdAt.value.value != task.created
  }

  /** Two running commits have neither a directory nor a creation time in common. */
  predicate Apart(a: Task, b: Task) {
    IdOf(a) != IdOf(b) && a.created != b.created
  }

  ghost predicate Ok(s: State) {
    && Inv(s.w)
    && (forall i | 0 <= i < |s.tasks| :: TaskOk(s.w, s.tasks[i]))
    && (forall i, j | 0 <= i < j < |s.tasks| :: Apart(s.tasks[i], s.tasks[j]))
  }

  /** The condition: an enforcement removes no directory that a running commit has claimed. */
  ghost predicate Respects(s: State, h: Happening) {
    h.Remove? ==> forall i | 0 <= i < |s.tasks| :: IdOf(s.tasks[i]) != h.id
  }

  /** An enforcement may break it exactly for a claim of which every file so far was written longer ago than the age,
      and so for every claim that is still empty. */
  lemma OnlyEmptyOrOldClaimsAreReaped(s: State, quota: nat, protect: Option<Id>, i: nat)
    requires Ok(s) && i < |s.tasks|
    ensures var dir := s.w.root[IdOf(s.tasks[i])];
      && (s.tasks[i].done == 1 <==> Mtimes(dir) == [])
      && (MayRemove(s.w, quota, protect, IdOf(s.tasks[i])) <==>
          forall m | m in Mtimes(dir) :: s.w.clock > m + STALE_WRITE_MAX_AGE)
  {
    var dir := s.w.root[IdOf(s.tasks[i])];
    assert TaskOk(s.w, s.tasks[i]);
    if s.tasks[i].done > 1 {
      assert Mtimes(dir)[0] == dir.namespace.value.mtime;
    }
  }

  lemma AdvanceIsGood(w: World, task: Task)
    requires Inv(w) && TaskOk(w, task) && Enabled(w, TaskStep(task))
    ensures Good(w, TaskStep(task)) && Target(TaskStep(task)) == Some(IdOf(task))
  {
    assert DirOk(IdOf(task), w.root[IdOf(task)], w.clock);
  }

  lemma HappeningIsGood(s: State, h: Happening)
    requires Ok(s) && Possible(s, h)
    ensures StepOf(s, h).Some? ==> Good(s.w, StepOf(s, h).value)
  {
    if h.Advance? {
      AdvanceIsGood(s.w, s.tasks[h.i]);
    }
  }

  /** A step on another directory that sets no creation time leaves a running commit where it is. */
  lemma OthersStay(w: World, step: FileStep, task: Task)
    requires Enabled(w, step) && TaskOk(w, task) && Target(step) != Some(IdOf(task))
    requires step.WriteCreatedAt? ==> step.nanos != task.created
    ensures TaskOk(Apply(w, step), task)
  {
    OtherDirsStay(w, step, IdOf(task));
  }

  lemma AdvancedIsOk(w: World, task: Task)
    requires Inv(w) && TaskOk(w, task) && task.done < 5 && Enabled(w, TaskStep(task))
    ensures TaskOk(Apply(w, TaskStep(task)), task.(done := task.done + 1))
  {
  }

  lemma BegunIsOk(w: World, t: Triple, source: Source)
    requires Inv(w) && Refusal(w, t, source).None?
    ensures TaskOk(Apply(w, CreateDir(Preimage(t))), Task(t, source, w.clock + 1, 1))
  {
    assert forall id | id in w.root :: DirOk(id, w.root[id], w.clock);
  }

  /** Each running commit is in its place, apart from one that is looked at on its own. */
  lemma BystandersStay(s: State, h: Happening, j: nat)
    requires Ok(s) && Possible(s, h) && Respects(s, h) && j < |s.tasks| && !h.Crash?
    requires (h.Advance? || h.Abandon?) ==> h.i != j
    ensures TaskOk(Next(s, h).w, s.tasks[j])
  {
    var step, task := StepOf(s, h).value, s.tasks[j];
    assert TaskOk(s.w, task);
    if h.Advance? || h.Abandon? {
      assert TaskOk(s.w, s.tasks[h.i]);
      assert if h.i < j then Apart(s.tasks[h.i], task) else Apart(task, s.tasks[h.i]);
      if h.Advance? {
        AdvanceIsGood(s.w, s.tasks[h.i]);
      }
    }
    OthersStay(s.w, step, task);
  }

  /** The running commits afterwards are running commits from before, the one that advanced, or the one that began. */
  ghost predicate Successor(s: State, h: Happening, j: nat, k: nat)
    requires Possible(s, h) && j < |TasksAfter(s, h)| && k < |s.tasks|
  {
    && ((h.Advance? || h.Abandon?) && h.i == k ==>
          h.Advance? && s.tasks[k].done < 5 && TasksAfter(s, h)[j] == s.tasks[k].(done := s.tasks[k].done + 1))
    && (!((h.Advance? || h.Abandon?) && h.i == k) ==> TasksAfter(s, h)[j] == s.tasks[k])
  }

  /** Where a running commit was in the list before. */
  function Before(h: Happening, done: nat, j: nat): nat {
    if ((h.Advance? && done == 5) || h.Abandon?) && j >= h.i then j + 1 else j
  }

  ghost function DoneAt(s: State, h: Happening): nat
    requires Possible(s, h)
  {
    if h.Advance? then s.tasks[h.i].done else 0
  }

  lemma TasksComeFrom(s: State, h: Happening, j: nat)
    requires Possible(s, h) && j < |TasksAfter(s, h)| && !(h.Begin? && j == |s.tasks|)
    ensures var k := Before(h, DoneAt(s, h), j); k < |s.tasks| && Successor(s, h, j, k)
  {
  }

  lemma SurvivorIsOk(s: State, h: Happening, j: nat)
    requires Ok(s) && Possible(s, h) && Respects(s, h) && j < |TasksAfter(s, h)| && !h.Crash?
    requires !(h.Begin? && j == |s.tasks|)
    ensures TaskOk(Next(s, h).w, TasksAfter(s, h)[j])
  {
    var k := Before(h, DoneAt(s, h), j);
    TasksComeFrom(s, h, j);
    if h.Advance? && h.i == k {
      AdvancedIsOk(s.w, s.tasks[k]);
    } else {
      BystandersStay(s, h, k);
    }
  }

  lemma SurvivorsAreApart(s: State, h: Happening, i: nat, j: nat)
    requires Ok(s) && Possible(s, h) && i < j < |TasksAfter(s, h)|
    ensures Apart(TasksAfter(s, h)[i], TasksAfter(s, h)[j])
  {
    TasksComeFrom(s, h, i);
    var k := Before(h, DoneAt(s, h), i);
    assert TaskOk(s.w, s.tasks[k]);
    if !(h.Begin? && j == |s.tasks|) {
      TasksComeFrom(s, h, j);
      assert Apart(s.tasks[k], s.tasks[Before(h, DoneAt(s, h), j)]);
    }
  }

  /** The invariant is kept whatever happens, if enforcements respect running commits. */
  lemma HappeningKeepsOk(s: State, h: Happening)
    requires Ok(s) && Possible(s, h) && Respects(s, h)
    ensures Ok(Next(s, h))
  {
    HappeningIsGood(s, h);
    if !h.Crash? {
      GoodKeepsInv(s.w, StepOf(s, h).value);
      forall j | 0 <= j < |TasksAfter(s, h)|
        ensures TaskOk(Next(s, h).w, TasksAfter(s, h)[j])
      {
        if h.Begin? && j == |s.tasks| {
          BegunIsOk(s.w, h.t, h.source);
        } else {
          SurvivorIsOk(s, h, j);
        }
      }
      forall i, j | 0 <= i < j < |TasksAfter(s, h)|
        ensures Apart(TasksAfter(s, h)[i], TasksAfter(s, h)[j])
      {
        SurvivorsAreApart(s, h, i, j);
      }
    }
  }

  /** And only then. */
  lemma InvariantIsKeptExactly(s: State, h: Happening)
    requires Ok(s) && Possible(s, h)
    ensures Ok(Next(s, h)) <==> Respects(s, h)
  {
    if Respects(s, h) {
      HappeningKeepsOk(s, h);
    } else {
      var i: nat :| i < |s.tasks| && IdOf(s.tasks[i]) == h.id;
      assert !TaskOk(Next(s, h).w, Next(s, h).tasks[i]);
    }
  }

  // What happens to the abstract store

  /** The sixth step of a commit adds its item, a removal removes items, nothing else changes the store. */
  ghost predicate StoreStep(s: State, h: Happening, after: Contents)
    requires Possible(s, h)
  {
    var before := ContentsOf(s.w);
    match h
    case Advance(i) =>
      var task := s.tasks[i];
      if task.done < 5 then after == before
      else task.t !in before && (task.source.Staged? ==> task.source.path in s.w.staged)
           && after == before[task.t := Item(SourceBytes(s.w, task.source), task.created)]
    case Abandon(_) => after == before
    case Remove(_) => Within(after, before)
    case _ => after == before
  }

  lemma PlacingStoresItem(w: World, task: Task)
    requires Inv(w) && TaskOk(w, task) && task.done == 5 && Enabled(w, TaskStep(task))
    ensures task.source.Staged? ==> task.source.path in w.staged
    ensures task.t !in ContentsOf(w)
    ensures ContentsOf(Apply(w, TaskStep(task))) ==
      ContentsOf(w)[task.t := Item(SourceBytes(w, task.source), task.created)]
  {
    AdvanceIsGood(w, task);
    var step := TaskStep(task);
    assert step == ArchiveStep(task.source, IdOf(task));
    assert Affects(w, step) == Some(task.t);
    PlacementStores(w, step, task.t);
    ContentsExact(w);
  }

  lemma AbandonKeepsContents(w: World, task: Task)
    requires Inv(w) && TaskOk(w, task)
    ensures ContentsOf(Apply(w, RemoveDir(IdOf(task)))) == ContentsOf(w)
  {
    RemovingDebrisKeepsContents(w, IdOf(task));
  }

  /** Every step of every interleaving is a step of the abstract store. */
  lemma HappeningRefines(s: State, h: Happening)
    requires Ok(s) && Possible(s, h)
    ensures StoreStep(s, h, ContentsOf(Next(s, h).w))
  {
    HappeningIsGood(s, h);
    if h.Crash? {
    } else if h.Advance? && s.tasks[h.i].done == 5 {
      PlacingStoresItem(s.w, s.tasks[h.i]);
    } else if h.Abandon? {
      AbandonKeepsContents(s.w, s.tasks[h.i]);
    } else if h.Remove? {
      RemovalOnlyRemoves(s.w, h.id);
    } else {
      QuietStepKeepsContents(s.w, StepOf(s, h).value);
    }
  }

  // Runs

  ghost predicate Interleaves(s: State, hs: seq<Happening>)
    decreases |hs|
  {
    hs == [] || (Possible(s, hs[0]) && Interleaves(Next(s, hs[0]), hs[1..]))
  }

  /** The condition, all along. */
  ghost predicate RespectsThroughout(s: State, hs: seq<Happening>)
    requires Interleaves(s, hs)
    decreases |hs|
  {
    hs == [] || (Respects(s, hs[0]) && RespectsThroughout(Next(s, hs[0]), hs[1..]))
  }

  ghost function End(s: State, hs: seq<Happening>): State
    requires Interleaves(s, hs)
    decreases |hs|
  {
    if hs == [] then s else End(Next(s, hs[0]), hs[1..])
  }

  /** In every interleaving the invariant holds, so every archive has its sidecars, and running commits are apart. */
  lemma {:induction false} InterleavingsKeepOk(s: State, hs: seq<Happening>)
    requires Ok(s) && Interleaves(s, hs) && RespectsThroughout(s, hs)
    ensures Ok(End(s, hs))
    decreases |hs|
  {
    if hs == [] {
    } else {
      HappeningKeepsOk(s, hs[0]);
      InterleavingsKeepOk(Next(s, hs[0]), hs[1..]);
    }
  }

  ghost predicate StoredThroughout(s: State, hs: seq<Happening>, t: Triple)
    requires Interleaves(s, hs)
    decreases |hs|
  {
    && t in ContentsOf(s.w)
    && (hs != [] ==> StoredThroughout(Next(s, hs[0]), hs[1..], t))
  }

  /** In every interleaving an entry keeps its bytes and its creation time for as long as it stays stored. */
  lemma {:induction false} InterleavedItemsNeverChange(s: State, hs: seq<Happening>, t: Triple)
    requires Ok(s) && Interleaves(s, hs) && RespectsThroughout(s, hs) && StoredThroughout(s, hs, t)
    ensures t in ContentsOf(End(s, hs).w) && ContentsOf(End(s, hs).w)[t] == ContentsOf(s.w)[t]
    decreases |hs|
  {
    if hs == [] {
    } else {
      HappeningRefines(s, hs[0]);
      HappeningKeepsOk(s, hs[0]);
      InterleavedItemsNeverChange(Next(s, hs[0]), hs[1..], t);
    }
  }

  // Why enforcements must respect running commits

  lemma HappenThen(s: State, h: Happening, rest: seq<Happening>)
    requires Possible(s, h) && Interleaves(Next(s, h), rest)
    ensures Interleaves(s, [h] + rest) && End(s, [h] + rest) == End(Next(s, h), rest)
  {
    assert ([h] + rest)[1..] == rest;
  }

  /** The sidecars that a running commit has written hold what it wrote, whatever else is there. */
  predicate Written(dir: Dir, task: Task) {
    && (task.done >= 2 ==> dir.namespace.Some? && dir.namespace.value.value == task.t.namespace)
    && (task.done >= 3 ==> dir.key.Some? && dir.key.value.value == task.t.key)
    && (task.done >= 4 ==> dir.version.Some? && dir.version.value.value == task.t.version)
    && (task.done >= 5 ==> dir.createdAt.Some?)
  }

  /** The i-th running commit, of bytes in memory, with its directory in place. */
  ghost predicate RunningAt(s: State, i: nat, task: Task) {
    && i < |s.tasks| && s.tasks[i] == task && 1 <= task.done <= 5 && task.source.Inline?
    && IdOf(task) in s.w.root && Written(s.w.root[IdOf(task)], task)
  }

  lemma SidecarIsWritten(w: World, task: Task)
    requires 1 <= task.done < 5 && IdOf(task) in w.root && Written(w.root[IdOf(task)], task)
    ensures var next := Apply(w, TaskStep(task));
      && IdOf(task) in next.root && Written(next.root[IdOf(task)], task.(done := task.done + 1))
      && (Holds(w, task.t) ==> Holds(next, task.t))
  {
  }

  lemma ArchiveIsWritten(w: World, task: Task)
    requires task.done == 5 && task.source.Inline? && IdOf(task) in w.root && Written(w.root[IdOf(task)], task)
    ensures var next := Apply(w, TaskStep(task));
      Holds(next, task.t) && ItemAt(next, IdOf(task)).bytes == task.source.bytes
  {
  }

  lemma ChangedIsOut<T>(tasks: seq<T>, i: nat, changed: T)
    requires i < |tasks|
    ensures Without(tasks[i := changed], i) == Without(tasks, i)
  {
  }

  /** A stored entry stays stored in a step that leaves it stored, and then in the others. */
  lemma StoredThen(s: State, h: Happening, rest: seq<Happening>, t: Triple)
    requires Possible(s, h) && Interleaves(Next(s, h), rest) && Interleaves(s, [h] + rest)
    requires Holds(s.w, t) && StoredThroughout(Next(s, h), rest, t)
    ensures StoredThroughout(s, [h] + rest, t)
  {
    ContentsExact(s.w);
    assert ([h] + rest)[1..] == rest;
  }

  lemma StoredAtTheEnd(s: State, t: Triple)
    requires Holds(s.w, t)
    ensures StoredThroughout(s, [], t)
  {
    ContentsExact(s.w);
  }

  /** The remaining steps of a running commit, with nothing in between, place its archive, whatever was there. If its
      entry is stored already, it stays stored. */
  lemma {:induction false} RunsThrough(s: State, i: nat, task: Task) returns (hs: seq<Happening>)
    requires RunningAt(s, i, task)
    ensures Interleaves(s, hs) && (forall h | h in hs :: h == Advance(i)) && End(s, hs).tasks == Without(s.tasks, i)
    ensures Holds(End(s, hs).w, task.t) && ItemAt(End(s, hs).w, IdOf(task)).bytes == task.source.bytes
    ensures Holds(s.w, task.t) ==> StoredThroughout(s, hs, task.t)
    decreases 6 - task.done
  {
    var rest := [];
    if task.done == 5 {
      ArchiveIsWritten(s.w, task);
      StoredAtTheEnd(Next(s, Advance(i)), task.t);
    } else {
      SidecarIsWritten(s.w, task);
      ChangedIsOut(s.tasks, i, task.(done := task.done + 1));
      rest := RunsThrough(Next(s, Advance(i)), i, task.(done := task.done + 1));
    }
    HappenThen(s, Advance(i), rest);
    hs := [Advance(i)] + rest;
    if Holds(s.w, task.t) {
      StoredThen(s, Advance(i), rest, task.t);
    }
  }

  lemma EmptyClaimMayGo(s: State, quota: nat, protect: Option<Id>, i: nat)
    requires Ok(s) && i < |s.tasks| && s.tasks[i].done == 1
    ensures MayRemove(s.w, quota, protect, IdOf(s.tasks[i])) && ValidKey(s.tasks[i].t.key)
  {
    OnlyEmptyOrOldClaimsAreReaped(s, quota, protect, i);
    assert TaskOk(s.w, s.tasks[i]);
  }

  /** The directory of a running commit is removed, and a second commit of the same entry claims it again. */
  lemma ClaimedTwice(s: State, i: nat, b: seq<byte>) returns (s2: State)
    requires i < |s.tasks| && IdOf(s.tasks[i]) in s.w.root && ValidKey(s.tasks[i].t.key)
    ensures var t := s.tasks[i].t; var hs := [Remove(Preimage(t)), Begin(t, Inline(b))];
      && Interleaves(s, hs) && s2 == End(s, hs) && Preimage(t) in s2.w.root
      && s2.tasks == s.tasks + [Task(t, Inline(b), s.w.clock + 2, 1)]
  {
    var t := s.tasks[i].t;
    var s1 := Next(s, Remove(Preimage(t)));
    s2 := Next(s1, Begin(t, Inline(b)));
    HappenThen(s1, Begin(t, Inline(b)), []);
    HappenThen(s, Remove(Preimage(t)), [Begin(t, Inline(b))] + []);
    assert [Remove(Preimage(t))] + ([Begin(t, Inline(b))] + []) == [Remove(Preimage(t)), Begin(t, Inline(b))];
  }

  lemma LastIsKept<T>(tasks: seq<T>, i: nat, last: T)
    requires i < |tasks|
    ensures Without(tasks + [last], i) == Without(tasks, i) + [last]
    ensures (tasks + [last])[i] == tasks[i]
  {
  }

  /** Wherever a commit of bytes in memory has claimed its directory and written nothing yet, an enforcement may remove
      it. If a second commit of the same entry then claims it again, both succeed, and the second changes the bytes of
      the entry while it is stored. */
  lemma ReapedClaimsOverwrite(s: State, quota: nat, i: nat, b: seq<byte>)
    returns (s2: State, first: seq<Happening>, second: seq<Happening>)
    requires Ok(s) && i < |s.tasks| && s.tasks[i].done == 1 && s.tasks[i].source.Inline?
    ensures MayRemove(s.w, quota, None, IdOf(s.tasks[i]))
    ensures var t := s.tasks[i].t; var hs := [Remove(Preimage(t)), Begin(t, Inline(b))];
      Interleaves(s, hs) && s2 == End(s, hs)
    ensures Interleaves(s2, first) && (forall h | h in first :: h == Advance(i))
    ensures Interleaves(End(s2, first), second) && (forall h | h in second :: h == Advance(|s.tasks| - 1))
    ensures BytesChange(End(s2, first), second, s.tasks[i].t, s.tasks[i].source.bytes, b)
  {
    EmptyClaimMayGo(s, quota, None, i);
    var two := Task(s.tasks[i].t, Inline(b), s.w.clock + 2, 1);
    s2 := ClaimedTwice(s, i, b);
    BothAreRunning(s, i, two, s2);
    first, second := BothRunThrough(s2, i, s.tasks[i], |s.tasks| - 1, two);
  }

  lemma BothAreRunning(s: State, i: nat, two: Task, s2: State)
    requires i < |s.tasks| && s.tasks[i].done == 1 && s.tasks[i].source.Inline?
    requires s2.tasks == s.tasks + [two] && IdOf(s.tasks[i]) in s2.w.root
    ensures RunningAt(s2, i, s.tasks[i])
    ensures |s.tasks| - 1 < |Without(s2.tasks, i)| && Without(s2.tasks, i)[|s.tasks| - 1] == two
  {
    LastIsKept(s.tasks, i, two);
  }

  lemma BothRunThrough(s: State, i: nat, one: Task, j: nat, two: Task)
    returns (first: seq<Happening>, second: seq<Happening>)
    requires RunningAt(s, i, one) && two.t == one.t && two.done == 1 && two.source.Inline?
    requires j < |Without(s.tasks, i)| && Without(s.tasks, i)[j] == two
    ensures Interleaves(s, first) && Interleaves(End(s, first), second)
    ensures (forall h | h in first :: h == Advance(i)) && (forall h | h in second :: h == Advance(j))
    ensures BytesChange(End(s, first), second, one.t, one.source.bytes, two.source.bytes)
  {
    first := RunsThrough(s, i, one);
    var next := End(s, first);
    second := RunsThrough(next, j, two);
    ContentsExact(next.w);
    ContentsExact(End(next, second).w);
  }

  /** An entry is stored all along, first with some bytes and at the end with others. */
  ghost predicate BytesChange(s: State, hs: seq<Happening>, t: Triple, a: seq<byte>, b: seq<byte>) {
    && Interleaves(s, hs) && StoredThroughout(s, hs, t)
    && ContentsOf(s.w)[t].bytes == a
    && t in ContentsOf(End(s, hs).w) && ContentsOf(End(s, hs).w)[t].bytes == b
  }

  // Reading an entry some time after it was found

  /** What reading the archive of a directory gives: its bytes, or an error if there is none. */
  function ReadAt(w: World, id: Id): Option<seq<byte>> {
    if Archived(w, id) then Some(w.root[id].archive.value.bytes) else None
  }

  /** What a running commit is about to place. */
  function PlacedBytes(w: World, source: Source): Option<seq<byte>> {
    match source
    case Inline(bytes) => Some(bytes)
    case Staged(path) => if path in w.staged then Some(w.staged[path].bytes) else None
  }

  /** What can make a difference to a reader: the removal of the directory, and a commit that fills it again. */
  ghost function ReadAfter(s: State, hs: seq<Happening>, id: Id, read: Option<seq<byte>>): Option<seq<byte>>
    requires Interleaves(s, hs)
    decreases |hs|
  {
    if hs == [] then read
    else
      var now :=
        if hs[0] == Remove(id) then None
        else if hs[0].Advance? && s.tasks[hs[0].i].done == 5 && IdOf(s.tasks[hs[0].i]) == id
             then PlacedBytes(s.w, s.tasks[hs[0].i].source)
        else read;
      ReadAfter(Next(s, hs[0]), hs[1..], id, now)
  }

  lemma AdvanceIsReadable(w: World, task: Task)
    requires TaskOk(w, task) && Enabled(w, TaskStep(task))
    ensures ReadAt(Apply(w, TaskStep(task)), IdOf(task)) ==
      if task.done == 5 then PlacedBytes(w, task.source) else ReadAt(w, IdOf(task))
  {
  }

  lemma OneReadStep(s: State, h: Happening, id: Id)
    requires Ok(s) && Possible(s, h)
    ensures ReadAt(Next(s, h).w, id) ==
      if h == Remove(id) then None
      else if h.Advance? && s.tasks[h.i].done == 5 && IdOf(s.tasks[h.i]) == id
           then PlacedBytes(s.w, s.tasks[h.i].source)
      else ReadAt(s.w, id)
  {
    if h.Crash? {
    } else if Target(StepOf(s, h).value) != Some(id) {
      OtherDirsStay(s.w, StepOf(s, h).value, id);
    } else if h.Advance? {
      AdvanceIsReadable(s.w, s.tasks[h.i]);
    } else if h.Abandon? {
      assert TaskOk(s.w, s.tasks[h.i]);
    }
  }

  /** A `get` that found the directory reads, however late, what the last removal or commit of it in between has left,
      and otherwise what was there. */
  lemma {:induction false} ReadsExactly(s: State, hs: seq<Happening>, id: Id)
    requires Ok(s) && Interleaves(s, hs) && RespectsThroughout(s, hs)
    ensures ReadAt(End(s, hs).w, id) == ReadAfter(s, hs, id, ReadAt(s.w, id))
    decreases |hs|
  {
    if hs == [] {
    } else {
      OneReadStep(s, hs[0], id);
      HappeningKeepsOk(s, hs[0]);
      ReadsExactly(Next(s, hs[0]), hs[1..], id);
    }
  }

  lemma UnremovedStep(s: State, h: Happening, id: Id)
    requires Ok(s) && Possible(s, h) && Archived(s.w, id) && h != Remove(id)
    ensures ReadAt(Next(s, h).w, id) == ReadAt(s.w, id)
  {
    OneReadStep(s, h, id);
    if h.Advance? {
      assert TaskOk(s.w, s.tasks[h.i]);
    }
  }

  /** If the directory is not removed in between, it reads the bytes that were stored when it was found. */
  lemma {:induction false} UnremovedIsRead(s: State, hs: seq<Happening>, id: Id)
    requires Ok(s) && Interleaves(s, hs) && RespectsThroughout(s, hs)
    requires Archived(s.w, id) && forall h | h in hs :: h != Remove(id)
    ensures ReadAt(End(s, hs).w, id) == Some(s.w.root[id].archive.value.bytes)
    decreases |hs|
  {
    if hs == [] {
    } else {
      assert hs[0] in hs;
      UnremovedStep(s, hs[0], id);
      HappeningKeepsOk(s, hs[0]);
      assert forall h | h in hs[1..] :: h in hs;
      UnremovedIsRead(Next(s, hs[0]), hs[1..], id);
    }
  }

  /** A least recently used entry that was found while the store is over its quota can be gone when it is read: the
      `get` then fails, though the entry was there. */
  lemma FoundCanBeGone(s: State, quota: nat, id: Id)
    requires Ok(s) && LeastRecent(s.w, None, id) && TotalSize(s.w.root) > quota
    ensures MayRemove(s.w, quota, None, id) && Interleaves(s, [Remove(id)]) && RespectsThroughout(s, [Remove(id)])
    ensures ReadAt(End(s, [Remove(id)]).w, id) == None
  {
    var hs := [Remove(id)];
    HappenThen(s, Remove(id), []);
    assert [Remove(id)] + [] == hs;
    forall i | 0 <= i < |s.tasks|
      ensures IdOf(s.tasks[i]) != id
    {
      assert TaskOk(s.w, s.tasks[i]);
    }
    assert hs[1..] == [];
  }
}
