/** What the cache store keeps over whole runs: it refines a map from triples to immutable items, crashed
    debris does not block a key for good, and eviction is least-recently-used. */
module CacheFacts {
  import opened Common
  import opened CacheIdentity
  import opened CacheTree
  import opened CacheStore
  import opened CacheRuns
  import opened CacheContents

  // Refinement

  /** The abstract store. A refused commit changes nothing; another one adds its item, and may then evict others if
      the store is over quota. An enforcement may evict if the store is over quota. A completed event is not cut
      short: the item is there, and the store fits or holds that item alone. No other event changes the store. */
  ghost predicate AbstractStep(before: Contents, quota: nat, m: Move, refused: bool, bytes: seq<byte>,
                               after: Contents)
  {
    match m.event
    case Commit(t, _) =>
      if refused then after == before
      else t !in before && ((!m.done && after == before) || Committed(before, quota, t, bytes, m.done, after))
    case EnforceQuota => Evicted(before, quota, after) && (m.done ==> Total(after) <= quota)
    case _ => after == before
  }

  ghost predicate Committed(before: Contents, quota: nat, t: Triple, bytes: seq<byte>, done: bool, after: Contents) {
    && t in after && after[t].bytes == bytes
    && Evicted(before[t := after[t]], quota, after)
    && (done ==> Total(after) <= quota || after.Keys == {t})
  }

  predicate Refused(w: World, e: Event) {
    e.Commit? && Refusal(w, e.t, e.source).Some?
  }

  ghost function CommittedBytes(w: World, e: Event): seq<byte> {
    if e.Commit? && (e.source.Staged? ==> e.source.path in w.staged) then SourceBytes(w, e.source) else []
  }

  /** A settled store fits the quota or holds the protected item alone. */
  lemma SettledContents(before: nat, w: World, quota: nat, t: Triple)
    requires Inv(w) && Settled(before, w, quota, Some(Preimage(t))) && t in ContentsOf(w)
    ensures Total(ContentsOf(w)) <= quota || ContentsOf(w).Keys == {t}
  {
    ContentsExact(w);
    TotalIsTotalSize(w);
    if TotalSize(w.root) > quota {
      forall x | x in ContentsOf(w)
        ensures x == t
      {
        assert Holds(w, x) && Holds(w, t);
        assert Archived(w, Preimage(x));
      }
    }
  }

  lemma SettledFits(before: nat, w: World, quota: nat)
    requires Inv(w) && Settled(before, w, quota, None)
    ensures Total(ContentsOf(w)) <= quota
  {
    TotalIsTotalSize(w);
    if forall id | id in w.root :: w.root[id].archive.None? {
      NoArchivesNoTotal(w.root);
    }
  }

  lemma CommitMoveRefines(w: World, quota: nat, m: Move, full: seq<FileStep>, r: Result<CacheEntry, CacheError>,
                          after: World)
    requires Inv(w) && m.event.Commit? && Commits(w, quota, m.event.t, m.event.source, r, full, after)
    requires m.steps <= full && (m.done ==> m.steps == full) && GoodRun(w, m.steps) && Runs(w, m.steps)
    ensures AbstractStep(ContentsOf(w), quota, m, Refused(w, m.event), CommittedBytes(w, m.event),
      ContentsOf(ApplyAll(w, m.steps)))
  {
    var t, source := m.event.t, m.event.source;
    if Refusal(w, t, source).Some? {
      assert m.steps == [];
    } else {
      var first := CommitSteps(w, t, source);
      assert full == first + full[|first|..];
      CommitRefines(w, quota, t, source, m.steps, full[|first|..]);
      ContentsExact(w);
      assert !Holds(w, t);
      if m.done {
        DoneCommitSettles(w, quota, t, source, r, full, after);
      }
    }
  }

  lemma DoneCommitSettles(w: World, quota: nat, t: Triple, source: Source, r: Result<CacheEntry, CacheError>,
                          steps: seq<FileStep>, after: World)
    requires Inv(w) && Commits(w, quota, t, source, r, steps, after) && Refusal(w, t, source).None?
    ensures Runs(w, steps) && after == ApplyAll(w, steps) && t in ContentsOf(after) && |steps| > 5
    ensures Total(ContentsOf(after)) <= quota || ContentsOf(after).Keys == {t}
  {
    var first := CommitSteps(w, t, source);
    CompleteIsGood(w, quota, Commit(t, source), steps, after);
    GoodRunKeepsInv(w, steps);
    assert |first| == 7 && steps == first + steps[|first|..];
    CommitRefines(w, quota, t, source, steps, steps[|first|..]);
    SettledContents(ApplyAll(w, first).clock, after, quota, t);
  }

  lemma EnforcementMoveRefines(w: World, quota: nat, m: Move, full: seq<FileStep>, after: World)
    requires Inv(w) && EnforcedTo(w, quota, None, full, after) && Settled(w.clock, after, quota, None)
    requires m.steps <= full && (m.done ==> m.steps == full) && Runs(w, m.steps)
    ensures Evicted(ContentsOf(w), quota, ContentsOf(ApplyAll(w, m.steps)))
    ensures m.done ==> Total(ContentsOf(ApplyAll(w, m.steps))) <= quota
  {
    assert m.steps == full[..|m.steps|];
    EnforcementPrefix(w, quota, None, full, |m.steps|);
    EnforcementEvicts(w, quota, None, m.steps);
    if m.done {
      EnforcementIsGood(w, quota, None, full);
      GoodRunKeepsInv(w, full);
      SettledFits(w.clock, after, quota);
    }
  }

  lemma QuietMoveRefines(w: World, steps: seq<FileStep>, full: seq<FileStep>)
    requires Inv(w) && steps <= full && GoodRun(w, steps) && Runs(w, steps)
    requires forall step | step in full :: Quiet(step)
    ensures ContentsOf(ApplyAll(w, steps)) == ContentsOf(w)
  {
    assert forall step | step in steps :: step in full;
    QuietStepsKeepContents(w, steps);
  }

  /** Every event, cut by a crash wherever it may be, is a step of the abstract store. */
  lemma MoveRefines(w: World, quota: nat, m: Move)
    requires Inv(w) && IsMove(w, quota, m)
    ensures Runs(w, m.steps)
    ensures AbstractStep(ContentsOf(w), quota, m, Refused(w, m.event), CommittedBytes(w, m.event),
      ContentsOf(ApplyAll(w, m.steps)))
  {
    MoveIsGood(w, quota, m);
    var full, after :| Completes(w, quota, m.event, full, after) && m.steps <= full && (m.done ==> m.steps == full);
    match m.event
    case Commit(t, source) =>
      var r :| Commits(w, quota, t, source, r, full, after);
      CommitMoveRefines(w, quota, m, full, r, after);
    case EnforceQuota =>
      EnforcementMoveRefines(w, quota, m, full, after);
    case Upload(_, _) =>
      QuietMoveRefines(w, m.steps, full);
    case Pause(_) =>
      QuietMoveRefines(w, m.steps, full);
    case Lookup(_, _) =>
      QuietMoveRefines(w, m.steps, full);
  }

  /** Every event of the run is a step of the abstract store. */
  ghost predicate RefinedAlong(w: World, quota: nat, moves: seq<Move>)
    requires IsRun(w, quota, moves)
    decreases |moves|
  {
    moves == [] ||
    var m, next := moves[0], ApplyAll(w, moves[0].steps);
    && AbstractStep(ContentsOf(w), quota, m, Refused(w, m.event), CommittedBytes(w, m.event), ContentsOf(next))
    && RefinedAlong(next, quota, moves[1..])
  }

  /** Whole runs refine the abstract store, with a crash allowed between any two file steps. */
  lemma {:induction false} EveryRunRefines(w: World, quota: nat, moves: seq<Move>)
    requires Inv(w) && IsRun(w, quota, moves)
    ensures RefinedAlong(w, quota, moves)
    decreases |moves|
  {
    if moves == [] {
    } else {
      MoveIsGood(w, quota, moves[0]);
      MoveRefines(w, quota, moves[0]);
      EveryRunRefines(ApplyAll(w, moves[0].steps), quota, moves[1..]);
    }
  }

  ghost predicate AlwaysStored(w: World, quota: nat, moves: seq<Move>, t: Triple)
    requires IsRun(w, quota, moves)
    decreases |moves|
  {
    && t in ContentsOf(w)
    && (moves != [] ==> AlwaysStored(ApplyAll(w, moves[0].steps), quota, moves[1..], t))
  }

  /** As long as an entry stays stored, its bytes and its creation time never change. */
  lemma {:induction false} StoredItemsNeverChange(w: World, quota: nat, moves: seq<Move>, t: Triple)
    requires Inv(w) && IsRun(w, quota, moves) && AlwaysStored(w, quota, moves, t)
    ensures t in ContentsOf(EndOf(w, quota, moves)) && ContentsOf(EndOf(w, quota, moves))[t] == ContentsOf(w)[t]
    decreases |moves|
  {
    if moves == [] {
    } else {
      MoveIsGood(w, quota, moves[0]);
      MoveRefines(w, quota, moves[0]);
      StoredItemsNeverChange(ApplyAll(w, moves[0].steps), quota, moves[1..], t);
    }
  }

  /** A completed commit that was not refused leaves its entry stored, with the bytes it was given. */
  lemma CommitStores(w: World, quota: nat, t: Triple, source: Source, r: Result<CacheEntry, CacheError>,
                     steps: seq<FileStep>, after: World)
    requires Inv(w) && Commits(w, quota, t, source, r, steps, after) && r.Ok?
    ensures t in ContentsOf(after) && ContentsOf(after)[t].bytes == SourceBytes(w, source)
    ensures r.value == CacheEntry(t.key, t.version, Preimage(t), |ContentsOf(after)[t].bytes|)
  {
    var first := CommitSteps(w, t, source);
    CompleteIsGood(w, quota, Commit(t, source), steps, after);
    assert steps == first + steps[|first|..];
    assert |first| == 7;
    CommitRefines(w, quota, t, source, steps, steps[|first|..]);
  }

  /** A duplicate commit changes nothing at all, so the staged file is still there. */
  lemma DuplicateCommitIsInert(w: World, quota: nat, t: Triple, source: Source, r: Result<CacheEntry, CacheError>,
                               steps: seq<FileStep>, after: World)
    requires Inv(w) && Commits(w, quota, t, source, r, steps, after)
    requires ValidKey(t.key) && t in ContentsOf(w) && (source.Staged? ==> source.path in w.staged)
    ensures r == Err(AlreadyExists(t.key, t.version)) && after == w
    ensures source.Staged? ==> source.path in after.staged
  {
    ContentsExact(w);
  }

  // Debris

  /** Steps that only remove a directory leave it as it was or gone. */
  lemma {:induction false} RemovedOrSame(w: World, steps: seq<FileStep>, id: Id)
    requires Runs(w, steps) && id in w.root
    requires forall step | step in steps :: Target(step) == Some(id) ==> step.RemoveDir?
    ensures var after := ApplyAll(w, steps); id in after.root ==> after.root[id] == w.root[id]
    decreases |steps|
  {
    if steps != [] && steps[0] != RemoveDir(id) {
      assert steps[0] in steps;
      OtherDirsStay(w, steps[0], id);
      RemovedOrSame(Apply(w, steps[0]), steps[1..], id);
    } else if steps != [] {
      StaysGone(Apply(w, steps[0]), steps[1..], id);
    }
  }

  lemma {:induction false} StaysGone(w: World, steps: seq<FileStep>, id: Id)
    requires Runs(w, steps) && id !in w.root
    requires forall step | step in steps :: Target(step) == Some(id) ==> step.RemoveDir?
    ensures id !in ApplyAll(w, steps).root
    decreases |steps|
  {
    if steps == [] {
    } else {
      assert steps[0] in steps;
      if Target(steps[0]) != Some(id) {
        OtherDirsStay(w, steps[0], id);
      }
      StaysGone(Apply(w, steps[0]), steps[1..], id);
    }
  }

  predicate OnlyRemoves(steps: seq<FileStep>, id: Id) {
    forall step | step in steps :: Target(step) == Some(id) ==> step.RemoveDir?
  }

  lemma {:induction false} EnforcementOnlyRemovesDirs(w: World, quota: nat, protect: Option<Id>, steps: seq<FileStep>)
    requires Enforcement(w, quota, protect, steps)
    ensures forall step | step in steps :: step.RemoveDir?
    decreases |steps|
  {
    if steps == [] {
    } else {
      EnforcementOnlyRemovesDirs(Apply(w, steps[0]), quota, protect, steps[1..]);
      assert forall step | step in steps :: step == steps[0] || step in steps[1..];
    }
  }

  lemma CommitOnlyRemovesDebris(w: World, quota: nat, t: Triple, source: Source, r: Result<CacheEntry, CacheError>,
                               full: seq<FileStep>, after: World, id: Id)
    requires Commits(w, quota, t, source, r, full, after) && id in w.root
    ensures OnlyRemoves(full, id)
  {
    if Refusal(w, t, source).None? {
      var first, rest := CommitSteps(w, t, source), full[|CommitSteps(w, t, source)|..];
      assert full == first + rest;
      EnforcementOnlyRemovesDirs(ApplyAll(w, first), quota, Some(Preimage(t)), rest);
      assert forall step | step in first :: Target(step) == Some(Preimage(t));
    }
  }

  lemma EventsOnlyRemoveDebris(w: World, quota: nat, e: Event, full: seq<FileStep>, after: World, id: Id)
    requires Completes(w, quota, e, full, after) && id in w.root && w.root[id].archive.None?
    ensures OnlyRemoves(full, id)
  {
    match e
    case Commit(t, source) =>
      var r :| Commits(w, quota, t, source, r, full, after);
      CommitOnlyRemovesDebris(w, quota, t, source, r, full, after, id);
    case EnforceQuota =>
      EnforcementOnlyRemovesDirs(w, quota, None, full);
    case Lookup(_, _) =>
    case Upload(_, _) =>
    case Pause(_) =>
  }

  /** What a crashed commit left is not written to again: after any event it is the same, or gone. */
  lemma DebrisIsInert(w: World, quota: nat, m: Move, id: Id)
    requires IsMove(w, quota, m) && Runs(w, m.steps) && id in w.root && w.root[id].archive.None?
    ensures var after := ApplyAll(w, m.steps); id in after.root ==> after.root[id] == w.root[id]
  {
    var full, after :| Completes(w, quota, m.event, full, after) && m.steps <= full && (m.done ==> m.steps == full);
    EventsOnlyRemoveDebris(w, quota, m.event, full, after, id);
    assert forall step | step in m.steps :: step in full;
    RemovedOrSame(w, m.steps, id);
  }

  /** A completed event that enforces the quota: an enforcement, or a commit that is not refused. */
  ghost predicate Enforces(w: World, m: Move) {
    m.done && (m.event.EnforceQuota? || (m.event.Commit? && !Refused(w, m.event)))
  }

  /** The last event of the run enforces the quota, and begins after time `t`. */
  ghost predicate EndsInEnforcementAfter(w: World, quota: nat, moves: seq<Move>, t: nat)
    requires IsRun(w, quota, moves)
    decreases |moves|
  {
    && moves != []
    && if |moves| == 1 then Enforces(w, moves[0]) && w.clock > t
       else EndsInEnforcementAfter(ApplyAll(w, moves[0].steps), quota, moves[1..], t)
  }

  /** At some point of the run, its end included, the directory is not there. */
  ghost predicate FreedAlong(w: World, quota: nat, moves: seq<Move>, id: Id)
    requires IsRun(w, quota, moves)
    decreases |moves|
  {
    id !in w.root || (moves != [] && FreedAlong(ApplyAll(w, moves[0].steps), quota, moves[1..], id))
  }

  /** Debris that is over the age before a completed event that enforces the quota is gone after it. */
  lemma EnforcingFreesDebris(w: World, quota: nat, m: Move, id: Id)
    requires Inv(w) && IsMove(w, quota, m) && Enforces(w, m)
    requires id in w.root && w.root[id].archive.None? && Stale(w.root[id], w.clock)
    ensures Runs(w, m.steps) && id !in ApplyAll(w, m.steps).root
  {
    MoveIsGood(w, quota, m);
    DebrisIsInert(w, quota, m, id);
    if m.event.Commit? {
      var r :| Commits(w, quota, m.event.t, m.event.source, r, m.steps, ApplyAll(w, m.steps));
      CommitRuns(w, m.event.t, m.event.source);
    }
  }

  /** Debris whose files are all over the age when an enforcement or a commit begins that completes is gone by the
      end of it, whatever happens in between. */
  lemma {:induction false} CrashedDebrisIsFreed(w: World, quota: nat, moves: seq<Move>, id: Id, t: nat)
    requires Inv(w) && IsRun(w, quota, moves)
    requires id in w.root && w.root[id].archive.None?
    requires forall mtime | mtime in Mtimes(w.root[id]) :: mtime + STALE_WRITE_MAX_AGE <= t
    requires EndsInEnforcementAfter(w, quota, moves, t)
    ensures FreedAlong(w, quota, moves, id)
    decreases |moves|
  {
    var m := moves[0];
    var next := ApplyAll(w, m.steps);
    MoveIsGood(w, quota, m);
    DebrisIsInert(w, quota, m, id);
    if |moves| == 1 {
      EnforcingFreesDebris(w, quota, m, id);
      assert FreedAlong(next, quota, moves[1..], id);
    } else if id in next.root {
      CrashedDebrisIsFreed(next, quota, moves[1..], id, t);
    }
  }

  /** After an enforcement a key is refused as existing exactly when its entry is archived, or its directory
      holds a file that was written within the age of the enforcement's start. */
  lemma OnlyFreshDebrisBlocks(w: World, quota: nat, steps: seq<FileStep>, after: World, t: Triple, source: Source)
    requires EnforcedTo(w, quota, None, steps, after) && Settled(w.clock, after, quota, None)
    requires ValidKey(t.key) && (source.Staged? ==> source.path in after.staged)
    ensures Refusal(after, t, source) == Some(AlreadyExists(t.key, t.version)) <==>
      || Archived(after, Preimage(t))
      || (Preimage(t) in after.root
          && exists mtime | mtime in Mtimes(after.root[Preimage(t)]) :: w.clock <= mtime + STALE_WRITE_MAX_AGE)
  {
    var id := Preimage(t);
    if id in after.root && after.root[id].archive.None? {
      assert !Stale(after.root[id], w.clock);
    }
  }

  // Eviction

  /** Whatever is evicted was last used no later than any unprotected entry that survives. */
  lemma {:induction false} EvictionIsLeastRecentlyUsed(w: World, quota: nat, protect: Option<Id>, steps: seq<FileStep>,
                                                       gone: Id, kept: Id)
    requires Enforcement(w, quota, protect, steps) && Runs(w, steps)
    requires Archived(w, gone) && gone !in ApplyAll(w, steps).root
    requires Archived(ApplyAll(w, steps), kept) && protect != Some(kept)
    ensures Archived(w, kept) && w.root[gone].archive.value.mtime <= w.root[kept].archive.value.mtime
    decreases |steps|
  {
    EnforcementRuns(w, quota, protect, steps);
    if steps[0].id != gone {
      EvictionIsLeastRecentlyUsed(Apply(w, steps[0]), quota, protect, steps[1..], gone, kept);
    }
  }

  /** An archive is evicted only at a moment when the total is over the quota: eviction stops at the first fit. */
  lemma {:induction false} EvictionStopsAtFirstFit(w: World, quota: nat, protect: Option<Id>, steps: seq<FileStep>,
                                                   i: nat)
    requires Enforcement(w, quota, protect, steps) && i < |steps| && Runs(w, steps[..i])
    requires steps[i].RemoveDir? && Archived(w, steps[i].id)
    ensures TotalSize(ApplyAll(w, steps[..i]).root) > quota && protect != Some(steps[i].id)
    decreases i
  {
    if i == 0 {
    } else {
      assert steps[..i][0] == steps[0] && steps[..i][1..] == steps[1..][..i - 1];
      EnforcementDistinct(w, quota, protect, steps, i);
      EvictionStopsAtFirstFit(Apply(w, steps[0]), quota, protect, steps[1..], i - 1);
    }
  }

  lemma {:induction false} EnforcementDistinct(w: World, quota: nat, protect: Option<Id>, steps: seq<FileStep>, i: nat)
    requires Enforcement(w, quota, protect, steps) && 0 < i < |steps|
    ensures steps[i].RemoveDir? && steps[i].id != steps[0].id && steps[i].id in w.root
    decreases i
  {
    if i > 1 {
      EnforcementDistinct(Apply(w, steps[0]), quota, protect, steps[1..], i - 1);
    } else {
      assert MayRemove(Apply(w, steps[0]), quota, protect, steps[1..][0].id);
    }
  }

  /** After a commit the store fits the quota or holds the new entry alone; no other entry larger than the
      quota is left. */
  lemma OversizedEntriesGoAtTheNextCommit(w: World, quota: nat, t: Triple, source: Source,
                                          r: Result<CacheEntry, CacheError>, steps: seq<FileStep>, after: World,
                                          other: Id)
    requires Inv(w) && Commits(w, quota, t, source, r, steps, after) && r.Ok?
    requires Archived(after, other) && other != Preimage(t)
    ensures Archived(after, Preimage(t)) && TotalSize(after.root) <= quota && ArchiveSize(after.root[other]) <= quota
  {
    CommitStores(w, quota, t, source, r, steps, after);
    ContentsExact(after);
    TotalCovers(after.root, other);
  }
}
