/** When entries were last used: the time of an archive is the time of its last commit or hit over the whole run,
    with one exception, so eviction over whole runs is least-recently-used up to that exception. */
module CacheUse {
  import opened Common
  import opened CacheIdentity
  import opened CacheTree
  import opened CacheStore
  import opened CacheRuns
  import opened CacheContents
  import opened CacheFacts
  import opened Walks

  /** The last commit or hit of an entry. `Cut` is a commit of a staged file that was cut between the rename and the
      touch, with no hit since. */
  datatype Use = Never | Used(at: nat) | Cut(at: nat, uploaded: nat)

  /** The time by which an entry is ranked. */
  function Rank(use: Use): nat
    requires !use.Never?
  {
    if use.Cut? then use.uploaded else use.at
  }

  /** The last use after an event, however far it got. The entry of a commit shows from its sixth step on, the
      seventh is the touch. */
  ghost function UseAfter(w: World, m: Move, id: Id, use: Use): Use
    requires Runs(w, m.steps)
  {
    if !Archived(ApplyAll(w, m.steps), id) then Never
    else match m.event
      case Commit(t, source) =>
        if Preimage(t) != id || |m.steps| <= 5 then use
        else if |m.steps| > 6 then Used(w.clock + 6)
        else if source.Staged? && source.path in w.staged then Cut(w.clock + 5, w.staged[source.path].mtime)
        else Used(w.clock + 5)
      case Lookup(_, _) => if m.steps == [Touch(id)] then Used(w.clock) else use
      case _ => use
  }

  /** The last use over the events of a run. */
  ghost function LastUse(w: World, quota: nat, moves: seq<Move>, id: Id, use: Use): Use
    requires IsRun(w, quota, moves)
    decreases |moves|
  {
    if moves == [] then use
    else LastUse(ApplyAll(w, moves[0].steps), quota, moves[1..], id, UseAfter(w, moves[0], id, use))
  }

  // The times of archives are times of use

  ghost predicate Timed(w: World, id: Id, use: Use) {
    Archived(w, id) ==>
      && !use.Never?
      && w.root[id].archive.value.mtime == Rank(use)
      && Rank(use) <= use.at < w.clock
  }

  lemma {:induction false} ClockRuns(w: World, steps: seq<FileStep>)
    requires Runs(w, steps)
    ensures ApplyAll(w, steps).clock >= w.clock + |steps|
    decreases |steps|
  {
    if steps == [] {
    } else {
      ClockRuns(Apply(w, steps[0]), steps[1..]);
    }
  }

  /** Steps that do not touch an entry, though they may remove it, leave its time. */
  lemma UntouchedStaysTimed(w: World, steps: seq<FileStep>, id: Id, use: Use)
    requires Runs(w, steps) && OnlyRemoves(steps, id) && Timed(w, id, use)
    ensures Timed(ApplyAll(w, steps), id, use)
  {
    ClockRuns(w, steps);
    if id in w.root {
      RemovedOrSame(w, steps, id);
    } else {
      StaysGone(w, steps, id);
    }
  }

  lemma PrefixOnlyRemoves(steps: seq<FileStep>, full: seq<FileStep>, id: Id)
    requires OnlyRemoves(full, id) && steps <= full
    ensures OnlyRemoves(steps, id)
  {
    assert forall step | step in steps :: step in full;
  }

  lemma OtherCommitOnlyRemoves(w: World, quota: nat, t: Triple, source: Source, r: Result<CacheEntry, CacheError>,
                               full: seq<FileStep>, after: World, id: Id)
    requires Commits(w, quota, t, source, r, full, after) && (id != Preimage(t) || Refusal(w, t, source).Some?)
    ensures OnlyRemoves(full, id)
  {
    if Refusal(w, t, source).None? {
      var first, rest := CommitSteps(w, t, source), full[|CommitSteps(w, t, source)|..];
      assert full == first + rest;
      EnforcementOnlyRemovesDirs(ApplyAll(w, first), quota, Some(Preimage(t)), rest);
      assert forall step | step in first :: Target(step) == Some(Preimage(t));
    }
  }

  lemma {:induction false} QuietNeverArchives(w: World, steps: seq<FileStep>, id: Id)
    requires Runs(w, steps) && !Archived(w, id) && forall step | step in steps :: Quiet(step)
    ensures !Archived(ApplyAll(w, steps), id)
    decreases |steps|
  {
    if steps == [] {
    } else {
      assert Quiet(steps[0]);
      QuietNeverArchives(Apply(w, steps[0]), steps[1..], id);
    }
  }

  /** The time of a new entry, by how far its commit got. */
  lemma OwnCommitIsTimed(w: World, quota: nat, t: Triple, source: Source, steps: seq<FileStep>, rest: seq<FileStep>,
                         use: Use)
    requires Inv(w) && Refusal(w, t, source).None? && Runs(w, CommitSteps(w, t, source))
    requires Enforcement(ApplyAll(w, CommitSteps(w, t, source)), quota, Some(Preimage(t)), rest)
    requires steps <= CommitSteps(w, t, source) + rest && Runs(w, steps)
    ensures Timed(ApplyAll(w, steps), Preimage(t), UseAfter(w, Move(Commit(t, source), steps, false), Preimage(t), use))
  {
    var id := Preimage(t);
    ClockRuns(w, steps);
    if |steps| <= 5 {
      PrefixIsQuiet(w, t, source, rest, |steps|);
      assert steps == (CommitSteps(w, t, source) + rest)[..|steps|];
      QuietNeverArchives(w, steps, id);
    } else if |steps| == 6 {
      assert steps == SixSteps(w, t, source);
      PlacedIsReached(w, t, source);
    } else {
      LateCommitIsTimed(w, quota, t, source, CommitSteps(w, t, source), steps, rest);
    }
  }

  lemma LateCommitIsTimed(w: World, quota: nat, t: Triple, source: Source, first: seq<FileStep>, steps: seq<FileStep>,
                          rest: seq<FileStep>)
    requires Inv(w) && Refusal(w, t, source).None? && first == CommitSteps(w, t, source) && Runs(w, first)
    requires Enforcement(ApplyAll(w, first), quota, Some(Preimage(t)), rest)
    requires steps <= first + rest && |first| == 7 <= |steps| && Runs(w, steps)
    ensures Timed(ApplyAll(w, steps), Preimage(t), Used(w.clock + 6))
  {
    CommitRuns(w, t, source);
    ClockRuns(w, steps);
    CutPoint(w, quota, Some(Preimage(t)), first, steps, rest, rest[..|steps| - 7]);
    EnforcementRuns(ApplyAll(w, first), quota, Some(Preimage(t)), rest[..|steps| - 7]);
  }

  lemma CommitKeepsTimes(w: World, quota: nat, m: Move, full: seq<FileStep>, r: Result<CacheEntry, CacheError>,
                         after: World,
                         id: Id, use: Use)
    requires Inv(w) && m.event.Commit? && Commits(w, quota, m.event.t, m.event.source, r, full, after)
    requires m.steps <= full && Runs(w, m.steps) && Timed(w, id, use)
    ensures Timed(ApplyAll(w, m.steps), id, UseAfter(w, m, id, use))
  {
    var t, source := m.event.t, m.event.source;
    if id != Preimage(t) || Refusal(w, t, source).Some? {
      OtherCommitOnlyRemoves(w, quota, t, source, r, full, after, id);
      PrefixOnlyRemoves(m.steps, full, id);
      UntouchedStaysTimed(w, m.steps, id, use);
    } else {
      var first := CommitSteps(w, t, source);
      assert full == first + full[|first|..];
      OwnCommitIsTimed(w, quota, t, source, m.steps, full[|first|..], use);
    }
  }

  lemma HitIsTimed(w: World, id: Id, hit: Id, use: Use)
    requires Archived(w, hit) && Timed(w, id, use)
    ensures Timed(Apply(w, Touch(hit)), id, if id == hit then Used(w.clock) else use)
  {
  }

  lemma LookupKeepsTimes(w: World, t: Triple, restoreKeys: seq<Text>, answer: Option<CacheEntry>, full: seq<FileStep>,
                         after: World,
                         m: Move, id: Id, use: Use)
    requires LookedUp(w, t, restoreKeys, answer, full, after) && m.event == Lookup(t, restoreKeys)
    requires m.steps <= full && Runs(w, m.steps) && Timed(w, id, use)
    ensures Timed(ApplyAll(w, m.steps), id, UseAfter(w, m, id, use))
  {
    if m.steps != [] {
      var hit := answer.value.path;
      assert m.steps == [Touch(hit)] && m.steps[0] == Touch(hit) && m.steps[1..] == [];
      assert ApplyAll(w, m.steps) == Apply(w, Touch(hit));
      assert m.steps == [Touch(id)] <==> [Touch(hit)][0] == [Touch(id)][0];
      HitIsTimed(w, id, hit, use);
    }
  }

  lemma QuietMoveKeepsTimes(w: World, quota: nat, m: Move, full: seq<FileStep>, after: World, id: Id, use: Use)
    requires !m.event.Commit? && !m.event.Lookup? && Completes(w, quota, m.event, full, after)
    requires m.steps <= full && Runs(w, m.steps) && Timed(w, id, use)
    ensures Timed(ApplyAll(w, m.steps), id, UseAfter(w, m, id, use))
  {
    if m.event.EnforceQuota? {
      EnforcementOnlyRemovesDirs(w, quota, None, full);
    }
    PrefixOnlyRemoves(m.steps, full, id);
    UntouchedStaysTimed(w, m.steps, id, use);
  }

  lemma MoveKeepsTimes(w: World, quota: nat, m: Move, id: Id, use: Use)
    requires Inv(w) && IsMove(w, quota, m) && Timed(w, id, use)
    ensures Runs(w, m.steps) && Timed(ApplyAll(w, m.steps), id, UseAfter(w, m, id, use))
  {
    MoveIsGood(w, quota, m);
    var full, after :| Completes(w, quota, m.event, full, after) && m.steps <= full && (m.done ==> m.steps == full);
    match m.event
    case Commit(t, source) =>
      var r :| Commits(w, quota, t, source, r, full, after);
      CommitKeepsTimes(w, quota, m, full, r, after, id, use);
    case Lookup(t, restoreKeys) =>
      if !BadRequest(t.key, restoreKeys) {
        var answer :| LookedUp(w, t, restoreKeys, answer, full, after);
        LookupKeepsTimes(w, t, restoreKeys, answer, full, after, m, id, use);
      }
    case _ => QuietMoveKeepsTimes(w, quota, m, full, after, id, use);
  }

  lemma {:induction false} RunKeepsTimes(w: World, quota: nat, moves: seq<Move>, id: Id, use: Use)
    requires Inv(w) && IsRun(w, quota, moves) && Timed(w, id, use)
    ensures Timed(EndOf(w, quota, moves), id, LastUse(w, quota, moves, id, use))
    decreases |moves|
  {
    if moves == [] {
    } else {
      MoveIsGood(w, quota, moves[0]);
      MoveKeepsTimes(w, quota, moves[0], id, use);
      RunKeepsTimes(ApplyAll(w, moves[0].steps), quota, moves[1..], id, UseAfter(w, moves[0], id, use));
    }
  }

  const EMPTY := World(map[], map[], 0)

  /** In every run the time of an archive is its last commit or hit, or the time of the upload if that was a commit
      of a staged file that was cut right after the rename. */
  lemma ArchiveTimesAreUses(quota: nat, moves: seq<Move>, id: Id)
    requires IsRun(EMPTY, quota, moves) && Archived(EndOf(EMPTY, quota, moves), id)
    ensures var use := LastUse(EMPTY, quota, moves, id, Never);
      && !use.Never?
      && EndOf(EMPTY, quota, moves).root[id].archive.value.mtime == (if use.Cut? then use.uploaded else use.at)
      && (use.Cut? ==> use.uploaded <= use.at)
  {
    RunKeepsTimes(EMPTY, quota, moves, id, Never);
  }

  // Evictions in a run

  predicate Protects(e: Event, id: Id) {
    e.Commit? && Preimage(e.t) == id
  }

  ghost predicate Evicts(w: World, m: Move, gone: Id, kept: Id)
    requires Runs(w, m.steps)
  {
    && Archived(w, gone) && !Archived(ApplyAll(w, m.steps), gone)
    && Archived(ApplyAll(w, m.steps), kept) && !Protects(m.event, kept)
  }

  lemma EnforcementOrdersTimes(w: World, quota: nat, protect: Option<Id>, steps: seq<FileStep>, gone: Id, kept: Id)
    requires Enforcement(w, quota, protect, steps) && Runs(w, steps) && protect != Some(kept)
    requires Archived(w, gone) && !Archived(ApplyAll(w, steps), gone) && Archived(ApplyAll(w, steps), kept)
    ensures Archived(w, kept) && w.root[gone].archive.value.mtime <= w.root[kept].archive.value.mtime
  {
    EnforcementRuns(w, quota, protect, steps);
    EvictionIsLeastRecentlyUsed(w, quota, protect, steps, gone, kept);
  }

  /** The first steps of a commit leave every other entry, times included. */
  lemma CommitStepsLeaveOthers(w: World, t: Triple, source: Source, first: seq<FileStep>, id: Id)
    requires Refusal(w, t, source).None? && first == CommitSteps(w, t, source) && id != Preimage(t)
    ensures Runs(w, first) && (id in ApplyAll(w, first).root <==> id in w.root)
    ensures id in w.root ==> ApplyAll(w, first).root[id] == w.root[id]
  {
    CommitRuns(w, t, source);
  }

  lemma {:induction false} NothingRemoved(w: World, steps: seq<FileStep>, id: Id)
    requires Runs(w, steps) && Archived(w, id) && RemoveDir(id) !in steps && OnlyRemoves(steps, id)
    ensures Archived(ApplyAll(w, steps), id)
    decreases |steps|
  {
    if steps == [] {
    } else {
      assert steps[0] in steps;
      assert forall step | step in steps[1..] :: step in steps;
      OtherDirsStay(w, steps[0], id);
      NothingRemoved(Apply(w, steps[0]), steps[1..], id);
    }
  }

  /** Before the enforcement of a commit nothing is evicted. */
  lemma EarlyCommitEvictsNothing(w: World, t: Triple, source: Source, first: seq<FileStep>, steps: seq<FileStep>,
                                 id: Id)
    requires Refusal(w, t, source).None? && first == CommitSteps(w, t, source)
    requires steps <= first && Runs(w, steps) && Archived(w, id)
    ensures Archived(ApplyAll(w, steps), id)
  {
    assert forall step | step in first :: Target(step) == Some(Preimage(t)) && !step.RemoveDir?;
    assert forall step | step in steps :: step in first;
    NothingRemoved(w, steps, id);
  }

  lemma LateCommitOrdersTimes(w: World, quota: nat, t: Triple, source: Source, first: seq<FileStep>,
                              steps: seq<FileStep>,
                              rest: seq<FileStep>, gone: Id, kept: Id)
    requires Refusal(w, t, source).None? && first == CommitSteps(w, t, source) && Runs(w, first)
    requires Enforcement(ApplyAll(w, first), quota, Some(Preimage(t)), rest)
    requires steps <= first + rest && |first| <= |steps| && Runs(w, steps)
    requires Archived(w, gone) && !Archived(ApplyAll(w, steps), gone) && Archived(ApplyAll(w, steps), kept)
    requires Preimage(t) != kept
    ensures Archived(w, kept) && w.root[gone].archive.value.mtime <= w.root[kept].archive.value.mtime
  {
    CommitStepsLeaveOthers(w, t, source, first, gone);
    CommitStepsLeaveOthers(w, t, source, first, kept);
    var tail := rest[..|steps| - |first|];
    CutPoint(w, quota, Some(Preimage(t)), first, steps, rest, tail);
    EnforcementOrdersTimes(ApplyAll(w, first), quota, Some(Preimage(t)), tail, gone, kept);
  }

  /** A commit evicts only in its enforcement, which its first seven steps precede. */
  lemma CommitOrdersTimes(w: World, quota: nat, m: Move, full: seq<FileStep>, r: Result<CacheEntry, CacheError>,
                          after: World,
                          gone: Id, kept: Id)
    requires m.event.Commit? && Commits(w, quota, m.event.t, m.event.source, r, full, after)
    requires m.steps <= full && Runs(w, m.steps) && Evicts(w, m, gone, kept)
    ensures Archived(w, kept) && w.root[gone].archive.value.mtime <= w.root[kept].archive.value.mtime
  {
    var t, source := m.event.t, m.event.source;
    if Refusal(w, t, source).None? {
      var first := CommitSteps(w, t, source);
      var rest := full[|first|..];
      assert full == first + rest;
      if |m.steps| <= |first| {
        assert m.steps <= first;
        EarlyCommitEvictsNothing(w, t, source, first, m.steps, gone);
      } else {
        LateCommitOrdersTimes(w, quota, t, source, first, m.steps, rest, gone, kept);
      }
    }
  }

  lemma MoveOrdersTimes(w: World, quota: nat, m: Move, gone: Id, kept: Id)
    requires Inv(w) && IsMove(w, quota, m) && Runs(w, m.steps) && Evicts(w, m, gone, kept)
    ensures Archived(w, kept) && w.root[gone].archive.value.mtime <= w.root[kept].archive.value.mtime
  {
    var full, after :| Completes(w, quota, m.event, full, after) && m.steps <= full && (m.done ==> m.steps == full);
    match m.event
    case Commit(t, source) =>
      var r :| Commits(w, quota, t, source, r, full, after);
      CommitOrdersTimes(w, quota, m, full, r, after, gone, kept);
    case EnforceQuota =>
      assert m.steps == full[..|m.steps|];
      EnforcementPrefix(w, quota, None, full, |m.steps|);
      EnforcementOrdersTimes(w, quota, None, m.steps, gone, kept);
    case Lookup(t, restoreKeys) =>
      QuietMovesKeepArchives(w, m, full, gone);
    case Upload(_, _) =>
      QuietMovesKeepArchives(w, m, full, gone);
    case Pause(_) =>
      QuietMovesKeepArchives(w, m, full, gone);
  }

  lemma QuietMovesKeepArchives(w: World, m: Move, full: seq<FileStep>, id: Id)
    requires Runs(w, m.steps) && m.steps <= full && Archived(w, id)
    requires full == [] || (|full| == 1 && (full[0].Touch? || full[0].Stage? || full[0].Pass?))
    ensures Archived(ApplyAll(w, m.steps), id)
  {
    if m.steps != [] {
      assert m.steps == [full[0]] && m.steps[1..] == [];
    }
  }

  /** Over whole runs, an event evicts only entries that rank no later than any unprotected entry that survives it:
      by their last commit or hit, unless that was a commit cut right after the rename. */
  lemma RunsEvictLeastRecentlyUsed(quota: nat, moves: seq<Move>, m: Move, gone: Id, kept: Id)
    requires IsRun(EMPTY, quota, moves) && IsMove(EndOf(EMPTY, quota, moves), quota, m)
    requires Runs(EndOf(EMPTY, quota, moves), m.steps) && Evicts(EndOf(EMPTY, quota, moves), m, gone, kept)
    ensures var g, k := LastUse(EMPTY, quota, moves, gone, Never), LastUse(EMPTY, quota, moves, kept, Never);
      && !g.Never? && !k.Never? && Rank(g) <= Rank(k)
      && (!g.Cut? ==> g.at <= k.at)
  {
    var w := EndOf(EMPTY, quota, moves);
    RunsKeepInv(EMPTY, quota, moves);
    MoveOrdersTimes(w, quota, m, gone, kept);
    ArchiveTimesAreUses(quota, moves, gone);
    ArchiveTimesAreUses(quota, moves, kept);
  }

  // An enforcement can always be completed

  lemma {:induction false} OldestOf(w: World, ids: set<Id>) returns (oldest: Id)
    requires ids != {} && forall id | id in ids :: Archived(w, id)
    ensures oldest in ids && Archived(w, oldest)
    ensures forall id | id in ids ::
      Archived(w, id) && w.root[oldest].archive.value.mtime <= w.root[id].archive.value.mtime
    decreases |ids|
  {
    oldest :| oldest in ids;
    if ids != {oldest} {
      var older := OldestOf(w, ids - {oldest});
      assert forall id | id in ids :: id == oldest || id in ids - {oldest};
      if w.root[older].archive.value.mtime < w.root[oldest].archive.value.mtime {
        oldest := older;
      }
    }
  }

  /** A directory that may be removed, as long as the store is not settled. */
  lemma SomethingMayGo(before: nat, w: World, quota: nat, protect: Option<Id>) returns (id: Id)
    requires before <= w.clock && !Settled(before, w, quota, protect)
    ensures MayRemove(w, quota, protect, id)
  {
    if debris :| debris in w.root && w.root[debris].archive.None? && Stale(w.root[debris], before) {
      id := debris;
    } else {
      var open := set x | x in w.root && Archived(w, x) && protect != Some(x);
      var other :| Archived(w, other) && protect != Some(other);
      assert other in open;
      id := OldestOf(w, open);
    }
  }

  /** From every world an enforcement can go on until the store is settled. */
  lemma {:induction false} EnforcementCanComplete(before: nat, w: World, quota: nat, protect: Option<Id>)
    returns (steps: seq<FileStep>)
    requires before <= w.clock
    ensures Enforcement(w, quota, protect, steps) && Runs(w, steps)
    ensures Settled(before, ApplyAll(w, steps), quota, protect)
    decreases |w.root|
  {
    if Settled(before, w, quota, protect) {
      steps := [];
    } else {
      var id := SomethingMayGo(before, w, quota, protect);
      var next := Apply(w, RemoveDir(id));
      Smaller(next.root.Keys, w.root.Keys);
      assert |next.root| == |next.root.Keys| && |w.root| == |w.root.Keys|;
      var rest := EnforcementCanComplete(before, next, quota, protect);
      steps := [RemoveDir(id)] + rest;
      assert steps[1..] == rest;
    }
  }

  /** So every commit that is not refused can be completed, and any first part of it is an event cut short. */
  lemma CommitCanBeCut(w: World, quota: nat, t: Triple, source: Source, n: nat)
    requires Refusal(w, t, source).None? && n <= 7
    ensures n <= |CommitSteps(w, t, source)|
    ensures IsMove(w, quota, Move(Commit(t, source), CommitSteps(w, t, source)[..n], false))
  {
    var first := CommitSteps(w, t, source);
    CommitRuns(w, t, source);
    var mid := ApplyAll(w, first);
    var rest := EnforcementCanComplete(mid.clock, mid, quota, Some(Preimage(t)));
    var full := first + rest;
    assert full[..|first|] == first && full[|first|..] == rest;
    var r := Ok(CacheEntry(t.key, t.version, Preimage(t), |SourceBytes(w, source)|));
    assert Commits(w, quota, t, source, r, full, ApplyAll(mid, rest));
    assert Completes(w, quota, Commit(t, source), full, ApplyAll(mid, rest));
    assert first[..n] <= full;
  }

  // The exception makes a difference

  /** A commit of a staged file that is cut right after the rename. */
  function CutAfterRename(w: World, t: Triple, path: string): Move {
    Move(Commit(t, Staged(path)), SixSteps(w, t, Staged(path)), false)
  }

  lemma CutIsMove(w: World, quota: nat, t: Triple, path: string)
    requires Inv(w) && Refusal(w, t, Staged(path)).None?
    ensures var cut := CutAfterRename(w, t, path);
      IsMove(w, quota, cut) && Runs(w, cut.steps) && ApplyAll(w, cut.steps) == PlacedWorld(w, t, Staged(path))
  {
    CommitCanBeCut(w, quota, t, Staged(path), 6);
    assert CommitSteps(w, t, Staged(path))[..6] == SixSteps(w, t, Staged(path));
    PlacedIsReached(w, t, Staged(path));
  }

  /** With one archive that was used after the upload of a staged file, and no room for both, committing the file
      and crashing right after the rename leaves the entry just committed as the one that goes, though the other one
      was used before. */
  lemma CutCommitGoesFirst(w: World, quota: nat, t: Triple, path: string, other: Id, mid: World)
    requires Inv(w) && Refusal(w, t, Staged(path)).None? && mid == PlacedWorld(w, t, Staged(path))
    requires forall id :: id in w.root <==> id == other
    requires Archived(w, other) && w.staged[path].mtime < w.root[other].archive.value.mtime
    requires TotalSize(w.root) <= quota < TotalSize(w.root) + |w.staged[path].bytes|
    ensures var cut := CutAfterRename(w, t, path);
      IsMove(w, quota, cut) && Runs(w, cut.steps) && mid == ApplyAll(w, cut.steps)
    ensures var enforce := Move(EnforceQuota, [RemoveDir(Preimage(t))], true);
      IsMove(mid, quota, enforce) && Runs(mid, enforce.steps) && Evicts(mid, enforce, Preimage(t), other)
  {
    CutIsMove(w, quota, t, path);
    OverfullByOne(w, quota, t, path, other, mid);
    OneEviction(mid, quota, Preimage(t), other);
  }

  lemma CutUses(w: World, t: Triple, path: string, other: Id, mid: World, use: Use)
    requires Refusal(w, t, Staged(path)).None? && Runs(w, CutAfterRename(w, t, path).steps)
    requires mid == ApplyAll(w, CutAfterRename(w, t, path).steps)
    requires Archived(mid, Preimage(t)) && Archived(mid, other) && other != Preimage(t)
    ensures UseAfter(w, CutAfterRename(w, t, path), Preimage(t), use) == Cut(w.clock + 5, w.staged[path].mtime)
    ensures UseAfter(w, CutAfterRename(w, t, path), other, use) == use
  {
    assert |SixSteps(w, t, Staged(path))| == 6;
  }

  lemma OverfullByOne(w: World, quota: nat, t: Triple, path: string, other: Id, mid: World)
    requires Inv(w) && Refusal(w, t, Staged(path)).None? && mid == PlacedWorld(w, t, Staged(path))
    requires forall id :: id in w.root <==> id == other
    requires Archived(w, other) && w.staged[path].mtime < w.root[other].archive.value.mtime
    requires TotalSize(w.root) <= quota < TotalSize(w.root) + |w.staged[path].bytes|
    ensures Preimage(t) != other && Archived(mid, Preimage(t)) && Archived(mid, other)
    ensures forall x :: x in mid.root <==> x == Preimage(t) || x == other
    ensures mid.root[Preimage(t)].archive.value.mtime < mid.root[other].archive.value.mtime
    ensures TotalSize(mid.root) > quota && TotalSize(mid.root - {Preimage(t)}) <= quota
  {
    TotalWithout(mid.root, Preimage(t));
    assert mid.root - {Preimage(t)} == w.root;
  }

  /** An enforcement that removes the older of two entries, and then the store fits. */
  lemma OneEviction(w: World, quota: nat, id: Id, other: Id)
    requires id != other && Archived(w, id) && Archived(w, other) && forall x :: x in w.root <==> x == id || x == other
    requires w.root[id].archive.value.mtime < w.root[other].archive.value.mtime
    requires TotalSize(w.root) > quota && TotalSize(w.root - {id}) <= quota
    ensures var enforce := Move(EnforceQuota, [RemoveDir(id)], true);
      IsMove(w, quota, enforce) && Runs(w, enforce.steps) && Evicts(w, enforce, id, other)
  {
    var steps := [RemoveDir(id)];
    var after := Apply(w, RemoveDir(id));
    assert steps[1..] == [] && ApplyAll(after, []) == after;
    assert LeastRecent(w, None, id);
    assert Enforcement(after, quota, None, steps[1..]) && Runs(after, steps[1..]);
    assert EnforcedTo(w, quota, None, steps, after) && Settled(w.clock, after, quota, None);
    assert Completes(w, quota, EnforceQuota, steps, after);
  }

  const FIRST := Triple([], [98], [])
  const SECOND := Triple([], [97], [])

  /** The upload of a byte, and its world. */
  const UPLOAD := Move(Upload("s", [0]), [Stage("s", [0])], true)
  const UPLOADED := World(map[], map["s" := Archive([0], 0)], 1)

  lemma UploadIsMove()
    ensures IsMove(EMPTY, 1, UPLOAD) && Runs(EMPTY, UPLOAD.steps) && ApplyAll(EMPTY, UPLOAD.steps) == UPLOADED
    ensures Inv(UPLOADED)
  {
    var steps := [Stage("s", [0])];
    assert steps[1..] == [] && Runs(UPLOADED, []) && Apply(EMPTY, steps[0]) == UPLOADED;
    assert Completes(EMPTY, 1, UPLOAD.event, steps, UPLOADED);
  }

  /** A complete commit of a byte into an empty store that has room for it. */
  lemma FirstCommit(w: World, t: Triple, steps: seq<FileStep>, after: World)
    requires Inv(w) && w.root == map[] && ValidKey(t.key)
    requires steps == CommitSteps(w, t, Inline([0])) && Runs(w, steps) && after == ApplyAll(w, steps)
    ensures IsMove(w, 1, Move(Commit(t, Inline([0])), steps, true))
    ensures TotalSize(after.root) == 1 && Archived(after, Preimage(t)) && after.root.Keys == {Preimage(t)}
    ensures after.root[Preimage(t)].archive.value.mtime == w.clock + 6 && after.staged == w.staged
    ensures after.clock == w.clock + 7
  {
    CommitRuns(w, t, Inline([0]));
    TotalWithout(after.root, Preimage(t));
    assert after.root - {Preimage(t)} == map[];
    assert steps[..|steps|] == steps && steps[|steps|..] == [];
    var r := Ok(CacheEntry(t.key, t.version, Preimage(t), 1));
    assert EnforcedTo(after, 1, Some(Preimage(t)), [], after) && Settled(after.clock, after, 1, Some(Preimage(t)));
    assert Commits(w, 1, t, Inline([0]), r, steps, after);
    assert Completes(w, 1, Commit(t, Inline([0])), steps, after);
  }

  lemma KeysAreValid()
    ensures ValidKey(FIRST.key) && ValidKey(SECOND.key) && Preimage(FIRST) != Preimage(SECOND)
  {
    assert FIRST.key[1..] == [] && SECOND.key[1..] == [];
    assert Preimage(FIRST)[0] == 98 && Preimage(SECOND)[0] == 97;
  }

  lemma MoveThenRun(w: World, quota: nat, m: Move, next: World, rest: seq<Move>, id: Id, use: Use)
    requires IsMove(w, quota, m) && Runs(w, m.steps) && next == ApplyAll(w, m.steps) && IsRun(next, quota, rest)
    ensures IsRun(w, quota, [m] + rest) && EndOf(w, quota, [m] + rest) == EndOf(next, quota, rest)
    ensures LastUse(w, quota, [m] + rest, id, use) == LastUse(next, quota, rest, id, UseAfter(w, m, id, use))
  {
    assert ([m] + rest)[1..] == rest;
  }

  lemma ThreeMoves(quota: nat, w: World, a: Move, w1: World, b: Move, w2: World, c: Move, w3: World, id: Id)
    requires IsMove(w, quota, a) && Runs(w, a.steps) && w1 == ApplyAll(w, a.steps)
    requires IsMove(w1, quota, b) && Runs(w1, b.steps) && w2 == ApplyAll(w1, b.steps)
    requires IsMove(w2, quota, c) && Runs(w2, c.steps) && w3 == ApplyAll(w2, c.steps)
    ensures IsRun(w, quota, [a, b, c]) && EndOf(w, quota, [a, b, c]) == w3
    ensures LastUse(w, quota, [a, b, c], id, Never) ==
      UseAfter(w2, c, id, UseAfter(w1, b, id, UseAfter(w, a, id, Never)))
  {
    var use1 := UseAfter(w, a, id, Never);
    var use2 := UseAfter(w1, b, id, use1);
    MoveThenRun(w2, quota, c, w3, [], id, use2);
    MoveThenRun(w1, quota, b, w2, [c] + [], id, use1);
    MoveThenRun(w, quota, a, w1, [b] + ([c] + []), id, Never);
    assert [a] + ([b] + ([c] + [])) == [a, b, c];
  }

  lemma UsesBeforeTheCut(w: World, upload: Move, w1: World, t: Triple, first: seq<FileStep>, w2: World)
    requires Runs(w, upload.steps) && w1 == ApplyAll(w, upload.steps) && w1.root == map[]
    requires first == CommitSteps(w1, t, Inline([0])) && Runs(w1, first) && w2 == ApplyAll(w1, first)
    requires w2.root.Keys == {Preimage(t)} && Archived(w2, Preimage(t))
    ensures var commit := Move(Commit(t, Inline([0])), first, true);
      forall id :: UseAfter(w1, commit, id, UseAfter(w, upload, id, Never)) ==
                   if id == Preimage(t) then Used(w1.clock + 6) else Never
  {
  }

  /** Any upload of a byte, commit of another one, and commit of the first one that is cut right after the rename. */
  lemma CutRun(w: World, upload: Move, w1: World, one: Triple, first: seq<FileStep>, w2: World, two: Triple,
               path: string, mid: World)
    requires Inv(w1) && w1.root == map[] && path in w1.staged && |w1.staged[path].bytes| == 1
    requires w1.staged[path].mtime < w1.clock + 6
    requires ValidKey(one.key) && ValidKey(two.key) && Preimage(one) != Preimage(two)
    requires IsMove(w, 1, upload) && Runs(w, upload.steps) && w1 == ApplyAll(w, upload.steps)
    requires first == CommitSteps(w1, one, Inline([0])) && Runs(w1, first) && w2 == ApplyAll(w1, first)
    requires Refusal(w2, two, Staged(path)).None? && mid == PlacedWorld(w2, two, Staged(path))
    ensures var moves := [upload, Move(Commit(one, Inline([0])), first, true), CutAfterRename(w2, two, path)];
      && IsRun(w, 1, moves) && EndOf(w, 1, moves) == mid
      && LastUse(w, 1, moves, Preimage(two), Never) == Cut(w1.clock + 12, w1.staged[path].mtime)
      && LastUse(w, 1, moves, Preimage(one), Never) == Used(w1.clock + 6)
    ensures var enforce := Move(EnforceQuota, [RemoveDir(Preimage(two))], true);
      IsMove(mid, 1, enforce) && Runs(mid, enforce.steps) && Evicts(mid, enforce, Preimage(two), Preimage(one))
  {
    var commit, cut := Move(Commit(one, Inline([0])), first, true), CutAfterRename(w2, two, path);
    FirstCommit(w1, one, first, w2);
    MoveIsGood(w1, 1, commit);
    CutCommitGoesFirst(w2, 1, two, path, Preimage(one), mid);
    UsesBeforeTheCut(w, upload, w1, one, first, w2);
    ThreeMoves(1, w, upload, w1, commit, w2, cut, mid, Preimage(two));
    ThreeMoves(1, w, upload, w1, commit, w2, cut, mid, Preimage(one));
    CutUses(w2, two, path, Preimage(one), mid, Never);
    CutUses(w2, two, path, Preimage(one), mid, Used(w1.clock + 6));
  }

  /** So in the run that uploads a file, commits another entry, commits the file and crashes right after the rename,
      the next enforcement evicts the entry that was committed last. */
  lemma LastCommittedCanGoFirst(moves: seq<Move>, w1: World, first: seq<FileStep>, w2: World)
    requires w1 == UPLOADED && first == CommitSteps(w1, FIRST, Inline([0])) && Runs(w1, first)
    requires w2 == ApplyAll(w1, first)
    requires moves == [UPLOAD, Move(Commit(FIRST, Inline([0])), first, true), CutAfterRename(w2, SECOND, "s")]
    ensures IsRun(EMPTY, 1, moves)
    ensures var w, enforce := EndOf(EMPTY, 1, moves), Move(EnforceQuota, [RemoveDir(Preimage(SECOND))], true);
      IsMove(w, 1, enforce) && Runs(w, enforce.steps) && Evicts(w, enforce, Preimage(SECOND), Preimage(FIRST))
    ensures LastUse(EMPTY, 1, moves, Preimage(SECOND), Never) == Cut(13, 0)
    ensures LastUse(EMPTY, 1, moves, Preimage(FIRST), Never) == Used(7)
  {
    KeysAreValid();
    UploadIsMove();
    FirstCommit(w1, FIRST, first, w2);
    CutRun(EMPTY, UPLOAD, w1, FIRST, first, w2, SECOND, "s", PlacedWorld(w2, SECOND, Staged("s")));
  }
}
