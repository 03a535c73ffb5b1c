/** The abstract store: a map from triples to immutable items, and what each file step, and a commit or an
    enforcement cut anywhere, does to it. */
module CacheContents {
  import opened Common
  import opened CacheIdentity
  import opened CacheTree
  import opened CacheStore
  import opened CacheRuns

  // The abstract store: what is stored under each triple

  datatype Item = Item(bytes: seq<byte>, created: nat)

  type Contents = map<Triple, Item>

  ghost predicate StoredAt(w: World, id: Id) {
    Archived(w, id) && Named(w.root[id]) && w.root[id].createdAt.Some?
  }

  ghost function ItemAt(w: World, id: Id): Item
    requires StoredAt(w, id)
  {
    Item(w.root[id].archive.value.bytes, w.root[id].createdAt.value.value)
  }

  ghost predicate Holds(w: World, t: Triple) {
    StoredAt(w, Preimage(t)) && TripleOf(w.root[Preimage(t)]) == t
  }

  ghost function Stored(w: World): set<Triple> {
    set id | id in w.root && StoredAt(w, id) && Holds(w, TripleOf(w.root[id])) :: TripleOf(w.root[id])
  }

  ghost function ContentsOf(w: World): Contents {
    map t | t in Stored(w) :: ItemAt(w, Preimage(t))
  }

  lemma ContentsExact(w: World)
    ensures forall t :: t in ContentsOf(w) <==> Holds(w, t)
    ensures forall t | Holds(w, t) :: ContentsOf(w)[t] == ItemAt(w, Preimage(t))
  {
    assert forall t | Holds(w, t) :: Preimage(t) in w.root && TripleOf(w.root[Preimage(t)]) == t;
  }

  /** The triple whose item a step adds or removes, if any. */
  ghost function Affects(w: World, step: FileStep): Option<Triple>
    requires Inv(w) && Good(w, step)
  {
    match step
    case RenameIn(_, id) => assert DirOk(id, w.root[id], w.clock); Some(TripleOf(w.root[id]))
    case WriteArchive(id, _) => assert DirOk(id, w.root[id], w.clock); Some(TripleOf(w.root[id]))
    case RemoveDir(id) => if StoredAt(w, id) then Some(TripleOf(w.root[id])) else None
    case _ => None
  }

  /** The item that placing an archive stores. */
  ghost function PlacedItem(w: World, step: FileStep): Item
    requires Inv(w) && Good(w, step) && (step.RenameIn? || step.WriteArchive?)
  {
    Item(if step.RenameIn? then w.staged[step.src].bytes else step.bytes, w.root[step.id].createdAt.value.value)
  }

  predicate Quiet(step: FileStep) {
    !step.RenameIn? && !step.WriteArchive? && !step.RemoveDir?
  }

  predicate Within(part: Contents, whole: Contents) {
    forall t | t in part :: t in whole && part[t] == whole[t]
  }

  lemma AffectedTripleChanges(w: World, step: FileStep, t: Triple)
    requires Inv(w) && Good(w, step) && Affects(w, step) == Some(t)
    ensures step.RemoveDir? ==> !Holds(Apply(w, step), t)
    ensures step.RenameIn? || step.WriteArchive? ==>
      Holds(Apply(w, step), t) && ItemAt(Apply(w, step), Preimage(t)) == PlacedItem(w, step)
  {
    assert DirOk(step.id, w.root[step.id], w.clock);
  }

  lemma UnaffectedTriplesStay(w: World, step: FileStep, t: Triple)
    requires Inv(w) && Good(w, step) && Affects(w, step) != Some(t)
    ensures Holds(Apply(w, step), t) <==> Holds(w, t)
    ensures Holds(w, t) ==> ItemAt(Apply(w, step), Preimage(t)) == ItemAt(w, Preimage(t))
  {
    var id := Preimage(t);
    if Target(step) == Some(id) {
      if id in w.root {
        assert DirOk(id, w.root[id], w.clock);
      }
    } else {
      OtherDirsStay(w, step, id);
    }
  }

  /** Maps agree when they hold the same triples with the same items. */
  lemma SameContents(w: World, next: World)
    requires forall t :: Holds(next, t) <==> Holds(w, t)
    requires forall t | Holds(w, t) && Holds(next, t) :: ItemAt(next, Preimage(t)) == ItemAt(w, Preimage(t))
    ensures ContentsOf(next) == ContentsOf(w)
  {
    ContentsExact(w);
    ContentsExact(next);
    var before, after := ContentsOf(w), ContentsOf(next);
    forall t
      ensures t in after <==> t in before
      ensures t in before ==> after[t] == before[t]
    {
      assert t in after <==> Holds(next, t);
    }
  }

  /** A step that neither places an archive nor removes a directory leaves the abstract store alone. */
  lemma QuietStepKeepsContents(w: World, step: FileStep)
    requires Inv(w) && Good(w, step) && Quiet(step)
    ensures ContentsOf(Apply(w, step)) == ContentsOf(w)
  {
    forall t
      ensures Holds(Apply(w, step), t) <==> Holds(w, t)
      ensures Holds(w, t) ==> ItemAt(Apply(w, step), Preimage(t)) == ItemAt(w, Preimage(t))
    {
      UnaffectedTriplesStay(w, step, t);
    }
    SameContents(w, Apply(w, step));
  }

  /** Removing a directory removes at most its own item. */
  lemma RemovalOnlyRemoves(w: World, id: Id)
    requires Inv(w) && Good(w, RemoveDir(id))
    ensures Within(ContentsOf(Apply(w, RemoveDir(id))), ContentsOf(w))
    ensures forall t | t in ContentsOf(w) && Preimage(t) != id :: t in ContentsOf(Apply(w, RemoveDir(id)))
  {
    ContentsExact(w);
    ContentsExact(Apply(w, RemoveDir(id)));
    var next, step := Apply(w, RemoveDir(id)), RemoveDir(id);
    forall t
      ensures Holds(next, t) ==> Holds(w, t) && ItemAt(next, Preimage(t)) == ItemAt(w, Preimage(t))
      ensures Holds(w, t) && Preimage(t) != id ==> Holds(next, t)
    {
      if Affects(w, step) == Some(t) {
        AffectedTripleChanges(w, step, t);
      } else {
        UnaffectedTriplesStay(w, step, t);
      }
    }
  }

  /** Two roots that hold the same triples with the same items, one triple aside, hold the same contents but for it. */
  lemma ContentsDifferAt(w: World, next: World, t: Triple)
    requires forall x | x != t :: Holds(next, x) <==> Holds(w, x)
    requires forall x | x != t && Holds(w, x) && Holds(next, x) :: ItemAt(next, Preimage(x)) == ItemAt(w, Preimage(x))
    ensures Holds(next, t) ==> ContentsOf(next) == ContentsOf(w)[t := ItemAt(next, Preimage(t))]
    ensures !Holds(next, t) ==> ContentsOf(next) == ContentsOf(w) - {t}
  {
    ContentsExact(w);
    ContentsExact(next);
  }

  lemma OneTripleIsAffected(w: World, step: FileStep, t: Triple)
    requires Inv(w) && Good(w, step) && Affects(w, step) == Some(t)
    ensures forall x | x != t :: Holds(Apply(w, step), x) <==> Holds(w, x)
    ensures forall x | x != t && Holds(w, x) ::
      Holds(Apply(w, step), x) && ItemAt(Apply(w, step), Preimage(x)) == ItemAt(w, Preimage(x))
  {
    forall x | x != t
      ensures Holds(Apply(w, step), x) <==> Holds(w, x)
      ensures Holds(w, x) ==> ItemAt(Apply(w, step), Preimage(x)) == ItemAt(w, Preimage(x))
    {
      UnaffectedTriplesStay(w, step, x);
    }
  }

  /** Placing an archive stores its item and changes nothing else. */
  lemma PlacementStores(w: World, step: FileStep, t: Triple)
    requires Inv(w) && Good(w, step) && (step.RenameIn? || step.WriteArchive?)
    requires Affects(w, step) == Some(t)
    ensures ContentsOf(Apply(w, step)) == ContentsOf(w)[t := PlacedItem(w, step)]
  {
    AffectedTripleChanges(w, step, t);
    OneTripleIsAffected(w, step, t);
    ContentsDifferAt(w, Apply(w, step), t);
  }

  /** An archive changes only by being touched, which sets its time to now, or by being removed. */
  lemma ArchivesChangeOnlyByTouch(w: World, step: FileStep, id: Id)
    requires Inv(w) && Good(w, step) && Archived(w, id)
    ensures var next := Apply(w, step);
      if step == RemoveDir(id) then id !in next.root
      else if step == Touch(id) then
        next.root[id] == w.root[id].(archive := Some(Archive(w.root[id].archive.value.bytes, w.clock)))
      else id in next.root && next.root[id] == w.root[id]
  {
    assert DirOk(id, w.root[id], w.clock);
  }

  lemma {:induction false} QuietStepsKeepContents(w: World, steps: seq<FileStep>)
    requires Inv(w) && GoodRun(w, steps) && Runs(w, steps)
    requires forall step | step in steps :: Quiet(step)
    ensures ContentsOf(ApplyAll(w, steps)) == ContentsOf(w)
    decreases |steps|
  {
    if steps == [] {
    } else {
      assert Quiet(steps[0]);
      QuietStepKeepsContents(w, steps[0]);
      GoodKeepsInv(w, steps[0]);
      QuietStepsKeepContents(Apply(w, steps[0]), steps[1..]);
    }
  }

  lemma {:induction false} EnforcementOnlyRemoves(w: World, quota: nat, protect: Option<Id>, steps: seq<FileStep>)
    requires Inv(w) && Enforcement(w, quota, protect, steps) && Runs(w, steps)
    ensures Within(ContentsOf(ApplyAll(w, steps)), ContentsOf(w))
    decreases |steps|
  {
    if steps == [] {
    } else {
      RemovalOnlyRemoves(w, steps[0].id);
      GoodKeepsInv(w, steps[0]);
      EnforcementOnlyRemoves(Apply(w, steps[0]), quota, protect, steps[1..]);
    }
  }

  /** A store that fits its quota loses nothing but stale debris. */
  lemma {:induction false} FittingStoreKeepsItsEntries(w: World, quota: nat, protect: Option<Id>, steps: seq<FileStep>,
                                                       id: Id)
    requires Enforcement(w, quota, protect, steps) && Runs(w, steps)
    requires TotalSize(w.root) <= quota && Archived(w, id)
    ensures Archived(ApplyAll(w, steps), id)
    decreases |steps|
  {
    if steps == [] {
    } else {
      TotalWithout(w.root, steps[0].id);
      FittingStoreKeepsItsEntries(Apply(w, steps[0]), quota, protect, steps[1..], id);
    }
  }

  // The size of the abstract store

  ghost function Total(c: Contents): nat {
    if c == map[] then 0
    else var t :| t in c; |c[t].bytes| + Total(c - {t})
  }

  lemma {:induction false} TotalWithoutItem(c: Contents, t: Triple)
    requires t in c
    ensures Total(c) == |c[t].bytes| + Total(c - {t})
    decreases |c|
  {
    var first :| first in c && Total(c) == |c[first].bytes| + Total(c - {first});
    if first != t {
      TotalWithoutItem(c - {first}, t);
      TotalWithoutItem(c - {t}, first);
      assert c - {first} - {t} == c - {t} - {first};
    }
  }

  lemma RemovingDebrisKeepsContents(w: World, id: Id)
    requires Inv(w) && id in w.root && w.root[id].archive.None?
    ensures ContentsOf(Apply(w, RemoveDir(id))) == ContentsOf(w)
  {
    var next := Apply(w, RemoveDir(id));
    forall t
      ensures Holds(next, t) <==> Holds(w, t)
      ensures Holds(w, t) ==> ItemAt(next, Preimage(t)) == ItemAt(w, Preimage(t))
    {
      UnaffectedTriplesStay(w, RemoveDir(id), t);
    }
    SameContents(w, next);
  }

  /** Removing an archived directory removes its item. */
  lemma RemovalRemovesItsItem(w: World, id: Id, own: Triple)
    requires Inv(w) && StoredAt(w, id) && own == TripleOf(w.root[id])
    ensures own in ContentsOf(w) && |ContentsOf(w)[own].bytes| == ArchiveSize(w.root[id])
    ensures ContentsOf(Apply(w, RemoveDir(id))) == ContentsOf(w) - {own}
  {
    assert DirOk(id, w.root[id], w.clock);
    ContentsExact(w);
    assert Holds(w, own);
    AffectedTripleChanges(w, RemoveDir(id), own);
    OneTripleIsAffected(w, RemoveDir(id), own);
    ContentsDifferAt(w, Apply(w, RemoveDir(id)), own);
  }

  /** Removing a directory takes its size from the total. */
  lemma RemovalShrinksTotal(w: World, id: Id)
    requires Inv(w) && id in w.root
    ensures Total(ContentsOf(w)) == Total(ContentsOf(Apply(w, RemoveDir(id)))) + ArchiveSize(w.root[id])
  {
    if w.root[id].archive.None? {
      RemovingDebrisKeepsContents(w, id);
    } else {
      assert DirOk(id, w.root[id], w.clock);
      var own := TripleOf(w.root[id]);
      RemovalRemovesItsItem(w, id, own);
      TotalWithoutItem(ContentsOf(w), own);
    }
  }

  /** The items add up to the archives under the root. */
  lemma {:induction false} TotalIsTotalSize(w: World)
    requires Inv(w)
    ensures Total(ContentsOf(w)) == TotalSize(w.root)
    decreases |w.root|
  {
    if w.root == map[] {
      ContentsExact(w);
      assert ContentsOf(w) == map[];
    } else {
      var id :| id in w.root;
      GoodKeepsInv(w, RemoveDir(id));
      TotalIsTotalSize(Apply(w, RemoveDir(id)));
      TotalWithout(w.root, id);
      RemovalShrinksTotal(w, id);
    }
  }

  /** What an enforcement may do: remove items, and none from a store that fits. */
  ghost predicate Evicted(before: Contents, quota: nat, after: Contents) {
    Within(after, before) && (Total(before) <= quota ==> after == before)
  }

  lemma FittingStoreKeepsItsContents(w: World, quota: nat, protect: Option<Id>, steps: seq<FileStep>)
    requires Inv(w) && Enforcement(w, quota, protect, steps) && Runs(w, steps) && TotalSize(w.root) <= quota
    ensures forall t | t in ContentsOf(w) :: t in ContentsOf(ApplyAll(w, steps))
  {
    ContentsExact(w);
    ContentsExact(ApplyAll(w, steps));
    EnforcementRuns(w, quota, protect, steps);
    forall t | Holds(w, t)
      ensures Holds(ApplyAll(w, steps), t)
    {
      FittingStoreKeepsItsEntries(w, quota, protect, steps, Preimage(t));
    }
  }

  lemma EnforcementEvicts(w: World, quota: nat, protect: Option<Id>, steps: seq<FileStep>)
    requires Inv(w) && Enforcement(w, quota, protect, steps) && Runs(w, steps)
    ensures Evicted(ContentsOf(w), quota, ContentsOf(ApplyAll(w, steps)))
  {
    EnforcementOnlyRemoves(w, quota, protect, steps);
    TotalIsTotalSize(w);
    if TotalSize(w.root) <= quota {
      FittingStoreKeepsItsContents(w, quota, protect, steps);
    }
  }

  lemma {:induction false} EnforcementPrefix(w: World, quota: nat, protect: Option<Id>, steps: seq<FileStep>, n: nat)
    requires Enforcement(w, quota, protect, steps) && n <= |steps|
    ensures Enforcement(w, quota, protect, steps[..n])
    decreases n
  {
    if n == 0 {
    } else {
      assert steps[..n][0] == steps[0] && steps[..n][1..] == steps[1..][..n - 1];
      EnforcementPrefix(Apply(w, steps[0]), quota, protect, steps[1..], n - 1);
    }
  }

  /** Placing the archive of a claimed directory is a good step. */
  lemma ClaimedTakesArchive(w: World, t: Triple, source: Source, now: nat)
    requires Inv(w) && Preimage(t) in w.root && w.root[Preimage(t)] == ClaimedDir(t, now)
    requires source.Staged? ==> source.path in w.staged
    ensures var step := ArchiveStep(source, Preimage(t));
      Good(w, step) && Inv(Apply(w, step)) && Archived(Apply(w, step), Preimage(t))
  {
    GoodKeepsInv(w, ArchiveStep(source, Preimage(t)));
  }

  /** It stores the item and nothing else. */
  lemma PlacingIntoClaimed(w: World, t: Triple, source: Source, now: nat, before: Contents, item: Item)
    requires Inv(w) && Preimage(t) in w.root && w.root[Preimage(t)] == ClaimedDir(t, now)
    requires source.Staged? ==> source.path in w.staged
    requires before == ContentsOf(w) && item == Item(SourceBytes(w, source), now + 1)
    ensures ContentsOf(Apply(w, ArchiveStep(source, Preimage(t)))) == before[t := item]
  {
    var step := ArchiveStep(source, Preimage(t));
    assert Affects(w, step) == Some(t);
    PlacementStores(w, step, t);
  }

  lemma PlacingIsGood(w: World, t: Triple, source: Source, begin: seq<FileStep>, claimed: World)
    requires GoodRun(w, begin) && Runs(w, begin) && claimed == ApplyAll(w, begin) && Inv(claimed)
    requires Preimage(t) in claimed.root && claimed.root[Preimage(t)] == ClaimedDir(t, w.clock)
    requires source.Staged? ==> source.path in claimed.staged
    ensures var six := begin + [ArchiveStep(source, Preimage(t))];
      && GoodRun(w, six) && Runs(w, six)
      && ApplyAll(w, six) == Apply(claimed, ArchiveStep(source, Preimage(t)))
  {
    ClaimedTakesArchive(claimed, t, source, w.clock);
    GoodRunOne(w, begin, ArchiveStep(source, Preimage(t)));
  }

  /** The world once the directory of an entry is claimed. */
  function ClaimedWorld(w: World, t: Triple): World {
    World(w.root[Preimage(t) := ClaimedDir(t, w.clock)], w.staged, w.clock + 5)
  }

  lemma ClaimingIsReached(w: World, t: Triple)
    requires Inv(w) && Preimage(t) !in w.root
    ensures var begin := BeginSteps(t, w.clock + 1);
      GoodRun(w, begin) && Runs(w, begin) && ApplyAll(w, begin) == ClaimedWorld(w, t)
  {
    BeginIsGood(w, t);
    BeginRuns(w, t);
  }

  lemma ClaimingIsQuiet(w: World, t: Triple, begin: seq<FileStep>)
    requires Inv(w) && GoodRun(w, begin) && Runs(w, begin) && ApplyAll(w, begin) == ClaimedWorld(w, t)
    requires forall step | step in begin :: Quiet(step)
    ensures Inv(ClaimedWorld(w, t)) && ContentsOf(ClaimedWorld(w, t)) == ContentsOf(w)
  {
    GoodRunKeepsInv(w, begin);
    QuietStepsKeepContents(w, begin);
  }

  /** The world once the archive of a commit is in place. */
  function PlacedWorld(w: World, t: Triple, source: Source): World
    requires source.Staged? ==> source.path in w.staged
  {
    Apply(ClaimedWorld(w, t), ArchiveStep(source, Preimage(t)))
  }

  function SixSteps(w: World, t: Triple, source: Source): seq<FileStep> {
    BeginSteps(t, w.clock + 1) + [ArchiveStep(source, Preimage(t))]
  }

  lemma PlacedIsReached(w: World, t: Triple, source: Source)
    requires Inv(w) && Refusal(w, t, source).None?
    ensures GoodRun(w, SixSteps(w, t, source)) && Runs(w, SixSteps(w, t, source))
    ensures ApplyAll(w, SixSteps(w, t, source)) == PlacedWorld(w, t, source)
  {
    ClaimingIsReached(w, t);
    ClaimedKeepsContents(w, t);
    PlacingIsGood(w, t, source, BeginSteps(t, w.clock + 1), ClaimedWorld(w, t));
  }

  lemma ClaimedKeepsContents(w: World, t: Triple)
    requires Inv(w) && Preimage(t) !in w.root
    ensures Inv(ClaimedWorld(w, t)) && ContentsOf(ClaimedWorld(w, t)) == ContentsOf(w)
  {
    var begin := BeginSteps(t, w.clock + 1);
    ClaimingIsReached(w, t);
    assert forall step | step in begin :: Quiet(step);
    ClaimingIsQuiet(w, t, begin);
  }

  lemma PlacedIsOk(w: World, t: Triple, source: Source)
    requires Inv(w) && Refusal(w, t, source).None?
    ensures Inv(PlacedWorld(w, t, source)) && Archived(PlacedWorld(w, t, source), Preimage(t))
  {
    ClaimedKeepsContents(w, t);
    ClaimedTakesArchive(ClaimedWorld(w, t), t, source, w.clock);
  }

  lemma PlacingStores(w: World, t: Triple, source: Source)
    requires Inv(w) && Refusal(w, t, source).None?
    ensures ContentsOf(PlacedWorld(w, t, source)) == ContentsOf(w)[t := Item(SourceBytes(w, source), w.clock + 1)]
  {
    ClaimedKeepsContents(w, t);
    PlacingIntoClaimed(ClaimedWorld(w, t), t, source, w.clock, ContentsOf(w),
      Item(SourceBytes(w, source), w.clock + 1));
  }

  lemma TouchedIsReached(w: World, t: Triple, source: Source)
    requires Inv(w) && Refusal(w, t, source).None?
    ensures Archived(PlacedWorld(w, t, source), Preimage(t)) && Runs(w, CommitSteps(w, t, source))
    ensures ApplyAll(w, CommitSteps(w, t, source)) == Apply(PlacedWorld(w, t, source), Touch(Preimage(t)))
  {
    PlacedIsReached(w, t, source);
    PlacedIsOk(w, t, source);
    RunsOne(w, SixSteps(w, t, source), Touch(Preimage(t)));
    assert SixSteps(w, t, source) + [Touch(Preimage(t))] == CommitSteps(w, t, source);
  }

  lemma TouchingKeeps(w: World, t: Triple, source: Source)
    requires Inv(w) && Refusal(w, t, source).None?
    ensures Runs(w, CommitSteps(w, t, source)) && Inv(ApplyAll(w, CommitSteps(w, t, source)))
    ensures ContentsOf(ApplyAll(w, CommitSteps(w, t, source))) ==
      ContentsOf(w)[t := Item(SourceBytes(w, source), w.clock + 1)]
  {
    var placed, touch := PlacedWorld(w, t, source), Touch(Preimage(t));
    TouchedIsReached(w, t, source);
    PlacedIsOk(w, t, source);
    PlacingStores(w, t, source);
    GoodKeepsInv(placed, touch);
    QuietStepKeepsContents(placed, touch);
  }

  lemma PrefixIsQuiet(w: World, t: Triple, source: Source, rest: seq<FileStep>, n: nat)
    requires n <= 5
    ensures forall step | step in (CommitSteps(w, t, source) + rest)[..n] :: Quiet(step)
  {
    assert forall step | step in BeginSteps(t, w.clock + 1) :: Quiet(step);
    assert (CommitSteps(w, t, source) + rest)[..n] == BeginSteps(t, w.clock + 1)[..n];
  }

  /** Cut before the archive is in place, a commit has not changed the abstract store. */
  lemma EarlyCut(w: World, t: Triple, source: Source, steps: seq<FileStep>, rest: seq<FileStep>)
    requires Inv(w) && GoodRun(w, steps) && Runs(w, steps)
    requires steps <= CommitSteps(w, t, source) + rest && |steps| <= 5
    ensures ContentsOf(ApplyAll(w, steps)) == ContentsOf(w)
  {
    PrefixIsQuiet(w, t, source, rest, |steps|);
    assert steps == (CommitSteps(w, t, source) + rest)[..|steps|];
    QuietStepsKeepContents(w, steps);
  }

  lemma SixthCut(w: World, t: Triple, source: Source, steps: seq<FileStep>, rest: seq<FileStep>)
    requires Inv(w) && Refusal(w, t, source).None? && Runs(w, steps)
    requires steps <= CommitSteps(w, t, source) + rest && |steps| == 6
    ensures ContentsOf(ApplyAll(w, steps)) == ContentsOf(w)[t := Item(SourceBytes(w, source), w.clock + 1)]
  {
    assert steps == SixSteps(w, t, source);
    PlacedIsReached(w, t, source);
    PlacingStores(w, t, source);
  }

  /** Once its first steps have stored the item, a commit only evicts, and never its own item. */
  lemma LaterCut(quota: nat, t: Triple, stored: Contents, mid: World, tail: seq<FileStep>)
    requires Inv(mid) && ContentsOf(mid) == stored && t in stored
    requires Enforcement(mid, quota, Some(Preimage(t)), tail) && Runs(mid, tail)
    ensures var after := ContentsOf(ApplyAll(mid, tail));
      t in after && after[t] == stored[t] && Evicted(stored, quota, after)
  {
    ContentsExact(mid);
    EnforcementEvicts(mid, quota, Some(Preimage(t)), tail);
    EvictionKeepsCommitted(quota, t, mid, tail);
  }

  /** A cut after the first steps is a cut of the enforcement that follows them. */
  lemma CutPoint(w: World, quota: nat, protect: Option<Id>, first: seq<FileStep>, steps: seq<FileStep>,
                 rest: seq<FileStep>,
                 tail: seq<FileStep>)
    requires Runs(w, first) && Enforcement(ApplyAll(w, first), quota, protect, rest)
    requires steps <= first + rest && |first| <= |steps| && tail == rest[..|steps| - |first|]
    ensures Runs(w, steps) && Runs(ApplyAll(w, first), tail) && ApplyAll(w, steps) == ApplyAll(ApplyAll(w, first), tail)
    ensures Enforcement(ApplyAll(w, first), quota, protect, tail)
  {
    assert steps == first + tail;
    EnforcementPrefix(ApplyAll(w, first), quota, protect, rest, |tail|);
    EnforcementRuns(ApplyAll(w, first), quota, protect, tail);
    RunsAppend(w, first, tail);
  }

  /** What a commit cut after `n` of its steps has done to the abstract store. */
  ghost predicate CutCommit(before: Contents, quota: nat, t: Triple, item: Item, n: nat, after: Contents) {
    if n <= 5 then after == before
    else t in after && after[t] == item && Evicted(before[t := item], quota, after)
  }

  lemma StoredThenEvicted(w: World, quota: nat, t: Triple, item: Item, first: seq<FileStep>, steps: seq<FileStep>,
                          rest: seq<FileStep>, tail: seq<FileStep>)
    requires Runs(w, first) && Inv(ApplyAll(w, first)) && ContentsOf(ApplyAll(w, first)) == ContentsOf(w)[t := item]
    requires Enforcement(ApplyAll(w, first), quota, Some(Preimage(t)), rest)
    requires steps <= first + rest && 5 < |first| <= |steps| && tail == rest[..|steps| - |first|]
    ensures Runs(w, steps) && CutCommit(ContentsOf(w), quota, t, item, |steps|, ContentsOf(ApplyAll(w, steps)))
  {
    CutPoint(w, quota, Some(Preimage(t)), first, steps, rest, tail);
    LaterCut(quota, t, ContentsOf(w)[t := item], ApplyAll(w, first), tail);
  }

  lemma LateCut(w: World, quota: nat, t: Triple, source: Source, first: seq<FileStep>, steps: seq<FileStep>,
                rest: seq<FileStep>)
    requires Inv(w) && Refusal(w, t, source).None? && Runs(w, first) && first == CommitSteps(w, t, source)
    requires Enforcement(ApplyAll(w, first), quota, Some(Preimage(t)), rest)
    requires steps <= first + rest && |first| == 7 <= |steps|
    ensures Runs(w, steps)
    ensures CutCommit(ContentsOf(w), quota, t, Item(SourceBytes(w, source), w.clock + 1), |steps|,
      ContentsOf(ApplyAll(w, steps)))
  {
    TouchingKeeps(w, t, source);
    StoredThenEvicted(w, quota, t, Item(SourceBytes(w, source), w.clock + 1), first, steps, rest, rest[..|steps| - 7]);
  }

  /** A commit cut anywhere: nothing of it shows before the archive is in place, all of it afterwards. */
  lemma CommitRefines(w: World, quota: nat, t: Triple, source: Source, steps: seq<FileStep>, rest: seq<FileStep>)
    requires Inv(w) && Refusal(w, t, source).None?
    requires Runs(w, CommitSteps(w, t, source))
    requires Enforcement(ApplyAll(w, CommitSteps(w, t, source)), quota, Some(Preimage(t)), rest)
    requires steps <= CommitSteps(w, t, source) + rest && GoodRun(w, steps) && Runs(w, steps)
    ensures CutCommit(ContentsOf(w), quota, t, Item(SourceBytes(w, source), w.clock + 1), |steps|,
      ContentsOf(ApplyAll(w, steps)))
  {
    if |steps| <= 5 {
      EarlyCut(w, t, source, steps, rest);
    } else if |steps| == 6 {
      SixthCut(w, t, source, steps, rest);
    } else {
      LateCut(w, quota, t, source, CommitSteps(w, t, source), steps, rest);
    }
  }

  lemma EvictionKeepsCommitted(quota: nat, t: Triple, touched: World, tail: seq<FileStep>)
    requires Inv(touched) && Enforcement(touched, quota, Some(Preimage(t)), tail) && Runs(touched, tail)
    requires Holds(touched, t)
    ensures var c := ContentsOf(ApplyAll(touched, tail));
      t in c && t in ContentsOf(touched) && c[t] == ContentsOf(touched)[t] && Within(c, ContentsOf(touched))
  {
    EnforcementRuns(touched, quota, Some(Preimage(t)), tail);
    EnforcementOnlyRemoves(touched, quota, Some(Preimage(t)), tail);
    ContentsExact(touched);
    ContentsExact(ApplyAll(touched, tail));
  }
}
