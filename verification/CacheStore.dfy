/** The cache store: commits, lookups and quota enforcement over the cache root. Each method that changes
    the root returns, as ghost output, the file steps it took. */
module CacheStore {
  import opened Common
  import opened CacheIdentity
  import opened CacheTree

  datatype CacheError = InvalidKey | StagedFileNotFound | AlreadyExists(key: Text, version: Text)

  datatype CacheEntry = CacheEntry(key: Text, version: Text, path: Id, size: nat)

  // Key validation

  const COMMA: byte := 44
  const MAX_KEY_UNITS: nat := 512
  const MAX_RESTORE_KEYS: nat := 10

  /** The UTF-16 length of UTF-8 bytes: lead bytes count one, those of four-byte sequences two. */
  function Utf16Length(text: seq<byte>): nat {
    if text == [] then 0
    else
      var b := text[0];
      (if b < 128 || 192 <= b < 240 then 1 else if b >= 240 then 2 else 0) + Utf16Length(text[1..])
  }

  predicate ValidKey(key: Text) {
    key != [] && Utf16Length(key) <= MAX_KEY_UNITS && COMMA !in key
  }

  // Quota enforcement: the entries, their sum, and their order

  datatype Entry = Entry(id: Id, size: nat, mtime: nat)

  function EntryOf(w: World, id: Id): Entry
    requires Archived(w, id)
  {
    Entry(id, ArchiveSize(w.root[id]), w.root[id].archive.value.mtime)
  }

  /** The entries of the archived directories among `order`. */
  function EntriesOf(w: World, order: seq<Id>): seq<Entry> {
    if order == [] then []
    else
      var last := order[|order| - 1];
      EntriesOf(w, order[..|order| - 1]) + if Archived(w, last) then [EntryOf(w, last)] else []
  }

  lemma OneMoreDirectory(w: World, order: seq<Id>, i: nat)
    requires i < |order|
    ensures EntriesOf(w, order[..i + 1]) ==
      EntriesOf(w, order[..i]) + if Archived(w, order[i]) then [EntryOf(w, order[i])] else []
  {
    assert order[..i + 1][..i] == order[..i];
  }

  function SumSizes(entries: seq<Entry>): nat {
    if entries == [] then 0 else entries[0].size + SumSizes(entries[1..])
  }

  function SaturatingSub(a: nat, b: nat): nat {
    if a < b then 0 else a - b
  }

  /** A stable sort by mtime, as `sort_by_key` is. */
  function SortByMtime(entries: seq<Entry>): seq<Entry> {
    if entries == [] then [] else Insert(entries[0], SortByMtime(entries[1..]))
  }

  function Insert(e: Entry, sorted: seq<Entry>): seq<Entry> {
    if sorted == [] || e.mtime <= sorted[0].mtime then [e] + sorted
    else [sorted[0]] + Insert(e, sorted[1..])
  }

  ghost predicate Sorted(entries: seq<Entry>) {
    forall i, j | 0 <= i < j < |entries| :: entries[i].mtime <= entries[j].mtime
  }

  ghost predicate DistinctIds(entries: seq<Entry>) {
    forall i, j | 0 <= i < j < |entries| :: entries[i].id != entries[j].id
  }

  lemma {:induction false} InsertMembers(e: Entry, sorted: seq<Entry>)
    ensures forall x :: x in Insert(e, sorted) <==> x == e || x in sorted
  {
    if sorted != [] && e.mtime > sorted[0].mtime {
      InsertMembers(e, sorted[1..]);
      assert forall x :: x in sorted <==> x == sorted[0] || x in sorted[1..];
    }
  }

  lemma {:induction false} InsertSorts(e: Entry, sorted: seq<Entry>)
    requires Sorted(sorted)
    ensures Sorted(Insert(e, sorted))
  {
    if sorted != [] && e.mtime > sorted[0].mtime {
      var rest := Insert(e, sorted[1..]);
      InsertSorts(e, sorted[1..]);
      InsertMembers(e, sorted[1..]);
      forall j | 0 <= j < |rest|
        ensures sorted[0].mtime <= rest[j].mtime
      {
        assert rest[j] in rest;
      }
    }
  }

  lemma {:induction false} InsertKeepsDistinct(e: Entry, sorted: seq<Entry>)
    requires DistinctIds(sorted) && forall x | x in sorted :: x.id != e.id
    ensures DistinctIds(Insert(e, sorted))
  {
    if sorted != [] && e.mtime > sorted[0].mtime {
      var rest := Insert(e, sorted[1..]);
      assert forall x | x in sorted[1..] :: x in sorted;
      InsertKeepsDistinct(e, sorted[1..]);
      InsertMembers(e, sorted[1..]);
      forall j | 0 <= j < |rest|
        ensures sorted[0].id != rest[j].id
      {
        assert rest[j] in rest && sorted[0] in sorted;
      }
    } else if sorted != [] {
      assert forall j | 0 <= j < |sorted| :: sorted[j] in sorted;
    }
  }

  /** Sorting keeps the entries and puts them in order of mtime. */
  lemma {:induction false} SortKeeps(entries: seq<Entry>)
    ensures Sorted(SortByMtime(entries))
    ensures forall x :: x in SortByMtime(entries) <==> x in entries
  {
    if entries == [] {
    } else {
      SortKeeps(entries[1..]);
      InsertMembers(entries[0], SortByMtime(entries[1..]));
      InsertSorts(entries[0], SortByMtime(entries[1..]));
      assert forall x :: x in entries <==> x == entries[0] || x in entries[1..];
    }
  }

  lemma {:induction false} SortKeepsDistinct(entries: seq<Entry>)
    requires DistinctIds(entries)
    ensures DistinctIds(SortByMtime(entries))
  {
    if entries == [] {
    } else {
      SortKeeps(entries[1..]);
      SortKeepsDistinct(entries[1..]);
      forall x | x in SortByMtime(entries[1..])
        ensures x.id != entries[0].id
      {
        var i :| 0 <= i < |entries[1..]| && entries[1..][i] == x;
        assert entries[i + 1] == x;
      }
      InsertKeepsDistinct(entries[0], SortByMtime(entries[1..]));
    }
  }

  /** The directory listing names every directory once. */
  ghost predicate Lists(order: seq<Id>, root: map<Id, Dir>) {
    && (forall id :: id in order <==> id in root)
    && forall i, j | 0 <= i < j < |order| :: order[i] != order[j]
  }

  lemma {:induction false} EntriesExact(w: World, order: seq<Id>)
    ensures forall e :: e in EntriesOf(w, order) <==> e.id in order && Archived(w, e.id) && e == EntryOf(w, e.id)
    ensures (forall i, j | 0 <= i < j < |order| :: order[i] != order[j]) ==> DistinctIds(EntriesOf(w, order))
  {
    if order == [] {
    } else {
      var last, before := order[|order| - 1], order[..|order| - 1];
      EntriesExact(w, before);
      assert forall id :: id in order <==> id == last || id in before;
      if forall i, j | 0 <= i < j < |order| :: order[i] != order[j] {
        var entries := EntriesOf(w, before);
        forall i | 0 <= i < |entries|
          ensures entries[i].id != last
        {
          assert entries[i] in entries;
          var j :| 0 <= j < |before| && before[j] == entries[i].id;
          assert order[j] == before[j];
        }
      }
    }
  }

  /** The sum over the entries is the total over the root. */
  lemma {:induction false} SumIsTotal(entries: seq<Entry>, w: World)
    requires DistinctIds(entries)
    requires forall e | e in entries :: Archived(w, e.id) && e == EntryOf(w, e.id)
    requires forall id | Archived(w, id) :: EntryOf(w, id) in entries
    ensures SumSizes(entries) == TotalSize(w.root)
    decreases |entries|
  {
    if entries == [] {
      assert forall id | id in w.root :: !Archived(w, id);
      NoArchivesNoTotal(w.root);
    } else {
      var first := entries[0];
      var less := w.(root := w.root - {first.id});
      assert Archived(w, first.id);
      TotalWithout(w.root, first.id);
      forall e | e in entries[1..]
        ensures Archived(less, e.id) && e == EntryOf(less, e.id)
      {
        var i :| 0 <= i < |entries[1..]| && entries[1..][i] == e;
        assert entries[i + 1] == e && entries[0].id != entries[i + 1].id;
        assert Archived(w, e.id);
      }
      forall id | Archived(less, id)
        ensures EntryOf(less, id) in entries[1..]
      {
        assert Archived(w, id);
        assert EntryOf(w, id) in entries;
      }
      SumIsTotal(entries[1..], less);
    }
  }

  /** Removing an allowed directory after an enforcement so far continues it. */
  lemma RemoveContinues(w: World, quota: nat, protect: Option<Id>, steps: seq<FileStep>, id: Id)
    requires Enforcement(w, quota, protect, steps) && Runs(w, steps)
    requires MayRemove(ApplyAll(w, steps), quota, protect, id)
    ensures Enforcement(w, quota, protect, steps + [RemoveDir(id)])
    ensures Runs(w, steps + [RemoveDir(id)])
    ensures ApplyAll(w, steps + [RemoveDir(id)]) == Apply(ApplyAll(w, steps), RemoveDir(id))
  {
    EnforcementOne(w, quota, protect, steps, id);
    RunsOne(w, steps, RemoveDir(id));
  }

  /** `steps` is an enforcement that leads from one world to the other. */
  ghost predicate EnforcedTo(before: World, quota: nat, protect: Option<Id>, steps: seq<FileStep>, after: World) {
    Enforcement(before, quota, protect, steps) && Runs(before, steps) && after == ApplyAll(before, steps)
  }

  // The listing pass, one directory at a time

  /** The first `i` directories of the listing were handled: no archive was touched, stale debris is gone. */
  ghost predicate Scanned(before: World, now: World, order: seq<Id>, i: nat) {
    && i <= |order|
    && now.clock >= before.clock
    && (forall id | id in now.root :: id in before.root && now.root[id] == before.root[id])
    && (forall id | Archived(before, id) :: id in now.root)
    && (forall j | i <= j < |order| :: order[j] in now.root)
    && (forall j | 0 <= j < i :: order[j] in now.root && now.root[order[j]].archive.None? ==>
          !Stale(now.root[order[j]], before.clock))
  }

  lemma ScanLeaves(before: World, now: World, order: seq<Id>, i: nat)
    requires Lists(order, before.root) && Scanned(before, now, order, i) && i < |order|
    requires Archived(now, order[i]) || !Stale(now.root[order[i]], now.clock)
    ensures Scanned(before, now, order, i + 1)
  {
  }

  lemma ScanReaps(before: World, now: World, order: seq<Id>, i: nat)
    requires Lists(order, before.root) && Scanned(before, now, order, i) && i < |order|
    requires now.root[order[i]].archive.None?
    ensures Scanned(before, Apply(now, RemoveDir(order[i])), order, i + 1)
  {
    assert forall j | 0 <= j < |order| && j != i :: order[j] != order[i];
  }

  lemma ReapContinues(before: World, now: World, quota: nat, protect: Option<Id>, steps: seq<FileStep>, order: seq<Id>,
                      i: nat)
    requires EnforcedTo(before, quota, protect, steps, now)
    requires Lists(order, before.root) && Scanned(before, now, order, i) && i < |order|
    requires now.root[order[i]].archive.None?
    ensures Stale(now.root[order[i]], now.clock) ==>
      && EnforcedTo(before, quota, protect, steps + [RemoveDir(order[i])], Apply(now, RemoveDir(order[i])))
      && Scanned(before, Apply(now, RemoveDir(order[i])), order, i + 1)
    ensures !Stale(now.root[order[i]], now.clock) ==>
      EnforcedTo(before, quota, protect, steps + [], now) && Scanned(before, now, order, i + 1)
  {
    if Stale(now.root[order[i]], now.clock) {
      ScanReaps(before, now, order, i);
      RemoveContinues(before, quota, protect, steps, order[i]);
    } else {
      ScanLeaves(before, now, order, i);
      assert steps + [] == steps;
    }
  }

  lemma ScanEnds(before: World, now: World, order: seq<Id>)
    requires Lists(order, before.root) && Scanned(before, now, order, |order|)
    ensures forall id | id in now.root && now.root[id].archive.None? :: !Stale(now.root[id], before.clock)
  {
    forall id | id in now.root && now.root[id].archive.None?
      ensures !Stale(now.root[id], before.clock)
    {
      assert id in order;
      var j :| 0 <= j < |order| && order[j] == id;
    }
  }

  // The eviction pass, one entry at a time

  /** The entries before the i-th were removed or are protected, the others are still there, and the running
      total is the size of what is there. */
  ghost predicate Evicting(now: World, protect: Option<Id>, entries: seq<Entry>, i: nat, total: nat) {
    && i <= |entries|
    && total == TotalSize(now.root)
    && (forall j | i <= j < |entries| :: Archived(now, entries[j].id) && entries[j] == EntryOf(now, entries[j].id))
    && (forall id | Archived(now, id) :: protect == Some(id) || exists j | i <= j < |entries| :: entries[j].id == id)
  }

  lemma EvictionStarts(now: World, protect: Option<Id>, entries: seq<Entry>, total: nat)
    requires total == TotalSize(now.root)
    requires forall e :: e in entries <==> Archived(now, e.id) && e == EntryOf(now, e.id)
    ensures Evicting(now, protect, entries, 0, total)
  {
    forall id | Archived(now, id)
      ensures exists j | 0 <= j < |entries| :: entries[j].id == id
    {
      assert EntryOf(now, id) in entries;
    }
    assert forall j | 0 <= j < |entries| :: entries[j] in entries;
  }

  /** After the listing pass the sum over the entries is the total, and their sorted list is ready to be evicted. */
  lemma ScanFeedsEviction(before: World, scanned: World, order: seq<Id>, protect: Option<Id>)
    requires Lists(order, before.root) && Scanned(before, scanned, order, |order|)
    ensures var entries := EntriesOf(before, order);
      && SumSizes(entries) == TotalSize(scanned.root)
      && Evicting(scanned, protect, SortByMtime(entries), 0, SumSizes(entries))
      && Sorted(SortByMtime(entries)) && DistinctIds(SortByMtime(entries))
  {
    var entries := EntriesOf(before, order);
    EntriesExact(before, order);
    assert forall id :: Archived(scanned, id) <==> Archived(before, id);
    SumIsTotal(entries, scanned);
    SortKeeps(entries);
    SortKeepsDistinct(entries);
    EvictionStarts(scanned, protect, SortByMtime(entries), SumSizes(entries));
  }

  lemma EvictionSkips(now: World, protect: Option<Id>, entries: seq<Entry>, i: nat, total: nat)
    requires Evicting(now, protect, entries, i, total) && i < |entries| && protect == Some(entries[i].id)
    ensures Evicting(now, protect, entries, i + 1, total)
  {
  }

  /** The next entry of the sorted list is the least recently used one left. */
  lemma NextIsLeastRecent(now: World, protect: Option<Id>, entries: seq<Entry>, i: nat, total: nat)
    requires Evicting(now, protect, entries, i, total) && i < |entries| && Sorted(entries)
    ensures LeastRecent(now, protect, entries[i].id)
  {
    forall other | Archived(now, other) && protect != Some(other)
      ensures entries[i].mtime <= now.root[other].archive.value.mtime
    {
      var j :| i <= j < |entries| && entries[j].id == other;
      assert entries[j] == EntryOf(now, other);
    }
  }

  /** Removing it keeps the running total right, and the total cannot underflow. */
  lemma EvictionRemoves(now: World, protect: Option<Id>, entries: seq<Entry>, i: nat, total: nat)
    requires Evicting(now, protect, entries, i, total) && i < |entries| && DistinctIds(entries)
    ensures Archived(now, entries[i].id) && entries[i].size <= total
    ensures Evicting(Apply(now, RemoveDir(entries[i].id)), protect, entries, i + 1, total - entries[i].size)
  {
    var next := Apply(now, RemoveDir(entries[i].id));
    TotalWithout(now.root, entries[i].id);
    forall id | Archived(next, id)
      ensures protect == Some(id) || exists j | i + 1 <= j < |entries| :: entries[j].id == id
    {
      assert Archived(now, id);
    }
  }

  /** Whether the newest of the files, if there are any, is over the age. */
  method IsStale(files: seq<nat>, now: nat) returns (stale: bool)
    ensures stale <==> forall mtime | mtime in files :: now > mtime + STALE_WRITE_MAX_AGE
  {
    var newest, any := 0, false;
    for i := 0 to |files|
      invariant (any <==> i > 0) && (!any ==> newest == 0)
      invariant forall j | 0 <= j < i :: files[j] <= newest
      invariant any ==> newest in files
    {
      any := true;
      newest := if files[i] > newest then files[i] else newest;
    }
    stale := !any || now > newest + STALE_WRITE_MAX_AGE;
  }

  // Commits

  datatype Source = Staged(path: string) | Inline(bytes: seq<byte>)

  function BeginSteps(t: Triple, now: nat): seq<FileStep> {
    var id := Preimage(t);
    [CreateDir(id), WriteNamespace(id, t.namespace), WriteKey(id, t.key), WriteVersion(id, t.version),
      WriteCreatedAt(id, now)]
  }

  function ArchiveStep(source: Source, id: Id): FileStep {
    match source
    case Staged(path) => RenameIn(path, id)
    case Inline(bytes) => WriteArchive(id, bytes)
  }

  /** All the steps of a commit before quota enforcement. The clock is read after the directory is created. */
  function CommitSteps(w: World, t: Triple, source: Source): seq<FileStep> {
    BeginSteps(t, w.clock + 1) + [ArchiveStep(source, Preimage(t)), Touch(Preimage(t))]
  }

  /** What is wrong with a commit before it changes anything. */
  function Refusal(w: World, t: Triple, source: Source): Option<CacheError> {
    if source.Staged? && source.path !in w.staged then Some(StagedFileNotFound)
    else if !ValidKey(t.key) then Some(InvalidKey)
    else if Preimage(t) in w.root then Some(AlreadyExists(t.key, t.version))
    else None
  }

  function SourceBytes(w: World, source: Source): seq<byte>
    requires source.Staged? ==> source.path in w.staged
  {
    match source
    case Staged(path) => w.staged[path].bytes
    case Inline(bytes) => bytes
  }

  /** The directory of an entry that was just claimed at time `now`. */
  function ClaimedDir(t: Triple, now: nat): Dir {
    Dir(Some(Sidecar(t.namespace, now + 1)), Some(Sidecar(t.key, now + 2)), Some(Sidecar(t.version, now + 3)),
        Some(Sidecar(now + 1, now + 4)), None)
  }

  lemma BeginRuns(w: World, t: Triple)
    requires Preimage(t) !in w.root
    ensures var steps := BeginSteps(t, w.clock + 1);
      && Runs(w, steps)
      && ApplyAll(w, steps) == World(w.root[Preimage(t) := ClaimedDir(t, w.clock)], w.staged, w.clock + 5)
  {
    var id, now := Preimage(t), w.clock + 1;
    var w1 := Apply(w, CreateDir(id));
    var w2 := Apply(w1, WriteNamespace(id, t.namespace));
    var w3 := Apply(w2, WriteKey(id, t.key));
    var w4 := Apply(w3, WriteVersion(id, t.version));
    var s1, s2, s3 := [CreateDir(id)], [CreateDir(id), WriteNamespace(id, t.namespace)],
      [CreateDir(id), WriteNamespace(id, t.namespace), WriteKey(id, t.key)];
    RunsOne(w, [], CreateDir(id));
    RunsOne(w, s1, WriteNamespace(id, t.namespace));
    assert s1 + [WriteNamespace(id, t.namespace)] == s2;
    RunsOne(w, s2, WriteKey(id, t.key));
    assert s2 + [WriteKey(id, t.key)] == s3;
    RunsOne(w, s3, WriteVersion(id, t.version));
    RunsOne(w, s3 + [WriteVersion(id, t.version)], WriteCreatedAt(id, now));
    assert s3 + [WriteVersion(id, t.version)] + [WriteCreatedAt(id, now)] == BeginSteps(t, now);
    assert [] + [CreateDir(id)] == s1;
  }

  lemma CommitRuns(w: World, t: Triple, source: Source)
    requires Refusal(w, t, source).None?
    ensures var id, steps := Preimage(t), CommitSteps(w, t, source);
      && Runs(w, steps)
      && ApplyAll(w, steps).root ==
           w.root[id := ClaimedDir(t, w.clock).(archive := Some(Archive(SourceBytes(w, source), w.clock + 6)))]
      && ApplyAll(w, steps).clock == w.clock + 7
      && ApplyAll(w, steps).staged == if source.Staged? then w.staged - {source.path} else w.staged
  {
    var begin := BeginSteps(t, w.clock + 1);
    BeginRuns(w, t);
    PlacingRuns(w, t, source, begin);
    assert begin + [ArchiveStep(source, Preimage(t))] + [Touch(Preimage(t))] == CommitSteps(w, t, source);
  }

  /** Once its directory is claimed, the archive is placed and touched. */
  lemma PlacingRuns(w: World, t: Triple, source: Source, begin: seq<FileStep>)
    requires Runs(w, begin) && (source.Staged? ==> source.path in w.staged)
    requires ApplyAll(w, begin) == World(w.root[Preimage(t) := ClaimedDir(t, w.clock)], w.staged, w.clock + 5)
    ensures var id, steps := Preimage(t), begin + [ArchiveStep(source, Preimage(t))] + [Touch(Preimage(t))];
      && Runs(w, steps)
      && ApplyAll(w, steps).root ==
           w.root[id := ClaimedDir(t, w.clock).(archive := Some(Archive(SourceBytes(w, source), w.clock + 6)))]
      && ApplyAll(w, steps).clock == w.clock + 7
      && ApplyAll(w, steps).staged == if source.Staged? then w.staged - {source.path} else w.staged
  {
    var id := Preimage(t);
    RunsOne(w, begin, ArchiveStep(source, id));
    RunsOne(w, begin + [ArchiveStep(source, id)], Touch(id));
  }

  /** A commit that is refused changes nothing; one that is not ends with an enforcement that protects its
      own entry. */
  ghost predicate Commits(w: World, quota: nat, t: Triple, source: Source,
                          r: Result<CacheEntry, CacheError>, steps: seq<FileStep>, after: World)
  {
    match Refusal(w, t, source)
    case Some(error) => r == Err(error) && steps == [] && after == w
    case None =>
      var id, first := Preimage(t), CommitSteps(w, t, source);
      && r == Ok(CacheEntry(t.key, t.version, id, |SourceBytes(w, source)|))
      && Runs(w, first)
      && |first| <= |steps| && steps[..|first|] == first
      && EnforcedTo(ApplyAll(w, first), quota, Some(id), steps[|first|..], after)
      && Settled(ApplyAll(w, first).clock, after, quota, Some(id))
  }

  // Lookups

  function StoredNamespace(dir: Dir): Text {
    if dir.namespace.Some? then dir.namespace.value.value else []
  }

  predicate Matches(w: World, id: Id, namespace: Text, prefix: Text, version: Text) {
    && Archived(w, id)
    && var dir := w.root[id];
       && dir.key.Some? && dir.version.Some? && dir.createdAt.Some?
       && StoredNamespace(dir) == namespace
       && dir.version.value.value == version
       && prefix <= dir.key.value.value
  }

  function MatchEntry(w: World, id: Id): CacheEntry
    requires Archived(w, id) && w.root[id].key.Some? && w.root[id].version.Some?
  {
    CacheEntry(w.root[id].key.value.value, w.root[id].version.value.value, id, ArchiveSize(w.root[id]))
  }

  /** A newest entry whose key starts with the prefix, or none if there is no such entry. */
  ghost predicate NewestMatch(w: World, namespace: Text, prefix: Text, version: Text, answer: Option<CacheEntry>) {
    match answer
    case None => forall id :: !Matches(w, id, namespace, prefix, version)
    case Some(entry) =>
      && Matches(w, entry.path, namespace, prefix, version)
      && entry == MatchEntry(w, entry.path)
      && forall id | Matches(w, id, namespace, prefix, version) ::
           w.root[id].createdAt.value.value <= w.root[entry.path].createdAt.value.value
  }

  /** The prefixes before the n-th have no match; the n-th, if there is one, decides. */
  ghost predicate DecidedByPrefix(w: World, namespace: Text, prefixes: seq<Text>, version: Text, n: nat,
                                  answer: Option<CacheEntry>)
  {
    && n <= |prefixes|
    && (forall i | 0 <= i < n :: NewestMatch(w, namespace, prefixes[i], version, None))
    && if n == |prefixes| then answer.None? else answer.Some? && NewestMatch(w, namespace, prefixes[n], version, answer)
  }

  /** The first prefix with any match decides. */
  ghost predicate FirstPrefixMatch(w: World, namespace: Text, prefixes: seq<Text>, version: Text,
                                   answer: Option<CacheEntry>)
  {
    exists n: nat :: DecidedByPrefix(w, namespace, prefixes, version, n, answer)
  }

  predicate BadRequest(key: Text, restoreKeys: seq<Text>) {
    !ValidKey(key) || |restoreKeys| > MAX_RESTORE_KEYS || exists k | k in restoreKeys :: !ValidKey(k)
  }

  /** The exact entry if its archive is there, else the first prefix with a match. */
  ghost predicate Resolves(w: World, t: Triple, restoreKeys: seq<Text>, answer: Option<CacheEntry>) {
    var id := Preimage(t);
    if Archived(w, id) then answer == Some(CacheEntry(t.key, t.version, id, ArchiveSize(w.root[id])))
    else FirstPrefixMatch(w, t.namespace, [t.key] + restoreKeys, t.version, answer)
  }

  class CacheStore {
    var disk: World
    const quota: nat

    constructor (disk: World, quota: nat)
      ensures this.disk == disk && this.quota == quota
    {
      this.disk, this.quota := disk, quota;
    }

    method Do(step: FileStep)
      requires Enabled(disk, step)
      modifies this
      ensures disk == Apply(old(disk), step)
    {
      disk := Apply(disk, step);
    }

    /** The directories under the root, in no particular order. */
    method ReadDir() returns (order: seq<Id>)
      ensures Lists(order, disk.root)
    {
      order := [];
      var left := disk.root.Keys;
      while left != {}
        invariant left <= disk.root.Keys
        invariant forall id :: id in order <==> id in disk.root && id !in left
        invariant forall i, j | 0 <= i < j < |order| :: order[i] != order[j]
      {
        var id :| id in left;
        assert id !in order;
        order := order + [id];
        left := left - {id};
      }
    }

    /** Removes a directory without an archive once it is stale, and only then. */
    method ReapStaleIncomplete(id: Id) returns (ghost steps: seq<FileStep>)
      requires id in disk.root && disk.root[id].archive.None?
      modifies this
      ensures Stale(old(disk).root[id], old(disk).clock) ==>
        steps == [RemoveDir(id)] && disk == Apply(old(disk), RemoveDir(id))
      ensures !Stale(old(disk).root[id], old(disk).clock) ==> steps == [] && disk == old(disk)
    {
      steps := [];
      var stale := IsStale(Mtimes(disk.root[id]), disk.clock);
      if stale {
        Do(RemoveDir(id));
        steps := [RemoveDir(id)];
      }
    }

    /** The listing pass: reaps stale debris and collects the archives. */
    method Scan(order: seq<Id>, ghost protect: Option<Id>) returns (entries: seq<Entry>, ghost steps: seq<FileStep>)
      requires Lists(order, disk.root)
      modifies this
      ensures EnforcedTo(old(disk), quota, protect, steps, disk)
      ensures entries == EntriesOf(old(disk), order)
      ensures Scanned(old(disk), disk, order, |order|)
    {
      entries, steps := [], [];
      for i := 0 to |order|
        invariant EnforcedTo(old(disk), quota, protect, steps, disk)
        invariant entries == EntriesOf(old(disk), order[..i])
        invariant Scanned(old(disk), disk, order, i)
      {
        var id := order[i];
        OneMoreDirectory(old(disk), order, i);
        if Archived(disk, id) {
          entries := entries + [EntryOf(disk, id)];
          ScanLeaves(old(disk), disk, order, i);
        } else {
          ghost var here := disk;
          ghost var reaped := ReapStaleIncomplete(id);
          ReapContinues(old(disk), here, quota, protect, steps, order, i);
          steps := steps + reaped;
        }
      }
      assert order[..|order|] == order;
    }

    /** Evicts in order of last use until the total fits the quota. */
    method EnforceQuotaExcept(protect: Option<Id>) returns (ghost steps: seq<FileStep>)
      modifies this
      ensures EnforcedTo(old(disk), quota, protect, steps, disk)
      ensures Settled(old(disk).clock, disk, quota, protect)
    {
      var order := ReadDir();
      var entries;
      entries, steps := Scan(order, protect);
      ghost var scanned := disk;
      ScanEnds(old(disk), scanned, order);
      ScanFeedsEviction(old(disk), scanned, order, protect);
      var total: nat := SumSizes(entries);
      if total <= quota {
        return;
      }
      entries := SortByMtime(entries);
      for i := 0 to |entries|
        invariant EnforcedTo(old(disk), quota, protect, steps, disk)
        invariant Evicting(disk, protect, entries, i, total)
        invariant forall id | id in disk.root :: id in scanned.root && disk.root[id] == scanned.root[id]
      {
        if total <= quota {
          break;
        }
        var entry := entries[i];
        if protect == Some(entry.id) {
          EvictionSkips(disk, protect, entries, i, total);
          continue;
        }
        NextIsLeastRecent(disk, protect, entries, i, total);
        EvictionRemoves(disk, protect, entries, i, total);
        RemoveContinues(old(disk), quota, protect, steps, entry.id);
        Do(RemoveDir(entry.id));
        steps := steps + [RemoveDir(entry.id)];
        total := SaturatingSub(total, entry.size);
      }
    }

    /** Startup and background enforcement. */
    method EnforceQuota() returns (ghost steps: seq<FileStep>)
      modifies this
      ensures EnforcedTo(old(disk), quota, None, steps, disk)
      ensures Settled(old(disk).clock, disk, quota, None)
    {
      steps := EnforceQuotaExcept(None);
    }

    /** Claims the directory of an entry and writes its four sidecars. */
    method BeginCommit(t: Triple) returns (r: Result<Id, CacheError>)
      modifies this
      ensures r.Err? <==> !ValidKey(t.key) || Preimage(t) in old(disk).root
      ensures r.Err? ==>
        && disk == old(disk)
        && r.error == if ValidKey(t.key) then AlreadyExists(t.key, t.version) else InvalidKey
      ensures r.Ok? ==>
        && r.value == Preimage(t)
        && disk == World(old(disk).root[Preimage(t) := ClaimedDir(t, old(disk).clock)], old(disk).staged,
          old(disk).clock + 5)
    {
      if !ValidKey(t.key) {
        return Err(InvalidKey);
      }
      var id := Preimage(t);
      if id in disk.root {
        return Err(AlreadyExists(t.key, t.version));
      }
      Do(CreateDir(id));
      var createdAt := disk.clock;
      Do(WriteNamespace(id, t.namespace));
      Do(WriteKey(id, t.key));
      Do(WriteVersion(id, t.version));
      Do(WriteCreatedAt(id, createdAt));
      r := Ok(id);
    }

    /** Marks an archive as just used and enforces the quota around it. */
    method FinishCommit(id: Id, key: Text, version: Text) returns (entry: CacheEntry, ghost steps: seq<FileStep>)
      requires Archived(disk, id)
      modifies this
      ensures entry == CacheEntry(key, version, id, ArchiveSize(old(disk).root[id]))
      ensures EnforcedTo(Apply(old(disk), Touch(id)), quota, Some(id), steps, disk)
      ensures Settled(old(disk).clock + 1, disk, quota, Some(id))
    {
      var size := ArchiveSize(disk.root[id]);
      Do(Touch(id));
      steps := EnforceQuotaExcept(Some(id));
      entry := CacheEntry(key, version, id, size);
    }

    method CommitFileScoped(t: Triple, src: string)
      returns (r: Result<CacheEntry, CacheError>, ghost steps: seq<FileStep>)
      modifies this
      ensures Commits(old(disk), quota, t, Staged(src), r, steps, disk)
    {
      ghost var before := disk;
      steps := [];
      if src !in disk.staged {
        return Err(StagedFileNotFound), steps;
      }
      var begun := BeginCommit(t);
      if begun.Err? {
        return Err(begun.error), steps;
      }
      Do(RenameIn(src, begun.value));
      CommitRuns(before, t, Staged(src));
      ghost var first := CommitSteps(before, t, Staged(src));
      assert Apply(disk, Touch(begun.value)) == ApplyAll(before, first);
      var entry, enforcement := FinishCommit(begun.value, t.key, t.version);
      steps := first + enforcement;
      assert steps[..|first|] == first && steps[|first|..] == enforcement;
      r := Ok(entry);
    }

    method PutScoped(t: Triple, bytes: seq<byte>)
      returns (r: Result<CacheEntry, CacheError>, ghost steps: seq<FileStep>)
      modifies this
      ensures Commits(old(disk), quota, t, Inline(bytes), r, steps, disk)
    {
      ghost var before := disk;
      steps := [];
      var begun := BeginCommit(t);
      if begun.Err? {
        return Err(begun.error), steps;
      }
      Do(WriteArchive(begun.value, bytes));
      CommitRuns(before, t, Inline(bytes));
      ghost var first := CommitSteps(before, t, Inline(bytes));
      assert Apply(disk, Touch(begun.value)) == ApplyAll(before, first);
      var entry, enforcement := FinishCommit(begun.value, t.key, t.version);
      steps := first + enforcement;
      assert steps[..|first|] == first && steps[|first|..] == enforcement;
      r := Ok(entry);
    }

    /** Scans the root for a newest entry whose key starts with the prefix. */
    method FindPrefixScoped(namespace: Text, prefix: Text, version: Text) returns (answer: Option<CacheEntry>)
      ensures NewestMatch(disk, namespace, prefix, version, answer)
    {
      var order := ReadDir();
      var newest: Option<(CacheEntry, nat)> := None;
      for i := 0 to |order|
        invariant newest.None? ==> forall j | 0 <= j < i :: !Matches(disk, order[j], namespace, prefix, version)
        invariant newest.Some? ==>
          var (entry, created) := newest.value;
          && Matches(disk, entry.path, namespace, prefix, version)
          && entry == MatchEntry(disk, entry.path)
          && created == disk.root[entry.path].createdAt.value.value
          && forall j | 0 <= j < i && Matches(disk, order[j], namespace, prefix, version) ::
               disk.root[order[j]].createdAt.value.value <= created
      {
        var id := order[i];
        if !Archived(disk, id) {
          continue;
        }
        var dir := disk.root[id];
        if dir.key.None? || dir.version.None? || dir.createdAt.None? {
          continue;
        }
        if StoredNamespace(dir) != namespace || dir.version.value.value != version || !(prefix <= dir.key.value.value) {
          continue;
        }
        var created := dir.createdAt.value.value;
        var entry := CacheEntry(dir.key.value.value, version, id, ArchiveSize(dir));
        if newest.None? || created > newest.value.1 {
          newest := Some((entry, created));
        }
      }
      forall id | Matches(disk, id, namespace, prefix, version)
        ensures exists j :: 0 <= j < |order| && order[j] == id
      {
        assert id in order;
      }
      answer := if newest.None? then None else Some(newest.value.0);
    }

    method ResolveScoped(t: Triple, restoreKeys: seq<Text>) returns (r: Result<Option<CacheEntry>, CacheError>)
      ensures r.Err? <==> BadRequest(t.key, restoreKeys)
      ensures r.Err? ==> r.error == InvalidKey
      ensures r.Ok? ==> Resolves(disk, t, restoreKeys, r.value)
    {
      if !ValidKey(t.key) || |restoreKeys| > MAX_RESTORE_KEYS {
        return Err(InvalidKey);
      }
      for i := 0 to |restoreKeys|
        invariant forall j | 0 <= j < i :: ValidKey(restoreKeys[j])
      {
        if !ValidKey(restoreKeys[i]) {
          return Err(InvalidKey);
        }
      }
      var exact := Preimage(t);
      if Archived(disk, exact) {
        return Ok(Some(CacheEntry(t.key, t.version, exact, ArchiveSize(disk.root[exact]))));
      }
      var prefixes := [t.key] + restoreKeys;
      for i := 0 to |prefixes|
        invariant forall j | 0 <= j < i :: NewestMatch(disk, t.namespace, prefixes[j], t.version, None)
      {
        var found := FindPrefixScoped(t.namespace, prefixes[i], t.version);
        if found.Some? {
          assert DecidedByPrefix(disk, t.namespace, prefixes, t.version, i, found);
          return Ok(found);
        }
      }
      assert DecidedByPrefix(disk, t.namespace, prefixes, t.version, |prefixes|, None);
      r := Ok(None);
    }

    /** Resolves an entry and marks a hit as just used. */
    method LookupScoped(t: Triple, restoreKeys: seq<Text>) returns (r: Result<Option<CacheEntry>, CacheError>)
      modifies this
      ensures r.Err? <==> BadRequest(t.key, restoreKeys)
      ensures r.Ok? ==> Resolves(old(disk), t, restoreKeys, r.value)
      ensures r.Ok? && r.value.Some? ==>
        Archived(old(disk), r.value.value.path) && disk == Apply(old(disk), Touch(r.value.value.path))
      ensures r.Err? || r.value.None? ==> disk == old(disk)
    {
      r := ResolveScoped(t, restoreKeys);
      if r.Ok? && r.value.Some? {
        Do(Touch(r.value.value.path));
      }
    }

    method GetScoped(t: Triple, restoreKeys: seq<Text>) returns (r: Result<Option<(CacheEntry, seq<byte>)>, CacheError>)
      modifies this
      ensures r.Err? <==> BadRequest(t.key, restoreKeys)
      ensures r.Ok? ==> Resolves(old(disk), t, restoreKeys, if r.value.Some? then Some(r.value.value.0) else None)
      ensures r.Ok? && r.value.Some? ==>
        Archived(old(disk), r.value.value.0.path) &&
          r.value.value.1 == old(disk).root[r.value.value.0.path].archive.value.bytes
    {
      var looked := LookupScoped(t, restoreKeys);
      if looked.Err? {
        return Err(looked.error);
      }
      if looked.value.None? {
        return Ok(None);
      }
      var entry := looked.value.value;
      r := Ok(Some((entry, disk.root[entry.path].archive.value.bytes)));
    }
  }
}
