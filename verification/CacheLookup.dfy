/** Lookups against the abstract store: exact entry, else the newest entry under the first prefix that has
    any, within one namespace and version. */
module CacheLookup {
  import opened Common
  import opened CacheIdentity
  import opened CacheTree
  import opened CacheStore
  import opened CacheRuns
  import opened CacheContents
  import opened CacheFacts

  // The abstract lookup

  predicate Candidate(c: Contents, namespace: Text, prefix: Text, version: Text, x: Triple) {
    x in c && x.namespace == namespace && x.version == version && prefix <= x.key
  }

  ghost predicate NewestCandidate(c: Contents, namespace: Text, prefix: Text, version: Text, answer: Option<Triple>) {
    match answer
    case None => forall x :: !Candidate(c, namespace, prefix, version, x)
    case Some(best) =>
      && Candidate(c, namespace, prefix, version, best)
      && forall x | Candidate(c, namespace, prefix, version, x) :: c[x].created <= c[best].created
  }

  /** The prefixes before the n-th have no candidate; the n-th, if there is one, decides. */
  ghost predicate DecidedBy(c: Contents, namespace: Text, prefixes: seq<Text>, version: Text, n: nat,
                            answer: Option<Triple>)
  {
    && n <= |prefixes|
    && (forall i | 0 <= i < n :: NewestCandidate(c, namespace, prefixes[i], version, None))
    && if n == |prefixes| then answer.None?
       else answer.Some? && NewestCandidate(c, namespace, prefixes[n], version, answer)
  }

  /** The exact entry if it is stored, else the newest under the first prefix that has any, else none. */
  ghost predicate Finds(c: Contents, t: Triple, restoreKeys: seq<Text>, answer: Option<Triple>) {
    if t in c then answer == Some(t)
    else exists n: nat :: DecidedBy(c, t.namespace, [t.key] + restoreKeys, t.version, n, answer)
  }

  /** No two items were created at the same time. */
  ghost predicate DistinctTimes(c: Contents) {
    forall x, y | x in c && y in c && x != y :: c[x].created != c[y].created
  }

  /** The answer is unique when creation times differ, so it cannot depend on the order of the listing. */
  lemma FindsAtMostOne(c: Contents, t: Triple, restoreKeys: seq<Text>, a: Option<Triple>, b: Option<Triple>)
    requires DistinctTimes(c) && Finds(c, t, restoreKeys, a) && Finds(c, t, restoreKeys, b)
    ensures a == b
  {
    if t !in c {
      var prefixes := [t.key] + restoreKeys;
      var n: nat :| DecidedBy(c, t.namespace, prefixes, t.version, n, a);
      var m: nat :| DecidedBy(c, t.namespace, prefixes, t.version, m, b);
      DecidingPrefixIsUnique(c, t.namespace, prefixes, t.version, n, a, m, b);
    }
  }

  lemma DecidingPrefixIsUnique(c: Contents, namespace: Text, prefixes: seq<Text>, version: Text,
                               n: nat, a: Option<Triple>, m: nat, b: Option<Triple>)
    requires DecidedBy(c, namespace, prefixes, version, n, a) && DecidedBy(c, namespace, prefixes, version, m, b)
    ensures n == m
  {
  }

  /** An answer never leaves the namespace and version that were asked for. */
  lemma FindsWithinNamespaceAndVersion(c: Contents, t: Triple, restoreKeys: seq<Text>, x: Triple)
    requires Finds(c, t, restoreKeys, Some(x))
    ensures x in c && x.namespace == t.namespace && x.version == t.version
  {
  }

  // The refinement

  /** Only plain triples are stored. */
  ghost predicate AllPlain(w: World) {
    forall id | StoredAt(w, id) :: Plain(TripleOf(w.root[id]))
  }

  /** In a reachable world every archive is stored under the triple its sidecars name. */
  lemma ArchivedIsHeld(w: World, id: Id)
    requires Inv(w) && Archived(w, id)
    ensures StoredAt(w, id) && Preimage(TripleOf(w.root[id])) == id && Holds(w, TripleOf(w.root[id]))
  {
    assert DirOk(id, w.root[id], w.clock);
  }

  lemma CreationTimesDiffer(w: World)
    requires Inv(w)
    ensures DistinctTimes(ContentsOf(w))
  {
    ContentsExact(w);
    var c := ContentsOf(w);
    forall x, y | x in c && y in c && x != y
      ensures c[x].created != c[y].created
    {
      assert Holds(w, x) && Holds(w, y);
      assert Preimage(x) != Preimage(y);
    }
  }

  function TripleAt(w: World, answer: Option<CacheEntry>): Option<Triple>
    requires answer.Some? ==> answer.value.path in w.root && Named(w.root[answer.value.path])
  {
    if answer.None? then None else Some(TripleOf(w.root[answer.value.path]))
  }

  lemma MatchesAreCandidates(w: World, id: Id, namespace: Text, prefix: Text, version: Text)
    requires Inv(w) && Archived(w, id)
    ensures StoredAt(w, id)
    ensures Matches(w, id, namespace, prefix, version)
      <==> Candidate(ContentsOf(w), namespace, prefix, version, TripleOf(w.root[id]))
  {
    ArchivedIsHeld(w, id);
    ContentsExact(w);
  }

  lemma NewestMatchIsNewestCandidate(w: World, namespace: Text, prefix: Text, version: Text, answer: Option<CacheEntry>)
    requires Inv(w) && NewestMatch(w, namespace, prefix, version, answer)
    ensures answer.Some? ==> Archived(w, answer.value.path) && Named(w.root[answer.value.path])
    ensures NewestCandidate(ContentsOf(w), namespace, prefix, version, TripleAt(w, answer))
  {
    var c := ContentsOf(w);
    ContentsExact(w);
    if answer.Some? {
      ArchivedIsHeld(w, answer.value.path);
      MatchesAreCandidates(w, answer.value.path, namespace, prefix, version);
    }
    forall x | Candidate(c, namespace, prefix, version, x)
      ensures Matches(w, Preimage(x), namespace, prefix, version)
      ensures c[x].created == w.root[Preimage(x)].createdAt.value.value
    {
      assert Holds(w, x);
      MatchesAreCandidates(w, Preimage(x), namespace, prefix, version);
    }
  }

  /** What a lookup returns describes the stored entry it found. */
  ghost predicate Describes(w: World, entry: CacheEntry, x: Triple) {
    Holds(w, x) && entry == CacheEntry(x.key, x.version, Preimage(x), |ItemAt(w, Preimage(x)).bytes|)
  }

  /** Another stored entry has the directory of the request. */
  ghost predicate Clashes(c: Contents, t: Triple) {
    exists x :: x in c && x != t && Preimage(x) == Preimage(t)
  }

  /** The exact probe finds the requested entry, or one that clashes with it. */
  lemma ExactProbeFinds(w: World, t: Triple)
    requires Inv(w)
    ensures Archived(w, Preimage(t)) <==> t in ContentsOf(w) || Clashes(ContentsOf(w), t)
    ensures t in ContentsOf(w) ==> !Clashes(ContentsOf(w), t)
  {
    ContentsExact(w);
    if Archived(w, Preimage(t)) {
      ArchivedIsHeld(w, Preimage(t));
    }
  }

  lemma PrefixAnswerRefines(w: World, t: Triple, restoreKeys: seq<Text>, answer: Option<CacheEntry>)
    requires Inv(w) && t !in ContentsOf(w)
    requires FirstPrefixMatch(w, t.namespace, [t.key] + restoreKeys, t.version, answer)
    ensures answer.Some? ==> Archived(w, answer.value.path) && Named(w.root[answer.value.path])
    ensures Finds(ContentsOf(w), t, restoreKeys, TripleAt(w, answer))
  {
    var prefixes := [t.key] + restoreKeys;
    var c := ContentsOf(w);
    var n: nat :| DecidedByPrefix(w, t.namespace, prefixes, t.version, n, answer);
    forall i | 0 <= i < n
      ensures NewestCandidate(c, t.namespace, prefixes[i], t.version, None)
    {
      NewestMatchIsNewestCandidate(w, t.namespace, prefixes[i], t.version, None);
    }
    if n < |prefixes| {
      NewestMatchIsNewestCandidate(w, t.namespace, prefixes[n], t.version, answer);
    }
    assert DecidedBy(c, t.namespace, prefixes, t.version, n, TripleAt(w, answer));
  }

  /** The answer is the abstract lookup's, and it describes the entry found. */
  ghost predicate RightAnswer(w: World, t: Triple, restoreKeys: seq<Text>, answer: Option<CacheEntry>) {
    match answer
    case None => Finds(ContentsOf(w), t, restoreKeys, None)
    case Some(entry) => exists x :: Finds(ContentsOf(w), t, restoreKeys, Some(x)) && Describes(w, entry, x)
  }

  lemma ClashingAnswerIsWrong(w: World, t: Triple, restoreKeys: seq<Text>, answer: Option<CacheEntry>)
    requires Inv(w) && Resolves(w, t, restoreKeys, answer) && Clashes(ContentsOf(w), t)
    ensures !RightAnswer(w, t, restoreKeys, answer)
  {
    ContentsExact(w);
    ExactProbeFinds(w, t);
    var x :| x in ContentsOf(w) && x != t && Preimage(x) == Preimage(t);
    assert Holds(w, x);
    forall y | Describes(w, answer.value, y)
      ensures false
    {
      assert y == x;
      ClashesChangeKeyOrVersion(y, t);
    }
  }

  lemma UnclashedAnswerIsRight(w: World, t: Triple, restoreKeys: seq<Text>, answer: Option<CacheEntry>)
    requires Inv(w) && Resolves(w, t, restoreKeys, answer) && !Clashes(ContentsOf(w), t)
    ensures RightAnswer(w, t, restoreKeys, answer)
  {
    ContentsExact(w);
    ExactProbeFinds(w, t);
    if t in ContentsOf(w) {
      assert Describes(w, answer.value, t);
    } else {
      PrefixAnswerRefines(w, t, restoreKeys, answer);
      if answer.Some? {
        ArchivedIsHeld(w, answer.value.path);
        assert Describes(w, answer.value, TripleOf(w.root[answer.value.path]));
      }
    }
  }

  /** A lookup answers what the abstract lookup finds, and describes that entry, exactly when no other stored
      entry has the directory of the request. */
  lemma LookupRefinesExactly(w: World, t: Triple, restoreKeys: seq<Text>, answer: Option<CacheEntry>)
    requires Inv(w) && Resolves(w, t, restoreKeys, answer)
    ensures RightAnswer(w, t, restoreKeys, answer) <==> !Clashes(ContentsOf(w), t)
  {
    if Clashes(ContentsOf(w), t) {
      ClashingAnswerIsWrong(w, t, restoreKeys, answer);
    } else {
      UnclashedAnswerIsRight(w, t, restoreKeys, answer);
    }
  }

  // Plain stores

  ghost predicate PlainMoves(moves: seq<Move>) {
    forall m | m in moves && m.event.Commit? :: Plain(m.event.t)
  }

  /** The abstract contents decide whether a store is plain. */
  lemma PlainContents(w: World)
    requires Inv(w)
    ensures AllPlain(w) <==> forall x | x in ContentsOf(w) :: Plain(x)
  {
    ContentsExact(w);
    forall id | StoredAt(w, id)
      ensures TripleOf(w.root[id]) in ContentsOf(w)
    {
      ArchivedIsHeld(w, id);
    }
    forall x | x in ContentsOf(w)
      ensures StoredAt(w, Preimage(x)) && TripleOf(w.root[Preimage(x)]) == x
    {
      assert Holds(w, x);
    }
  }

  lemma {:induction false} PlainRunsStayPlain(w: World, quota: nat, moves: seq<Move>)
    requires Inv(w) && AllPlain(w) && IsRun(w, quota, moves) && PlainMoves(moves)
    ensures Inv(EndOf(w, quota, moves)) && AllPlain(EndOf(w, quota, moves))
    decreases |moves|
  {
    if moves == [] {
    } else {
      var next := ApplyAll(w, moves[0].steps);
      MoveIsGood(w, quota, moves[0]);
      MoveRefines(w, quota, moves[0]);
      PlainContents(w);
      PlainContents(next);
      assert moves[0] in moves;
      assert forall m | m in moves[1..] :: m in moves;
      PlainRunsStayPlain(next, quota, moves[1..]);
    }
  }

  lemma PlainRequestsDoNotClash(w: World, t: Triple)
    requires Inv(w) && AllPlain(w) && Plain(t)
    ensures !Clashes(ContentsOf(w), t)
  {
    PlainContents(w);
    forall x | x in ContentsOf(w) && Preimage(x) == Preimage(t)
      ensures x == t
    {
      PlainTriplesDoNotClash(x, t);
    }
  }

  /** After any run from the empty store in which only plain triples are committed, a plain lookup answers what
      the abstract lookup finds, and that answer is unique. */
  lemma LookupsRefineInEveryRun(quota: nat, moves: seq<Move>, t: Triple, restoreKeys: seq<Text>,
                                answer: Option<CacheEntry>)
    requires IsRun(World(map[], map[], 0), quota, moves) && PlainMoves(moves) && Plain(t)
    requires Resolves(EndOf(World(map[], map[], 0), quota, moves), t, restoreKeys, answer)
    ensures var end := EndOf(World(map[], map[], 0), quota, moves);
      DistinctTimes(ContentsOf(end)) && RightAnswer(end, t, restoreKeys, answer)
  {
    PlainRunsStayPlain(World(map[], map[], 0), quota, moves);
    var end := EndOf(World(map[], map[], 0), quota, moves);
    CreationTimesDiffer(end);
    PlainRequestsDoNotClash(end, t);
    UnclashedAnswerIsRight(end, t, restoreKeys, answer);
  }

  // Outside the plain requests

  /** Without the condition the exact probe can cross namespaces: asked without a namespace for the tag as
      key and the framed triple of a stored entry as version, it answers with that entry. */
  lemma TagRequestsCrossNamespaces(w: World, stored: Triple)
    requires Inv(w) && Holds(w, stored) && stored.namespace != [] && |FramedTriple(stored)| < 0x8000_0000_0000_0000
    ensures var request := Triple([], TAG, FramedTriple(stored));
      && request !in ContentsOf(w)
      && Resolves(w, request, [],
        Some(CacheEntry(TAG, FramedTriple(stored), Preimage(stored), |ItemAt(w, Preimage(stored)).bytes|)))
  {
    var request := Triple([], TAG, FramedTriple(stored));
    ContentsExact(w);
    PlainIsNeeded(stored);
    assert TripleOf(w.root[Preimage(request)]) == stored != request;
  }
}
