/** Pushing the tested commit back: a fast-forward-only push of one commit over a partial object store,
    retried on a schedule, while other pushers move the same remote. */
module PushBack {
  import opened Common
  import opened PushErrors
  import opened TransientPhrases
  import opened Walks

  type Sha = string

  datatype CommitObject = CommitObject(tree: Sha, parents: set<Sha>)

  /** All commits that exist, here or elsewhere. Commits never change. */
  type Dag = map<Sha, CommitObject>

  // Ancestry

  function Parents(dag: Dag): Successors<Sha> {
    c => if c in dag then dag[c].parents else {}
  }

  /** Parent edges between commits that are present in the object store. */
  function LocalParents(dag: Dag, store: set<Sha>): Successors<Sha> {
    c => if c in store && c in dag then dag[c].parents * store else {}
  }

  ghost predicate Ancestor(dag: Dag, a: Sha, b: Sha) {
    Reaches(Parents(dag), b, a)
  }

  /** The test of the push: a missing object is not an ancestor, a present one is looked for among the
      ancestors of the tested commit that are present. */
  ghost predicate LocalTest(dag: Dag, store: set<Sha>, a: Sha, b: Sha) {
    a in store && Reaches(LocalParents(dag, store), b, a)
  }

  ghost predicate ClosedUnderParents(dag: Dag, store: set<Sha>) {
    forall c | c in store && c in dag :: dag[c].parents <= store
  }

  /** The local test never accepts what is not an ancestor, however partial the store is. */
  lemma LocalTestIsSound(dag: Dag, store: set<Sha>, a: Sha, b: Sha)
    requires LocalTest(dag, store, a, b)
    ensures Ancestor(dag, a, b)
  {
    var p :| WalkBetween(LocalParents(dag, store), b, a, p);
    forall i | 0 <= i < |p| - 1
      ensures p[i + 1] in Parents(dag)(p[i])
    {
      assert p[i + 1] in LocalParents(dag, store)(p[i]);
    }
    assert WalkBetween(Parents(dag), b, a, p);
  }

  /** On a store that is closed under parents the local test is ancestry. */
  lemma LocalTestIsAncestry(dag: Dag, store: set<Sha>, a: Sha, b: Sha)
    requires ClosedUnderParents(dag, store) && b in store
    ensures LocalTest(dag, store, a, b) <==> Ancestor(dag, a, b)
  {
    if LocalTest(dag, store, a, b) {
      LocalTestIsSound(dag, store, a, b);
    }
    if p :| WalkBetween(Parents(dag), b, a, p) {
      ClosedWalkIsLocal(dag, store, p, |p| - 1);
    }
  }

  lemma {:induction false} ClosedWalkIsLocal(dag: Dag, store: set<Sha>, p: seq<Sha>, i: nat)
    requires ClosedUnderParents(dag, store)
    requires IsWalk(Parents(dag), p) && p[0] in store && i < |p|
    ensures p[i] in store && WalkBetween(LocalParents(dag, store), p[0], p[i], p[..i + 1])
  {
    if i == 0 {
    } else {
      ClosedWalkIsLocal(dag, store, p, i - 1);
      assert p[i - 1 + 1] in Parents(dag)(p[i - 1]);
      var q := p[..i];
      assert p[..i + 1] == q + [p[i]];
      assert IsWalk(LocalParents(dag, store), q);
    }
  }

  /** The test can refuse an ancestor only if a commit on the way is missing locally. */
  lemma RefusedAncestorsHaveAGap(dag: Dag, store: set<Sha>, a: Sha, b: Sha)
    requires Ancestor(dag, a, b) && !LocalTest(dag, store, a, b) && b in store
    ensures exists c :: c in store && c in dag && !(dag[c].parents <= store)
  {
    if ClosedUnderParents(dag, store) {
      LocalTestIsAncestry(dag, store, a, b);
    }
  }

  /** New commits do not change who descends from whom. */
  lemma AncestryGrows(dag: Dag, bigger: Dag, a: Sha, b: Sha)
    requires Ancestor(dag, a, b) && forall c | c in dag :: c in bigger && bigger[c] == dag[c]
    ensures Ancestor(bigger, a, b)
  {
    var p :| WalkBetween(Parents(dag), b, a, p);
    forall i | 0 <= i < |p| - 1
      ensures p[i + 1] in Parents(bigger)(p[i])
    {
      assert p[i + 1] in Parents(dag)(p[i]);
    }
    assert WalkBetween(Parents(bigger), b, a, p);
  }

  // The checkout

  datatype PushOutcome = Created | AlreadyThere | FastForwarded

  /** Failures of the staging commands. */
  predicate StagingMayFail(error: PushError) {
    error.StagingFailed? || error.TimedOut?
  }

  /** Failures of the commands that talk to the remote. */
  predicate RemoteMayFail(error: PushError) {
    error.TimedOut? || error.CommandFailed? || error.PushFailed?
  }

  /** Failures of the requests to the server. */
  predicate ServerMayFail(error: PushError) {
    error.FetchRefused? || error.ServerFailed?
  }

  /** The index of the user's staging area. */
  const USER_INDEX := "index"

  class Checkout {
    var dag: Dag
    var store: set<Sha>       // commits present locally
    var trees: set<Sha>       // trees present locally
    const workingTree: Sha    // the tree that staging the working files produces
    var indexes: map<string, Sha>   // the index files in the git directory, by name
    const privateIndex: string      // the name of this process's own

    ghost predicate Valid()
      reads this
    {
      && privateIndex != USER_INDEX
      && store <= dag.Keys
      && forall c | c in store :: dag[c].tree in trees
    }

    constructor (dag: Dag, store: set<Sha>, trees: set<Sha>, workingTree: Sha, indexes: map<string, Sha>,
                 privateIndex: string)
      requires privateIndex != USER_INDEX && store <= dag.Keys && forall c | c in store :: dag[c].tree in trees
      ensures Valid() && this.dag == dag && this.store == store && this.trees == trees
      ensures this.workingTree == workingTree && this.indexes == indexes && this.privateIndex == privateIndex
    {
      this.dag, this.store, this.trees, this.workingTree := dag, store, trees, workingTree;
      this.indexes, this.privateIndex := indexes, privateIndex;
    }

    /** What the user has staged. */
    function UserIndex(): Option<Sha>
      reads this
    {
      if USER_INDEX in indexes then Some(indexes[USER_INDEX]) else None
    }

    /** `git merge-base --is-ancestor`, over the objects that are present. */
    method IsAncestor(a: Sha, b: Sha) returns (yes: bool)
      requires Valid() && b in store
      ensures yes <==> Reaches(LocalParents(dag, store), b, a)
    {
      var found := Search(LocalParents(dag, store), b, store);
      yes := a in found;
    }

    /** Stages the working files into an index file and writes the tree. Either may fail, with or without having
        written the file. */
    method StageWorkingTree(index: string) returns (r: Result<Sha, PushError>)
      modifies this`trees, this`indexes
      ensures old(trees) <= trees <= old(trees) + {workingTree}
      ensures forall name | name != index :: (name in indexes <==> name in old(indexes))
                                             && (name in indexes ==> indexes[name] == old(indexes)[name])
      ensures r.Ok? ==> r.value == workingTree && workingTree in trees
      ensures r.Err? ==> StagingMayFail(r.error)
    {
      var added, written, inTime: bool := *, *, *;
      var text: string := *;
      if added || written {
        indexes := indexes[index := workingTree];
      }
      if !added {
        return Err(if inTime then StagingFailed("git add -A", text) else TimedOut(text));
      }
      if !written {
        return Err(if inTime then StagingFailed("git write-tree", text) else TimedOut(text));
      }
      trees := trees + {workingTree};
      r := Ok(workingTree);
    }

    /** Reproduces the tested tree in a private index, which is removed before the outcome is looked at. */
    method EnsureTestedTreeResolvable(tested: Sha) returns (r: Result<(), PushError>)
      requires Valid()
      modifies this`trees, this`indexes
      ensures Valid() && old(trees) <= trees <= old(trees) + {workingTree}
      ensures indexes == if tested in old(trees) then old(indexes) else old(indexes) - {privateIndex}
      ensures r.Ok? ==> tested in trees && (tested in old(trees) || workingTree == tested)
      ensures r.Err? ==> tested !in old(trees)
      ensures r.Err? && !StagingMayFail(r.error) ==>
        r.error == TreeMismatch(tested, workingTree) && workingTree != tested
    {
      if tested in trees {
        return Ok(());
      }
      indexes := indexes - {privateIndex};
      var reproduced := StageWorkingTree(privateIndex);
      indexes := indexes - {privateIndex};
      if reproduced.Err? {
        return Err(reproduced.error);
      }
      if reproduced.value != tested {
        return Err(TreeMismatch(tested, reproduced.value));
      }
      r := Ok(());
    }

    /** A commit of the tested tree on top of the base. `stamp` is the name the new commit hashes to: an
        equal name means equal content. */
    method MaterializeTestedCommit(tested: Sha, base: Sha, stamp: Sha) returns (r: Result<Sha, PushError>)
      requires Valid() && base in store
      requires stamp in dag ==> dag[stamp] == CommitObject(tested, {base})
      modifies this`dag, this`store, this`trees, this`indexes
      ensures Valid() && UserIndex() == old(UserIndex())
      ensures r.Ok? ==> tested in old(trees) || workingTree == tested
      ensures r.Ok? ==>
        r.value == stamp && dag == old(dag)[stamp := CommitObject(tested, {base})] && store == old(store) + {stamp}
      ensures r.Err? ==> tested !in old(trees) && dag == old(dag) && store == old(store)
      ensures r.Err? && !StagingMayFail(r.error) ==>
        r.error == TreeMismatch(tested, workingTree) && workingTree != tested
    {
      var resolvable := EnsureTestedTreeResolvable(tested);
      if resolvable.Err? {
        return Err(resolvable.error);
      }
      dag := dag[stamp := CommitObject(tested, {base})];
      store := store + {stamp};
      r := Ok(stamp);
    }

    /** The one commit that every attempt pushes: it has exactly the tested tree, and is the base commit or a
        child of it. */
    method PreparePushSha(base: Sha, tested: Sha, stamp: Sha) returns (r: Result<Sha, PushError>)
      requires Valid()
      requires stamp in dag ==> dag[stamp] == CommitObject(tested, {base})
      modifies this`dag, this`store, this`trees, this`indexes
      ensures Valid() && UserIndex() == old(UserIndex())
      ensures forall c | c in old(dag) :: c in dag && dag[c] == old(dag)[c]
      ensures r.Ok? ==>
        base in old(store) && (old(dag)[base].tree == tested || tested in old(trees) || workingTree == tested)
      ensures r.Ok? ==>
        && r.value in store && dag[r.value].tree == tested
        && (if old(dag)[base].tree == tested then r.value == base else dag[r.value].parents == {base})
        && Ancestor(dag, base, r.value)
      ensures r.Err? ==> dag == old(dag) && store == old(store)
      ensures base !in old(store) ==> r.Err? && r.error.CommandFailed?
      ensures r.Err? && !StagingMayFail(r.error) ==>
        base !in old(store) || (tested !in old(trees) && workingTree != tested && old(dag)[base].tree != tested)
    {
      if base !in store {
        var text: string := *;
        return Err(CommandFailed(text));
      }
      if dag[base].tree == tested {
        ReachesSelf(Parents(dag), base);
        return Ok(base);
      }
      r := MaterializeTestedCommit(tested, base, stamp);
      if r.Ok? {
        assert base in Parents(dag)(stamp);
        ReachesSelf(Parents(dag), stamp);
        ReachesThen(Parents(dag), stamp, stamp, base);
      }
    }
  }

  // The remote

  /** A move of a branch that this code made, and the default branch as it had seen it. */
  datatype Moved = Moved(branch: string, before: Option<Sha>, after: Sha, seenHead: Option<string>)

  class Remote {
    var branches: map<string, Sha>
    var head: Option<string>
    const alone: bool              // no other pusher is at work
    ghost var moves: seq<Moved>    // the moves made through this object

    constructor (branches: map<string, Sha>, head: Option<string>, alone: bool)
      ensures this.branches == branches && this.head == head && this.alone == alone && moves == []
    {
      this.branches, this.head, this.alone, this.moves := branches, head, alone, [];
    }

    function At(branch: string): Option<Sha>
      reads this
    {
      if branch in branches then Some(branches[branch]) else None
    }

    /** Other pushers may do anything to the branches, the default branch included. */
    method OthersAct()
      modifies this`branches, this`head
      ensures alone ==> branches == old(branches) && head == old(head)
    {
      if !alone {
        branches, head := *, *;
      }
    }
  }

  /** A creation of the branch at the commit or a fast-forward of the value it had at that moment, when it was not
      the default branch as far as was seen. */
  ghost predicate Allowed(dag: Dag, m: Moved, branch: string, sha: Sha) {
    && m.branch == branch && m.after == sha && m.before != Some(sha)
    && (m.before.Some? ==> Ancestor(dag, m.before.value, sha))
    && m.seenHead != Some(branch)
  }

  /** The moves so far are continued by at most one such move. */
  ghost predicate AtMostOneFastForward(dag: Dag, before: seq<Moved>, after: seq<Moved>, branch: string, sha: Sha) {
    || after == before
    || exists m :: after == before + [m] && Allowed(dag, m, branch, sha)
  }

  datatype Reply = Accepted | Rejected | Lost

  /** `git push origin sha:refs/heads/branch` without force. Git reads the branch, refuses anything that is not
      a fast-forward of it as far as the local objects show, and the server applies the update only if the
      branch still has the value that was read. The reply may be lost whether or not the update was applied. */
  method GitPush(checkout: Checkout, remote: Remote, sha: Sha, branch: string, ghost seenHead: Option<string>)
    returns (reply: Reply)
    requires checkout.Valid() && sha in checkout.store && seenHead != Some(branch)
    modifies remote
    ensures AtMostOneFastForward(checkout.dag, old(remote.moves), remote.moves, branch, sha)
    ensures reply == Rejected ==> remote.moves == old(remote.moves)
    ensures reply == Accepted ==> remote.At(branch) == Some(sha)
    ensures remote.alone ==> remote.head == old(remote.head)
    ensures remote.alone ==> var was := old(remote.At(branch));
      if was.Some? && was != Some(sha) && !LocalTest(checkout.dag, checkout.store, was.value, sha)
      then reply != Accepted && remote.branches == old(remote.branches)
      else
        && reply != Rejected
        && (remote.branches == old(remote.branches) || remote.branches == old(remote.branches)[branch := sha])
    ensures remote.alone && old(remote.At(branch)) == Some(sha) ==> remote.moves == old(remote.moves)
    ensures remote.alone && remote.moves != old(remote.moves) ==> remote.At(branch) == Some(sha)
  {
    remote.OthersAct();
    if * {
      return Lost;
    }
    var advertised := remote.At(branch);
    if advertised == Some(sha) {
      return Accepted;
    }
    if advertised.Some? {
      var forward := false;
      if advertised.value in checkout.store {
        forward := checkout.IsAncestor(advertised.value, sha);
      }
      if !forward {
        return Rejected;
      }
      LocalTestIsSound(checkout.dag, checkout.store, advertised.value, sha);
    }
    remote.OthersAct();
    if remote.At(branch) != advertised {
      return Rejected;
    }
    remote.branches := remote.branches[branch := sha];
    ghost var moved := Moved(branch, advertised, sha, seenHead);
    remote.moves := remote.moves + [moved];
    if * {
      return Lost;
    }
    reply := Accepted;
  }

  /** Pushes the commit if the branch does not exist, is at the commit, or is an ancestor of it, and is not
      the default branch. */
  method PushTestedCommit(checkout: Checkout, remote: Remote, sha: Sha, branch: string)
    returns (r: Result<PushOutcome, PushError>, ghost seenHead: Option<string>, ghost seen: Option<Sha>)
    requires checkout.Valid()
    modifies remote
    ensures AtMostOneFastForward(checkout.dag, old(remote.moves), remote.moves, branch, sha)
    ensures r.Err? && IsRefusal(r.error) ==> remote.moves == old(remote.moves)
    ensures r.Err? ==> IsRefusal(r.error) || RemoteMayFail(r.error)
    ensures remote.alone && Refused(checkout.dag, checkout.store, old(remote.At(branch)), sha) ==>
      remote.moves == old(remote.moves) && remote.branches == old(remote.branches)
    ensures seenHead == Some(branch) ==> r.Err? && remote.moves == old(remote.moves)
    ensures r.Ok? ==> sha in checkout.store && seenHead != Some(branch)
    ensures r == Ok(AlreadyThere) ==> remote.moves == old(remote.moves) && seen == Some(sha)
    ensures r.Ok? && r.value != AlreadyThere ==> remote.At(branch) == Some(sha)
    ensures r == Ok(Created) ==> seen.None?
    ensures r == Ok(FastForwarded) ==> seen.Some? && seen != Some(sha) && Ancestor(checkout.dag, seen.value, sha)
    ensures remote.alone ==> remote.head == old(remote.head)
    ensures remote.alone && old(remote.head) == Some(branch) ==> r.Err? && remote.moves == old(remote.moves)
    ensures remote.alone ==> AloneOutcome(checkout.dag, checkout.store, old(remote.head), old(remote.At(branch)), sha,
      branch, r)
    ensures remote.alone && old(remote.At(branch)) == Some(sha) ==>
      remote.moves == old(remote.moves) && remote.branches == old(remote.branches)
    ensures remote.alone && remote.moves != old(remote.moves) ==> remote.At(branch) == Some(sha)
  {
    seenHead, seen := None, None;
    if sha !in checkout.store {
      return Err(CommitNotPresent(sha)), seenHead, seen;
    }
    var inTime: bool := *;
    var text: string := *;
    remote.OthersAct();
    if * {
      return Err(if inTime then CommandFailed(text) else TimedOut(text)), seenHead, seen;
    }
    var head, at := remote.head, remote.At(branch);
    seenHead, seen := head, at;
    if head == Some(branch) {
      return Err(DefaultBranch(branch)), seenHead, seen;
    }
    var outcome := Created;
    if at.Some? {
      if at.value == sha {
        return Ok(AlreadyThere), seenHead, seen;
      }
      var isAncestor := false;
      if at.value in checkout.store {
        isAncestor := checkout.IsAncestor(at.value, sha);
      }
      if !isAncestor {
        return Err(Diverged(branch, sha, at.value)), seenHead, seen;
      }
      LocalTestIsSound(checkout.dag, checkout.store, at.value, sha);
      outcome := FastForwarded;
    }
    var reply := GitPush(checkout, remote, sha, branch, seenHead);
    match reply
    case Rejected => r := Err(PushFailed(text));
    case Lost => r := Err(if inTime then PushFailed(text) else TimedOut(text));
    case Accepted => r := Ok(outcome);
  }

  /** With no other pusher the answer follows from the remote, unless the network fails. */
  ghost predicate AloneOutcome(dag: Dag, store: set<Sha>, head: Option<string>, at: Option<Sha>, sha: Sha,
                               branch: string,
                               r: Result<PushOutcome, PushError>)
  {
    || (r.Err? && RemoteMayFail(r.error))
    || r == if sha !in store then Err(CommitNotPresent(sha))
            else if head == Some(branch) then Err(DefaultBranch(branch))
            else if at.None? then Ok(Created)
            else if at.value == sha then Ok(AlreadyThere)
            else if LocalTest(dag, store, at.value, sha) then Ok(FastForwarded)
            else Err(Diverged(branch, sha, at.value))
  }

  /** The branch is somewhere from where the push would not be a fast-forward. */
  ghost predicate Refused(dag: Dag, store: set<Sha>, at: Option<Sha>, sha: Sha) {
    at.Some? && at.value != sha && !LocalTest(dag, store, at.value, sha)
  }

  /** The refusal that a remote without other pushers has in store for a commit that is present. */
  ghost function Refusal(dag: Dag, store: set<Sha>, head: Option<string>, at: Option<Sha>, sha: Sha, branch: string)
    : Option<PushError>
  {
    if head == Some(branch) then Some(DefaultBranch(branch))
    else if Refused(dag, store, at, sha) then Some(Diverged(branch, sha, at.value))
    else None
  }

  // The retry loop

  const MAX_RETRIES: nat := 3

  ghost predicate OnlyFastForwards(dag: Dag, moves: seq<Moved>, branch: string, sha: Sha) {
    forall m | m in moves :: Allowed(dag, m, branch, sha)
  }

  /** The later list of moves continues the earlier one with such moves. */
  ghost predicate Continues(dag: Dag, before: seq<Moved>, after: seq<Moved>, branch: string, sha: Sha) {
    && |before| <= |after| && after[..|before|] == before
    && OnlyFastForwards(dag, after[|before|..], branch, sha)
  }

  lemma AttemptContinues(dag: Dag, start: seq<Moved>, before: seq<Moved>, after: seq<Moved>, branch: string, sha: Sha)
    requires Continues(dag, start, before, branch, sha) && AtMostOneFastForward(dag, before, after, branch, sha)
    ensures Continues(dag, start, after, branch, sha) && |after| <= |before| + 1
  {
    if after != before {
      var m :| after == before + [m] && Allowed(dag, m, branch, sha);
      assert after[|start|..] == before[|start|..] + [m];
      assert after[..|start|] == before[..|start|];
    }
  }

  /** Asking the server for the run: it may refuse, or not be reached. */
  method FetchRun() returns (r: Result<(), PushError>)
    ensures r.Err? ==> ServerMayFail(r.error)
  {
    var text: string := *;
    if * {
      return Err(ServerFailed(text));
    }
    if * {
      var status: string := *;
      return Err(FetchRefused(status, text));
    }
    r := Ok(());
  }

  /** Asking the server to publish the push. */
  method Publish() returns (r: Result<(), PushError>)
    ensures r.Err? ==> r.error.ServerFailed?
  {
    if * {
      var text: string := *;
      return Err(ServerFailed(text));
    }
    r := Ok(());
  }

  /** That error, or a failure to reach the remote or the server. */
  predicate IsOrFails(error: PushError, refusal: PushError) {
    error == refusal || RemoteMayFail(error) || ServerMayFail(error)
  }

  /** One attempt: fetch the run, push, then ask the server to publish. */
  method PushRunOnce(checkout: Checkout, remote: Remote, sha: Sha, branch: string)
    returns (r: Result<(), PushError>, ghost seenHead: Option<string>)
    requires checkout.Valid()
    modifies remote
    ensures AtMostOneFastForward(checkout.dag, old(remote.moves), remote.moves, branch, sha)
    ensures remote.alone ==> remote.head == old(remote.head)
    ensures remote.alone && old(remote.At(branch)) == Some(sha) ==>
      remote.moves == old(remote.moves) && remote.branches == old(remote.branches)
    ensures remote.alone && remote.moves != old(remote.moves) ==> remote.At(branch) == Some(sha)
    ensures remote.alone && r.Ok? ==> remote.At(branch) == Some(sha)
    ensures seenHead == Some(branch) ==> r.Err? && remote.moves == old(remote.moves)
    ensures remote.alone && old(remote.head) == Some(branch) ==> r.Err? && remote.moves == old(remote.moves)
    ensures remote.alone && Refused(checkout.dag, checkout.store, old(remote.At(branch)), sha) ==>
      remote.moves == old(remote.moves) && remote.branches == old(remote.branches)
    ensures remote.alone && sha in checkout.store ==>
      var refusal := Refusal(checkout.dag, checkout.store, old(remote.head), old(remote.At(branch)), sha, branch);
      refusal.Some? ==> r.Err? && IsOrFails(r.error, refusal.value)
  {
    seenHead := None;
    var fetched := FetchRun();
    if fetched.Err? {
      return Err(fetched.error), seenHead;
    }
    var pushed, head, seen := PushTestedCommit(checkout, remote, sha, branch);
    seenHead := head;
    if pushed.Err? {
      return Err(pushed.error), seenHead;
    }
    r := Publish();
  }

  /** The attempts that failed: every one but the last was transient, so the schedule is for those alone. */
  ghost predicate Attempted(r: Result<(), PushError>, attempts: nat, failures: seq<PushError>) {
    && attempts == |failures| + (if r.Ok? then 1 else 0)
    && (r.Err? ==> failures != [] && failures[|failures| - 1] == r.error)
    && (forall i | 0 <= i < |failures| - (if r.Ok? then 0 else 1) :: IsTransient(failures[i]))
    && (r.Err? ==> !IsTransient(r.error) || attempts == 1 + MAX_RETRIES)
  }

  /** If every attempt meets the same refusal there is one attempt, or all there are to have, as its text decides. */
  lemma RefusedAttempts(r: Result<(), PushError>, attempts: nat, failures: seq<PushError>, refusal: PushError)
    requires Attempted(r, attempts, failures) && r.Err? && forall e | e in failures :: e == refusal
    ensures attempts == if IsTransient(refusal) then 1 + MAX_RETRIES else 1
  {
    assert failures[|failures| - 1] in failures;
    if attempts > 1 {
      assert failures[0] in failures;
    }
  }

  /** A diverged branch that nothing else disturbs is tried once, or four times if its name or a hash has a phrase of
      a transient failure in it. */
  lemma DivergedAttempts(r: Result<(), PushError>, attempts: nat, failures: seq<PushError>, branch: string, sha: Sha,
                         at: Sha)
    requires Attempted(r, attempts, failures) && r.Err? && forall e | e in failures :: e == Diverged(branch, sha, at)
    ensures attempts == if HasNeedle(branch) || HasNeedle(sha) || HasNeedle(at) then 4 else 1
  {
    RefusedAttempts(r, attempts, failures, Diverged(branch, sha, at));
    DivergedIsTransientExactly(branch, sha, at);
  }

  /** All attempts push the one prepared commit; there are at most four, and with no other pusher at most one
      of them moves the branch, whatever replies are lost. Fetching the run to prepare the commit is not
      retried. */
  method PushRun(checkout: Checkout, remote: Remote, base: Sha, tested: Sha, stamp: Sha, branch: string)
    returns (r: Result<(), PushError>, attempts: nat, sha: Option<Sha>, ghost failures: seq<PushError>)
    requires checkout.Valid()
    requires stamp in checkout.dag ==> checkout.dag[stamp] == CommitObject(tested, {base})
    modifies checkout, remote
    ensures checkout.UserIndex() == old(checkout.UserIndex())
    ensures checkout.Valid() && attempts <= 1 + MAX_RETRIES
    ensures attempts == 0 <==> sha.None?
    ensures sha.None? ==> r.Err? && remote.moves == old(remote.moves)
    ensures sha.Some? ==>
      && sha.value in checkout.dag && checkout.dag[sha.value].tree == tested
      && (sha.value == base || checkout.dag[sha.value].parents == {base})
    ensures sha.Some? ==> Continues(checkout.dag, old(remote.moves), remote.moves, branch, sha.value)
    ensures remote.alone ==> |remote.moves| <= |old(remote.moves)| + 1
    ensures remote.alone && sha.Some? && remote.moves != old(remote.moves) ==> remote.At(branch) == sha
    ensures remote.alone && r.Ok? ==> remote.At(branch) == sha
    ensures remote.alone && old(remote.head) == Some(branch) ==> r.Err? && remote.moves == old(remote.moves)
    ensures sha.Some? ==> Attempted(r, attempts, failures)
    ensures remote.alone && sha.Some? ==>
      var refusal := Refusal(checkout.dag, checkout.store, old(remote.head), old(remote.At(branch)), sha.value, branch);
      refusal.Some? ==>
        r.Err? && remote.moves == old(remote.moves) && forall e | e in failures :: IsOrFails(e, refusal.value)
  {
    attempts, sha, failures := 0, None, [];
    var fetched := FetchRun();
    if fetched.Err? {
      return Err(fetched.error), attempts, sha, failures;
    }
    var prepared := checkout.PreparePushSha(base, tested, stamp);
    if prepared.Err? {
      return Err(prepared.error), attempts, sha, failures;
    }
    sha := Some(prepared.value);
    ghost var start, at := remote.moves, remote.At(branch);
    ghost var refusal := Refusal(checkout.dag, checkout.store, remote.head, at, prepared.value, branch);
    var attempt := 0;
    while true
      modifies remote
      invariant attempts == attempt == |failures| <= MAX_RETRIES
      invariant forall i | 0 <= i < |failures| :: IsTransient(failures[i])
      invariant Continues(checkout.dag, start, remote.moves, branch, prepared.value)
      invariant remote.alone ==> |remote.moves| <= |start| + 1
      invariant remote.alone && remote.moves != start ==> remote.At(branch) == sha
      invariant remote.alone ==> remote.head == old(remote.head)
      invariant remote.alone && old(remote.head) == Some(branch) ==> remote.moves == start
      invariant remote.alone && Refused(checkout.dag, checkout.store, at, prepared.value) ==>
        remote.moves == start && remote.At(branch) == at
      invariant remote.alone && refusal.Some? ==> forall e | e in failures :: IsOrFails(e, refusal.value)
      decreases MAX_RETRIES - attempt
    {
      ghost var before := remote.moves;
      var once, seenHead := PushRunOnce(checkout, remote, prepared.value, branch);
      attempts := attempts + 1;
      AttemptContinues(checkout.dag, start, before, remote.moves, branch, prepared.value);
      if once.Ok? {
        return Ok(()), attempts, sha, failures;
      }
      failures := failures + [once.error];
      if IsTransient(once.error) && attempt < MAX_RETRIES {
        attempt := attempt + 1;
      } else {
        return Err(once.error), attempts, sha, failures;
      }
    }
  }
}
