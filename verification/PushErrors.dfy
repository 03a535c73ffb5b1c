/** The errors of a push with their texts, and which of them the retry schedule takes for transient: it searches the
    text, in which refusals quote hashes and branch names. */
module PushErrors {
  import opened Texts
  import opened TransientPhrases

  datatype PushError =
    | CommitNotPresent(sha: string)
    | DefaultBranch(branch: string)
    | Diverged(branch: string, sha: string, remote: string)
    | PushFailed(stderr: string)
    | TimedOut(text: string)
    | CommandFailed(text: string)                    // another git command, with its status and output
    | FetchRefused(status: string, rest: string)     // the status line, and the run and the body
    | ServerFailed(text: string)                     // no answer, or no success when asked to publish
    | StagingFailed(command: string, stderr: string)
    | TreeMismatch(tested: string, reproduced: string)

  function Message(error: PushError): string {
    match error
    case CommitNotPresent(sha) => "commit " + sha + NOT_PRESENT
    case DefaultBranch(branch) => "refusing to push branch " + branch + IS_DEFAULT
    case Diverged(branch, sha, remote) => "branch " + branch + HAS_COMMITS + sha + " (remote " + remote + NEVER_FORCES
    case PushFailed(stderr) => "git push failed: " + stderr
    case TimedOut(text) => text
    case CommandFailed(text) => text
    case FetchRefused(status, rest) => "server returned " + status + " fetching run " + rest
    case ServerFailed(text) => text
    case StagingFailed(command, stderr) => command + ": " + stderr
    case TreeMismatch(tested, reproduced) => "tested tree " + tested + NO_MATCH + reproduced + TREE_CHANGED
  }

  const NOT_PRESENT := NOT_PRESENT_1 + (NOT_PRESENT_2 + (NOT_PRESENT_3 + NOT_PRESENT_4))
  const NOT_PRESENT_1 := " is not present in this"
  const NOT_PRESENT_2 := " checkout \U{2014} run `preloop"
  const NOT_PRESENT_3 := " push` from the checkout"
  const NOT_PRESENT_4 := " the run was submitted from"
  const IS_DEFAULT := IS_DEFAULT_1 + (IS_DEFAULT_2 + (IS_DEFAULT_3 + IS_DEFAULT_4))
  const IS_DEFAULT_1 := ": it is the repository's"
  const IS_DEFAULT_2 := " default branch. Push-back"
  const IS_DEFAULT_3 := " is for feature branches;"
  const IS_DEFAULT_4 := " main stays webhook-driven."
  const HAS_COMMITS := HAS_COMMITS_1 + (HAS_COMMITS_2 + HAS_COMMITS_3)
  const HAS_COMMITS_1 := " on GitHub has commits"
  const HAS_COMMITS_2 := " that are not ancestors"
  const HAS_COMMITS_3 := " of the tested commit "
  const NEVER_FORCES := NEVER_FORCES_1 + (NEVER_FORCES_2 + (NEVER_FORCES_3 + (NEVER_FORCES_4 + NEVER_FORCES_5)))
  const NEVER_FORCES_1 := "). The push never"
  const NEVER_FORCES_2 := " force-pushes: rebase"
  const NEVER_FORCES_3 := " your branch onto the"
  const NEVER_FORCES_4 := " remote (or reset to the"
  const NEVER_FORCES_5 := " tested commit) and re-submit."
  const NO_MATCH := " does not match the working tree "
  const TREE_CHANGED := "; the working tree changed since the run was submitted. Re-submit after committing or"
    + " stashing your changes so the pushed commit is exactly what CI tested"

  /** What the retry schedule is for: an expired deadline, or a text with one of the phrases. */
  predicate IsTransient(error: PushError) {
    error.TimedOut? || HasNeedle(Message(error))
  }

  predicate IsRefusal(error: PushError) {
    error.CommitNotPresent? || error.DefaultBranch? || error.Diverged?
  }

  // The fixed parts

  lemma NotPresent1(i: nat)
    ensures BareAt(NOT_PRESENT_1, i)
  {
  }

  lemma NotPresent2(i: nat)
    ensures BareAt(NOT_PRESENT_2, i)
  {
  }

  lemma NotPresent3(i: nat)
    ensures BareAt(NOT_PRESENT_3, i)
  {
  }

  lemma NotPresent4(i: nat)
    ensures BareAt(NOT_PRESENT_4, i)
  {
  }

  lemma IsDefault1(i: nat)
    ensures BareAt(IS_DEFAULT_1, i)
  {
  }

  lemma IsDefault2(i: nat)
    ensures BareAt(IS_DEFAULT_2, i)
  {
  }

  lemma IsDefault3(i: nat)
    ensures BareAt(IS_DEFAULT_3, i)
  {
  }

  lemma IsDefault4(i: nat)
    ensures BareAt(IS_DEFAULT_4, i)
  {
  }

  lemma HasCommits1(i: nat)
    ensures BareAt(HAS_COMMITS_1, i)
  {
  }

  lemma HasCommits2(i: nat)
    ensures BareAt(HAS_COMMITS_2, i)
  {
  }

  lemma HasCommits3(i: nat)
    ensures BareAt(HAS_COMMITS_3, i)
  {
  }

  lemma NeverForces1(i: nat)
    ensures BareAt(NEVER_FORCES_1, i)
  {
  }

  lemma NeverForces2(i: nat)
    ensures BareAt(NEVER_FORCES_2, i)
  {
  }

  lemma NeverForces3(i: nat)
    ensures BareAt(NEVER_FORCES_3, i)
  {
  }

  lemma NeverForces4(i: nat)
    ensures BareAt(NEVER_FORCES_4, i)
  {
  }

  lemma NeverForces5(i: nat)
    ensures BareAt(NEVER_FORCES_5, i)
  {
  }

  lemma Leads(t: string, i: nat)
    requires t in ["commit ", "branch ", "refusing to push branch "]
    ensures BareAt(t, i)
  {
  }

  lemma Links(t: string, i: nat)
    requires t in [" (remote ", "server returned ", " fetching run "]
    ensures BareAt(t, i)
  {
  }

  lemma ShortPartsAreBare()
    ensures Bare("commit ") && Bare("branch ") && Bare("refusing to push branch ")
    ensures Bare(" (remote ") && Bare("server returned ") && Bare(" fetching run ")
  {
    forall i: nat
      ensures BareAt("commit ", i) && BareAt("branch ", i) && BareAt("refusing to push branch ", i)
      ensures BareAt(" (remote ", i) && BareAt("server returned ", i) && BareAt(" fetching run ", i)
    {
      Leads("commit ", i);
      Leads("branch ", i);
      Leads("refusing to push branch ", i);
      Links(" (remote ", i);
      Links("server returned ", i);
      Links(" fetching run ", i);
    }
  }

  lemma NotPresentIsBare()
    ensures Bare(NOT_PRESENT)
  {
    forall i: nat
      ensures BareAt(NOT_PRESENT_1, i) && BareAt(NOT_PRESENT_2, i)
      ensures BareAt(NOT_PRESENT_3, i) && BareAt(NOT_PRESENT_4, i)
    {
      NotPresent1(i);
      NotPresent2(i);
      NotPresent3(i);
      NotPresent4(i);
    }
    BareJoins(NOT_PRESENT_3, NOT_PRESENT_4);
    BareJoins(NOT_PRESENT_2, NOT_PRESENT_3 + NOT_PRESENT_4);
    BareJoins(NOT_PRESENT_1, NOT_PRESENT_2 + (NOT_PRESENT_3 + NOT_PRESENT_4));
  }

  lemma IsDefaultIsBare()
    ensures Bare(IS_DEFAULT)
  {
    forall i: nat
      ensures BareAt(IS_DEFAULT_1, i) && BareAt(IS_DEFAULT_2, i) && BareAt(IS_DEFAULT_3, i) && BareAt(IS_DEFAULT_4, i)
    {
      IsDefault1(i);
      IsDefault2(i);
      IsDefault3(i);
      IsDefault4(i);
    }
    BareJoins(IS_DEFAULT_3, IS_DEFAULT_4);
    BareJoins(IS_DEFAULT_2, IS_DEFAULT_3 + IS_DEFAULT_4);
    BareJoins(IS_DEFAULT_1, IS_DEFAULT_2 + (IS_DEFAULT_3 + IS_DEFAULT_4));
  }

  lemma HasCommitsIsBare()
    ensures Bare(HAS_COMMITS)
  {
    forall i: nat
      ensures BareAt(HAS_COMMITS_1, i) && BareAt(HAS_COMMITS_2, i) && BareAt(HAS_COMMITS_3, i)
    {
      HasCommits1(i);
      HasCommits2(i);
      HasCommits3(i);
    }
    BareJoins(HAS_COMMITS_2, HAS_COMMITS_3);
    BareJoins(HAS_COMMITS_1, HAS_COMMITS_2 + HAS_COMMITS_3);
  }

  lemma NeverForcesIsBare()
    ensures Bare(NEVER_FORCES)
  {
    forall i: nat
      ensures BareAt(NEVER_FORCES_1, i) && BareAt(NEVER_FORCES_2, i) && BareAt(NEVER_FORCES_3, i)
      ensures BareAt(NEVER_FORCES_4, i) && BareAt(NEVER_FORCES_5, i)
    {
      NeverForces1(i);
      NeverForces2(i);
      NeverForces3(i);
      NeverForces4(i);
      NeverForces5(i);
    }
    BareJoins(NEVER_FORCES_4, NEVER_FORCES_5);
    BareJoins(NEVER_FORCES_3, NEVER_FORCES_4 + NEVER_FORCES_5);
    BareJoins(NEVER_FORCES_2, NEVER_FORCES_3 + (NEVER_FORCES_4 + NEVER_FORCES_5));
    BareJoins(NEVER_FORCES_1, NEVER_FORCES_2 + (NEVER_FORCES_3 + (NEVER_FORCES_4 + NEVER_FORCES_5)));
  }

  // Which errors are retried

  /** A commit that is not present is retried exactly if its name has a phrase in it. */
  lemma NotPresentIsTransientExactly(sha: string)
    ensures IsTransient(CommitNotPresent(sha)) <==> HasNeedle(sha)
  {
    ShortPartsAreBare();
    NotPresentIsBare();
    Between("commit ", sha, NOT_PRESENT);
  }

  lemma DefaultBranchIsTransientExactly(branch: string)
    ensures IsTransient(DefaultBranch(branch)) <==> HasNeedle(branch)
  {
    ShortPartsAreBare();
    IsDefaultIsBare();
    Between("refusing to push branch ", branch, IS_DEFAULT);
  }

  /** A diverged branch is retried exactly if its name or one of the two hashes has a phrase in it. */
  lemma DivergedIsTransientExactly(branch: string, sha: string, remote: string)
    ensures IsTransient(Diverged(branch, sha, remote)) <==> HasNeedle(branch) || HasNeedle(sha) || HasNeedle(remote)
  {
    DivergedIsRegrouped("branch ", branch, HAS_COMMITS, sha, " (remote ", remote, NEVER_FORCES);
    ShortPartsAreBare();
    HasCommitsIsBare();
    BareIsPlain("branch ");
    HashesDecide(sha, remote);
    var rest := sha + (" (remote " + (remote + NEVER_FORCES));
    AfterFixed("branch ", branch + (HAS_COMMITS + rest));
    Among(branch, HAS_COMMITS, rest);
  }

  lemma HashesDecide(sha: string, remote: string)
    ensures HasNeedle(sha + (" (remote " + (remote + NEVER_FORCES))) <==> HasNeedle(sha) || HasNeedle(remote)
  {
    ShortPartsAreBare();
    NeverForcesIsBare();
    BareIsPlain(NEVER_FORCES);
    Among(sha, " (remote ", remote + NEVER_FORCES);
    BeforeLastFixed(remote, NEVER_FORCES);
  }

  lemma DivergedIsRegrouped<T>(a: seq<T>, b: seq<T>, c: seq<T>, d: seq<T>, e: seq<T>, f: seq<T>, g: seq<T>)
    ensures a + b + c + d + e + f + g == a + (b + (c + (d + (e + (f + g)))))
  {
  }

  /** What the server answers to a fetch is retried exactly if the status, or the run and the body, have a phrase. */
  lemma FetchRefusedIsTransientExactly(status: string, rest: string)
    ensures IsTransient(FetchRefused(status, rest)) <==> HasNeedle(status) || HasNeedle(rest)
  {
    var first := "server returned ";
    ShortPartsAreBare();
    BareIsPlain(first);
    assert first + status + " fetching run " + rest == first + (status + (" fetching run " + rest));
    AfterFixed(first, status + (" fetching run " + rest));
    Among(status, " fetching run ", rest);
  }

  /** Of the server errors a fetch can meet, two are retried whatever the server says, and others only if the rest
      of the message happens to have a phrase in it. */
  lemma OnlyTwoServerErrorsAreRetried(rest: string)
    ensures IsTransient(FetchRefused("502 Bad Gateway", rest))
    ensures IsTransient(FetchRefused("503 Service Unavailable", rest))
    ensures IsTransient(FetchRefused("500 Internal Server Error", rest)) <==> HasNeedle(rest)
    ensures IsTransient(FetchRefused("504 Gateway Timeout", rest)) <==> HasNeedle(rest)
  {
    TwoStatusesHavePhrases();
    OtherStatusesAreSilent();
    FetchRefusedIsTransientExactly("502 Bad Gateway", rest);
    FetchRefusedIsTransientExactly("503 Service Unavailable", rest);
    FetchRefusedIsTransientExactly("500 Internal Server Error", rest);
    FetchRefusedIsTransientExactly("504 Gateway Timeout", rest);
  }

  lemma TwoStatusesHavePhrases()
    ensures HasNeedle("502 Bad Gateway") && HasNeedle("503 Service Unavailable")
  {
    var gateway, service := " Bad Gateway", " Service Unavailable";
    StatusHasCode("", '2', gateway);
    StatusHasCode("", '3', service);
    assert "" + ['5', '0', '2'] + gateway == "502 Bad Gateway";
    assert "" + ['5', '0', '3'] + service == "503 Service Unavailable";
  }

  lemma OtherStatusesAreSilent()
    ensures !HasNeedle("500 Internal Server Error") && !HasNeedle("504 Gateway Timeout")
  {
    var internal, timeout := "00 Internal Server Error", "04 Gateway Timeout";
    StatusesAreBare();
    StatusIsPlain(internal);
    StatusIsPlain(timeout);
    assert "5" + internal == "500 Internal Server Error" && "5" + timeout == "504 Gateway Timeout";
    PlainIsSilent("5" + internal);
    PlainIsSilent("5" + timeout);
  }

  lemma InternalError(i: nat)
    ensures BareAt("00 Internal", i) && BareAt(" Server Error", i)
  {
  }

  lemma GatewayTimeout(i: nat)
    ensures BareAt("04 Gateway Timeout", i)
  {
  }

  lemma StatusesAreBare()
    ensures Bare("00 Internal Server Error") && Bare("04 Gateway Timeout")
  {
    forall i: nat
      ensures BareAt("00 Internal", i) && BareAt(" Server Error", i) && BareAt("04 Gateway Timeout", i)
    {
      InternalError(i);
      GatewayTimeout(i);
    }
    BareJoins("00 Internal", " Server Error");
    assert "00 Internal" + " Server Error" == "00 Internal Server Error";
  }

  lemma StatusIsPlain(tail: string)
    requires Bare(tail) && |tail| >= 2 && tail[1] != '2' && tail[1] != '3'
    ensures Plain("5" + tail)
  {
    var s := Lower("5" + tail);
    LowerAppends("5", tail);
    LowerAt("5", 0);
    BareIsPlain(tail);
    forall i
      ensures !Telling(s, i)
    {
      assert !Telling(Lower(tail), i - 1);
      LowerAt(tail, 1);
    }
  }

  /** A branch whose remote hash has the digits of a status is refused for good, and retried all the same. */
  lemma DivergedCanBeRetried(branch: string, sha: string)
    ensures IsTransient(Diverged(branch, sha, "9d502e7"))
  {
    StatusHasCode("9d", '2', "e7");
    assert "9d" + ['5', '0', '2'] + "e7" == "9d502e7";
    DivergedIsTransientExactly(branch, sha, "9d502e7");
  }

  lemma StatusHasCode(a: string, c: char, b: string)
    requires c == '2' || c == '3'
    ensures HasNeedle(a + ['5', '0', c] + b)
  {
    var code := ['5', '0', c];
    LowerOfCode(c);
    LowerContains(a, code, b);
    assert code in NEEDLES by {
      assert code == if c == '2' then NEEDLES[10] else NEEDLES[11];
    }
  }

  lemma LowerOfCode(c: char)
    requires '0' <= c <= '9'
    ensures Lower(['5', '0', c]) == ['5', '0', c]
  {
    var s := ['5', '0', c];
    LowerAt(s, 0);
    LowerAt(s, 1);
    LowerAt(s, 2);
  }
}
