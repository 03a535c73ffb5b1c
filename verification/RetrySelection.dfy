/** Choosing the step a retry starts from: by number, by name, or from the start; and the numbers that are
    shown for steps. */
module RetrySelection {
  import opened Common
  import opened Texts

  /** A step of the resolved runner list; synthetic steps were not declared by the workflow. */
  datatype Step = Step(index: nat, contextName: string, displayName: string, synthetic: bool)

  datatype Session = Session(jobSteps: seq<Step>, failedIndex: nat)

  datatype RetryError =
    | ConflictingOptions
    | NothingStarted
    | EmptySelection
    | NumberOutOfRange(max: nat)
    | NoStepsAvailable
    | NoMatch
    | AfterFailure
    | Ambiguous

  const USIZE_MAX: nat := 0xFFFF_FFFF_FFFF_FFFF

  function Declared(steps: seq<Step>): seq<Step> {
    if steps == [] then []
    else (if steps[0].synthetic then [] else [steps[0]]) + Declared(steps[1..])
  }

  function WorkflowSteps(s: Session): seq<Step> {
    Declared(s.jobSteps)
  }

  function UpTo(steps: seq<Step>, limit: nat): seq<Step> {
    if steps == [] then []
    else (if steps[0].index <= limit then [steps[0]] else []) + UpTo(steps[1..], limit)
  }

  function StepsBeforeFailure(s: Session): seq<Step> {
    UpTo(WorkflowSteps(s), s.failedIndex)
  }

  function FirstWithIndex(steps: seq<Step>, index: nat): Option<nat> {
    if steps == [] then None
    else if steps[0].index == index then Some(0)
    else match FirstWithIndex(steps[1..], index) case None => None case Some(i) => Some(i + 1)
  }

  /** The one-based position of a step among the declared ones, and how many there are. */
  function WorkflowPosition(s: Session, index: nat): Option<(nat, nat)> {
    match FirstWithIndex(WorkflowSteps(s), index)
    case None => None
    case Some(i) => Some((i + 1, |WorkflowSteps(s)|))
  }

  // Reading and writing numbers

  predicate Digit(c: char) {
    '0' <= c <= '9'
  }

  function DigitsValue(s: string): nat
    requires forall c | c in s :: Digit(c)
  {
    if s == "" then 0
    else
      assert s[|s| - 1] in s && Digit(s[|s| - 1]);
      10 * DigitsValue(s[..|s| - 1]) + (s[|s| - 1] as nat - '0' as nat)
  }

  /** Reading a `usize`: digits after an optional plus sign, no larger than the largest value. */
  function ParseUsize(s: string): Option<nat> {
    var digits := if s != "" && s[0] == '+' then s[1..] else s;
    if digits == "" || exists c | c in digits :: !Digit(c) then None
    else if DigitsValue(digits) > USIZE_MAX then None
    else Some(DigitsValue(digits))
  }

  function Decimal(n: nat): (s: string)
    ensures s != "" && forall c | c in s :: Digit(c)
  {
    if n < 10 then [('0' as nat + n) as char]
    else Decimal(n / 10) + [('0' as nat + n % 10) as char]
  }

  lemma {:induction false} DecimalReadsBack(n: nat)
    ensures DigitsValue(Decimal(n)) == n
  {
    var s := Decimal(n);
    if n < 10 {
      assert s[..|s| - 1] == "";
    } else {
      DecimalReadsBack(n / 10);
      assert s[..|s| - 1] == Decimal(n / 10);
    }
  }

  /** Reading a written number gives it back. */
  lemma DecimalParses(n: nat)
    requires n <= USIZE_MAX
    ensures ParseUsize(Decimal(n)) == Some(n)
  {
    var s := Decimal(n);
    assert s[0] in s;
    DecimalReadsBack(n);
  }

  // Matching names

  predicate NameMatches(step: Step, needle: string) {
    Contains(Lower(step.displayName), needle) || Contains(Lower(step.contextName), needle)
  }

  function Matching(steps: seq<Step>, needle: string): seq<Step> {
    if steps == [] then []
    else (if NameMatches(steps[0], needle) then [steps[0]] else []) + Matching(steps[1..], needle)
  }

  // The selection

  function ParseRetryFrom(s: Session, from: Option<string>, fromStart: bool): Result<Option<nat>, RetryError> {
    if fromStart && from.Some? then Err(ConflictingOptions)
    else if fromStart then
      if s.jobSteps == [] then Ok(Some(0))
      else if StepsBeforeFailure(s) != [] then Ok(Some(StepsBeforeFailure(s)[0].index))
      else Err(NothingStarted)
    else if from.None? then Ok(None)
    else if from.value == "" then Err(EmptySelection)
    else
      match ParseUsize(from.value)
      case Some(number) => SelectNumber(s, number)
      case None => SelectName(s, Lower(from.value))
  }

  function SelectNumber(s: Session, number: nat): Result<Option<nat>, RetryError> {
    if s.jobSteps == [] then
      if number == 0 || number > s.failedIndex + 1 then Err(NumberOutOfRange(s.failedIndex + 1))
      else Ok(Some(number - 1))
    else
      var available := StepsBeforeFailure(s);
      if available == [] then Err(NoStepsAvailable)
      else if number == 0 || number > |available| then Err(NumberOutOfRange(|available|))
      else Ok(Some(available[number - 1].index))
  }

  function SelectName(s: Session, needle: string): Result<Option<nat>, RetryError> {
    var matches := Matching(WorkflowSteps(s), needle);
    if matches == [] then Err(NoMatch)
    else if |matches| > 1 then Err(Ambiguous)
    else if matches[0].index <= s.failedIndex then Ok(Some(matches[0].index))
    else Err(AfterFailure)
  }

  // Facts about the filters

  /** Indices in the resolved list grow. */
  ghost predicate Increasing(steps: seq<Step>) {
    forall i, j | 0 <= i < j < |steps| :: steps[i].index < steps[j].index
  }

  lemma {:induction false} DeclaredMembers(steps: seq<Step>)
    ensures forall step :: step in Declared(steps) <==> step in steps && !step.synthetic
    ensures |Declared(steps)| <= |steps|
  {
    if steps == [] {
    } else {
      DeclaredMembers(steps[1..]);
      assert forall step :: step in steps <==> step == steps[0] || step in steps[1..];
    }
  }

  /** The first of increasing steps is below the others, and they increase as well. */
  lemma IncreasingTail(steps: seq<Step>)
    requires Increasing(steps) && steps != []
    ensures Increasing(steps[1..])
    ensures forall step | step in steps[1..] :: steps[0].index < step.index
  {
    assert forall i | 0 <= i < |steps| - 1 :: steps[1..][i] == steps[i + 1];
  }

  lemma IncreasingCons(first: Step, rest: seq<Step>)
    requires Increasing(rest) && forall step | step in rest :: first.index < step.index
    ensures Increasing([first] + rest)
  {
    assert forall i | 0 <= i < |rest| :: rest[i] in rest;
  }

  lemma {:induction false} DeclaredIncrease(steps: seq<Step>)
    requires Increasing(steps)
    ensures Increasing(Declared(steps))
  {
    if steps == [] {
    } else {
      IncreasingTail(steps);
      DeclaredIncrease(steps[1..]);
      DeclaredMembers(steps[1..]);
      IncreasingCons(steps[0], Declared(steps[1..]));
    }
  }

  /** On increasing steps those up to a limit are a prefix. */
  lemma {:induction false} UpToIsPrefix(steps: seq<Step>, limit: nat)
    requires Increasing(steps)
    ensures UpTo(steps, limit) <= steps
    ensures forall i | 0 <= i < |steps| :: i < |UpTo(steps, limit)| <==> steps[i].index <= limit
  {
    if steps == [] {
    } else {
      assert forall i | 0 <= i < |steps| - 1 :: steps[1..][i] == steps[i + 1];
      UpToIsPrefix(steps[1..], limit);
      if steps[0].index > limit {
        assert |steps| > 1 ==> steps[1..][0].index > limit;
      }
    }
  }

  lemma {:induction false} UpToMembers(steps: seq<Step>, limit: nat)
    ensures forall step :: step in UpTo(steps, limit) <==> step in steps && step.index <= limit
  {
    if steps == [] {
    } else {
      UpToMembers(steps[1..], limit);
      assert forall step :: step in steps <==> step == steps[0] || step in steps[1..];
    }
  }

  lemma {:induction false} MatchingMembers(steps: seq<Step>, needle: string)
    ensures forall step :: step in Matching(steps, needle) <==> step in steps && NameMatches(step, needle)
  {
    if steps == [] {
    } else {
      MatchingMembers(steps[1..], needle);
      assert forall step :: step in steps <==> step == steps[0] || step in steps[1..];
    }
  }

  lemma {:induction false} FoundAtItsPlace(steps: seq<Step>, i: nat)
    requires Increasing(steps) && i < |steps|
    ensures FirstWithIndex(steps, steps[i].index) == Some(i)
  {
    if i == 0 {
    } else {
      assert steps[1..][i - 1] == steps[i];
      FoundAtItsPlace(steps[1..], i - 1);
    }
  }

  /** The steps that have run are the first declared ones. */
  lemma RunStepsComeFirst(s: Session, i: nat)
    requires Increasing(s.jobSteps) && i < |WorkflowSteps(s)|
    ensures StepsBeforeFailure(s) <= WorkflowSteps(s)
    ensures i < |StepsBeforeFailure(s)| <==> WorkflowSteps(s)[i].index <= s.failedIndex
  {
    DeclaredIncrease(s.jobSteps);
    UpToIsPrefix(WorkflowSteps(s), s.failedIndex);
  }

  lemma PositionOf(s: Session, i: nat)
    requires Increasing(s.jobSteps) && i < |WorkflowSteps(s)|
    ensures WorkflowPosition(s, WorkflowSteps(s)[i].index) == Some((i + 1, |WorkflowSteps(s)|))
  {
    DeclaredIncrease(s.jobSteps);
    FoundAtItsPlace(WorkflowSteps(s), i);
  }

  // Main results

  /** Every accepted target is a declared step at or before the failure. */
  lemma AcceptedTargetsHaveRun(s: Session, from: Option<string>, fromStart: bool)
    requires s.jobSteps != [] && ParseRetryFrom(s, from, fromStart).Ok?
    requires ParseRetryFrom(s, from, fromStart).value.Some?
    ensures exists step | step in s.jobSteps ::
      !step.synthetic && step.index == ParseRetryFrom(s, from, fromStart).value.value && step.index <= s.failedIndex
  {
    DeclaredMembers(s.jobSteps);
    UpToMembers(WorkflowSteps(s), s.failedIndex);
    var before := StepsBeforeFailure(s);
    if fromStart {
      assert before[0] in before;
    } else {
      match ParseUsize(from.value)
      case Some(number) =>
        assert before[number - 1] in before;
      case None =>
        var needle := Lower(from.value);
        MatchingMembers(WorkflowSteps(s), needle);
        var matches := Matching(WorkflowSteps(s), needle);
        assert matches[0] in matches;
    }
  }

  /** Text that reads as a number is accepted exactly in the range of the declared steps that have run, and the
      chosen step has that number. */
  lemma NumbersSelectTheirSteps(s: Session, text: string, number: nat)
    requires s.jobSteps != [] && Increasing(s.jobSteps) && ParseUsize(text) == Some(number)
    ensures var r := ParseRetryFrom(s, Some(text), false);
      && (r.Ok? <==> 1 <= number <= |StepsBeforeFailure(s)|)
      && (r.Ok? ==> r.value.Some? && WorkflowPosition(s, r.value.value) == Some((number, |WorkflowSteps(s)|)))
  {
    DeclaredIncrease(s.jobSteps);
    UpToIsPrefix(WorkflowSteps(s), s.failedIndex);
    if 1 <= number <= |StepsBeforeFailure(s)| {
      assert StepsBeforeFailure(s)[number - 1] == WorkflowSteps(s)[number - 1];
      PositionOf(s, number - 1);
    }
  }

  /** Sessions without step summaries count the resolved steps from one up to the failure. */
  lemma OldSessionsCountFromOne(s: Session, number: nat)
    requires s.jobSteps == [] && number <= USIZE_MAX
    ensures ParseRetryFrom(s, Some(Decimal(number)), false) ==
      if 1 <= number <= s.failedIndex + 1 then Ok(Some(number - 1)) else Err(NumberOutOfRange(s.failedIndex + 1))
    ensures ParseRetryFrom(s, None, true) == Ok(Some(0))
  {
    DecimalParses(number);
  }

  lemma PlaceOf(steps: seq<Step>, step: Step) returns (i: nat)
    requires step in steps
    ensures i < |steps| && steps[i] == step
  {
    i :| 0 <= i < |steps| && steps[i] == step;
  }

  /** The other way round: typing the number that is shown for a declared step that has run selects that step. */
  lemma ShownNumbersSelectTheirSteps(s: Session, step: Step)
    requires Increasing(s.jobSteps) && |s.jobSteps| <= USIZE_MAX
    requires step in s.jobSteps && !step.synthetic
    ensures WorkflowPosition(s, step.index).Some?
    ensures var shown := Decimal(WorkflowPosition(s, step.index).value.0);
      ParseRetryFrom(s, Some(shown), false) ==
        if step.index <= s.failedIndex then Ok(Some(step.index))
        else if StepsBeforeFailure(s) == [] then Err(NoStepsAvailable)
        else Err(NumberOutOfRange(|StepsBeforeFailure(s)|))
  {
    DeclaredMembers(s.jobSteps);
    var i := PlaceOf(WorkflowSteps(s), step);
    PositionOf(s, i);
    DecimalParses(i + 1);
    RunStepsComeFirst(s, i);
  }

  /** Starting over selects the first declared step, exactly when it has run. */
  lemma FromStartSelectsTheFirst(s: Session)
    requires s.jobSteps != [] && Increasing(s.jobSteps)
    ensures ParseRetryFrom(s, None, true) ==
      if WorkflowSteps(s) != [] && WorkflowSteps(s)[0].index <= s.failedIndex then Ok(Some(WorkflowSteps(s)[0].index))
      else Err(NothingStarted)
  {
    if WorkflowSteps(s) != [] {
      RunStepsComeFirst(s, 0);
    }
  }

  lemma OthersFollow(steps: seq<Step>)
    requires Increasing(steps) && |steps| > 1
    ensures exists m | m in steps :: m != steps[0]
  {
    assert steps[1] in steps && steps[1] != steps[0];
  }

  lemma SingleStep(steps: seq<Step>, step: Step)
    requires Increasing(steps) && step in steps && forall m | m in steps :: m == step
    ensures steps == [step]
  {
    assert steps[0] in steps;
    if |steps| > 1 {
      OthersFollow(steps);
    }
  }

  lemma DeclaredMatches(s: Session, needle: string)
    requires Increasing(s.jobSteps)
    ensures Increasing(Matching(WorkflowSteps(s), needle))
    ensures forall m :: m in Matching(WorkflowSteps(s), needle) <==>
      m in s.jobSteps && !m.synthetic && NameMatches(m, needle)
  {
    DeclaredMembers(s.jobSteps);
    DeclaredIncrease(s.jobSteps);
    MatchingMembers(WorkflowSteps(s), needle);
    MatchingIncreasing(WorkflowSteps(s), needle);
  }

  lemma OnlyMatch(s: Session, needle: string, step: Step)
    requires Increasing(s.jobSteps)
    ensures Matching(WorkflowSteps(s), needle) == [step] <==> OnlyDeclaredMatch(s, needle, step)
  {
    var matches := Matching(WorkflowSteps(s), needle);
    DeclaredMatches(s, needle);
    assert matches == [step] ==> step in matches;
    if OnlyDeclaredMatch(s, needle, step) {
      SingleStep(matches, step);
    }
  }

  ghost predicate OnlyDeclaredMatch(s: Session, needle: string, step: Step) {
    && step in s.jobSteps && !step.synthetic && NameMatches(step, needle)
    && forall other | other in s.jobSteps && !other.synthetic && NameMatches(other, needle) :: other == step
  }

  /** Steps of the list with the same index are the same step. */
  lemma IndicesIdentify(steps: seq<Step>, a: Step, b: Step)
    requires Increasing(steps) && a in steps && b in steps && a.index == b.index
    ensures a == b
  {
    var i := PlaceOf(steps, a);
    var j := PlaceOf(steps, b);
  }

  /** Text that does not read as a number is accepted exactly when one declared step matches it, whatever its
      case, and that step has run. */
  lemma NamesSelectTheOnlyMatch(s: Session, text: string, step: Step)
    requires Increasing(s.jobSteps) && step in s.jobSteps && text != "" && ParseUsize(text).None?
    ensures ParseRetryFrom(s, Some(text), false) == Ok(Some(step.index)) <==>
      OnlyDeclaredMatch(s, Lower(text), step) && step.index <= s.failedIndex
  {
    var needle := Lower(text);
    OnlyMatch(s, needle, step);
    var matches := Matching(WorkflowSteps(s), needle);
    if |matches| == 1 {
      OnlyMatch(s, needle, matches[0]);
      if matches[0].index == step.index {
        IndicesIdentify(s.jobSteps, matches[0], step);
      }
    }
  }

  lemma {:induction false} MatchingIncreasing(steps: seq<Step>, needle: string)
    requires Increasing(steps)
    ensures Increasing(Matching(steps, needle))
  {
    if steps == [] {
    } else {
      IncreasingTail(steps);
      MatchingIncreasing(steps[1..], needle);
      MatchingMembers(steps[1..], needle);
      IncreasingCons(steps[0], Matching(steps[1..], needle));
    }
  }
}
