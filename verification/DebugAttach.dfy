/** The attach marker: a controller claims it, a heartbeat task keeps writing it, and `release` stops the
    heartbeat before it demotes the marker. Steps of the controller, the heartbeat and the engine interleave
    freely. */
module DebugAttach {
  datatype Marker = Missing | Idle | Active

  /** The heartbeat task: between ticks, inside a tick whose write cannot be interrupted, or over. */
  datatype Heartbeat = NotStarted | Sleeping | Writing | Ended

  datatype Controller =
    | Unclaimed
    | WaitingForGuest
    | ClaimFailed
    | Attached
    | Aborting              // the abort was sent, the task is awaited
    | Joined                // the task has ended
    | Checked(found: bool)  // whether the marker existed
    | Released(demoted: bool)

  /** `writes` counts the times this controller, its heartbeat included, wrote ACTIVE. */
  datatype System = System(marker: Marker, heartbeat: Heartbeat, controller: Controller, writes: nat)

  const START := System(Missing, NotStarted, Unclaimed, 0)

  datatype Step =
    | WriteClaim | GuestAnswers | GuestSilent
    | Abort | Join | Check | Demote(ok: bool)
    | Tick | HeartbeatWrites(ok: bool) | ObserveCancel
    | EngineDeletes | EngineDemotes

  predicate AbortSent(c: Controller) {
    c.Aborting? || c.Joined? || c.Checked? || c.Released?
  }

  predicate Enabled(s: System, step: Step) {
    match step
    case WriteClaim => s.controller == Unclaimed
    case GuestAnswers => s.controller == WaitingForGuest
    case GuestSilent => s.controller == WaitingForGuest
    case Abort => s.controller == Attached
    case Join => s.controller == Aborting && s.heartbeat == Ended
    case Check => s.controller == Joined
    case Demote(ok) => s.controller.Checked? && (!s.controller.found ==> ok)
    case Tick => s.heartbeat == Sleeping && !AbortSent(s.controller)
    case HeartbeatWrites(_) => s.heartbeat == Writing
    case ObserveCancel => s.heartbeat == Sleeping && AbortSent(s.controller)
    case EngineDeletes => true
    case EngineDemotes => s.marker != Missing
  }

  function Next(s: System, step: Step): System
    requires step.Demote? ==> s.controller.Checked?
  {
    match step
    case WriteClaim => s.(marker := Active, controller := WaitingForGuest, writes := s.writes + 1)
    case GuestAnswers => s.(controller := Attached, heartbeat := Sleeping)
    case GuestSilent => s.(controller := ClaimFailed)
    case Abort => s.(controller := Aborting)
    case Join => s.(controller := Joined)
    case Check => s.(controller := Checked(s.marker != Missing))
    case Demote(ok) =>
      if s.controller.found && ok then s.(marker := Idle, controller := Released(true))
      else s.(controller := Released(ok))
    case Tick => s.(heartbeat := Writing)
    case HeartbeatWrites(ok) =>
      if ok then s.(marker := Active, heartbeat := Sleeping, writes := s.writes + 1) else s.(heartbeat := Ended)
    case ObserveCancel => s.(heartbeat := Ended)
    case EngineDeletes => s.(marker := Missing)
    case EngineDemotes => s.(marker := Idle)
  }

  ghost predicate Runs(s: System, steps: seq<Step>)
    decreases |steps|
  {
    steps == [] || (Enabled(s, steps[0]) && Runs(Next(s, steps[0]), steps[1..]))
  }

  ghost function After(s: System, steps: seq<Step>): System
    requires Runs(s, steps)
    decreases |steps|
  {
    if steps == [] then s else After(Next(s, steps[0]), steps[1..])
  }

  // Every reachable state

  predicate Inv(s: System) {
    && (s.controller.Unclaimed? || s.controller.WaitingForGuest? || s.controller.ClaimFailed? ==>
      s.heartbeat == NotStarted)
    && (s.controller.Attached? || s.controller.Aborting? ==> s.heartbeat != NotStarted)
    && (s.controller.Joined? || s.controller.Checked? || s.controller.Released? ==> s.heartbeat == Ended)
    && (s.controller == Checked(false) || s.controller == Released(true) ==> s.marker != Active)
  }

  lemma {:induction false} RunsKeepInv(s: System, steps: seq<Step>)
    requires Inv(s) && Runs(s, steps)
    ensures Inv(After(s, steps))
    decreases |steps|
  {
    if steps == [] {
    } else {
      RunsKeepInv(Next(s, steps[0]), steps[1..]);
    }
  }

  /** Once released, always released: nothing this controller does writes ACTIVE again. */
  lemma {:induction false} ReleasedNeverWrites(s: System, steps: seq<Step>)
    requires Inv(s) && s.controller.Released? && Runs(s, steps)
    ensures After(s, steps).controller == s.controller && After(s, steps).writes == s.writes
    ensures s.marker != Active ==> After(s, steps).marker != Active
    decreases |steps|
  {
    if steps == [] {
    } else {
      ReleasedNeverWrites(Next(s, steps[0]), steps[1..]);
    }
  }

  /** In every run, whatever the interleaving: after a release whose demotion did not fail the marker is idle
      or missing, now and in every continuation, and ACTIVE is not written again. */
  lemma ReleaseSilencesTheController(before: seq<Step>, later: seq<Step>)
    requires Runs(START, before) && Runs(After(START, before), later)
    requires After(START, before).controller.Released?
    ensures After(After(START, before), later).writes == After(START, before).writes
    ensures After(START, before).controller.demoted ==> After(After(START, before), later).marker in {Idle, Missing}
  {
    RunsKeepInv(START, before);
    ReleasedNeverWrites(After(START, before), later);
  }

  lemma DemotionLeavesActive(s: System, ok: bool)
    requires Inv(s) && s.controller.Checked? && Enabled(s, Demote(ok))
    ensures Next(s, Demote(ok)).marker == Active <==> !ok && s.marker == Active
  {
  }

  predicate ByEngine(step: Step) {
    step.EngineDeletes? || step.EngineDemotes?
  }

  predicate EngineLeavesIt(steps: seq<Step>) {
    forall step | step in steps :: !ByEngine(step)
  }

  lemma LeavesItFrom(steps: seq<Step>)
    requires steps != []
    ensures EngineLeavesIt(steps) <==> !ByEngine(steps[0]) && EngineLeavesIt(steps[1..])
  {
    assert forall step :: step in steps <==> step == steps[0] || step in steps[1..];
  }

  lemma {:induction false} ReleasedMarkerExactly(s: System, steps: seq<Step>)
    requires Inv(s) && s.controller.Released? && Runs(s, steps)
    ensures After(s, steps).marker == Active <==> s.marker == Active && EngineLeavesIt(steps)
    decreases |steps|
  {
    if steps == [] {
    } else {
      LeavesItFrom(steps);
      ReleasedMarkerExactly(Next(s, steps[0]), steps[1..]);
    }
  }

  lemma {:induction false} RunsOn(s: System, a: seq<Step>, step: Step, b: seq<Step>)
    requires Runs(s, a) && Enabled(After(s, a), step) && Runs(Next(After(s, a), step), b)
    ensures Runs(s, a + [step] + b) && After(s, a + [step] + b) == After(Next(After(s, a), step), b)
    decreases |a|
  {
    var all := a + [step] + b;
    if a == [] {
      assert all[0] == step && all[1..] == b;
    } else {
      assert all[0] == a[0] && all[1..] == a[1..] + [step] + b;
      RunsOn(Next(s, a[0]), a[1..], step, b);
    }
  }

  /** The demotion is best effort: at the end of a run with a whole release the marker is ACTIVE exactly when it was
      when the write of IDLE failed, and the engine has not replaced it since. */
  lemma ActiveSurvivesExactlyAFailedDemotion(before: seq<Step>, ok: bool, later: seq<Step>)
    requires Runs(START, before) && After(START, before).controller.Checked?
    requires Enabled(After(START, before), Demote(ok))
    requires Runs(Next(After(START, before), Demote(ok)), later)
    ensures Runs(START, before + [Demote(ok)] + later)
    ensures After(START, before + [Demote(ok)] + later).controller == Released(ok)
    ensures After(START, before + [Demote(ok)] + later).marker == Active <==>
      !ok && After(START, before).marker == Active && EngineLeavesIt(later)
  {
    var checked := After(START, before);
    RunsOn(START, before, Demote(ok), later);
    RunsKeepInv(START, before);
    DemotionLeavesActive(checked, ok);
    ReleasedNeverWrites(Next(checked, Demote(ok)), later);
    ReleasedMarkerExactly(Next(checked, Demote(ok)), later);
  }

  // The join is near

  /** How many steps the heartbeat can still take once the abort was sent. */
  function Left(s: System): nat {
    match s.heartbeat
    case NotStarted => 0
    case Sleeping => 1
    case Writing => 2
    case Ended => 0
  }

  predicate ByHeartbeat(step: Step) {
    step.Tick? || step.HeartbeatWrites? || step.ObserveCancel?
  }

  function HeartbeatSteps(steps: seq<Step>): nat {
    if steps == [] then 0 else (if ByHeartbeat(steps[0]) then 1 else 0) + HeartbeatSteps(steps[1..])
  }

  lemma {:induction false} JoinedIsPast(s: System, steps: seq<Step>)
    requires Inv(s) && Runs(s, steps) && (s.controller.Joined? || s.controller.Checked? || s.controller.Released?)
    ensures After(s, steps).controller != Aborting
    decreases |steps|
  {
    if steps == [] {
    } else {
      JoinedIsPast(Next(s, steps[0]), steps[1..]);
    }
  }

  /** A tick caught in its write delays the join but cannot block it: in every run after the abort, before the join,
      the heartbeat takes at most two steps; until it has ended it can take one, and then the join can be taken. */
  lemma {:induction false} JoinIsNear(s: System, steps: seq<Step>)
    requires Inv(s) && s.controller == Aborting && Runs(s, steps) && After(s, steps).controller == Aborting
    ensures HeartbeatSteps(steps) + Left(After(s, steps)) <= Left(s) <= 2
    ensures Enabled(After(s, steps), Join) <==> Left(After(s, steps)) == 0
    ensures Left(After(s, steps)) > 0 ==> exists step :: ByHeartbeat(step) && Enabled(After(s, steps), step)
    decreases |steps|
  {
    if steps == [] {
      assert s.heartbeat == Sleeping ==> Enabled(s, ObserveCancel) && ByHeartbeat(ObserveCancel);
      assert s.heartbeat == Writing ==> Enabled(s, HeartbeatWrites(true)) && ByHeartbeat(HeartbeatWrites(true));
    } else {
      var next := Next(s, steps[0]);
      if steps[0] == Join {
        JoinedIsPast(next, steps[1..]);
      } else {
        JoinIsNear(next, steps[1..]);
      }
    }
  }

  // Why the abort alone is not enough

  /** A controller that goes on after the abort without awaiting the task. */
  predicate EnabledHastily(s: System, step: Step) {
    if step.Join? then s.controller == Aborting else Enabled(s, step)
  }

  ghost predicate RunsHastily(s: System, steps: seq<Step>)
    decreases |steps|
  {
    steps == [] || (EnabledHastily(s, steps[0]) && RunsHastily(Next(s, steps[0]), steps[1..]))
  }

  ghost function AfterHastily(s: System, steps: seq<Step>): System
    requires RunsHastily(s, steps)
    decreases |steps|
  {
    if steps == [] then s else AfterHastily(Next(s, steps[0]), steps[1..])
  }

  lemma HastilyOn(s: System, step: Step, rest: seq<Step>)
    requires EnabledHastily(s, step) && RunsHastily(Next(s, step), rest)
    ensures RunsHastily(s, [step] + rest) && AfterHastily(s, [step] + rest) == AfterHastily(Next(s, step), rest)
  {
    assert ([step] + rest)[1..] == rest;
  }

  /** While a tick is in its write, going on demotes the marker and the write undoes that. */
  lemma HastyDemotionIsUndone(s: System)
    requires s.controller == Aborting && s.heartbeat == Writing && s.marker == Active
    ensures var demoting := [Join] + ([Check] + ([Demote(true)] + []));
      && RunsHastily(s, demoting)
      && AfterHastily(s, demoting).controller == Released(true) && AfterHastily(s, demoting).marker == Idle
      && RunsHastily(AfterHastily(s, demoting), [HeartbeatWrites(true)] + [])
      && AfterHastily(AfterHastily(s, demoting), [HeartbeatWrites(true)] + []).marker == Active
  {
    var joined := Next(s, Join);
    var checked := Next(joined, Check);
    HastilyOn(checked, Demote(true), []);
    HastilyOn(joined, Check, [Demote(true)] + []);
    HastilyOn(s, Join, [Check] + ([Demote(true)] + []));
    HastilyOn(Next(checked, Demote(true)), HeartbeatWrites(true), []);
  }

  /** Such a state is reached from the start, so a release without the join can leave ACTIVE behind: the
      run up to the demotion, and the write after it. */
  lemma TickInFlightOutlivesTheAbort() returns (released: seq<Step>, tick: seq<Step>)
    ensures RunsHastily(START, released) && AfterHastily(START, released).controller == Released(true)
    ensures AfterHastily(START, released).marker == Idle
    ensures RunsHastily(AfterHastily(START, released), tick) && forall step | step in tick :: step.HeartbeatWrites?
    ensures AfterHastily(AfterHastily(START, released), tick).marker == Active
  {
    var waiting := Next(START, WriteClaim);
    var attached := Next(waiting, GuestAnswers);
    var writing := Next(attached, Tick);
    var demoting := [Join] + ([Check] + ([Demote(true)] + []));
    HastyDemotionIsUndone(Next(writing, Abort));
    HastilyOn(writing, Abort, demoting);
    HastilyOn(attached, Tick, [Abort] + demoting);
    HastilyOn(waiting, GuestAnswers, [Tick] + ([Abort] + demoting));
    HastilyOn(START, WriteClaim, [GuestAnswers] + ([Tick] + ([Abort] + demoting)));
    released, tick := [WriteClaim] + ([GuestAnswers] + ([Tick] + ([Abort] + demoting))), [HeartbeatWrites(true)] + [];
  }

  // The controller's own code, with everything else running between its steps

  predicate Foreign(step: Step) {
    step.Tick? || step.HeartbeatWrites? || step.ObserveCancel? || step.EngineDeletes? || step.EngineDemotes?
  }

  /** What the heartbeat and the engine can do together. */
  lemma ForeignKeeps(s: System, step: Step)
    requires Inv(s) && Foreign(step) && Enabled(s, step)
    ensures Inv(Next(s, step)) && Next(s, step).controller == s.controller
    ensures s.heartbeat == NotStarted || s.heartbeat == Ended ==>
      Next(s, step).heartbeat == s.heartbeat && Next(s, step).writes == s.writes
      && (s.marker != Active ==> Next(s, step).marker != Active)
  {
  }

  class Attachment {
    var system: System

    constructor ()
      ensures system == START
    {
      system := START;
    }

    /** Any number of steps of the heartbeat and the engine. */
    method OthersRun()
      requires Inv(system)
      modifies this
      ensures Inv(system) && system.controller == old(system.controller)
      ensures old(system.heartbeat) == NotStarted || old(system.heartbeat) == Ended ==>
        system.heartbeat == old(system.heartbeat) && system.writes == old(system.writes)
      ensures old(system.heartbeat) == Ended && old(system.marker) != Active ==> system.marker != Active
      ensures system.writes >= old(system.writes)
    {
      var n: nat := *;
      while n > 0
        invariant Inv(system) && system.controller == old(system.controller)
        invariant old(system.heartbeat) == NotStarted || old(system.heartbeat) == Ended ==>
            system.heartbeat == old(system.heartbeat) && system.writes == old(system.writes)
        invariant old(system.heartbeat) == Ended && old(system.marker) != Active ==> system.marker != Active
        invariant system.writes >= old(system.writes)
      {
        var step: Step := *;
        if Foreign(step) && Enabled(system, step) {
          ForeignKeeps(system, step);
          system := Next(system, step);
        }
        n := n - 1;
      }
    }

    /** Writes ACTIVE, waits for the guest, and starts the heartbeat only once it has answered. */
    method Claim() returns (attached: bool)
      requires Inv(system) && system.controller == Unclaimed
      modifies this
      ensures Inv(system)
      ensures system.controller == if attached then Attached else ClaimFailed
      ensures system.writes > old(system.writes)
      ensures !attached ==> system.heartbeat == NotStarted && system.writes == old(system.writes) + 1
    {
      OthersRun();
      system := Next(system, WriteClaim);
      OthersRun();
      var answers: bool := *;
      if answers {
        system := Next(system, GuestAnswers);
      } else {
        system := Next(system, GuestSilent);
      }
      OthersRun();
      attached := answers;
    }

    /** Aborts the heartbeat and waits for it to end. */
    method AbortAndJoin()
      requires Inv(system) && system.controller == Attached
      modifies this
      ensures Inv(system) && system.controller == Joined && system.heartbeat == Ended
    {
      system := Next(system, Abort);
      OthersRun();
      if system.heartbeat == Writing {
        var ok: bool := *;
        system := Next(system, HeartbeatWrites(ok));
      }
      if system.heartbeat == Sleeping {
        system := Next(system, ObserveCancel);
      }
      system := Next(system, Join);
    }

    /** Stops the heartbeat, then demotes the marker if it exists. */
    method Release() returns (demoted: bool)
      requires Inv(system) && system.controller == Attached
      modifies this
      ensures Inv(system) && system.controller == Released(demoted) && system.heartbeat == Ended
      ensures demoted ==> system.marker in {Idle, Missing}
    {
      OthersRun();
      AbortAndJoin();
      OthersRun();
      system := Next(system, Check);
      OthersRun();
      var written: bool := *;
      demoted := !system.controller.found || written;
      system := Next(system, Demote(demoted));
      OthersRun();
    }
  }
}
