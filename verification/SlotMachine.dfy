/** The single-queue model of a concurrency group, and the contamination check on recorded expectations. */
module SlotMachine {
  import opened Common

  datatype Slots = Slots(running: Option<string>, pending: Option<string>, cancelled: seq<string>)

  /** Where the arrivals end up: the model runs over them one by one. */
  method RunArrivals(arrivals: seq<string>, cancelInProgress: bool) returns (slots: Slots)
    ensures arrivals == [] ==> slots == Slots(None, None, [])
    ensures arrivals != [] && cancelInProgress ==>
      slots == Slots(Some(arrivals[|arrivals| - 1]), None, arrivals[..|arrivals| - 1])
    ensures arrivals != [] && !cancelInProgress ==>
      slots == Slots(Some(arrivals[0]),
                     if |arrivals| == 1 then None else Some(arrivals[|arrivals| - 1]),
                     if |arrivals| == 1 then [] else arrivals[1..|arrivals| - 1])
    ensures slots == Settled(arrivals, cancelInProgress)
  {
    var running: Option<string>, pending: Option<string>, cancelled: seq<string> := None, None, [];
    for i := 0 to |arrivals|
      invariant Slots(running, pending, cancelled) == Settled(arrivals[..i], cancelInProgress)
    {
      var arrival := arrivals[i];
      assert arrivals[..i + 1][..i] == arrivals[..i];
      if running.None? {
        running := Some(arrival);
      } else if cancelInProgress {
        cancelled := cancelled + [running.value];
        if pending.Some? {
          cancelled := cancelled + [pending.value];
          pending := None;
        }
        running := Some(arrival);
      } else {
        if pending.Some? {
          cancelled := cancelled + [pending.value];
        }
        pending := Some(arrival);
      }
    }
    assert arrivals[..|arrivals|] == arrivals;
    if arrivals != [] {
      SettledWithoutCancelling(arrivals);
      SettledCancelling(arrivals);
    }
    slots := Slots(running, pending, cancelled);
  }

  /** The same outcome, one arrival at a time from the right: what each arrival does to the slots before it. */
  function Settled(arrivals: seq<string>, cancelInProgress: bool): Slots {
    if arrivals == [] then Slots(None, None, [])
    else Arrive(Settled(arrivals[..|arrivals| - 1], cancelInProgress), arrivals[|arrivals| - 1], cancelInProgress)
  }

  function Listed(slot: Option<string>): seq<string> {
    if slot.Some? then [slot.value] else []
  }

  function Held(slots: Slots): multiset<string> {
    multiset(Listed(slots.running)) + multiset(Listed(slots.pending)) + multiset(slots.cancelled)
  }

  function Arrive(before: Slots, arrival: string, cancelInProgress: bool): Slots {
    if before.running.None? then before.(running := Some(arrival))
    else if cancelInProgress then
      Slots(Some(arrival), None, before.cancelled + [before.running.value] + Listed(before.pending))
    else
      Slots(before.running, Some(arrival), before.cancelled + Listed(before.pending))
  }

  lemma ArrivalIsHeld(before: Slots, arrival: string, cancelInProgress: bool)
    ensures Held(Arrive(before, arrival, cancelInProgress)) == Held(before) + multiset{arrival}
  {
  }

  lemma StillConserved(before: Slots, after: Slots, earlier: seq<string>, last: string, cancelInProgress: bool)
    requires Held(before) == multiset(earlier) && after == Arrive(before, last, cancelInProgress)
    ensures Held(after) == multiset(earlier + [last])
  {
    ArrivalIsHeld(before, last, cancelInProgress);
  }

  /** No arrival is lost or duplicated: each is running, pending or cancelled, exactly once. */
  lemma {:induction false} ArrivalsAreConserved(arrivals: seq<string>, cancelInProgress: bool)
    ensures Held(Settled(arrivals, cancelInProgress)) == multiset(arrivals)
  {
    if arrivals == [] {
    } else {
      var earlier, last := arrivals[..|arrivals| - 1], arrivals[|arrivals| - 1];
      assert arrivals == earlier + [last];
      ArrivalsAreConserved(earlier, cancelInProgress);
      StillConserved(Settled(earlier, cancelInProgress), Settled(arrivals, cancelInProgress), earlier, last,
        cancelInProgress);
    }
  }

  // Checking an expectation

  /** The recorded expectation; a part may be missing. */
  datatype Expectation = Expectation(running: Option<string>, pending: Option<seq<string>>,
    cancelled: Option<seq<string>>)

  /** Sorted lists agree exactly when they hold the same labels equally often. */
  predicate SameLabels(a: seq<string>, b: seq<string>) {
    multiset(a) == multiset(b)
  }

  /** The dry run accepts an expectation whose present parts agree with the model. */
  predicate Passes(slots: Slots, recorded: Expectation) {
    && (recorded.running.Some? ==> slots.running == recorded.running)
    && (recorded.pending.Some? ==> SameLabels(Listed(slots.pending), recorded.pending.value))
    && (recorded.cancelled.Some? ==> SameLabels(slots.cancelled, recorded.cancelled.value))
  }

  datatype Issue = LastIsCancelled(name: string) | MiddleIsPending(name: string)

  function OrEmpty(labels: Option<seq<string>>): seq<string> {
    if labels.Some? then labels.value else []
  }

  /** The GH-SINGLE-01 check. A case that does not say so counts as cancelling. */
  method DetectContamination(arrivals: seq<string>, cancelInProgress: Option<bool>, recorded: Expectation)
    returns (issues: seq<Issue>)
    ensures cancelInProgress == Some(false) && |arrivals| >= 3 ==>
      forall issue :: issue in issues <==>
        || (issue == LastIsCancelled(arrivals[|arrivals| - 1]) && LastFlagged(arrivals, recorded))
        || (issue == MiddleIsPending(arrivals[1]) && MiddleFlagged(arrivals, recorded))
    ensures !(cancelInProgress == Some(false) && |arrivals| >= 3) ==> issues == []
  {
    issues := [];
    if cancelInProgress == Some(false) && |arrivals| >= 3 {
      var last := arrivals[|arrivals| - 1];
      if last in OrEmpty(recorded.cancelled) {
        issues := issues + [LastIsCancelled(last)];
      }
      if |arrivals| == 3 {
        var middle := arrivals[1];
        if middle != "" && middle in OrEmpty(recorded.pending) {
          issues := issues + [MiddleIsPending(middle)];
        }
      }
    }
  }

  predicate LastFlagged(arrivals: seq<string>, recorded: Expectation) {
    arrivals != [] && arrivals[|arrivals| - 1] in OrEmpty(recorded.cancelled)
  }

  predicate MiddleFlagged(arrivals: seq<string>, recorded: Expectation) {
    |arrivals| == 3 && arrivals[1] != "" && arrivals[1] in OrEmpty(recorded.pending)
  }

  lemma SameLabelsSameMembers(a: seq<string>, b: seq<string>, x: string)
    requires SameLabels(a, b)
    ensures x in a <==> x in b
  {
    assert x in a <==> x in multiset(a);
    assert x in b <==> x in multiset(b);
  }

  /** The complete expectation is flagged exactly when the last label also arrived in between, so never for
      distinct labels. */
  lemma OutcomeIsFlaggedExactlyOnRepeats(arrivals: seq<string>, recorded: Expectation)
    requires |arrivals| >= 3 && Passes(Settled(arrivals, false), recorded)
    requires recorded.pending.Some? && recorded.cancelled.Some?
    ensures LastFlagged(arrivals, recorded) || MiddleFlagged(arrivals, recorded)
      <==> arrivals[|arrivals| - 1] in arrivals[1..|arrivals| - 1]
  {
    var last := arrivals[|arrivals| - 1];
    SettledWithoutCancelling(arrivals);
    var slots := Settled(arrivals, false);
    SameLabelsSameMembers(slots.cancelled, recorded.cancelled.value, last);
    if |arrivals| == 3 {
      SameLabelsSameMembers(Listed(slots.pending), recorded.pending.value, arrivals[1]);
      assert arrivals[1..2] == [arrivals[1]];
    }
  }

  /** Whatever parts of it are recorded, an expectation that agrees with the model is never flagged when the
      labels are distinct. */
  lemma AgreedExpectationsAreNeverFlagged(arrivals: seq<string>, recorded: Expectation)
    requires |arrivals| >= 3 && Distinct(arrivals) && Passes(Settled(arrivals, false), recorded)
    ensures !LastFlagged(arrivals, recorded) && !MiddleFlagged(arrivals, recorded)
  {
    var last := arrivals[|arrivals| - 1];
    SettledWithoutCancelling(arrivals);
    var slots := Settled(arrivals, false);
    if recorded.cancelled.Some? {
      SameLabelsSameMembers(slots.cancelled, recorded.cancelled.value, last);
    }
    if recorded.pending.Some? {
      SameLabelsSameMembers(Listed(slots.pending), recorded.pending.value, arrivals[1]);
    }
  }

  lemma {:induction false} SettledCancelling(arrivals: seq<string>)
    requires |arrivals| >= 1
    ensures Settled(arrivals, true) == Slots(Some(arrivals[|arrivals| - 1]), None, arrivals[..|arrivals| - 1])
  {
    var earlier := arrivals[..|arrivals| - 1];
    if |arrivals| > 1 {
      SettledCancelling(earlier);
      assert earlier == earlier[..|earlier| - 1] + [earlier[|earlier| - 1]];
    } else {
      assert earlier == [];
    }
  }

  lemma {:induction false} SettledWithoutCancelling(arrivals: seq<string>)
    requires |arrivals| >= 1
    ensures Settled(arrivals, false) ==
      Slots(Some(arrivals[0]),
            if |arrivals| == 1 then None else Some(arrivals[|arrivals| - 1]),
            if |arrivals| == 1 then [] else arrivals[1..|arrivals| - 1])
  {
    var before := arrivals[..|arrivals| - 1];
    if |arrivals| > 1 {
      SettledWithoutCancelling(before);
      if |arrivals| > 2 {
        assert before[1..|before| - 1] + [before[|before| - 1]] == arrivals[1..|arrivals| - 1];
      }
    } else {
      assert before == [];
    }
  }
}
