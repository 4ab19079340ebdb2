/**
 * Alerts under concurrency (internal/hubapi/handlers.go): a check-in reads the previous status and records the new one
 * in two statements, and compares the two to decide whether the operator is told.
 */
module Alerts {
  import opened Basics
  import opened CertState
  import opened HubApi

  /** One certificate's row, the status each handler under way has read, and what was decided to tell, in order. */
  datatype State = State(row: Option<Row>, handlers: map<nat, Status>, told: seq<Status>)

  datatype Step =
    | ReadPrevious(h: nat)
    | Report(h: nat, report: Event)  // the upsert, and the decision that follows from it
    | Silent(h: nat, report: Event)  // the upsert of a handler that ends before its decision: a hook statement that
                                     // fails, or the death of the process
    | Drop(h: nat)                   // the handler ends early
    | Other(event: Event)            // a claim, a hook result or a deletion

  predicate Enabled(s: State, step: Step)
  {
    match step
    case ReadPrevious(h) => h !in s.handlers
    case Report(h, report) => h in s.handlers && IsCheckin(report)
    case Silent(h, report) => h in s.handlers && IsCheckin(report)
    case Drop(_) => true
    case Other(event) => !IsCheckin(event)
  }

  function Do(s: State, step: Step): State
    requires Enabled(s, step)
  {
    match step
    case ReadPrevious(h) => s.(handlers := s.handlers[h := StatusOf(s.row)])
    case Report(h, report) =>
      var next := Apply(s.row, report);
      State(next, s.handlers - {h},
            s.told + if Transition(s.handlers[h], StatusOf(next)) then [StatusOf(next)] else [])
    case Silent(h, report) => s.(row := Apply(s.row, report), handlers := s.handlers - {h})
    case Drop(h) => s.(handlers := s.handlers - {h})
    case Other(event) => s.(row := Apply(s.row, event))
  }

  ghost predicate IsRun(states: seq<State>, steps: seq<Step>)
  {
    && |states| == |steps| + 1 && states[0].told == []
    && forall i :: 0 <= i < |steps| ==> Enabled(states[i], steps[i]) && states[i + 1] == Do(states[i], steps[i])
  }

  predicate Failing(s: State)
  {
    StatusOf(s.row) == Failed
  }

  /**
   * The status read is still the row's, as far as failing goes, at the upsert; an upsert without a decision does not
   * change whether the row is failing; and no failing row is deleted.
   */
  predicate UpToDate(s: State, step: Step)
    requires Enabled(s, step)
  {
    match step
    case Report(h, _) => (s.handlers[h] == Failed) == Failing(s)
    case Silent(_, report) => report.FailureReported? == Failing(s)
    case Other(event) => event.Removed? ==> !Failing(s)
    case _ => true
  }

  /** Alerts and all-clears take turns; an all-clear comes first exactly if the row was failing to begin with. */
  ghost predicate Alternates(told: seq<Status>, failing: bool)
  {
    forall i :: 0 <= i < |told| ==> told[i] == if (i % 2 == 0) == failing then Active else Failed
  }

  /** What was told alternates, and its last word is the truth. */
  ghost predicate InStep(s: State, failing: bool)
  {
    Alternates(s.told, failing) && Failing(s) == (failing == (|s.told| % 2 == 0))
  }

  lemma StatusStep(row: Option<Row>, e: Event)
    ensures IsCheckin(e) ==> StatusOf(Apply(row, e)) == if e.Activated? then Active else Failed
    ensures !IsCheckin(e) && !e.Removed? ==> StatusOf(Apply(row, e)) == StatusOf(row)
    ensures e.Removed? ==> StatusOf(Apply(row, e)) == Unknown
  {
  }

  /** One upsert tells the operator exactly what changed if and only if the status it compares with is still current. */
  lemma TellsTheChangeExactlyWhen(s: State, h: nat, report: Event)
    requires Enabled(s, Report(h, report))
    ensures var t := Do(s, Report(h, report));
      var change := if Failing(s) != Failing(t) then [StatusOf(t.row)] else [];
      t.told == s.told + change <==> UpToDate(s, Report(h, report))
  {
    StatusStep(s.row, report);
    var t := Do(s, Report(h, report));
    assert |t.told| == |s.told| + if Transition(s.handlers[h], StatusOf(t.row)) then 1 else 0;
  }

  lemma StepKeepsInStepExactlyWhen(s: State, step: Step, failing: bool)
    requires Enabled(s, step) && InStep(s, failing)
    ensures InStep(Do(s, step), failing) <==> UpToDate(s, step)
  {
    var t := Do(s, step);
    match step
    case Report(h, report) =>
      StatusStep(s.row, report);
      assert t.told == s.told || t.told == s.told + [StatusOf(t.row)];
    case Silent(_, report) => StatusStep(s.row, report);
    case Other(event) => StatusStep(s.row, event);
    case _ =>
  }

  /**
   * No alert fatigue and no missed change, over every run of overlapping check-ins, claims, hook results and deletions,
   * any handler of which may end early: alerts and all-clears alternate and the last one told is true at every moment
   * if and only if every upsert that is followed by a decision finds the status its handler had read still current,
   * every other upsert leaves the row failing or not as it was, and no failing row is deleted.
   */
  lemma {:induction false} InStepExactlyWhen(states: seq<State>, steps: seq<Step>)
    requires IsRun(states, steps)
    ensures (forall i :: 0 <= i < |states| ==> InStep(states[i], Failing(states[0])))
      <==> forall i :: 0 <= i < |steps| ==> UpToDate(states[i], steps[i])
  {
    var failing := Failing(states[0]);
    if forall i :: 0 <= i < |states| ==> InStep(states[i], failing) {
      forall i | 0 <= i < |steps| ensures UpToDate(states[i], steps[i]) {
        assert InStep(states[i], failing) && InStep(states[i + 1], failing);
        StepKeepsInStepExactlyWhen(states[i], steps[i], failing);
      }
    }
    if forall i :: 0 <= i < |steps| ==> UpToDate(states[i], steps[i]) {
      forall i | 0 <= i < |states| ensures InStep(states[i], failing) { StaysInStep(states, steps, i); }
    }
  }

  lemma {:induction false} StaysInStep(states: seq<State>, steps: seq<Step>, i: nat)
    requires IsRun(states, steps) && i < |states|
    requires forall k :: 0 <= k < |steps| ==> UpToDate(states[k], steps[k])
    ensures InStep(states[i], Failing(states[0]))
  {
    if i > 0 {
      StaysInStep(states, steps, i - 1);
      StepKeepsInStepExactlyWhen(states[i - 1], steps[i - 1], Failing(states[0]));
    }
  }

  /** Two overlapping check-ins of a failed renewal both alert, whatever certificate was healthy before. */
  lemma OverlapAlertsTwice(row: Option<Row>, first: Event, second: Event) returns (states: seq<State>, steps: seq<Step>)
    requires StatusOf(row) != Failed && first.FailureReported? && second.FailureReported?
    ensures IsRun(states, steps) && states[0].row == row && states[|steps|].told == [Failed, Failed]
  {
    var s0 := State(row, map[], []);
    steps := [ReadPrevious(0), ReadPrevious(1), Report(0, first), Report(1, second)];
    var s1 := Do(s0, steps[0]);
    var s2 := Do(s1, steps[1]);
    var s3 := Do(s2, steps[2]);
    var s4 := Do(s3, steps[3]);
    states := [s0, s1, s2, s3, s4];
  }

  /** A failing hook statement swallows the alert for good: the next failed check-in finds "failed" and stays silent. */
  lemma SilentUpsertLosesTheAlert(row: Option<Row>, first: Event, second: Event)
    returns (states: seq<State>, steps: seq<Step>)
    requires StatusOf(row) != Failed && first.FailureReported? && second.FailureReported?
    ensures IsRun(states, steps) && states[0].row == row
    ensures steps == [ReadPrevious(0), Silent(0, first), ReadPrevious(0), Report(0, second)]
    ensures Failing(states[|steps|]) && states[|steps|].told == []
  {
    var s0 := State(row, map[], []);
    steps := [ReadPrevious(0), Silent(0, first), ReadPrevious(0), Report(0, second)];
    var s1 := Do(s0, steps[0]);
    var s2 := Do(s1, steps[1]);
    var s3 := Do(s2, steps[2]);
    var s4 := Do(s3, steps[3]);
    states := [s0, s1, s2, s3, s4];
  }
}
