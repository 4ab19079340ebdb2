/**
 * The renewal lease as a protocol: any number of spoke processes, one certificate, and the hub's row for it.
 * A step is one statement on the row, one reading of the clock, or one local move of a process.
 */
module LeaseProtocol {
  import opened Basics
  import opened CertState
  import opened Due

  /** Where a process, together with the handler serving it, stands. */
  datatype Process =
    | Idle
    | Asking                              // GET due was authorised; the row is not read yet
    | DueSeen                             // the row said due; Claim has not sampled the clock yet
    | Claiming(sampled: int, lease: nat)  // Claim sampled the clock; its upsert is still to run
    | Attempting(sampled: int, lease: nat, disturbed: bool)
      // The upsert granted the lease. `disturbed` records that another process's checkin, or a removal
      // of the row, ran since; nothing in the system reads it.

  datatype State = State(clock: int, row: Option<Row>, processes: map<nat, Process>)

  datatype Step =
    | Tick(elapsed: nat)
    | Ask(p: nat)
    | Read(p: nat, renewBefore: int)
    | Sample(p: nat, lease: nat)
    | TryClaim(p: nat, holder: string)
    | Finish(p: nat, report: Event)  // the attempt's own checkin
    | Abandon(p: nat)                // the process dies, or its checkin is lost
    | Stray(event: Event)            // a hook report's checkin, a delayed checkin, or a removal

  predicate Enabled(s: State, step: Step)
  {
    match step
    case Tick(_) => true
    case Ask(p) => p in s.processes && s.processes[p].Idle?
    case Read(p, _) => p in s.processes && s.processes[p].Asking?
    case Sample(p, _) => p in s.processes && s.processes[p].DueSeen?
    case TryClaim(p, _) => p in s.processes && s.processes[p].Claiming?
    case Finish(p, report) => p in s.processes && s.processes[p].Attempting? && IsCheckin(report)
    case Abandon(p) => p in s.processes
    case Stray(event) => !event.ClaimTried?
  }

  function Disturb(processes: map<nat, Process>): map<nat, Process>
  {
    map p | p in processes ::
      if processes[p].Attempting? then processes[p].(disturbed := true) else processes[p]
  }

  function Do(s: State, step: Step): State
    requires Enabled(s, step)
  {
    match step
    case Tick(elapsed) => s.(clock := s.clock + elapsed)
    case Ask(p) => s.(processes := s.processes[p := Asking])
    case Read(p, renewBefore) =>
      s.(processes := s.processes[p := if IsDue(s.row, s.clock, renewBefore) then DueSeen else Idle])
    case Sample(p, lease) => s.(processes := s.processes[p := Claiming(s.clock, lease)])
    case TryClaim(p, holder) =>
      var pc := s.processes[p];
      s.(row := Apply(s.row, ClaimTried(pc.sampled, holder, pc.lease)),
         processes := s.processes[p :=
           if Grants(s.row, pc.sampled) then Attempting(pc.sampled, pc.lease, false) else Idle])
    case Finish(p, report) =>
      s.(row := Apply(s.row, report), processes := Disturb(s.processes)[p := Idle])
    case Abandon(p) => s.(processes := s.processes[p := Idle])
    case Stray(event) =>
      s.(row := Apply(s.row, event), processes := if Releases(event) then Disturb(s.processes) else s.processes)
  }

  /** `states` is a run of `steps`, from any row and clock, with no process under way. */
  ghost predicate IsRun(states: seq<State>, steps: seq<Step>)
  {
    && |states| == |steps| + 1
    && (forall p :: p in states[0].processes ==> states[0].processes[p] == Idle)
    && forall i :: 0 <= i < |steps| ==> Enabled(states[i], steps[i]) && states[i + 1] == Do(states[i], steps[i])
  }

  predicate Undisturbed(pc: Process)
  {
    pc.Attempting? && !pc.disturbed
  }

  /** Undisturbed attempts are ordered by leases that do not overlap, and the row still holds the last one. */
  ghost predicate Inv(s: State)
  {
    && (forall p :: p in s.processes && (s.processes[p].Claiming? || s.processes[p].Attempting?) ==>
          s.processes[p].sampled <= s.clock)
    && (forall p :: p in s.processes && Undisturbed(s.processes[p]) ==>
          s.row.Some? && s.row.value.claim.Some?
          && s.row.value.claim.value.expires >= s.processes[p].sampled + s.processes[p].lease)
    && (forall p, q :: (p in s.processes && q in s.processes && p != q
                        && Undisturbed(s.processes[p]) && Undisturbed(s.processes[q])) ==>
          Expired(s.processes[p], s.processes[q].sampled) || Expired(s.processes[q], s.processes[p].sampled))
  }

  /** The lease of the attempt `pc` ran out before `now`. */
  predicate Expired(pc: Process, now: int)
    requires pc.Attempting?
  {
    pc.sampled + pc.lease < now
  }

  lemma StepKeepsInv(s: State, step: Step)
    requires Inv(s) && Enabled(s, step)
    ensures Inv(Do(s, step))
  {
    match step
    case TryClaim(p, holder) => ClaimKeepsInv(s, p, holder);
    case Finish(p, report) => FinishKeepsInv(s, p, report);
    case Stray(event) => StrayKeepsInv(s, event);
    case _ =>
  }

  lemma ClaimKeepsInv(s: State, p: nat, holder: string)
    requires Inv(s) && Enabled(s, TryClaim(p, holder))
    ensures Inv(Do(s, TryClaim(p, holder)))
  {
    if Grants(s.row, s.processes[p].sampled) { ClaimFollowsLeases(s, p, holder); }
  }

  lemma FinishKeepsInv(s: State, p: nat, report: Event)
    requires Inv(s) && Enabled(s, Finish(p, report))
    ensures Inv(Do(s, Finish(p, report)))
  {
  }

  lemma StrayKeepsInv(s: State, event: Event)
    requires Inv(s) && Enabled(s, Stray(event))
    ensures Inv(Do(s, Stray(event)))
  {
  }

  /** A claim that is granted sampled after the lease of every undisturbed attempt. */
  lemma ClaimFollowsLeases(s: State, p: nat, holder: string)
    requires Inv(s) && Enabled(s, TryClaim(p, holder)) && Grants(s.row, s.processes[p].sampled)
    ensures forall q :: q in s.processes && Undisturbed(s.processes[q]) ==>
      Expired(s.processes[q], s.processes[p].sampled)
  {
  }

  lemma {:induction false} RunKeepsInv(states: seq<State>, steps: seq<Step>, i: nat)
    requires IsRun(states, steps) && i < |states|
    ensures Inv(states[i])
  {
    if i > 0 {
      RunKeepsInv(states, steps, i - 1);
      StepKeepsInv(states[i - 1], steps[i - 1]);
    }
  }

  /**
   * In every reachable state, when two processes attempt the same certificate at once, one of the two was
   * disturbed by a foreign checkin or removal, or has outlived its own lease.
   */
  lemma OverlapHasACause(states: seq<State>, steps: seq<Step>, i: nat, p: nat, q: nat)
    requires IsRun(states, steps) && i < |states| && p != q
    requires p in states[i].processes && q in states[i].processes
    requires states[i].processes[p].Attempting? && states[i].processes[q].Attempting?
    ensures var s := states[i]; var a, b := s.processes[p], s.processes[q];
      a.disturbed || b.disturbed || Expired(a, s.clock) || Expired(b, s.clock)
  {
    RunKeepsInv(states, steps, i);
  }

  /**
   * What a step must respect for attempts to exclude each other: no hook report, delayed checkin or removal
   * lands inside an attempt, and every attempt begins and ends within its lease.
   */
  ghost predicate Behaved(s: State, step: Step)
  {
    && (step.Stray? && Releases(step.event) ==> forall p :: p in s.processes ==> !s.processes[p].Attempting?)
    && (step.Tick? ==> forall p :: p in s.processes && s.processes[p].Attempting? ==>
          !Expired(s.processes[p], s.clock + step.elapsed))
    && (step.TryClaim? && step.p in s.processes && s.processes[step.p].Claiming?
          && Grants(s.row, s.processes[step.p].sampled) ==>
            s.clock <= s.processes[step.p].sampled + s.processes[step.p].lease)
  }

  ghost predicate Exclusive(s: State)
  {
    && (forall p, q :: (p in s.processes && q in s.processes
                        && s.processes[p].Attempting? && s.processes[q].Attempting?) ==> p == q)
    && (forall p :: p in s.processes && s.processes[p].Attempting? ==>
          !s.processes[p].disturbed && !Expired(s.processes[p], s.clock))
  }

  /**
   * Mutual exclusion: in a run of behaved steps at most one process attempts at any moment,
   * so the attempt intervals of different processes are disjoint.
   */
  lemma {:induction false} AttemptsExclude(states: seq<State>, steps: seq<Step>, i: nat)
    requires IsRun(states, steps) && i < |states|
    requires forall k :: 0 <= k < |steps| ==> Behaved(states[k], steps[k])
    ensures Exclusive(states[i])
  {
    if i > 0 {
      AttemptsExclude(states, steps, i - 1);
      RunKeepsInv(states, steps, i - 1);
      StepKeepsExclusive(states[i - 1], steps[i - 1]);
    }
  }

  lemma StepKeepsExclusive(s: State, step: Step)
    requires Inv(s) && Exclusive(s) && Enabled(s, step) && Behaved(s, step)
    ensures Exclusive(Do(s, step))
  {
    if step.TryClaim? {
      ClaimIsExclusive(s, step.p, step.holder);
    }
  }

  /** No weaker condition will do: every other step breaks exclusion at once. */
  lemma StepExcludesExactlyWhen(s: State, step: Step)
    requires Inv(s) && Exclusive(s) && Enabled(s, step)
    ensures Exclusive(Do(s, step)) <==> Behaved(s, step)
  {
    if Behaved(s, step) {
      StepKeepsExclusive(s, step);
    } else {
      MisbehaviourShows(s, step);
    }
  }

  lemma MisbehaviourShows(s: State, step: Step)
    requires Enabled(s, step) && !Behaved(s, step)
    ensures !Exclusive(Do(s, step))
  {
    var t := Do(s, step);
    match step
    case Tick(elapsed) =>
      var p :| p in s.processes && s.processes[p].Attempting? && Expired(s.processes[p], s.clock + elapsed);
      assert t.processes[p].Attempting?;
    case Stray(event) =>
      var p :| p in s.processes && s.processes[p].Attempting?;
      assert t.processes[p].Attempting? && t.processes[p].disturbed;
    case TryClaim(p, _) =>
      assert t.processes[p].Attempting? && Expired(t.processes[p], t.clock);
    case _ =>
  }

  /**
   * Mutual exclusion, both ways: attempts are exclusive, undisturbed and within their leases at every moment of a run
   * if and only if every step of it is behaved.
   */
  lemma AttemptsExcludeExactlyWhen(states: seq<State>, steps: seq<Step>)
    requires IsRun(states, steps)
    ensures (forall i :: 0 <= i < |states| ==> Exclusive(states[i]))
      <==> forall k :: 0 <= k < |steps| ==> Behaved(states[k], steps[k])
  {
    if forall i :: 0 <= i < |states| ==> Exclusive(states[i]) {
      forall k | 0 <= k < |steps| ensures Behaved(states[k], steps[k]) {
        RunKeepsInv(states, steps, k);
        assert Exclusive(states[k]) && Exclusive(states[k + 1]);
        StepExcludesExactlyWhen(states[k], steps[k]);
      }
    }
    if forall k :: 0 <= k < |steps| ==> Behaved(states[k], steps[k]) {
      forall i | 0 <= i < |states| ensures Exclusive(states[i]) { AttemptsExclude(states, steps, i); }
    }
  }

  /** While an attempt is within its lease, the row refuses every claim sampled up to now. */
  lemma ClaimIsExclusive(s: State, p: nat, holder: string)
    requires Inv(s) && Exclusive(s) && Enabled(s, TryClaim(p, holder))
    ensures Grants(s.row, s.processes[p].sampled) ==> forall q :: q in s.processes ==> !s.processes[q].Attempting?
  {
    forall q | q in s.processes && s.processes[q].Attempting? ensures !Grants(s.row, s.processes[p].sampled) {
      assert Undisturbed(s.processes[q]) && !Expired(s.processes[q], s.clock);
    }
  }

  /** A crashed holder delays nobody for longer than the lease: past the row's expiry every claim is granted. */
  lemma ExpiredLeaseYields(s: State, p: nat, holder: string)
    requires Enabled(s, TryClaim(p, holder))
    requires s.row.Some? && s.row.value.claim.Some? ==> s.row.value.claim.value.expires < s.processes[p].sampled
    ensures Do(s, TryClaim(p, holder)).processes[p].Attempting?
    ensures var row := Do(s, TryClaim(p, holder)).row;
      var at := s.processes[p].sampled;
      row.Some? && row.value.claim == Some(Lease(holder, at, at + s.processes[p].lease))
  {
  }

  /**
   * Left alone, a process that asks gets to attempt exactly if the certificate is unknown to the hub, or expires within
   * the renewal window, and no unexpired lease is on the row.
   */
  lemma AloneAttemptsExactlyWhen(s: State, p: nat, renewBefore: int, lease: nat, holder: string)
    requires p in s.processes && s.processes[p].Idle?
    ensures var s1 := Do(s, Ask(p)); var s2 := Do(s1, Read(p, renewBefore));
      var due := s.row.None? || s.row.value.notAfter.None? || s.row.value.notAfter.value < s.clock + renewBefore;
      && (due <==> Enabled(s2, Sample(p, lease)))
      && (due ==>
            var s3 := Do(s2, Sample(p, lease)); var s4 := Do(s3, TryClaim(p, holder));
            s4.processes[p] == if s.row.None? || s.row.value.claim.None? || s.row.value.claim.value.expires < s.clock
                               then Attempting(s.clock, lease, false) else Idle)
      && (!due ==> s2.processes[p] == Idle && s2.row == s.row)
  {
  }

  /** A finished attempt yields at once: the next claim is granted, however long the lease. */
  lemma FinishYields(s: State, p: nat, report: Event, q: nat, holder: string)
    requires Enabled(s, Finish(p, report)) && p != q && Enabled(s, TryClaim(q, holder))
    ensures var t := Do(s, Finish(p, report));
      t.processes[p].Idle? && Enabled(t, TryClaim(q, holder)) && Do(t, TryClaim(q, holder)).processes[q].Attempting?
  {
    assert Grants(Apply(s.row, report), s.processes[q].sampled);
  }

  /**
   * The condition on foreign reports is needed: whenever an attempt is under way and another process is about to
   * claim, one foreign checkin or removal in between leaves both attempting, however long the first lease.
   */
  lemma ForeignReportBreaksExclusion(s: State, p: nat, q: nat, report: Event, holder: string)
    requires p in s.processes && q in s.processes && p != q
    requires s.processes[p].Attempting? && s.processes[q].Claiming? && Releases(report)
    ensures Enabled(s, Stray(report)) && Enabled(Do(s, Stray(report)), TryClaim(q, holder))
    ensures var t := Do(Do(s, Stray(report)), TryClaim(q, holder));
      t.processes[p].Attempting? && t.processes[q].Attempting? && t.clock == s.clock
  {
    assert Grants(Apply(s.row, report), s.processes[q].sampled);
  }

  // ----- How long a lease excludes others -----

  /** `p` attempts, and nobody else does. */
  ghost predicate Lone(s: State, p: nat)
  {
    && p in s.processes && s.processes[p].Attempting?
    && forall r :: r in s.processes && r != p ==> !s.processes[r].Attempting?
  }

  ghost predicate Leased(s: State, until: int)
  {
    s.row.Some? && s.row.value.claim.Some? && s.row.value.claim.value.expires >= until
  }

  /** A step that lets `p` go on, frees no lease and leaves the clock at `until` or before. */
  predicate LetsLast(s: State, step: Step, p: nat, until: int)
  {
    && Enabled(s, step) && !step.Finish? && step != Abandon(p)
    && !(step.Stray? && Releases(step.event))
    && Do(s, step).clock <= until
  }

  /** What can happen from `s` while the attempt of `p` lasts, no lease is freed and the clock is not past `until`. */
  ghost predicate Lasts(states: seq<State>, steps: seq<Step>, s: State, p: nat, until: int)
  {
    && |states| == |steps| + 1 && states[0] == s
    && forall i :: 0 <= i < |steps| ==>
         LetsLast(states[i], steps[i], p, until) && states[i + 1] == Do(states[i], steps[i])
  }

  lemma StepStaysLone(s: State, step: Step, p: nat, until: int)
    requires Inv(s) && Lone(s, p) && Leased(s, until) && s.clock <= until && LetsLast(s, step, p, until)
    ensures var t := Do(s, step); Lone(t, p) && Leased(t, until)
  {
    if step.TryClaim? { assert !Grants(s.row, s.processes[step.p].sampled); }
  }

  lemma {:induction false} StaysLone(states: seq<State>, steps: seq<Step>, s: State, p: nat, until: int, i: nat)
    requires Inv(s) && Lone(s, p) && Leased(s, until) && s.clock <= until
    requires Lasts(states, steps, s, p, until) && i < |states|
    ensures Inv(states[i]) && Lone(states[i], p) && Leased(states[i], until) && states[i].clock <= until
  {
    if i > 0 {
      StaysLone(states, steps, s, p, until, i - 1);
      assert LetsLast(states[i - 1], steps[i - 1], p, until);
      StepKeepsInv(states[i - 1], steps[i - 1]);
      StepStaysLone(states[i - 1], steps[i - 1], p, until);
    }
  }

  /** Without such a lease another process, wherever it stands, can start over and be granted one by `until`. */
  lemma AnotherGetsIn(s: State, p: nat, q: nat, until: int) returns (states: seq<State>, steps: seq<Step>)
    requires Lone(s, p) && q in s.processes && q != p && s.clock <= until && !Leased(s, until)
    ensures Lasts(states, steps, s, p, until) && !Lone(states[|steps|], p)
  {
    var soon := if s.row.Some? && s.row.value.notAfter.Some? then s.row.value.notAfter.value - until + 1 else 0;
    steps := [Tick(until - s.clock), Abandon(q), Ask(q), Read(q, soon), Sample(q, 0), TryClaim(q, "")];
    var s1 := Do(s, steps[0]);
    var s2 := Do(s1, steps[1]);
    var s3 := Do(s2, steps[2]);
    var s4 := Do(s3, steps[3]);
    var s5 := Do(s4, steps[4]);
    var s6 := Do(s5, steps[5]);
    states := [s, s1, s2, s3, s4, s5, s6];
    assert s6.processes[q].Attempting?;
  }

  /**
   * The lease as the code has it: while one process attempts and another is present, nobody else can start an attempt
   * by the time `until`, however the rest goes on, if and only if the row holds a lease that expires then or later.
   */
  lemma LeaseExcludesExactlyUntil(s: State, p: nat, q: nat, until: int)
    requires Inv(s) && Lone(s, p) && q in s.processes && q != p && s.clock <= until
    ensures Leased(s, until) <==>
      forall states, steps :: Lasts(states, steps, s, p, until) ==> Lone(states[|steps|], p)
  {
    if Leased(s, until) {
      forall states, steps | Lasts(states, steps, s, p, until) ensures Lone(states[|steps|], p) {
        StaysLone(states, steps, s, p, until, |steps|);
      }
    } else {
      var states, steps := AnotherGetsIn(s, p, q, until);
    }
  }
}
