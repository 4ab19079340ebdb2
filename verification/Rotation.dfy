/**
 * Token rotation without a gap: when the token a spoke presents is known to the served snapshot
 * (internal/onboard/plan.go).
 */
module Rotation {
  import opened Basics
  import opened Tables
  import opened Snapshot
  import opened HubStore
  import opened Config
  import opened HubSystem

  ghost predicate Serves(s: Sys, id: string, token: string)
  {
    token in s.served.tokenToSpoke && s.served.tokenToSpoke[token] == id
  }

  ghost predicate Stored(db: Db, id: string, token: string)
  {
    id in db.spokes && token in db.tokens && db.tokens[token] == id
  }

  /** A reload under way whose reads so far already lack the spoke or its token. */
  predicate Stale(job: Job, id: string, token: string)
  {
    && Reloading(job)
    && (id !in job.ids
        || (!job.LoadedIds? && !(token in job.tokens && job.tokens[token] == id)))
  }

  ghost predicate NoneStale(s: Sys, id: string, token: string)
  {
    forall j :: j in s.jobs ==> !Stale(s.jobs[j], id, token)
  }

  /** The token is stored, served, and no reload under way is about to take it out of service. */
  ghost predicate Anchored(s: Sys, id: string, token: string)
  {
    Stored(s.db, id, token) && Serves(s, id, token) && NoneStale(s, id, token)
  }

  /** The step neither deletes the spoke nor removes the token. */
  predicate Spares(step: Step, id: string, token: string)
  {
    step.Call? ==> !(step.w.DeleteSpoke? && step.w.id == id)
                   && !(step.w.RemoveSpokeToken? && step.w.id == id && step.w.token == token)
  }

  lemma WriteKeepsStored(db: Db, w: Write, id: string, token: string)
    requires Stored(db, id, token) && Spares(Call(w), id, token)
    ensures Stored(Perform(db, w).0, id, token)
  {
  }

  lemma StepKeepsStored(s: Sys, step: Step, t: Sys, id: string, token: string)
    requires Stored(s.db, id, token) && Next(s, step, t) && Spares(step, id, token)
    ensures Stored(t.db, id, token)
  {
    match step
    case Call(w) => WriteKeepsStored(s.db, w, id, token);
    case FinishAdd(j) =>
    case _ => assert t.db.tokens == s.db.tokens && t.db.spokes == s.db.spokes;
  }

  lemma StepKeepsAnchored(s: Sys, step: Step, t: Sys, id: string, token: string)
    requires Anchored(s, id, token) && Next(s, step, t) && Spares(step, id, token)
    ensures Anchored(t, id, token)
  {
    StepKeepsStored(s, step, t, id, token);
    if step.Publish? {
      assert !Stale(s.jobs[step.j], id, token);
    }
  }

  lemma {:induction false} StaysAnchored(states: seq<Sys>, steps: seq<Step>, lo: nat, hi: nat, id: string,
                           token: string)
    requires IsRun(states, steps) && lo <= hi < |states|
    requires Anchored(states[lo], id, token)
    requires forall k :: lo <= k < hi ==> Spares(steps[k], id, token)
    ensures Anchored(states[hi], id, token)
    decreases hi
  {
    if lo < hi {
      StaysAnchored(states, steps, lo, hi - 1, id, token);
      StepKeepsAnchored(states[hi - 1], steps[hi - 1], states[hi], id, token);
    }
  }

  // ----- The new token becomes safe -----

  /** Every reload begun at or after job number `n` knows the spoke and its new token. */
  ghost predicate LateReloadsKnow(s: Sys, n: nat, id: string, token: string)
  {
    && Stored(s.db, id, token)
    && n <= s.nextJob
    && forall j :: j in s.jobs && j >= n ==> !Stale(s.jobs[j], id, token)
  }

  lemma StepKeepsLateReloadsKnow(s: Sys, step: Step, t: Sys, n: nat, id: string, token: string)
    requires LateReloadsKnow(s, n, id, token) && Next(s, step, t) && Spares(step, id, token)
    ensures LateReloadsKnow(t, n, id, token)
  {
    StepKeepsStored(s, step, t, id, token);
  }

  lemma {:induction false} LateReloadsKeepKnowing(states: seq<Sys>, steps: seq<Step>, lo: nat, hi: nat, n: nat,
                           id: string, token: string)
    requires IsRun(states, steps) && lo <= hi < |states|
    requires LateReloadsKnow(states[lo], n, id, token)
    requires forall k :: lo <= k < hi ==> Spares(steps[k], id, token)
    ensures LateReloadsKnow(states[hi], n, id, token)
    decreases hi
  {
    if lo < hi {
      LateReloadsKeepKnowing(states, steps, lo, hi - 1, n, id, token);
      StepKeepsLateReloadsKnow(states[hi - 1], steps[hi - 1], states[hi], n, id, token);
    }
  }

  /**
   * The rotation procedure: the token is stored at state `added`; at step `publish` a reload begun since then is
   * published, and no reload begun before is still under way; the spoke switches at state `switch` or later.
   */
  ghost predicate Procedure(states: seq<Sys>, steps: seq<Step>, id: string, token: string, added: nat, publish: nat,
                           switch: nat)
    requires IsRun(states, steps)
  {
    && added <= publish < switch < |states|
    && Stored(states[added].db, id, token)
    && steps[publish].Publish? && steps[publish].j >= states[added].nextJob
    && (forall j :: j in states[publish].jobs && j < states[added].nextJob ==> !Reloading(states[publish].jobs[j]))
  }

  /** Jobs are numbered in the order they began. */
  ghost predicate Numbered(s: Sys)
  {
    forall j :: j in s.jobs ==> j < s.nextJob
  }

  lemma {:induction false} StaysNumbered(states: seq<Sys>, steps: seq<Step>, i: nat)
    requires IsRun(states, steps) && i < |states| && Numbered(states[0])
    ensures Numbered(states[i])
  {
    if i > 0 {
      StaysNumbered(states, steps, i - 1);
      assert Next(states[i - 1], steps[i - 1], states[i]);
    }
  }

  lemma NewTokenAnchored(states: seq<Sys>, steps: seq<Step>, id: string, token: string, added: nat, publish: nat,
                           switch: nat)
    requires IsRun(states, steps) && Numbered(states[0]) && Procedure(states, steps, id, token, added, publish, switch)
    requires forall k :: added <= k < |steps| ==> Spares(steps[k], id, token)
    ensures forall i :: publish < i < |states| ==> Anchored(states[i], id, token)
  {
    var n := states[added].nextJob;
    StaysNumbered(states, steps, added);
    LateReloadsKeepKnowing(states, steps, added, publish, n, id, token);
    var s, t := states[publish], states[publish + 1];
    assert Next(s, steps[publish], t);
    PublishAnchors(s, steps[publish].j, t, n, id, token);
    forall i | publish < i < |states| ensures Anchored(states[i], id, token) {
      StaysAnchored(states, steps, publish + 1, i, id, token);
    }
  }

  lemma PublishAnchors(s: Sys, j: nat, t: Sys, n: nat, id: string, token: string)
    requires LateReloadsKnow(s, n, id, token) && Next(s, Publish(j), t) && j >= n
    requires forall i :: i in s.jobs && i < n ==> !Reloading(s.jobs[i])
    ensures Anchored(t, id, token)
  {
    assert !Stale(s.jobs[j], id, token);
  }

  /**
   * Rotation continuity: in every run, mixed with any other writes, reloads and requests, the old token is served up to
   * the switch and the new one from the switch on, provided neither token nor the spoke is deleted while it is
   * presented.
   */
  lemma RotationContinuity(states: seq<Sys>, steps: seq<Step>, id: string, old_: string, new_: string,
                           added: nat, publish: nat, switch: nat)
    requires IsRun(states, steps) && Numbered(states[0]) && Anchored(states[0], id, old_)
    requires Procedure(states, steps, id, new_, added, publish, switch)
    requires forall k :: 0 <= k < switch ==> Spares(steps[k], id, old_)
    requires forall k :: added <= k < |steps| ==> Spares(steps[k], id, new_)
    ensures forall i :: 0 <= i < |states| ==> Serves(states[i], id, if i < switch then old_ else new_)
  {
    NewTokenAnchored(states, steps, id, new_, added, publish, switch);
    forall i | 0 <= i < switch ensures Serves(states[i], id, old_) {
      StaysAnchored(states, steps, 0, i, id, old_);
    }
  }

  // ----- The condition on stale reloads is exact -----

  lemma {:induction false} SomeOrder<T(!new)>(elements: set<T>)
    ensures exists order :: Enumerates(order, elements)
    decreases |elements|
  {
    if elements == {} {
      assert Enumerates([], elements);
    } else {
      var x :| x in elements;
      SomeOrder(elements - {x});
      var rest :| Enumerates(rest, elements - {x});
      assert Enumerates([x] + rest, elements);
    }
  }

  ghost function AnOrder<T(!new)>(elements: set<T>): (order: seq<T>)
    ensures Enumerates(order, elements)
  {
    SomeOrder(elements);
    var order :| Enumerates(order, elements);
    order
  }

  /** Any three reads can be published. */
  lemma SnapshotExists(ids: set<string>, tokens: map<string, string>, certs: map<Key, Policy>, providers: set<string>)
    returns (hs: HubState)
    ensures SnapshotOf(hs, ids, tokens, certs) && hs.providers == providers
  {
    hs := HubState(
      map id | id in ids :: SpokeEntry(AnOrder(TokensOf(tokens, id)), AnOrder(CertsOf(certs, id))),
      map t | t in tokens && tokens[t] in ids :: tokens[t],
      providers);
  }

  /** What can happen to `s` without the spoke or the token being deleted. */
  ghost predicate Follows(states: seq<Sys>, steps: seq<Step>, s: Sys, id: string, token: string)
  {
    IsRun(states, steps) && states[0] == s && forall k :: 0 <= k < |steps| ==> Spares(steps[k], id, token)
  }

  lemma PublishExists(s: Sys, j: nat) returns (t: Sys)
    requires j in s.jobs && s.jobs[j].LoadedAll?
    ensures Next(s, Publish(j), t)
  {
    var hs := SnapshotExists(s.jobs[j].ids, s.jobs[j].tokens, s.jobs[j].certs, s.jobs[j].providers);
    t := Stop(s, j).(served := hs);
  }

  /** `job` after reads that found what `loaded` holds: the same spokes, and the same tokens once it has read them. */
  predicate Loads(job: Job, loaded: Job)
  {
    && Reloading(job) && loaded.LoadedAll?
    && loaded.ids == job.ids && (!job.LoadedIds? ==> loaded.tokens == job.tokens)
  }

  predicate IsRead(step: Step)
  {
    step.LoadTokens? || step.LoadCerts? || step.LoadProviders?
  }

  /** A reload at any stage can run its remaining reads against the database as it is. */
  lemma FinishReads(s: Sys, j: nat) returns (states: seq<Sys>, steps: seq<Step>)
    requires j in s.jobs && Reloading(s.jobs[j])
    ensures IsRun(states, steps) && states[0] == s && forall k :: 0 <= k < |steps| ==> IsRead(steps[k])
    ensures var u := states[|steps|];
      && u.db == s.db && j in u.jobs && Loads(s.jobs[j], u.jobs[j])
      && (s.jobs[j].LoadedIds? ==> u.jobs[j].tokens == s.db.tokens)
  {
    states, steps := [s], [];
    var u := s;
    if u.jobs[j].LoadedIds? {
      var v := u.(jobs := u.jobs[j := LoadedTokens(u.jobs[j].ids, u.db.tokens)]);
      assert Next(u, LoadTokens(j), v);
      states, steps, u := states + [v], steps + [LoadTokens(j)], v;
    }
    if u.jobs[j].LoadedTokens? {
      var v := u.(jobs := u.jobs[j := Job.LoadedCerts(u.jobs[j].ids, u.jobs[j].tokens, u.db.certs)]);
      assert Next(u, LoadCerts(j), v);
      states, steps, u := states + [v], steps + [LoadCerts(j)], v;
    }
    if u.jobs[j].LoadedCerts? {
      var job := u.jobs[j];
      var v := u.(jobs := u.jobs[j := LoadedAll(job.ids, job.tokens, job.certs, u.db.providers.Keys)]);
      assert Next(u, LoadProviders(j), v);
      states, steps, u := states + [v], steps + [LoadProviders(j)], v;
    }
  }

  /** From a stale reload at any stage some continuation takes the token out of service. */
  lemma StaleReloadCanDrop(s: Sys, j: nat, id: string, token: string) returns (states: seq<Sys>, steps: seq<Step>)
    requires j in s.jobs && Stale(s.jobs[j], id, token)
    ensures Follows(states, steps, s, id, token) && !Serves(states[|steps|], id, token)
  {
    states, steps := FinishReads(s, j);
    var t := PublishExists(states[|steps|], j);
    states, steps := states + [t], steps + [Publish(j)];
  }

  /**
   * A stored and served token stays served in every continuation that deletes neither it nor its spoke
   * exactly when no reload under way read its tables before the token was there.
   */
  lemma ServedForGoodExactlyWhen(s: Sys, id: string, token: string)
    requires Stored(s.db, id, token) && Serves(s, id, token)
    ensures NoneStale(s, id, token) <==>
      forall states, steps :: Follows(states, steps, s, id, token) ==> Serves(states[|steps|], id, token)
  {
    if NoneStale(s, id, token) {
      forall states, steps | Follows(states, steps, s, id, token) ensures Serves(states[|steps|], id, token) {
        StaysAnchored(states, steps, 0, |steps|, id, token);
      }
    } else {
      var j :| j in s.jobs && Stale(s.jobs[j], id, token);
      var states, steps := StaleReloadCanDrop(s, j, id, token);
    }
  }

  // ----- Revocation -----

  ghost predicate Refuses(s: Sys, token: string)
  {
    token !in s.served.tokenToSpoke
  }

  /** A reload under way that read the token while it was stored and is about to serve it. */
  predicate StillKnows(job: Job, token: string)
  {
    Reloading(job) && !job.LoadedIds? && token in job.tokens && job.tokens[token] in job.ids
  }

  ghost predicate NoneKnows(s: Sys, token: string)
  {
    forall j :: j in s.jobs ==> !StillKnows(s.jobs[j], token)
  }

  /** The step does not store the token again. */
  predicate LeavesOut(s: Sys, step: Step, token: string)
  {
    && (step.Call? ==> !(step.w.CreateSpoke? && step.w.token == token))
    && (step.FinishAdd? ==> !(step.j in s.jobs && s.jobs[step.j].Adding? && s.jobs[step.j].token == token))
  }

  ghost predicate FollowsWithout(states: seq<Sys>, steps: seq<Step>, s: Sys, token: string)
  {
    IsRun(states, steps) && states[0] == s && forall k :: 0 <= k < |steps| ==> LeavesOut(states[k], steps[k], token)
  }

  /** The token is neither stored nor served, and no reload under way is about to bring it back. */
  ghost predicate Gone(s: Sys, token: string)
  {
    token !in s.db.tokens && Refuses(s, token) && NoneKnows(s, token)
  }

  lemma WriteLeavesOut(db: Db, w: Write, token: string)
    requires token !in db.tokens && IsCall(w) && !(w.CreateSpoke? && w.token == token)
    ensures token !in Perform(db, w).0.tokens
  {
  }

  lemma StepKeepsOut(s: Sys, step: Step, t: Sys, token: string)
    requires token !in s.db.tokens && Next(s, step, t) && LeavesOut(s, step, token)
    ensures token !in t.db.tokens
  {
    match step
    case Call(w) => WriteLeavesOut(s.db, w, token);
    case FinishAdd(j) =>
    case _ => assert t.db.tokens == s.db.tokens;
  }

  lemma StepKeepsGone(s: Sys, step: Step, t: Sys, token: string)
    requires Gone(s, token) && Next(s, step, t) && LeavesOut(s, step, token)
    ensures Gone(t, token)
  {
    StepKeepsOut(s, step, t, token);
    if step.Publish? {
      assert !StillKnows(s.jobs[step.j], token);
    }
  }

  lemma {:induction false} StaysGone(states: seq<Sys>, steps: seq<Step>, s: Sys, i: nat, token: string)
    requires FollowsWithout(states, steps, s, token) && Gone(s, token) && i < |states|
    ensures Gone(states[i], token)
  {
    if i > 0 {
      StaysGone(states, steps, s, i - 1, token);
      assert LeavesOut(states[i - 1], steps[i - 1], token);
      StepKeepsGone(states[i - 1], steps[i - 1], states[i], token);
    }
  }

  /** A reload that read the token before it was removed puts it back into service when it is published. */
  lemma LateReloadRevives(s: Sys, j: nat, token: string) returns (states: seq<Sys>, steps: seq<Step>)
    requires j in s.jobs && StillKnows(s.jobs[j], token)
    ensures FollowsWithout(states, steps, s, token) && !Refuses(states[|steps|], token)
  {
    states, steps := FinishReads(s, j);
    var t := PublishExists(states[|steps|], j);
    states, steps := states + [t], steps + [Publish(j)];
  }

  /**
   * Revocation: a token that is neither stored nor served stays refused in every continuation that does not store it
   * again exactly when no reload under way has already read it.
   */
  lemma RevokedForGoodExactlyWhen(s: Sys, token: string)
    requires token !in s.db.tokens && Refuses(s, token)
    ensures NoneKnows(s, token) <==>
      forall states, steps :: FollowsWithout(states, steps, s, token) ==> Refuses(states[|steps|], token)
  {
    if NoneKnows(s, token) {
      forall states, steps | FollowsWithout(states, steps, s, token) ensures Refuses(states[|steps|], token) {
        StaysGone(states, steps, s, |steps|, token);
      }
    } else {
      var j :| j in s.jobs && StillKnows(s.jobs[j], token);
      var states, steps := LateReloadRevives(s, j, token);
    }
  }

  /** Every reload begun at or after job number `n` has not read the removed token. */
  ghost predicate LateReloadsForget(s: Sys, n: nat, token: string)
  {
    && token !in s.db.tokens
    && n <= s.nextJob
    && forall j :: j in s.jobs && j >= n ==> !StillKnows(s.jobs[j], token)
  }

  lemma StepKeepsForgetting(s: Sys, step: Step, t: Sys, n: nat, token: string)
    requires LateReloadsForget(s, n, token) && Next(s, step, t) && LeavesOut(s, step, token)
    ensures LateReloadsForget(t, n, token)
  {
    StepKeepsOut(s, step, t, token);
  }

  ghost predicate LeftOut(states: seq<Sys>, steps: seq<Step>, lo: nat, hi: nat, token: string)
    requires lo <= hi <= |steps| < |states|
  {
    forall k :: lo <= k < hi ==> LeavesOut(states[k], steps[k], token)
  }

  lemma ForgetsOneStepOn(states: seq<Sys>, steps: seq<Step>, k: nat, n: nat, token: string)
    requires IsRun(states, steps) && k < |steps| && LateReloadsForget(states[k], n, token)
    requires LeavesOut(states[k], steps[k], token)
    ensures LateReloadsForget(states[k + 1], n, token)
  {
    StepKeepsForgetting(states[k], steps[k], states[k + 1], n, token);
  }

  lemma {:induction false} LateReloadsKeepForgetting(states: seq<Sys>, steps: seq<Step>, lo: nat, hi: nat, n: nat,
                                                     token: string)
    requires IsRun(states, steps) && lo <= hi < |states| && LateReloadsForget(states[lo], n, token)
    requires LeftOut(states, steps, lo, hi, token)
    ensures LateReloadsForget(states[hi], n, token)
    decreases hi
  {
    if lo < hi {
      var k: nat := hi - 1;
      LateReloadsKeepForgetting(states, steps, lo, k, n, token);
      ForgetsOneStepOn(states, steps, k, n, token);
    }
  }

  /**
   * The revocation procedure: once a reload begun after the removal is published, with no older one under way, the
   * token is refused in every later state of the run, as long as nobody stores it again.
   */
  lemma RemovedTokenIsRefused(states: seq<Sys>, steps: seq<Step>, token: string, removed: nat, publish: nat)
    requires IsRun(states, steps) && Numbered(states[0]) && removed <= publish < |steps|
    requires token !in states[removed].db.tokens
    requires steps[publish].Publish? && steps[publish].j >= states[removed].nextJob
    requires forall j ::
      j in states[publish].jobs && j < states[removed].nextJob ==> !Reloading(states[publish].jobs[j])
    requires LeftOut(states, steps, removed, |steps|, token)
    ensures forall i :: publish < i < |states| ==> Refuses(states[i], token)
  {
    StaysNumbered(states, steps, removed);
    LateReloadsKeepForgetting(states, steps, removed, publish, states[removed].nextJob, token);
    PublishForgets(states[publish], steps[publish].j, states[publish + 1], states[removed].nextJob, token);
    forall i | publish < i < |states| ensures Refuses(states[i], token) {
      var later, rest := states[publish + 1..], steps[publish + 1..];
      assert forall k :: 0 <= k < |rest| ==> LeavesOut(later[k], rest[k], token);
      StaysGone(later, rest, states[publish + 1], i - publish - 1, token);
    }
  }

  lemma PublishForgets(s: Sys, j: nat, t: Sys, n: nat, token: string)
    requires LateReloadsForget(s, n, token) && Next(s, Publish(j), t) && j >= n
    requires forall i :: i in s.jobs && i < n ==> !Reloading(s.jobs[i])
    ensures Gone(t, token)
  {
    assert !StillKnows(s.jobs[j], token);
  }
}
