/** Enrolment secrets are single use in every interleaving (internal/hubapi/enroll.go). */
module EnrolmentProtocol {
  import opened Basics
  import opened Tables
  import opened HubSystem

  /** `n` neither replaces the mint of `secret` for `row`, nor deletes its spoke, nor uses up an unredeemed row. */
  predicate Compatible(n: Note, secret: string, row: Enrolment)
  {
    && !(n.Minted? && n.secret == secret)
    && n != SpokeDeleted(row.spoke)
    && (row.redeemedAt.None? ==> !(n.Enrolled? && n.secret == secret))
  }

  /** The mint at note `m` of `secret` is still the one in force, and the spoke it was minted for still exists. */
  ghost predicate InForce(notes: seq<Note>, m: nat, secret: string, row: Enrolment)
    requires m < |notes|
  {
    && notes[m] == Minted(secret, row.spoke, row.bearer, row.expires)
    && forall k :: m < k < |notes| ==> Compatible(notes[k], secret, row)
  }

  /**
   * The 200 at note `e` rests on a mint of its secret that had not expired, and after which, and before the 200, the
   * secret was neither used nor minted again and the spoke it was minted for was not deleted.
   */
  ghost predicate Justified(notes: seq<Note>, e: nat)
    requires e < |notes| && notes[e].Enrolled?
  {
    exists m :: 0 <= m < e && notes[m].Minted? && notes[m].secret == notes[e].secret
      && notes[e].at < notes[m].expires
      && forall k :: m < k < e ==>
           && !(notes[k].Minted? && notes[k].secret == notes[e].secret)
           && notes[k] != SpokeDeleted(notes[m].spoke)
           && !(notes[k].Enrolled? && notes[k].secret == notes[e].secret)
  }

  /** Some mint of `secret` carried exactly this spoke, bearer token and expiry. */
  ghost predicate FromMint(notes: seq<Note>, secret: string, row: Enrolment)
  {
    Minted(secret, row.spoke, row.bearer, row.expires) in notes
  }

  ghost predicate Inv(s: Sys)
  {
    && (forall x :: x in s.db.enrolments ==>
          exists m :: 0 <= m < |s.notes| && InForce(s.notes, m, x, s.db.enrolments[x]))
    && (forall j :: j in s.jobs && HoldsRow(s.jobs[j]) ==>
          FromMint(s.notes, s.jobs[j].secret, s.jobs[j].row) && s.jobs[j].now < s.jobs[j].row.expires)
    && (forall e :: 0 <= e < |s.notes| && s.notes[e].Enrolled? ==> Justified(s.notes, e) && RightlyAnswered(s.notes, e))
  }

  predicate HoldsRow(job: Job)
  {
    job.FoundSecret? || job.VisibleSpoke?
  }

  /** The 200 handed out the spoke and bearer token of an earlier mint, before that one expired. */
  ghost predicate RightlyAnswered(notes: seq<Note>, e: nat)
    requires e < |notes| && notes[e].Enrolled?
  {
    exists m :: 0 <= m < e && Earned(notes[m], notes[e])
  }

  predicate Earned(mint: Note, won: Note)
    requires won.Enrolled?
  {
    && mint.Minted? && mint.secret == won.secret && mint.spoke == won.spoke && mint.bearer == won.bearer
    && won.at < mint.expires
  }

  // ----- What a step may do to the enrolments -----

  ghost predicate RowsKept(s: Sys, t: Sys, more: seq<Note>)
  {
    forall x :: x in t.db.enrolments ==> RowKept(s, more, x, t.db.enrolments[x])
  }

  /** The row is an old one, at most marked redeemed, that the new notes leave in force; or it was just minted. */
  ghost predicate RowKept(s: Sys, more: seq<Note>, x: string, row: Enrolment)
  {
    || (&& x in s.db.enrolments
        && row.(redeemedAt := s.db.enrolments[x].redeemedAt) == s.db.enrolments[x]
        && (row.redeemedAt.None? ==> s.db.enrolments[x].redeemedAt.None?)
        && forall n :: n in more ==> Compatible(n, x, row))
    || more == [Minted(x, row.spoke, row.bearer, row.expires)]
  }

  ghost predicate JobsKept(s: Sys, t: Sys)
  {
    forall j :: j in t.jobs && HoldsRow(t.jobs[j]) ==>
      FromMint(s.notes, t.jobs[j].secret, t.jobs[j].row) && t.jobs[j].now < t.jobs[j].row.expires
  }

  /** A new 200 is the only new note, found its row unredeemed and unexpired, and answers with what was minted. */
  ghost predicate NewAnswersEarned(s: Sys, more: seq<Note>)
  {
    forall n :: n in more && n.Enrolled? ==>
      && more == [n] && (exists mint :: mint in s.notes && Earned(mint, n))
      && n.secret in s.db.enrolments && s.db.enrolments[n.secret].redeemedAt.None?
      && n.at < s.db.enrolments[n.secret].expires
  }

  /** What a store method does to the enrolment table. */
  lemma CallEnrolments(db: Db, w: Write, x: string)
    requires IsCall(w) && x in Perform(db, w).0.enrolments
    ensures var (db', reply) := Perform(db, w); var row := db'.enrolments[x];
      || (reply == Done && CallNotes(w) == [Minted(x, row.spoke, row.bearer, row.expires)])
      || (x in db.enrolments && row == db.enrolments[x]
          && (reply == Done ==> forall n :: n in CallNotes(w) ==> Compatible(n, x, row)))
  {
  }

  lemma CallEffects(s: Sys, w: Write, t: Sys) returns (more: seq<Note>)
    requires Inv(s) && Next(s, Call(w), t)
    ensures t.notes == s.notes + more && RowsKept(s, t, more) && NewAnswersEarned(s, more)
  {
    more := if Perform(s.db, w).1 == Done then CallNotes(w) else [];
    forall x | x in t.db.enrolments ensures RowKept(s, more, x, t.db.enrolments[x]) {
      CallEnrolments(s.db, w, x);
    }
  }

  /** The row a job holds was held by the same job before, or just read from the table. */
  ghost predicate RowComesFrom(s: Sys, j: nat, job: Job)
    requires HoldsRow(job)
  {
    || (j in s.jobs && HoldsRow(s.jobs[j]) && s.jobs[j].secret == job.secret && s.jobs[j].row == job.row
        && s.jobs[j].now == job.now)
    || (job.secret in s.db.enrolments && job.row == s.db.enrolments[job.secret] && job.now < job.row.expires)
  }

  lemma JobRows(s: Sys, step: Step, t: Sys)
    requires Next(s, step, t)
    ensures forall j :: j in t.jobs && HoldsRow(t.jobs[j]) ==> RowComesFrom(s, j, t.jobs[j])
  {
  }

  lemma JobsStayKept(s: Sys, t: Sys)
    requires Inv(s) && forall j :: j in t.jobs && HoldsRow(t.jobs[j]) ==> RowComesFrom(s, j, t.jobs[j])
    ensures JobsKept(s, t)
  {
    forall j | j in t.jobs && HoldsRow(t.jobs[j]) 
      ensures FromMint(s.notes, t.jobs[j].secret, t.jobs[j].row) && t.jobs[j].now < t.jobs[j].row.expires
    {
      var x := t.jobs[j].secret;
      assert RowComesFrom(s, j, t.jobs[j]);
      if x in s.db.enrolments {
        var m :| 0 <= m < |s.notes| && InForce(s.notes, m, x, s.db.enrolments[x]);
      }
    }
  }

  /** All other steps leave the enrolments and the notes alone. */
  lemma Untouched(s: Sys, step: Step, t: Sys)
    requires Next(s, step, t) && !step.Call? && !step.FinishEnrol?
    ensures t.notes == s.notes && t.db.enrolments == s.db.enrolments
  {
  }

  lemma SameRows(s: Sys, t: Sys)
    requires t.db.enrolments == s.db.enrolments
    ensures RowsKept(s, t, [])
  {
  }

  /** A redeem step that marked a row, or one that lost the race. */
  ghost predicate RedeemOutcome(s: Sys, t: Sys, job: Job, more: seq<Note>)
    requires HoldsRow(job)
  {
    if more == [] then t.db.enrolments == s.db.enrolments else
      && more == [Enrolled(job.secret, job.row.spoke, job.row.bearer, job.now)]
      && job.secret in s.db.enrolments && s.db.enrolments[job.secret].redeemedAt.None?
      && job.now < s.db.enrolments[job.secret].expires
      && t.db.enrolments
         == s.db.enrolments[job.secret := s.db.enrolments[job.secret].(redeemedAt := Some(job.now))]
  }

  lemma Redeemed(s: Sys, j: nat, t: Sys) returns (more: seq<Note>)
    requires Next(s, FinishEnrol(j), t)
    ensures t.notes == s.notes + more && HoldsRow(s.jobs[j]) && RedeemOutcome(s, t, s.jobs[j], more)
  {
    var job := s.jobs[j];
    var won := Enrolled(job.secret, job.row.spoke, job.row.bearer, job.now);
    more := if Redeemable(s.db.enrolments, job.secret, job.now) then [won] else [];
  }

  lemma RedeemEffects(s: Sys, t: Sys, job: Job, more: seq<Note>)
    requires HoldsRow(job) && FromMint(s.notes, job.secret, job.row) && job.now < job.row.expires
    requires RedeemOutcome(s, t, job, more)
    ensures RowsKept(s, t, more) && NewAnswersEarned(s, more)
  {
    var mint := Minted(job.secret, job.row.spoke, job.row.bearer, job.row.expires);
    assert mint in s.notes && (more != [] ==> Earned(mint, more[0]));
  }

  lemma StepEffects(s: Sys, step: Step, t: Sys) returns (more: seq<Note>)
    requires Inv(s) && Next(s, step, t)
    ensures t.notes == s.notes + more && RowsKept(s, t, more) && JobsKept(s, t) && NewAnswersEarned(s, more)
  {
    JobRows(s, step, t);
    JobsStayKept(s, t);
    match step
    case Call(w) => more := CallEffects(s, w, t);
    case FinishEnrol(j) =>
      more := Redeemed(s, j, t);
      RedeemEffects(s, t, s.jobs[j], more);
    case _ =>
      more := [];
      Untouched(s, step, t);
      SameRows(s, t);
  }

  // ----- Why that keeps the invariant -----

  lemma RowsStayInForce(s: Sys, t: Sys, more: seq<Note>, x: string)
    requires Inv(s) && t.notes == s.notes + more && RowsKept(s, t, more) && x in t.db.enrolments
    ensures exists m :: 0 <= m < |t.notes| && InForce(t.notes, m, x, t.db.enrolments[x])
  {
    var row := t.db.enrolments[x];
    assert RowKept(s, more, x, row);
    if more == [Minted(x, row.spoke, row.bearer, row.expires)] {
      assert InForce(t.notes, |s.notes|, x, row);
    } else {
      var m :| 0 <= m < |s.notes| && InForce(s.notes, m, x, s.db.enrolments[x]);
      assert forall k :: |s.notes| <= k < |t.notes| ==> t.notes[k] in more;
      assert InForce(t.notes, m, x, row);
    }
  }

  lemma AnswersStayJustified(s: Sys, t: Sys, more: seq<Note>, e: nat)
    requires Inv(s) && t.notes == s.notes + more && NewAnswersEarned(s, more)
    requires e < |t.notes| && t.notes[e].Enrolled?
    ensures Justified(t.notes, e) && RightlyAnswered(t.notes, e)
  {
    if e < |s.notes| {
      assert Justified(s.notes, e) && RightlyAnswered(s.notes, e);
      OldNotesStay(s.notes, more, e);
    } else {
      assert t.notes[e] in more;
      NewAnswerIsJustified(s, t.notes[e]);
    }
  }

  lemma OldNotesStay(notes: seq<Note>, more: seq<Note>, e: nat)
    requires e < |notes| && notes[e].Enrolled? && Justified(notes, e) && RightlyAnswered(notes, e)
    ensures Justified(notes + more, e) && RightlyAnswered(notes + more, e)
  {
    assert forall k :: 0 <= k < |notes| ==> (notes + more)[k] == notes[k];
  }

  lemma RestsOnMintInForce(notes: seq<Note>, m: nat, won: Note, row: Enrolment)
    requires m < |notes| && won.Enrolled? && InForce(notes, m, won.secret, row)
    requires row.redeemedAt.None? && won.at < row.expires
    ensures Justified(notes + [won], |notes|)
  {
    assert (notes + [won])[m] == notes[m];
  }

  lemma AnswersWithMint(notes: seq<Note>, mint: Note, won: Note)
    requires mint in notes && won.Enrolled? && Earned(mint, won)
    ensures RightlyAnswered(notes + [won], |notes|)
  {
    var o :| 0 <= o < |notes| && notes[o] == mint;
    assert Earned((notes + [won])[o], won);
  }

  lemma NewAnswerIsJustified(s: Sys, won: Note)
    requires Inv(s) && won.Enrolled? && NewAnswersEarned(s, [won])
    ensures Justified(s.notes + [won], |s.notes|) && RightlyAnswered(s.notes + [won], |s.notes|)
  {
    assert won in [won];
    var row := s.db.enrolments[won.secret];
    var m :| 0 <= m < |s.notes| && InForce(s.notes, m, won.secret, row);
    RestsOnMintInForce(s.notes, m, won, row);
    var mint :| mint in s.notes && Earned(mint, won);
    AnswersWithMint(s.notes, mint, won);
  }

  lemma StepKeepsInv(s: Sys, step: Step, t: Sys)
    requires Inv(s) && Next(s, step, t)
    ensures Inv(t)
  {
    var more := StepEffects(s, step, t);
    EffectsKeepInv(s, t, more);
  }

  lemma EffectsKeepInv(s: Sys, t: Sys, more: seq<Note>)
    requires Inv(s) && t.notes == s.notes + more && RowsKept(s, t, more) && JobsKept(s, t) && NewAnswersEarned(s, more)
    ensures Inv(t)
  {
    forall x | x in t.db.enrolments
      ensures exists m :: 0 <= m < |t.notes| && InForce(t.notes, m, x, t.db.enrolments[x])
    {
      RowsStayInForce(s, t, more, x);
    }
    forall e | 0 <= e < |t.notes| && t.notes[e].Enrolled? ensures Justified(t.notes, e) && RightlyAnswered(t.notes, e) {
      AnswersStayJustified(s, t, more, e);
    }
  }

  ghost predicate Fresh(s: Sys)
  {
    s.notes == [] && s.jobs == map[] && s.db.enrolments == map[]
  }

  lemma {:induction false} RunKeepsInv(states: seq<Sys>, steps: seq<Step>, i: nat)
    requires IsRun(states, steps) && i < |states| && Fresh(states[0])
    ensures Inv(states[i])
  {
    if i > 0 {
      RunKeepsInv(states, steps, i - 1);
      StepKeepsInv(states[i - 1], steps[i - 1], states[i]);
    }
  }

  /** Between two 200s for the same secret it was minted again. */
  lemma EachMintIsRedeemedOnce(states: seq<Sys>, steps: seq<Step>, i: nat, a: nat, b: nat)
    requires IsRun(states, steps) && i < |states| && Fresh(states[0])
    requires var notes := states[i].notes;
      a < b < |notes| && notes[a].Enrolled? && notes[b].Enrolled? && notes[a].secret == notes[b].secret
    ensures var notes := states[i].notes;
      exists m :: a < m < b && notes[m].Minted? && notes[m].secret == notes[a].secret
  {
    RunKeepsInv(states, steps, i);
    var notes := states[i].notes;
    assert Justified(notes, b);
  }

  /** A redeem step answers 200 exactly if the secret is still there, unused, and not expired at its clock reading. */
  lemma WinsExactlyWhen(s: Sys, j: nat, t: Sys)
    requires Next(s, FinishEnrol(j), t)
    ensures var job := s.jobs[j]; var secrets := s.db.enrolments;
      t.notes == s.notes + [Enrolled(job.secret, job.row.spoke, job.row.bearer, job.now)]
      <==> job.secret in secrets && secrets[job.secret].redeemedAt == None && job.now < secrets[job.secret].expires
  {
  }

  /** Left alone, an enrolment answers 200 exactly for a stored, unused and unexpired secret of a served spoke. */
  lemma AloneWinsExactlyWhen(s: Sys, secret: string, now: int, a: Sys, b: Sys, c: Sys)
    requires s.nextJob !in s.jobs && Next(s, BeginEnrol(secret, now), a)
    requires s.nextJob in a.jobs ==> Next(a, CheckVisible(s.nextJob), b)
    requires s.nextJob in a.jobs && s.nextJob in b.jobs ==> Next(b, FinishEnrol(s.nextJob), c)
    ensures var secrets := s.db.enrolments;
      var open := secret in secrets && secrets[secret].redeemedAt == None && now < secrets[secret].expires;
      && (s.nextJob in a.jobs <==> open) && a.db == s.db
      && (open ==> (s.nextJob in b.jobs <==> secrets[secret].spoke in s.served.spokes) && b.db == s.db)
      && (open && s.nextJob in b.jobs ==>
            c.notes == s.notes + [Enrolled(secret, secrets[secret].spoke, secrets[secret].bearer, now)])
  {
  }

  /** Some snapshot up to this state served the spoke. */
  ghost predicate SawServed(states: seq<Sys>, i: nat, spoke: string)
    requires i < |states|
  {
    exists k :: 0 <= k <= i && spoke in states[k].served.spokes
  }

  lemma VisibleJobs(s: Sys, step: Step, t: Sys)
    requires Next(s, step, t)
    ensures forall j :: j in t.jobs && t.jobs[j].VisibleSpoke? ==>
      t.jobs[j].row.spoke in s.served.spokes || (j in s.jobs && t.jobs[j] == s.jobs[j])
  {
  }

  lemma NewAnswers(s: Sys, step: Step, t: Sys)
    requires Next(s, step, t)
    ensures |t.notes| >= |s.notes| && t.notes[..|s.notes|] == s.notes
    ensures forall e :: |s.notes| <= e < |t.notes| && t.notes[e].Enrolled? ==>
      && step.FinishEnrol? && step.j in s.jobs && s.jobs[step.j].VisibleSpoke?
      && s.jobs[step.j].row.spoke == t.notes[e].spoke
  {
  }

  /** No secret is used up in vain: every 200 is for a spoke that some earlier snapshot served. */
  lemma {:induction false} EnrolledSpokeWasServed(states: seq<Sys>, steps: seq<Step>, i: nat)
    requires IsRun(states, steps) && i < |states| && Fresh(states[0])
    ensures forall e :: 0 <= e < |states[i].notes| && states[i].notes[e].Enrolled? ==>
      SawServed(states, i, states[i].notes[e].spoke)
    ensures forall j :: j in states[i].jobs && states[i].jobs[j].VisibleSpoke? ==>
      SawServed(states, i, states[i].jobs[j].row.spoke)
  {
    if i > 0 {
      var p: nat := i - 1;
      EnrolledSpokeWasServed(states, steps, p);
      VisibleJobs(states[p], steps[p], states[i]);
      NewAnswers(states[p], steps[p], states[i]);
      forall spoke | SawServed(states, p, spoke) ensures SawServed(states, i, spoke) {}
      forall e | 0 <= e < |states[i].notes| && states[i].notes[e].Enrolled?
        ensures SawServed(states, i, states[i].notes[e].spoke)
      {
        if e < |states[p].notes| {
          assert states[i].notes[e] == states[i].notes[..|states[p].notes|][e];
          assert SawServed(states, p, states[p].notes[e].spoke);
        } else {
          assert SawServed(states, p, states[p].jobs[steps[p].j].row.spoke);
        }
      }
      forall j | j in states[i].jobs && states[i].jobs[j].VisibleSpoke?
        ensures SawServed(states, i, states[i].jobs[j].row.spoke)
      {
        if states[i].jobs[j].row.spoke !in states[p].served.spokes {
          assert SawServed(states, p, states[p].jobs[j].row.spoke);
        }
      }
    }
  }

  ghost predicate MintedOnce(notes: seq<Note>, secret: string)
  {
    forall m, n :: 0 <= m < n < |notes| && notes[m].Minted? && notes[n].Minted? && notes[m].secret == secret
      ==> notes[n].secret != secret
  }

  /**
   * Single use, for every interleaving of enrol requests, reloads, deletions and anything else: a secret minted once
   * wins at most one 200; that 200 comes before the expiry of the mint and hands out its spoke and bearer token, and no
   * DeleteSpoke of that spoke ran between the mint and the redeem step.
   */
  lemma SingleUse(states: seq<Sys>, steps: seq<Step>, i: nat, e: nat)
    requires IsRun(states, steps) && i < |states| && Fresh(states[0])
    requires e < |states[i].notes| && states[i].notes[e].Enrolled?
    requires MintedOnce(states[i].notes, states[i].notes[e].secret)
    ensures var notes, won := states[i].notes, states[i].notes[e];
      && (forall f :: 0 <= f < |notes| && notes[f].Enrolled? && notes[f].secret == won.secret ==> f == e)
      && exists m :: 0 <= m < e
           && notes[m].Minted? && notes[m].secret == won.secret
           && notes[m].spoke == won.spoke && notes[m].bearer == won.bearer && won.at < notes[m].expires
           && forall k :: m < k < e ==> notes[k] != SpokeDeleted(won.spoke)
  {
    RunKeepsInv(states, steps, i);
    var notes, won := states[i].notes, states[i].notes[e];
    forall f | 0 <= f < |notes| && notes[f].Enrolled? && notes[f].secret == won.secret ensures f == e {
      assert Justified(notes, f) && Justified(notes, e);
    }
    assert Justified(notes, e);
  }
}
