/** What survives when store methods interleave statement by statement, and what does not. */
module Concurrency {
  import opened Basics
  import opened Config
  import opened Tables
  import opened Snapshot
  import opened HubStore
  import opened Integrity
  import opened HubSystem

  // ----- Tokens -----

  lemma StepKeepsTokens(s: Sys, step: Step, t: Sys)
    requires SpokesHaveTokens(s.db) && Next(s, step, t)
    ensures SpokesHaveTokens(t.db)
  {
    match step
    case Call(w) => WriteKeepsTokens(s.db, w);
    case FinishAdd(j) =>
      forall id | id in t.db.spokes ensures exists x :: x in t.db.tokens && t.db.tokens[x] == id {
        var x :| x in s.db.tokens && s.db.tokens[x] == id;
        assert x in t.db.tokens && t.db.tokens[x] == id;
      }
    case _ => assert t.db.spokes == s.db.spokes && t.db.tokens == s.db.tokens;
  }

  /** In every reachable state every spoke has a token, although AddSpokeToken checks and inserts in two statements. */
  lemma {:induction false} SpokesAlwaysHaveTokens(states: seq<Sys>, steps: seq<Step>, i: nat)
    requires IsRun(states, steps) && i < |states| && SpokesHaveTokens(states[0].db)
    ensures SpokesHaveTokens(states[i].db)
  {
    if i > 0 {
      SpokesAlwaysHaveTokens(states, steps, i - 1);
      StepKeepsTokens(states[i - 1], steps[i - 1], states[i]);
    }
  }

  lemma WriteKeepsOwner(db: Db, w: Write, token: string)
    requires token in db.tokens && token in Perform(db, w).0.tokens
    ensures Perform(db, w).0.tokens[token] == db.tokens[token]
  {
  }

  lemma TokensUntouched(s: Sys, step: Step, t: Sys)
    requires Next(s, step, t) && !step.Call? && !step.FinishAdd?
    ensures t.db.tokens == s.db.tokens && t.db.spokes == s.db.spokes
  {
  }

  lemma StepKeepsOwner(s: Sys, step: Step, t: Sys, token: string)
    requires Next(s, step, t) && token in s.db.tokens && token in t.db.tokens
    ensures t.db.tokens[token] == s.db.tokens[token]
  {
    match step
    case Call(w) => WriteKeepsOwner(s.db, w, token);
    case FinishAdd(j) =>
    case _ => TokensUntouched(s, step, t);
  }

  ghost predicate Present(states: seq<Sys>, lo: nat, hi: nat, token: string)
    requires lo <= hi < |states|
  {
    forall m :: lo <= m <= hi ==> token in states[m].db.tokens
  }

  /** A token row never changes owner while it exists. */
  lemma {:induction false} OwnerIsFixed(states: seq<Sys>, steps: seq<Step>, i: nat, k: nat, token: string)
    requires IsRun(states, steps) && i <= k < |states| && Present(states, i, k, token)
    ensures states[k].db.tokens[token] == states[i].db.tokens[token]
    decreases k
  {
    if i < k {
      OwnerIsFixed(states, steps, i, k - 1, token);
      StepKeepsOwner(states[k - 1], steps[k - 1], states[k], token);
    }
  }

  // ----- Referential integrity, statement by statement -----

  /** The step writes a token row whose spoke is gone, or deletes a provider some certificate came to use. */
  ghost predicate Dangles(s: Sys, step: Step)
  {
    || (step.FinishAdd? && step.j in s.jobs && s.jobs[step.j].Adding?
        && s.jobs[step.j].token !in s.db.tokens && s.jobs[step.j].id !in s.db.spokes)
    || (step.FinishRemoveProvider? && step.j in s.jobs && s.jobs[step.j].Unreferenced?
        && s.jobs[step.j].provider in s.db.providers && ProviderInUse(s.db.certs, s.jobs[step.j].provider))
  }

  lemma RemovalKeepsProviders(db: Db, name: string)
    requires CertsHaveProviders(db) && !ProviderInUse(db.certs, name)
    ensures CertsHaveProviders(DeleteProvider(db, name).0)
  {
    forall k | k in db.certs ensures !Uses(db.certs[k], name) {}
  }

  lemma RemovalBreaksProviders(db: Db, name: string)
    requires name in db.providers && ProviderInUse(db.certs, name)
    ensures !CertsHaveProviders(DeleteProvider(db, name).0)
  {
    var k :| k in db.certs && Uses(db.certs[k], name);
    assert !ProvidersExist(db.certs[k], (db.providers - {name}).Keys);
  }

  lemma NothingElseWrites(s: Sys, step: Step, t: Sys)
    requires Next(s, step, t) && !step.Call? && !step.FinishAdd? && !step.FinishRemoveProvider?
    ensures t.db.(enrolments := s.db.enrolments, observed := s.db.observed) == s.db
  {
  }

  /**
   * One step from a consistent database leaves it consistent exactly when it is neither the insert of an AddSpokeToken
   * whose spoke was deleted since its check, nor the delete of a RemoveDNSProvider whose provider came into use since
   * its scan.
   */
  lemma ConsistentExactlyUnless(s: Sys, step: Step, t: Sys)
    requires Consistent(s.db) && Next(s, step, t)
    ensures Consistent(t.db) <==> !Dangles(s, step)
  {
    StepKeepsTokens(s, step, t);
    match step
    case Call(w) => WriteKeepsConsistent(s.db, w);
    case FinishAdd(j) =>
      var job := s.jobs[j];
      if job.token !in s.db.tokens {
        assert t.db.tokens[job.token] == job.id;
        assert TokensHaveSpokes(t.db) <==> job.id in s.db.spokes;
      }
    case FinishRemoveProvider(j) =>
      var name := s.jobs[j].provider;
      if ProviderInUse(s.db.certs, name) {
        if name in s.db.providers { RemovalBreaksProviders(s.db, name); }
      } else {
        RemovalKeepsProviders(s.db, name);
      }
    case _ => NothingElseWrites(s, step, t);
  }

  /** The race is real: a certificate can come to use a provider between the scan and the delete. */
  lemma ScanThenDeleteRaces(s: Sys, name: string, id: string, cert: CertConfig)
    requires Consistent(s.db) && !ProviderInUse(s.db.certs, name) && name in s.db.providers
    requires id in s.db.spokes && WellFormed(cert) && cert.policy.provider == name
    requires ProvidersExist(cert.policy, s.db.providers.Keys)
    ensures exists a, b, c ::
      Next(s, BeginRemoveProvider(name), a) && Next(a, Call(UpsertSpokeCert(id, cert)), b)
      && Next(b, FinishRemoveProvider(s.nextJob), c) && !Consistent(c.db)
  {
    var a := Start(s, Unreferenced(name));
    var b := a.(db := Perform(a.db, UpsertSpokeCert(id, cert)).0, notes := a.notes + []);
    var c := Stop(b, s.nextJob).(db := DeleteProvider(b.db, name).0);
    assert Next(s, BeginRemoveProvider(name), a);
    assert b.db.certs[(id, cert.name)] == cert.policy;
    assert Next(a, Call(UpsertSpokeCert(id, cert)), b);
    assert Next(b, FinishRemoveProvider(s.nextJob), c);
    assert Uses(b.db.certs[(id, cert.name)], name);
    RemovalBreaksProviders(b.db, name);
  }

  /** So is the other race: a spoke can be deleted between the check and the insert of a new token for it. */
  lemma CheckThenInsertRaces(s: Sys, id: string, token: string)
    requires Consistent(s.db) && id in s.db.spokes && token !in s.db.tokens
    ensures exists a, b, c ::
      Next(s, BeginAdd(id, token), a) && Next(a, Call(DeleteSpoke(id)), b)
      && Next(b, FinishAdd(s.nextJob), c) && !Consistent(c.db)
  {
    var a := Start(s, Adding(id, token));
    var b := a.(db := WithoutSpoke(a.db, id), notes := a.notes + [SpokeDeleted(id)]);
    var c := Stop(b, s.nextJob).(db := InsertToken(b.db, id, token).0);
    assert Next(s, BeginAdd(id, token), a);
    assert Next(a, Call(DeleteSpoke(id)), b);
    assert Next(b, FinishAdd(s.nextJob), c);
    assert c.db.tokens[token] == id && id !in c.db.spokes;
  }

  // ----- Names -----

  ghost predicate NamesValid(certs: map<Key, Policy>)
  {
    forall k :: k in certs ==> ValidCertName(k.1)
  }

  ghost predicate ServedNamesValid(hs: HubState)
  {
    forall id, c :: id in hs.spokes && c in hs.spokes[id].certs ==> ValidCertName(c.name)
  }

  /** No certificate name with a slash has got past the store into a snapshot, a handler or the observed table. */
  ghost predicate AllNamesValid(s: Sys)
  {
    && NamesValid(s.db.certs)
    && ServedNamesValid(s.served)
    && (forall j :: j in s.jobs && (s.jobs[j].LoadedCerts? || s.jobs[j].LoadedAll?) ==> NamesValid(s.jobs[j].certs))
    && (forall j :: j in s.jobs && s.jobs[j].Authorised? ==> ValidCertName(s.jobs[j].key.1))
    && (forall k :: k in s.db.observed ==> ValidCertName(k.1))
  }

  lemma SnapshotNames(hs: HubState, ids: set<string>, tokens: map<string, string>, certs: map<Key, Policy>)
    requires SnapshotOf(hs, ids, tokens, certs) && NamesValid(certs)
    ensures ServedNamesValid(hs)
  {
    forall id, c | id in hs.spokes && c in hs.spokes[id].certs ensures ValidCertName(c.name) {
      assert c in CertsOf(certs, id);
    }
  }

  lemma StepKeepsStoredNames(s: Sys, step: Step, t: Sys)
    requires AllNamesValid(s) && Next(s, step, t)
    ensures NamesValid(t.db.certs) && forall k :: k in t.db.observed ==> ValidCertName(k.1)
  {
    match step
    case Call(w) => CallKeepsNames(s.db, w);
    case Record(j, event) => assert t.db.observed.Keys <= s.db.observed.Keys + {s.jobs[j].key};
    case _ => assert t.db.certs == s.db.certs && t.db.observed == s.db.observed;
  }

  lemma StepKeepsServedNames(s: Sys, step: Step, t: Sys)
    requires AllNamesValid(s) && Next(s, step, t)
    ensures ServedNamesValid(t.served)
  {
    match step
    case Publish(j) => SnapshotNames(t.served, s.jobs[j].ids, s.jobs[j].tokens, s.jobs[j].certs);
    case _ => assert t.served == s.served;
  }

  lemma StepKeepsNames(s: Sys, step: Step, t: Sys)
    requires AllNamesValid(s) && Next(s, step, t)
    ensures AllNamesValid(t)
  {
    StepKeepsStoredNames(s, step, t);
    StepKeepsServedNames(s, step, t);
    assert step.Authorise? ==> ValidCertName(step.cert.name);
  }

  lemma CallKeepsNames(db: Db, w: Write)
    requires NamesValid(db.certs) && (forall k :: k in db.observed ==> ValidCertName(k.1)) && IsCall(w)
    ensures NamesValid(Perform(db, w).0.certs)
    ensures forall k :: k in Perform(db, w).0.observed ==> ValidCertName(k.1)
  {
  }

  /**
   * Hence in every reachable state the joined "spoke/name" keys of observed and served certificates are unambiguous.
   */
  lemma {:induction false} NamesStayValid(states: seq<Sys>, steps: seq<Step>, i: nat)
    requires IsRun(states, steps) && i < |states| && AllNamesValid(states[0])
    ensures AllNamesValid(states[i])
  {
    if i > 0 {
      NamesStayValid(states, steps, i - 1);
      StepKeepsNames(states[i - 1], steps[i - 1], states[i]);
    }
  }
}
