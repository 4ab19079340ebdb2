/**
 * When the DNS relay finds the provider it needs (internal/hubapi/dns01.go): the certificates and the providers of a
 * snapshot are read by different statements, and a request loads the snapshot twice.
 */
module Relay {
  import opened Basics
  import opened Config
  import opened Tables
  import opened HubStore
  import opened Snapshot
  import opened HubSystem
  import opened Integrity
  import Concurrency
  import Rotation

  // ----- One certificate -----

  /** Every domain resolves to one of `providers`, in every map order. */
  ghost predicate ResolvesAll(lower: char -> char, policy: Policy, providers: set<string>)
  {
    forall domain: string, order :: Enumerates(order, policy.overrides.Keys) ==>
      FirstMatch(lower, policy, domain, order) in providers
  }

  /** Some request that the relay lets through, in some map order, asks for this provider. */
  ghost predicate Asks(lower: char -> char, policy: Policy, provider: string)
  {
    exists domain: string, order ::
      IsAuthorised(lower, policy, domain) && Enumerates(order, policy.overrides.Keys)
      && FirstMatch(lower, policy, domain, order) == provider
  }

  ghost predicate IsOverridden(lower: char -> char, policy: Policy, domain: string)
  {
    exists k :: IsMatch(lower, policy, domain, k)
  }

  lemma {:induction false} LengthBound(keys: set<string>) returns (n: nat)
    ensures forall k :: k in keys ==> |k| <= n
    decreases |keys|
  {
    n := 0;
    if keys != {} {
      var k :| k in keys;
      var rest := LengthBound(keys - {k});
      n := if |k| > rest then |k| else rest;
      assert forall x :: x in keys ==> x == k || x in keys - {k};
    }
  }

  /** Some domain is longer than every key, so it matches none. */
  lemma LongDomain(lower: char -> char, keys: set<string>) returns (domain: string)
    ensures forall k :: k in keys ==> !Matches(lower, k, domain)
  {
    var n := LengthBound(keys);
    domain := seq(n + 1, _ => 'a');
    assert domain[|domain| - 1] != '.';
    forall k | k in keys ensures !Matches(lower, k, domain) {
      assert |Normalize(lower, domain)| > |k| >= |Normalize(lower, k)|;
    }
  }

  lemma DefaultIsUsed(lower: char -> char, policy: Policy, domain: string, order: seq<string>)
    requires Enumerates(order, policy.overrides.Keys)
    requires forall k :: k in policy.overrides ==> !Matches(lower, k, domain)
    ensures FirstMatch(lower, policy, domain, order) == policy.provider
  {
    FirstMatchIsAMatch(lower, policy, domain, order);
  }

  lemma OverrideIsUsed(lower: char -> char, policy: Policy, key: string) returns (order: seq<string>)
    requires key in policy.overrides
    ensures Enumerates(order, policy.overrides.Keys) && FirstMatch(lower, policy, key, order) == policy.overrides[key]
  {
    order := EnumerationFrom(key, policy.overrides.Keys);
  }

  lemma ResolvesAllExactlyWhen(lower: char -> char, policy: Policy, providers: set<string>)
    ensures ResolvesAll(lower, policy, providers) <==> ProvidersExist(policy, providers)
  {
    if ProvidersExist(policy, providers) {
      forall domain: string, order | Enumerates(order, policy.overrides.Keys)
        ensures FirstMatch(lower, policy, domain, order) in providers
      {
        FirstMatchIsAMatch(lower, policy, domain, order);
      }
    }
    if ResolvesAll(lower, policy, providers) {
      var domain := LongDomain(lower, policy.overrides.Keys);
      var order := Rotation.AnOrder(policy.overrides.Keys);
      DefaultIsUsed(lower, policy, domain, order);
      forall k | k in policy.overrides ensures policy.overrides[k] in providers {
        var first := OverrideIsUsed(lower, policy, k);
      }
    }
  }

  /** Exactly the overrides' providers are asked for, and the default one unless every domain is overridden. */
  lemma AsksExactlyWhen(lower: char -> char, policy: Policy, provider: string)
    requires forall k :: k in policy.overrides ==> k in policy.domains
    ensures Asks(lower, policy, provider) <==>
      || (exists k :: k in policy.overrides && policy.overrides[k] == provider)
      || (provider == policy.provider && exists d :: d in policy.domains && !IsOverridden(lower, policy, d))
  {
    if Asks(lower, policy, provider) {
      var domain: string, order :|
        IsAuthorised(lower, policy, domain) && Enumerates(order, policy.overrides.Keys)
        && FirstMatch(lower, policy, domain, order) == provider;
      FirstMatchIsAMatch(lower, policy, domain, order);
      var d :| d in policy.domains && Matches(lower, d, domain);
      if forall k :: k in policy.overrides ==> policy.overrides[k] != provider {
        assert forall k :: k in policy.overrides ==> k in order;
        assert !IsOverridden(lower, policy, d);
      }
    }
    if k :| k in policy.overrides && policy.overrides[k] == provider {
      var first := OverrideIsUsed(lower, policy, k);
      assert IsAuthorised(lower, policy, k);
    }
    if provider == policy.provider && exists d :: d in policy.domains && !IsOverridden(lower, policy, d) {
      var d :| d in policy.domains && !IsOverridden(lower, policy, d);
      var order := Rotation.AnOrder(policy.overrides.Keys);
      assert IsAuthorised(lower, policy, d);
      forall k | k in policy.overrides ensures !Matches(lower, k, d) { assert !IsMatch(lower, policy, d, k); }
      DefaultIsUsed(lower, policy, d, order);
    }
  }

  lemma AsksForNamed(lower: char -> char, policy: Policy, provider: string)
    requires Asks(lower, policy, provider)
    ensures Uses(policy, provider)
  {
    var domain: string, order :|
      IsAuthorised(lower, policy, domain) && Enumerates(order, policy.overrides.Keys)
      && FirstMatch(lower, policy, domain, order) == provider;
    FirstMatchIsAMatch(lower, policy, domain, order);
  }

  // ----- One snapshot -----

  /** Under this snapshot alone every certificate resolves every domain, authorised or not. */
  ghost predicate RelayServes(lower: char -> char, hs: HubState)
  {
    forall spoke, cert :: spoke in hs.spokes && cert in hs.spokes[spoke].certs ==>
      ResolvesAll(lower, cert.policy, hs.providers)
  }

  /** Every provider that the certificates of these spokes name is there. */
  ghost predicate AllThere(ids: set<string>, certs: map<Key, Policy>, providers: set<string>)
  {
    forall k :: k in certs && k.0 in ids ==> ProvidersExist(certs[k], providers)
  }

  /** The reads decide: the fourth must have found all that the certificates of the third name. */
  lemma SnapshotServesExactlyWhen(lower: char -> char, hs: HubState, ids: set<string>, tokens: map<string, string>,
                                  certs: map<Key, Policy>)
    requires SnapshotOf(hs, ids, tokens, certs)
    ensures RelayServes(lower, hs) <==> AllThere(ids, certs, hs.providers)
  {
    if AllThere(ids, certs, hs.providers) {
      forall spoke, cert | spoke in hs.spokes && cert in hs.spokes[spoke].certs
        ensures ResolvesAll(lower, cert.policy, hs.providers)
      {
        assert cert in CertsOf(certs, spoke);
        ResolvesAllExactlyWhen(lower, cert.policy, hs.providers);
      }
    }
    if RelayServes(lower, hs) {
      forall k | k in certs && k.0 in ids ensures ProvidersExist(certs[k], hs.providers) {
        var cert := CertConfig(k.1, certs[k]);
        assert cert in CertsOf(certs, k.0) && cert in hs.spokes[k.0].certs;
        ResolvesAllExactlyWhen(lower, cert.policy, hs.providers);
      }
    }
  }

  /** No request that the relay lets through under this snapshot alone finds its provider missing. */
  ghost predicate RelayAnswers(lower: char -> char, hs: HubState)
  {
    forall spoke, cert, q :: spoke in hs.spokes && cert in hs.spokes[spoke].certs && Asks(lower, cert.policy, q) ==>
      q in hs.providers
  }

  /** Every provider that requests for the certificates of these spokes can ask for is there. */
  ghost predicate AllAskedThere(lower: char -> char, ids: set<string>, certs: map<Key, Policy>, providers: set<string>)
  {
    forall k, q :: k in certs && k.0 in ids && Asks(lower, certs[k], q) ==> q in providers
  }

  lemma SnapshotAnswersExactlyWhen(lower: char -> char, hs: HubState, ids: set<string>, tokens: map<string, string>,
                                   certs: map<Key, Policy>)
    requires SnapshotOf(hs, ids, tokens, certs)
    ensures RelayAnswers(lower, hs) <==> AllAskedThere(lower, ids, certs, hs.providers)
  {
    if AllAskedThere(lower, ids, certs, hs.providers) {
      forall spoke, cert, q | spoke in hs.spokes && cert in hs.spokes[spoke].certs && Asks(lower, cert.policy, q)
        ensures q in hs.providers
      {
        assert cert in CertsOf(certs, spoke);
        assert (spoke, cert.name) in certs && certs[(spoke, cert.name)] == cert.policy;
      }
    }
    if RelayAnswers(lower, hs) {
      forall k, q | k in certs && k.0 in ids && Asks(lower, certs[k], q) ensures q in hs.providers {
        var cert := CertConfig(k.1, certs[k]);
        assert cert in CertsOf(certs, k.0) && cert in hs.spokes[k.0].certs;
      }
    }
  }

  // ----- Runs -----

  /** The step deletes the provider. */
  predicate Deletes(s: Sys, step: Step, name: string)
  {
    && step.FinishRemoveProvider? && step.j in s.jobs && s.jobs[step.j].Unreferenced?
    && s.jobs[step.j].provider == name && name in s.db.providers
  }

  lemma OnlyDeletesLose(s: Sys, step: Step, t: Sys, name: string)
    requires Next(s, step, t) && name in s.db.providers && name !in t.db.providers
    ensures Deletes(s, step, name)
  {
    match step
    case Call(w) => CallsKeepProviders(s.db, w, name);
    case _ =>
  }

  lemma CallsKeepProviders(db: Db, w: Write, name: string)
    requires IsCall(w) && name in db.providers
    ensures name in Perform(db, w).0.providers
  {
  }

  lemma DeletedAt(states: seq<Sys>, steps: seq<Step>, k: nat, name: string)
    requires IsRun(states, steps) && k < |steps|
    requires name in states[k].db.providers && name !in states[k + 1].db.providers
    ensures Deletes(states[k], steps[k], name)
  {
    OnlyDeletesLose(states[k], steps[k], states[k + 1], name);
  }

  /** Step `m` deleted the provider, and it was not stored again up to state `hi`. */
  ghost predicate LostAt(states: seq<Sys>, steps: seq<Step>, m: nat, hi: nat, name: string)
    requires m < hi <= |steps| < |states|
  {
    Deletes(states[m], steps[m], name) && forall i :: m < i <= hi ==> name !in states[i].db.providers
  }

  /** Between the states `lo` and `hi` the provider was deleted and not stored again. */
  ghost predicate Lost(states: seq<Sys>, steps: seq<Step>, lo: nat, hi: nat, name: string)
    requires lo <= hi <= |steps| < |states|
  {
    exists m :: lo <= m < hi && LostAt(states, steps, m, hi, name)
  }

  /** The last state before `hi` that had the provider. */
  lemma {:induction false} LastSeen(states: seq<Sys>, lo: nat, hi: nat, name: string) returns (m: nat)
    requires lo < hi < |states| && name in states[lo].db.providers && name !in states[hi].db.providers
    ensures lo <= m < hi && name in states[m].db.providers
    ensures forall i :: m < i <= hi ==> name !in states[i].db.providers
    decreases hi
  {
    m := hi - 1;
    if name !in states[m].db.providers { m := LastSeen(states, lo, m, name); }
  }

  lemma MissingMeansLost(states: seq<Sys>, steps: seq<Step>, lo: nat, hi: nat, name: string)
    requires IsRun(states, steps) && lo < hi < |states|
    requires name in states[lo].db.providers && name !in states[hi].db.providers
    ensures Lost(states, steps, lo, hi, name)
  {
    var m := LastSeen(states, lo, hi, name);
    DeletedAt(states, steps, m, name);
    assert LostAt(states, steps, m, hi, name);
  }

  /** What is left of a reload that had loaded `certs`, or `all`: itself, its next stage, or nothing. */
  ghost predicate CertsKept(s: Sys, j: nat, loaded: Job)
  {
    && j < s.nextJob
    && (j in s.jobs ==> s.jobs[j] == loaded || s.jobs[j].LoadedAll?)
  }

  ghost predicate AllKept(s: Sys, j: nat, loaded: Job)
  {
    j < s.nextJob && (j in s.jobs ==> s.jobs[j] == loaded)
  }

  lemma StepKeepsJob(s: Sys, step: Step, t: Sys, j: nat, loaded: Job)
    requires Next(s, step, t)
    ensures loaded.LoadedCerts? && CertsKept(s, j, loaded) ==> CertsKept(t, j, loaded)
    ensures loaded.LoadedAll? && AllKept(s, j, loaded) ==> AllKept(t, j, loaded)
  {
  }

  lemma {:induction false} JobStaysKept(states: seq<Sys>, steps: seq<Step>, lo: nat, hi: nat, j: nat, loaded: Job)
    requires IsRun(states, steps) && lo <= hi < |states|
    requires if loaded.LoadedCerts? then CertsKept(states[lo], j, loaded)
             else loaded.LoadedAll? && AllKept(states[lo], j, loaded)
    ensures if loaded.LoadedCerts? then CertsKept(states[hi], j, loaded) else AllKept(states[hi], j, loaded)
    decreases hi
  {
    if lo < hi {
      var k: nat := hi - 1;
      JobStaysKept(states, steps, lo, k, j, loaded);
      StepKeepsJob(states[k], steps[k], states[k + 1], j, loaded);
    }
  }

  /** A reload that reads the certificates at step `c`, the providers at step `p`, and is published at step `u`. */
  ghost predicate IsReload(states: seq<Sys>, steps: seq<Step>, j: nat, c: nat, p: nat, u: nat)
  {
    && IsRun(states, steps) && c < p < u < |steps|
    && steps[c] == LoadCerts(j) && steps[p] == LoadProviders(j) && steps[u] == Publish(j)
    && j < states[c].nextJob
  }

  lemma PublishedReads(states: seq<Sys>, steps: seq<Step>, j: nat, c: nat, p: nat, u: nat)
    requires IsReload(states, steps, j, c, p, u)
    ensures j in states[c].jobs && states[c].jobs[j].LoadedTokens?
    ensures SnapshotOf(states[u + 1].served, states[c].jobs[j].ids, states[c].jobs[j].tokens, states[c].db.certs)
    ensures states[u + 1].served.providers == states[p].db.providers.Keys
  {
    CertsLoaded(states[c], j, states[c + 1]);
    var loaded := states[c + 1].jobs[j];
    JobStaysKept(states, steps, c + 1, p, j, loaded);
    AllLoaded(states[p], j, states[p + 1]);
    var all := states[p + 1].jobs[j];
    JobStaysKept(states, steps, p + 1, u, j, all);
    Swapped(states[u], j, states[u + 1]);
  }

  lemma CertsLoaded(s: Sys, j: nat, t: Sys)
    requires Next(s, LoadCerts(j), t) && j < s.nextJob
    ensures j in s.jobs && s.jobs[j].LoadedTokens? && j in t.jobs && t.db == s.db
    ensures t.jobs[j] == Job.LoadedCerts(s.jobs[j].ids, s.jobs[j].tokens, s.db.certs) && CertsKept(t, j, t.jobs[j])
  {
  }

  lemma AllLoaded(s: Sys, j: nat, t: Sys)
    requires Next(s, LoadProviders(j), t) && j < s.nextJob
    ensures j in s.jobs && s.jobs[j].LoadedCerts? && j in t.jobs
    ensures var job := s.jobs[j]; t.jobs[j] == LoadedAll(job.ids, job.tokens, job.certs, s.db.providers.Keys)
    ensures AllKept(t, j, t.jobs[j])
  {
  }

  lemma Swapped(s: Sys, j: nat, t: Sys)
    requires Next(s, Publish(j), t)
    ensures j in s.jobs && s.jobs[j].LoadedAll?
    ensures SnapshotOf(t.served, s.jobs[j].ids, s.jobs[j].tokens, s.jobs[j].certs)
    ensures t.served.providers == s.jobs[j].providers
  {
  }

  /** A certificate of a spoke that the reload knows names the provider when the certificates are read. */
  ghost predicate Needed(s: Sys, j: nat, name: string)
    requires j in s.jobs && s.jobs[j].LoadedTokens?
  {
    exists k :: k in s.db.certs && k.0 in s.jobs[j].ids && Uses(s.db.certs[k], name)
  }

  /**
   * What a reload publishes serves every certificate if and only if no provider that its certificates name was deleted,
   * and not stored again, between its third and its fourth read. Before the third read nothing can go wrong when the
   * database names no missing provider then.
   */
  lemma ReloadServesExactlyWhen(lower: char -> char, states: seq<Sys>, steps: seq<Step>, j: nat, c: nat, p: nat, u: nat)
    requires IsReload(states, steps, j, c, p, u) && CertsHaveProviders(states[c].db)
    ensures j in states[c].jobs && states[c].jobs[j].LoadedTokens?
    ensures RelayServes(lower, states[u + 1].served)
      <==> forall q :: Needed(states[c], j, q) ==> !Lost(states, steps, c, p, q)
  {
    PublishedReads(states, steps, j, c, p, u);
    var job, db, hs := states[c].jobs[j], states[c].db, states[u + 1].served;
    SnapshotServesExactlyWhen(lower, hs, job.ids, job.tokens, db.certs);
    if AllThere(job.ids, db.certs, hs.providers) {
      forall q | Needed(states[c], j, q) ensures !Lost(states, steps, c, p, q) {
        var k :| k in db.certs && k.0 in job.ids && Uses(db.certs[k], q);
        assert q in states[p].db.providers;
      }
    } else {
      var k :| k in db.certs && k.0 in job.ids && !ProvidersExist(db.certs[k], hs.providers);
      var q := MissingProvider(db.certs[k], hs.providers);
      assert Uses(db.certs[k], q) && Needed(states[c], j, q);
      UsedMeansStored(db, k, q);
      MissingMeansLost(states, steps, c, p, q);
    }
  }

  /** The same for the requests that the relay lets through, and the providers that they can ask for. */
  lemma ReloadAnswersExactlyWhen(lower: char -> char, states: seq<Sys>, steps: seq<Step>, j: nat, c: nat, p: nat,
                                 u: nat)
    requires IsReload(states, steps, j, c, p, u) && CertsHaveProviders(states[c].db)
    ensures j in states[c].jobs && states[c].jobs[j].LoadedTokens?
    ensures RelayAnswers(lower, states[u + 1].served)
      <==> AskedKept(lower, states, steps, states[c].jobs[j].ids, c, p)
  {
    PublishedReads(states, steps, j, c, p, u);
    var ids := states[c].jobs[j].ids;
    SnapshotAnswersExactlyWhen(lower, states[u + 1].served, ids, states[c].jobs[j].tokens, states[c].db.certs);
    AskedThereExactlyWhenKept(lower, states, steps, ids, c, p);
  }

  /** No provider that requests for the certificates read at `c` can ask for is deleted for good before `p`. */
  ghost predicate AskedKept(lower: char -> char, states: seq<Sys>, steps: seq<Step>, ids: set<string>, c: nat, p: nat)
    requires c <= p <= |steps| < |states|
  {
    forall k, q :: (k in states[c].db.certs && k.0 in ids && Asks(lower, states[c].db.certs[k], q)) ==>
      !Lost(states, steps, c, p, q)
  }

  lemma AskedThereExactlyWhenKept(lower: char -> char, states: seq<Sys>, steps: seq<Step>, ids: set<string>, c: nat,
                                  p: nat)
    requires IsRun(states, steps) && c < p < |states| && CertsHaveProviders(states[c].db)
    ensures AllAskedThere(lower, ids, states[c].db.certs, states[p].db.providers.Keys)
      <==> AskedKept(lower, states, steps, ids, c, p)
  {
    var certs := states[c].db.certs;
    forall k, q | k in certs && k.0 in ids && Asks(lower, certs[k], q)
      ensures q in states[p].db.providers <==> !Lost(states, steps, c, p, q)
    {
      AskedIsThereUnlessLost(lower, states, steps, c, p, k, q);
    }
  }

  lemma AskedIsThereUnlessLost(lower: char -> char, states: seq<Sys>, steps: seq<Step>, c: nat, p: nat, k: Key,
                               q: string)
    requires IsRun(states, steps) && c < p < |states| && CertsHaveProviders(states[c].db)
    requires k in states[c].db.certs && Asks(lower, states[c].db.certs[k], q)
    ensures q in states[p].db.providers <==> !Lost(states, steps, c, p, q)
  {
    AsksForNamed(lower, states[c].db.certs[k], q);
    UsedMeansStored(states[c].db, k, q);
    if q !in states[p].db.providers { MissingMeansLost(states, steps, c, p, q); }
  }

  lemma MissingProvider(policy: Policy, providers: set<string>) returns (q: string)
    requires !ProvidersExist(policy, providers)
    ensures Uses(policy, q) && q !in providers
  {
    if policy.provider !in providers {
      q := policy.provider;
    } else {
      var d :| d in policy.overrides && policy.overrides[d] !in providers;
      q := policy.overrides[d];
    }
  }

  lemma UsedMeansStored(db: Db, k: Key, q: string)
    requires CertsHaveProviders(db) && k in db.certs && Uses(db.certs[k], q)
    ensures q in db.providers
  {
    assert ProvidersExist(db.certs[k], db.providers.Keys);
  }

  // ----- The branch is not dead -----

  /** The only certificate that uses a provider is removed, then the provider: both allowed, both keep integrity. */
  lemma RemovedTogether(db: Db, id: string, name: string, q: string)
    requires Consistent(db) && (id, name) in db.certs && Uses(db.certs[(id, name)], q)
    requires forall k :: k in db.certs && k != (id, name) ==> !Uses(db.certs[k], q)
    ensures var one := Perform(db, RemoveSpokeCert(id, name)); var two := DeleteProvider(one.0, q);
      && one.1 == Done && Consistent(one.0) && one.0.certs == db.certs - {(id, name)} && !ProviderInUse(one.0.certs, q)
      && two.1 == Done && Consistent(two.0) && q !in two.0.providers
  {
    UsedMeansStored(db, (id, name), q);
    WriteKeepsConsistent(db, RemoveSpokeCert(id, name));
    var one := Perform(db, RemoveSpokeCert(id, name)).0;
    Concurrency.RemovalKeepsProviders(one, q);
  }

  /** A run of consistent states. */
  ghost predicate SoundRun(states: seq<Sys>, steps: seq<Step>)
  {
    IsRun(states, steps) && forall i :: 0 <= i < |states| ==> Consistent(states[i].db)
  }

  lemma OneStep(s: Sys, step: Step, t: Sys)
    requires Next(s, step, t) && Consistent(s.db) && Consistent(t.db)
    ensures SoundRun([s, t], [step])
  {
  }

  /** A run goes on where another ended. */
  lemma Joined(states: seq<Sys>, steps: seq<Step>, more: seq<Sys>, rest: seq<Step>)
    requires SoundRun(states, steps) && SoundRun(more, rest) && more[0] == states[|steps|]
    ensures SoundRun(states + more[1..], steps + rest) && (states + more[1..])[|steps + rest|] == more[|rest|]
  {
    var all, every := states + more[1..], steps + rest;
    forall i | 0 <= i < |every| ensures Next(all[i], every[i], all[i + 1]) {
      if i >= |steps| {
        var k := i - |steps|;
        assert Next(more[k], rest[k], more[k + 1]);
      } else {
        assert Next(states[i], steps[i], states[i + 1]);
      }
    }
  }

  /** The first three reads of a reload, with nothing in between. */
  lemma ThreeReads(s: Sys) returns (states: seq<Sys>, steps: seq<Step>)
    requires Consistent(s.db)
    ensures SoundRun(states, steps) && states[0] == s
    ensures var t, n := states[|steps|], s.nextJob;
      && t.db == s.db && t.nextJob == n + 1 && n in t.jobs
      && t.jobs[n] == Job.LoadedCerts(s.db.spokes, s.db.tokens, s.db.certs)
  {
    var n := s.nextJob;
    var s1 := Start(s, LoadedIds(s.db.spokes));
    var s2 := s1.(jobs := s1.jobs[n := LoadedTokens(s.db.spokes, s.db.tokens)]);
    var s3 := s2.(jobs := s2.jobs[n := Job.LoadedCerts(s.db.spokes, s.db.tokens, s.db.certs)]);
    ReadsOf(s, s1, s2, s3);
    states, steps := [s, s1, s2, s3], [BeginReload, LoadTokens(n), LoadCerts(n)];
  }

  /** The removal of the certificate and then of the provider, with nothing in between. */
  lemma BothRemoved(s: Sys, id: string, name: string, q: string, n: nat) returns (states: seq<Sys>, steps: seq<Step>)
    requires Consistent(s.db) && (id, name) in s.db.certs && Uses(s.db.certs[(id, name)], q)
    requires forall k :: k in s.db.certs && k != (id, name) ==> !Uses(s.db.certs[k], q)
    requires n in s.jobs && n < s.nextJob
    ensures SoundRun(states, steps) && states[0] == s
    ensures var t := states[|steps|]; q !in t.db.providers && n in t.jobs && t.jobs[n] == s.jobs[n]
  {
    RemovedTogether(s.db, id, name, q);
    var s1 := s.(db := Perform(s.db, RemoveSpokeCert(id, name)).0, notes := s.notes + []);
    var s2 := Start(s1, Unreferenced(q));
    var s3 := Stop(s2, s.nextJob).(db := DeleteProvider(s1.db, q).0);
    RemovalsOf(s, s1, s2, s3, id, name, q);
    states := [s, s1, s2, s3];
    steps := [Call(RemoveSpokeCert(id, name)), BeginRemoveProvider(q), FinishRemoveProvider(s.nextJob)];
  }

  /** The last read of a reload and its publication, with nothing in between. */
  lemma LastReadAndSwap(s: Sys, j: nat) returns (states: seq<Sys>, steps: seq<Step>)
    requires Consistent(s.db) && j in s.jobs && s.jobs[j].LoadedCerts?
    ensures SoundRun(states, steps) && states[0] == s
    ensures var hs, job := states[|steps|].served, s.jobs[j];
      SnapshotOf(hs, job.ids, job.tokens, job.certs) && hs.providers == s.db.providers.Keys
  {
    var job := s.jobs[j];
    var s1 := s.(jobs := s.jobs[j := LoadedAll(job.ids, job.tokens, job.certs, s.db.providers.Keys)]);
    assert Next(s, LoadProviders(j), s1);
    OneStep(s, LoadProviders(j), s1);
    var s2 := Rotation.PublishExists(s1, j);
    Swapped(s1, j, s2);
    OneStep(s1, Publish(j), s2);
    Joined([s, s1], [LoadProviders(j)], [s1, s2], [Publish(j)]);
    states, steps := [s, s1] + [s1, s2][1..], [LoadProviders(j)] + [Publish(j)];
  }

  /**
   * A reload that reads the certificates before such a removal and the providers after it publishes a certificate whose
   * provider it does not have, although the database was consistent in every state.
   */
  lemma StraddlingReloadMissesProvider(lower: char -> char, s: Sys, id: string, name: string, q: string)
    returns (states: seq<Sys>, steps: seq<Step>)
    requires Consistent(s.db) && (id, name) in s.db.certs && Uses(s.db.certs[(id, name)], q)
    requires forall k :: k in s.db.certs && k != (id, name) ==> !Uses(s.db.certs[k], q)
    ensures SoundRun(states, steps) && states[0] == s && !RelayServes(lower, states[|steps|].served)
    ensures Asks(lower, s.db.certs[(id, name)], q) ==> !RelayAnswers(lower, states[|steps|].served)
  {
    states, steps := ThreeReads(s);
    var more, rest := BothRemoved(states[|steps|], id, name, q, s.nextJob);
    Joined(states, steps, more, rest);
    states, steps := states + more[1..], steps + rest;
    more, rest := LastReadAndSwap(states[|steps|], s.nextJob);
    Joined(states, steps, more, rest);
    states, steps := states + more[1..], steps + rest;
    var hs := states[|steps|].served;
    SnapshotServesExactlyWhen(lower, hs, s.db.spokes, s.db.tokens, s.db.certs);
    SnapshotAnswersExactlyWhen(lower, hs, s.db.spokes, s.db.tokens, s.db.certs);
    assert !ProvidersExist(s.db.certs[(id, name)], hs.providers);
  }

  lemma ReadsOf(s: Sys, s1: Sys, s2: Sys, s3: Sys)
    requires s1 == Start(s, LoadedIds(s.db.spokes))
    requires s2 == s1.(jobs := s1.jobs[s.nextJob := LoadedTokens(s.db.spokes, s.db.tokens)])
    requires s3 == s2.(jobs := s2.jobs[s.nextJob := Job.LoadedCerts(s.db.spokes, s.db.tokens, s.db.certs)])
    ensures Next(s, BeginReload, s1) && Next(s1, LoadTokens(s.nextJob), s2) && Next(s2, LoadCerts(s.nextJob), s3)
  {
  }

  lemma RemovalsOf(s: Sys, s1: Sys, s2: Sys, s3: Sys, id: string, name: string, q: string)
    requires (id, name) in s.db.certs
    requires s1 == s.(db := Perform(s.db, RemoveSpokeCert(id, name)).0, notes := s.notes + [])
    requires !ProviderInUse(s1.db.certs, q) && s2 == Start(s1, Unreferenced(q))
    requires s3 == Stop(s2, s.nextJob).(db := DeleteProvider(s1.db, q).0)
    ensures Next(s, Call(RemoveSpokeCert(id, name)), s1) && Next(s1, BeginRemoveProvider(q), s2)
    ensures Next(s2, FinishRemoveProvider(s.nextJob), s3)
  {
  }

  /**
   * The second way there: a request authorised under one snapshot takes its provider from the one served by then. If
   * the certificate and its provider were removed in between, the later one lacks the provider, consistent as it is.
   */
  lemma LaterSnapshotLacksProvider(lower: char -> char, db: Db, id: string, name: string, q: string)
    requires Consistent(db) && (id, name) in db.certs && Asks(lower, db.certs[(id, name)], q)
    requires forall k :: k in db.certs && k != (id, name) ==> !Uses(db.certs[k], q)
    ensures var one := Perform(db, RemoveSpokeCert(id, name)); var two := Perform(one.0, RemoveDNSProvider(q));
      one.1 == Done && two.1 == Done && Consistent(two.0) && q !in two.0.providers
  {
    AsksForNamed(lower, db.certs[(id, name)], q);
    RemovedByCalls(db, id, name, q);
  }

  lemma RemovedByCalls(db: Db, id: string, name: string, q: string)
    requires Consistent(db) && (id, name) in db.certs && Uses(db.certs[(id, name)], q)
    requires forall k :: k in db.certs && k != (id, name) ==> !Uses(db.certs[k], q)
    ensures var one := Perform(db, RemoveSpokeCert(id, name)); var two := Perform(one.0, RemoveDNSProvider(q));
      one.1 == Done && two.1 == Done && Consistent(two.0) && q !in two.0.providers
  {
    RemovedTogether(db, id, name, q);
    var one := Perform(db, RemoveSpokeCert(id, name)).0;
    assert Perform(one, RemoveDNSProvider(q)) == DeleteProvider(one, q);
  }
}
