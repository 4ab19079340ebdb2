/**
 * The hub under concurrency: the database, the served snapshot, and every handler or command that is part-way through.
 * A step is one SQL statement, one transaction (which takes the write lock at BEGIN), or one swap of the snapshot.
 */
module HubSystem {
  import opened Basics
  import opened CertState
  import opened Config
  import opened Tables
  import opened Snapshot
  import opened HubStore

  /** Something under way, between two of its statements. */
  datatype Job =
    | Adding(id: string, token: string)     // AddSpokeToken saw the spoke; its insert is to come
    | Unreferenced(provider: string)        // RemoveDNSProvider's scan found no use; its delete is to come
    | LoadedIds(ids: set<string>)           // buildState after its first, second, third and fourth read
    | LoadedTokens(ids: set<string>, tokens: map<string, string>)
    | LoadedCerts(ids: set<string>, tokens: map<string, string>, certs: map<Key, Policy>)
    | LoadedAll(ids: set<string>, tokens: map<string, string>, certs: map<Key, Policy>, providers: set<string>)
    | FoundSecret(secret: string, now: int, row: Enrolment)    // handleEnroll after its lookup
    | VisibleSpoke(secret: string, now: int, row: Enrolment)   // handleEnroll after its look at the snapshot
    | Authorised(key: Key)                  // a spoke's handler after authorize, before its writes

  /** What the outside world saw, in order. Nothing in the system reads it. */
  datatype Note =
    | Minted(secret: string, spoke: string, bearer: string, expires: int)
    | SpokeDeleted(spoke: string)
    | Enrolled(secret: string, spoke: string, bearer: string, at: int)
      // a 200 of handleEnroll, at its redeem step, with the clock reading it compared with the expiry

  datatype Sys = Sys(db: Db, served: HubState, jobs: map<nat, Job>, nextJob: nat, notes: seq<Note>)

  datatype Step =
    | Call(w: Write)                        // a store method that is one statement or one transaction
    | BeginAdd(id: string, token: string)
    | FinishAdd(j: nat)
    | BeginRemoveProvider(name: string)
    | FinishRemoveProvider(j: nat)
    | BeginReload
    | LoadTokens(j: nat)
    | LoadCerts(j: nat)
    | LoadProviders(j: nat)
    | Publish(j: nat)                       // the swap
    | FailReload(j: nat)                    // a provider that cannot be built, or a failed read
    | BeginEnrol(secret: string, now: int)
    | CheckVisible(j: nat)
    | FinishEnrol(j: nat)
    | Authorise(spoke: string, cert: CertConfig)
    | Record(j: nat, event: Event)
    | EndJob(j: nat)                        // a handler that returns, or dies, early

  /** Methods that run as one step; redeeming and observing happen only inside handlers. */
  predicate IsCall(w: Write)
  {
    !w.RedeemEnrollmentToken? && !w.Observe? && !w.AddSpokeToken? && !w.RemoveDNSProvider?
  }

  function CallNotes(w: Write): seq<Note>
  {
    match w
    case DeleteSpoke(id) => [SpokeDeleted(id)]
    case InsertEnrollmentToken(secret, id, bearer, expires) => [Minted(secret, id, bearer, expires)]
    case _ => []
  }

  function Start(s: Sys, job: Job): Sys
  {
    s.(jobs := s.jobs[s.nextJob := job], nextJob := s.nextJob + 1)
  }

  function Stop(s: Sys, j: nat): Sys
  {
    s.(jobs := s.jobs - {j})
  }

  ghost predicate Next(s: Sys, step: Step, t: Sys)
  {
    match step
    case Call(w) =>
      var (db, reply) := Perform(s.db, w);
      IsCall(w) && t == s.(db := db, notes := s.notes + if reply == Done then CallNotes(w) else [])
    case BeginAdd(id, token) =>
      t == if id in s.db.spokes then Start(s, Adding(id, token)) else s
    case FinishAdd(j) =>
      j in s.jobs && s.jobs[j].Adding?
      && t == Stop(s, j).(db := InsertToken(s.db, s.jobs[j].id, s.jobs[j].token).0)
    case BeginRemoveProvider(name) =>
      t == if ProviderInUse(s.db.certs, name) then s else Start(s, Unreferenced(name))
    case FinishRemoveProvider(j) =>
      j in s.jobs && s.jobs[j].Unreferenced?
      && t == Stop(s, j).(db := DeleteProvider(s.db, s.jobs[j].provider).0)
    case BeginReload =>
      t == Start(s, LoadedIds(s.db.spokes))
    case LoadTokens(j) =>
      j in s.jobs && s.jobs[j].LoadedIds?
      && t == s.(jobs := s.jobs[j := LoadedTokens(s.jobs[j].ids, s.db.tokens)])
    case LoadCerts(j) =>
      j in s.jobs && s.jobs[j].LoadedTokens?
      && t == s.(jobs := s.jobs[j := Job.LoadedCerts(s.jobs[j].ids, s.jobs[j].tokens, s.db.certs)])
    case LoadProviders(j) =>
      j in s.jobs && s.jobs[j].LoadedCerts?
      && var job := s.jobs[j];
         t == s.(jobs := s.jobs[j := LoadedAll(job.ids, job.tokens, job.certs, s.db.providers.Keys)])
    case Publish(j) =>
      j in s.jobs && s.jobs[j].LoadedAll?
      && SnapshotOf(t.served, s.jobs[j].ids, s.jobs[j].tokens, s.jobs[j].certs)
      && t.served.providers == s.jobs[j].providers
      && t == Stop(s, j).(served := t.served)
    case FailReload(j) =>
      j in s.jobs && Reloading(s.jobs[j]) && t == Stop(s, j)
    case BeginEnrol(secret, now) =>
      t == if Redeemable(s.db.enrolments, secret, now)
           then Start(s, FoundSecret(secret, now, s.db.enrolments[secret])) else s
    case CheckVisible(j) =>
      j in s.jobs && s.jobs[j].FoundSecret?
      && var job := s.jobs[j];
         t == if job.row.spoke in s.served.spokes
              then s.(jobs := s.jobs[j := VisibleSpoke(job.secret, job.now, job.row)])
              else Stop(s, j)  // 503
    case FinishEnrol(j) =>
      j in s.jobs && s.jobs[j].VisibleSpoke?
      && var job := s.jobs[j];
         var (db, reply) := Perform(s.db, RedeemEnrollmentToken(job.secret, job.now));
         t == Stop(s, j).(
           db := db,
           notes := s.notes
                    + if reply == Done then [Enrolled(job.secret, job.row.spoke, job.row.bearer, job.now)] else [])
    case Authorise(spoke, cert) =>
      spoke in s.served.spokes && cert in s.served.spokes[spoke].certs
      && t == Start(s, Authorised((spoke, cert.name)))
    case Record(j, event) =>
      j in s.jobs && s.jobs[j].Authorised? && !event.Removed?
      && t == s.(db := Perform(s.db, Observe(s.jobs[j].key, event)).0)
    case EndJob(j) =>
      t == Stop(s, j)
  }

  predicate Reloading(job: Job)
  {
    job.LoadedIds? || job.LoadedTokens? || job.LoadedCerts? || job.LoadedAll?
  }

  ghost predicate IsRun(states: seq<Sys>, steps: seq<Step>)
  {
    && |states| == |steps| + 1
    && forall i :: 0 <= i < |steps| ==> Next(states[i], steps[i], states[i + 1])
  }
}
