/**
 * The hub's handlers for spokes (internal/hubapi/handlers.go, enroll.go, server.go). Between any two statements of a
 * handler other connections may do anything to the database: the `others` parameters. Any one of its statements may
 * return an error, without effect: `fails` is its number, counted from 0.
 */
module HubApi {
  import opened Basics
  import opened CertState
  import opened Checkin
  import opened Config
  import opened Due
  import opened History
  import opened HubStore
  import opened Snapshot
  import opened Tables

  /** What the notify hook is told. */
  datatype Notice = Notice(previous: string, status: string, error: string, notAfter: int)

  function StatusText(s: Status): (text: string)
    ensures text == "failed" <==> s == Failed
    ensures text == "active" <==> s == Active
    ensures text == "unknown" <==> s == Unknown
  {
    match s
    case Unknown => "unknown"
    case Active => "active"
    case Failed => "failed"
  }

  function StatusOf(row: Option<Row>): Status
  {
    if row.Some? then row.value.status else Unknown
  }

  /** The alert condition, on the status before and after a check-in. */
  predicate Transition(before: Status, after: Status)
  {
    (before == Failed) != (after == Failed)
  }

  /** What an accepted report says of the certificate's health. */
  function ReportedStatus(req: Request): Status
  {
    if req.status == "active" then Active else Failed
  }

  /** The one or two statements of an accepted report, with other connections in between. */
  function RecordReport(db: Db, key: Key, req: Request, now: int, hookNow: int, others: Db -> Db): Db
  {
    var events := EventsOf(req, now, hookNow);
    var first := Perform(db, Observe(key, events[0])).0;
    if |events| == 1 then first else Perform(others(first), Observe(key, events[1])).0
  }

  /** What the spoke gets back from enrolment. */
  datatype Welcome = Welcome(spoke: string, bearer: string, certs: seq<(string, seq<string>)>)

  /** Other connections leave the row of this certificate as it is, whatever else they do. */
  ghost predicate SparesRow(others: Db -> Db, key: Key)
  {
    forall db :: RowAt(others(db).observed, key) == RowAt(db.observed, key)
  }

  /** Some read of LoadState fails. */
  predicate ReadFails(fails: Option<nat>)
  {
    fails.Some? && fails.value < 4
  }

  /** The database after the reads of LoadState that were reached. */
  function AfterReads(db: Db, fails: Option<nat>, others1: Db -> Db, others2: Db -> Db, others3: Db -> Db): Db
  {
    if fails == Some(0) then db
    else if fails == Some(1) then others1(db)
    else if fails == Some(2) then others2(others1(db))
    else others3(others2(others1(db)))
  }

  /** buildState: four table reads and the snapshot of what they found, unless a read or a provider fails. */
  method LoadState(store: Store, buildable: ProviderConfig -> bool, fails: Option<nat>,
                   others1: Db -> Db, others2: Db -> Db, others3: Db -> Db) returns (hs: Option<HubState>)
    modifies store
    ensures var db0 := old(store.Contents()); var db1 := others1(db0); var db2 := others2(db1); var db3 := others3(db2);
      && store.Contents() == AfterReads(db0, fails, others1, others2, others3)
      && (hs.Some? <==> !ReadFails(fails) && forall n :: n in db3.providers ==> buildable(db3.providers[n]))
      && (hs.Some? ==>
            SnapshotOf(hs.value, db0.spokes, db1.tokens, db2.certs) && hs.value.providers == db3.providers.Keys)
  {
    if fails == Some(0) { return None; }
    ghost var known := store.spokes;
    var ids := store.AllSpokeIDs();
    store.Meanwhile(others1);
    if fails == Some(1) { return None; }
    ghost var owned := store.tokens;
    var tokens := store.AllSpokeTokens();
    store.Meanwhile(others2);
    if fails == Some(2) { return None; }
    ghost var held := store.certs;
    var certs := store.AllSpokeCerts();
    var list := MergeSpokes(ids, tokens, certs);
    assert seq(|list|, i requires 0 <= i < |list| => list[i].id) == ids;
    store.Meanwhile(others3);
    if fails == Some(3) { return None; }
    var providers := store.AllDNSProviders();
    hs := BuildState(list, providers, buildable, known, owned, held);
  }

  /** NewServer: a server with a first snapshot, or none when that cannot be built. */
  method NewServer(store: Store, notifies: bool, buildable: ProviderConfig -> bool, fails: Option<nat>,
                   others1: Db -> Db, others2: Db -> Db, others3: Db -> Db) returns (server: Server?)
    modifies store
    ensures var db0 := old(store.Contents()); var db1 := others1(db0); var db2 := others2(db1); var db3 := others3(db2);
      && store.Contents() == AfterReads(db0, fails, others1, others2, others3)
      && (server != null <==> !ReadFails(fails) && forall n :: n in db3.providers ==> buildable(db3.providers[n]))
      && (server != null ==>
            && fresh(server) && server.store == store && server.notifies == notifies
            && SnapshotOf(server.served, db0.spokes, db1.tokens, db2.certs)
            && server.served.providers == db3.providers.Keys)
  {
    var state := LoadState(store, buildable, fails, others1, others2, others3);
    if state.None? { return null; }
    server := new Server(store, state.value, notifies);
  }

  class Server {
    const store: Store
    var served: HubState
    const notifies: bool  // a notify hook is configured

    constructor (store: Store, served: HubState, notifies: bool)
      ensures this.store == store && this.served == served && this.notifies == notifies
    {
      this.store, this.served, this.notifies := store, served, notifies;
    }

    /** Reload: a snapshot of four table reads, or, when a read or a provider fails, the one before. */
    method Reload(buildable: ProviderConfig -> bool, fails: Option<nat>,
                  others1: Db -> Db, others2: Db -> Db, others3: Db -> Db) returns (ok: bool)
      modifies store, this`served
      ensures var db0 := old(store.Contents()); var db1 := others1(db0);
        var db2 := others2(db1); var db3 := others3(db2);
        && store.Contents() == AfterReads(db0, fails, others1, others2, others3)
        && (ok <==> !ReadFails(fails) && forall n :: n in db3.providers ==> buildable(db3.providers[n]))
        && (if ok then SnapshotOf(served, db0.spokes, db1.tokens, db2.certs) && served.providers == db3.providers.Keys
            else served == old(served))
    {
      var state := LoadState(store, buildable, fails, others1, others2, others3);
      if state.None? { return false; }
      served := state.value;
      return true;
    }

    /**
     * handleCheckin, for an authorised certificate: a malformed report changes nothing; any other is recorded, and the
     * operator is told exactly when the status read at the start and the reported one differ in being failed. An error
     * of the hook statement comes after the upsert and keeps the operator from being told.
     */
    method HandleCheckin(key: Key, req: Request, now: int, hookNow: int, fails: Option<nat>,
                         others1: Db -> Db, others2: Db -> Db, others3: Db -> Db)
      returns (code: nat, notice: Option<Notice>)
      modifies store
      ensures code == (if !Acceptable(req) then 400
                       else if fails == Some(0) || fails == Some(1) then 500
                       else if fails == Some(2) && req.hookStatus != "" then 500
                       else 204)
      ensures var db0 := old(store.Contents()); var db1 := others1(db0);
        store.Contents() == (
          if code == 400 || fails == Some(0) then db0
          else if fails == Some(1) then db1
          else if code == 500 then others2(Perform(db1, Observe(key, EventsOf(req, now, hookNow)[0])).0)
          else others3(RecordReport(db1, key, req, now, hookNow, others2)))
      ensures code == 204 && SparesRow(others1, key) && SparesRow(others2, key) && SparesRow(others3, key) ==>
        && key in store.observed && store.observed[key].lastCheckin == Some(now)
        && (req.status == "active" ==> store.observed[key].lastSuccess == Some(now))
        && (req.hookStatus != "" ==> store.observed[key].lastHook == Some(hookNow))
        && Some(store.observed[key]) == ApplyAll(RowAt(old(store.observed), key), EventsOf(req, now, hookNow))
      ensures var before := StatusOf(RowAt(old(store.observed), key)); var after := RowAt(store.observed, key);
        && (notice.Some? <==> code == 204 && notifies && Transition(before, ReportedStatus(req)))
        && (notice.Some? ==>
              && notice.value.previous == StatusText(before) && notice.value.status == req.status
              && notice.value.error == req.error
              && notice.value.notAfter == if fails != Some(3) && after.Some? && after.value.notAfter.Some?
                                          then after.value.notAfter.value else req.notAfter)
    {
      ghost var was := store.Contents();
      if Acceptable(req) { RecordedRow(was, key, req, now, hookNow, others1, others2, others3); }
      var ok := Validate(req);
      if !ok { return 400, None; }
      if fails == Some(0) { return 500, None; }
      var previous := store.Get(key);
      var previousStatus := if previous.Some? then previous.value.status else Unknown;
      store.Meanwhile(others1);
      if fails == Some(1) { return 500, None; }
      ok := Record(key, req, now, hookNow, fails == Some(2), others2);
      if !ok { return 500, None; }
      store.Meanwhile(others3);
      var notAfter := req.notAfter;
      if fails != Some(3) {
        var current := store.Get(key);
        if current.Some? && current.value.notAfter.Some? { notAfter := current.value.notAfter.value; }
      }
      notice := NotifyIfTransitioned(previousStatus, req, notAfter);
      return 204, notice;
    }

    /** The writes of handleCheckin. */
    method Record(key: Key, req: Request, now: int, hookNow: int, hookFails: bool, others: Db -> Db) returns (ok: bool)
      modifies store
      ensures ok == !(hookFails && req.hookStatus != "")
      ensures store.Contents() == if ok then RecordReport(old(store.Contents()), key, req, now, hookNow, others)
        else others(Perform(old(store.Contents()), Observe(key, EventsOf(req, now, hookNow)[0])).0)
    {
      if req.status == "active" {
        store.CheckinActive(key, now, req.notBefore, req.notAfter, req.serial);
      } else {
        store.CheckinFailed(key, now, if req.error == "" then None else Some(req.error), req.failures);
      }
      if req.hookStatus != "" {
        store.Meanwhile(others);
        if hookFails { return false; }
        store.MarkHookResult(key, hookNow, if req.hookStatus == "failed" then Some(req.hookError) else None);
      }
      return true;
    }

    method NotifyIfTransitioned(previous: Status, req: Request, notAfter: int) returns (notice: Option<Notice>)
      ensures notice ==
        if notifies && (if previous == Failed then req.status == "active" else req.status == "failed")
        then Some(Notice(StatusText(previous), req.status, req.error, notAfter)) else None
    {
      if !notifies { return None; }
      var started, ended := previous != Failed && req.status == "failed", previous == Failed && req.status == "active";
      var transitioned := started || ended;
      if !transitioned { return None; }
      return Some(Notice(StatusText(previous), req.status, req.error, notAfter));
    }

    /**
     * handleDue, for an authorised certificate: "due" exactly when the row read says so and the lease was free when the
     * claim ran, in which case the lease is now the spoke's; a certificate that is not due is not written at all.
     */
    method HandleDue(key: Key, policy: Policy, defaultRenewBefore: int, hash: nat, maxJitter: int, now: int,
                     claimNow: int, lease: nat, fails: Option<nat>, others: Db -> Db) returns (code: nat, due: bool)
      requires hash <= MAX_UINT64
      modifies store
      ensures var before := if policy.renewBefore == 0 then defaultRenewBefore else policy.renewBefore;
        var window := before + JitterFor(hash, maxJitter);
        var db0 := old(store.Contents()); var db1 := others(db0);
        var wanted := IsDue(RowAt(db0.observed, key), now, window);
        && code == (if fails == Some(0) || (fails == Some(1) && wanted) then 500 else 200)
        && due == (code == 200 && wanted && Grants(RowAt(db1.observed, key), claimNow))
        && store.Contents() == (
             if fails == Some(0) || !wanted then db0
             else if code == 500 then db1
             else Perform(db1, Observe(key, ClaimTried(claimNow, key.0, lease))).0)
    {
      var renewBefore := policy.renewBefore;
      if renewBefore == 0 { renewBefore := defaultRenewBefore; }
      renewBefore := renewBefore + JitterFor(hash, maxJitter);
      if fails == Some(0) { return 500, false; }
      var row := store.Get(key);
      due := true;
      if row.Some? {
        due := row.value.notAfter.None? || row.value.notAfter.value - now < renewBefore;
      }
      if due {
        store.Meanwhile(others);
        if fails == Some(1) { return 500, false; }
        due := store.Claim(key, claimNow, lease);
      }
      return 200, due;
    }

    /**
     * handleDNS01, with the snapshot served when it loads one for the second time: 500 exactly when that one lacks the
     * provider of an authorised request. `works` is the provider's own answer.
     */
    method HandleDNS01(header: string, name: string, domain: string, lower: char -> char, later: HubState, works: bool,
                       ghost list: seq<Spoke>) returns (code: nat, ghost order: seq<string>)
      requires IndexExact(served) && ListsEntries(list, served)
      ensures var token := BearerToken(header);
        var verdict := if token.None? then Unauthorized else SearchSpokes(list, token.value, name);
        match verdict
        case Unauthorized => code == 401
        case Forbidden => code == 403
        case Allowed(_, cert) =>
          && Enumerates(order, cert.policy.overrides.Keys)
          && code == (if !IsAuthorised(lower, cert.policy, domain) then 403
                      else if FirstMatch(lower, cert.policy, domain, order) !in later.providers then 500
                      else if works then 204 else 502)
    {
      order := [];
      var verdict := Authorize(served, header, name, list);
      if verdict.Unauthorized? { return 401, order; }
      if verdict.Forbidden? { return 403, order; }
      var policy := verdict.cert.policy;
      var keys := ReadRows(policy.overrides.Keys);
      order := keys;
      var ok := DomainAuthorized(lower, policy, domain);
      if !ok { return 403, order; }
      var provider := ResolveDNSProvider(lower, policy, domain, keys);
      if provider !in later.providers { return 500, order; }
      return if works then 204 else 502, order;
    }

    /**
     * handleEnroll: 200 exactly for a secret of a served spoke that was redeemable when looked up and still is when
     * redeemed, and only then is it used up; no other answer changes anything.
     */
    method HandleEnroll(secret: string, now: int, fails: Option<nat>, others: Db -> Db)
      returns (code: nat, welcome: Option<Welcome>)
      modifies store
      ensures var db0 := old(store.Contents()); var db1 := others(db0);
        code == (if secret == "" then 400
                 else if fails == Some(0) then 500
                 else if !Redeemable(db0.enrolments, secret, now) then 401
                 else if db0.enrolments[secret].spoke !in served.spokes then 503
                 else if fails == Some(1) then 500
                 else if !Redeemable(db1.enrolments, secret, now) then 401  // lost the race
                 else 200)
      ensures welcome.Some? <==> code == 200
      ensures code == 400 || code == 503 ==> store.Contents() == old(store.Contents())
      ensures code == 401 || code == 500 ==>
        store.Contents() == (if fails != Some(0) && Redeemable(old(store.enrolments), secret, now)
                             then others(old(store.Contents())) else old(store.Contents()))
      ensures code == 200 ==>
        var row, db1 := old(store.enrolments)[secret], others(old(store.Contents()));
        && store.Contents() == Perform(db1, RedeemEnrollmentToken(secret, now)).0
        && welcome.value.spoke == row.spoke && welcome.value.bearer == row.bearer
        && |welcome.value.certs| == |served.spokes[row.spoke].certs|
        && forall i :: 0 <= i < |welcome.value.certs| ==>
             var c := served.spokes[row.spoke].certs[i]; welcome.value.certs[i] == (c.name, c.policy.domains)
    {
      if secret == "" { return 400, None; }
      if fails == Some(0) { return 500, None; }
      var row := store.LookupEnrollmentToken(secret, now);
      if row.None? { return 401, None; }
      if row.value.spoke !in served.spokes { return 503, None; }
      var entry := served.spokes[row.value.spoke];
      store.Meanwhile(others);
      if fails == Some(1) { return 500, None; }
      var redeemed := store.RedeemEnrollmentToken(secret, now);
      if !redeemed { return 401, None; }
      var certs: seq<(string, seq<string>)> := [];
      for i := 0 to |entry.certs|
        invariant |certs| == i
        invariant forall j :: 0 <= j < i ==> certs[j] == (entry.certs[j].name, entry.certs[j].policy.domains)
      {
        certs := certs + [(entry.certs[i].name, entry.certs[i].policy.domains)];
      }
      return 200, Some(Welcome(row.value.spoke, row.value.bearer, certs));
    }
  }

  // ----- Reports and due-ness -----

  /** An accepted report on the row it finds: what it claims is stored, dated by the hub's clock and never its own. */
  lemma ReportIsRecorded(row: Option<Row>, req: Request, now: int, hookNow: int)
    requires Acceptable(req)
    ensures var was, after := OrDefaults(row), ApplyAll(row, EventsOf(req, now, hookNow));
      && after.Some? && after.value.lastCheckin == Some(now) && after.value.claim == None
      && (req.status == "active" ==>
            && after.value.status == Active && after.value.failures == 0 && after.value.lastError == None
            && after.value.notBefore == Some(req.notBefore) && after.value.notAfter == Some(req.notAfter)
            && after.value.serial == Some(req.serial) && after.value.lastSuccess == Some(now))
      && (req.status == "failed" ==>
            && after.value.status == Failed && after.value.failures == req.failures
            && after.value.lastError == (if req.error == "" then None else Some(req.error))
            && (after.value.notBefore, after.value.notAfter, after.value.serial, after.value.lastSuccess)
               == (was.notBefore, was.notAfter, was.serial, was.lastSuccess))
      && (req.hookStatus == "" ==>
            after.value.lastHook == was.lastHook && after.value.hookError == was.hookError)
      && (req.hookStatus != "" ==>
            && after.value.lastHook == Some(hookNow)
            && after.value.hookError == if req.hookStatus == "failed" then Some(req.hookError) else None)
  {
    ReportedEvents(row, req, now, hookNow);
  }

  /** The same through the handler's statements, while the others spare the row. */
  lemma RecordedRow(db: Db, key: Key, req: Request, now: int, hookNow: int, others1: Db -> Db, others2: Db -> Db,
                    others3: Db -> Db)
    requires Acceptable(req)
    ensures SparesRow(others1, key) && SparesRow(others2, key) && SparesRow(others3, key) ==>
      var after := others3(RecordReport(others1(db), key, req, now, hookNow, others2)).observed;
      && RowAt(after, key) == ApplyAll(RowAt(db.observed, key), EventsOf(req, now, hookNow))
      && key in after && after[key].lastCheckin == Some(now)
      && (req.status == "active" ==> after[key].lastSuccess == Some(now))
      && (req.hookStatus != "" ==> after[key].lastHook == Some(hookNow))
  {
    ReportedEvents(RowAt(db.observed, key), req, now, hookNow);
    ReportIsRecorded(RowAt(db.observed, key), req, now, hookNow);
    var db1, events := others1(db), EventsOf(req, now, hookNow);
    ObservedRow(db1, key, events[0]);
    if req.hookStatus != "" { ObservedRow(others2(Perform(db1, Observe(key, events[0])).0), key, events[1]); }
  }

  lemma ObservedRow(db: Db, key: Key, e: Event)
    ensures RowAt(Perform(db, Observe(key, e)).0.observed, key) == Apply(RowAt(db.observed, key), e)
  {
  }

  /** Whatever the hub believes of a certificate came from a plausible report. */
  ghost predicate BelievableRow(row: Option<Row>)
  {
    row.Some? ==>
      && (row.value.notBefore.Some? <==> row.value.notAfter.Some?)
      && (row.value.notAfter.Some? ==> Plausible(row.value.notBefore.value, row.value.notAfter.value))
  }

  /** The statement comes from a handler: a check-in that passed validation, a claim, a hook report, or a removal. */
  ghost predicate FromHandler(e: Event)
  {
    e.Activated? ==> exists req, hookNow :: Acceptable(req) && e in EventsOf(req, e.now, hookNow)
  }

  /** Over every history of statements the handlers can issue, the row holds a plausible validity window or none. */
  lemma {:induction false} RowsStayBelievable(row: Option<Row>, events: seq<Event>)
    requires BelievableRow(row) && forall e :: e in events ==> FromHandler(e)
    ensures BelievableRow(ApplyAll(row, events))
    decreases |events|
  {
    if events != [] {
      assert events[0] in events && forall e :: e in events[1..] ==> e in events;
      assert FromHandler(events[0]);
      RowsStayBelievable(Apply(row, events[0]), events[1..]);
    }
  }

  /** But a plausible window may lie anywhere: for every moment there is an acceptable report that is not due then. */
  lemma FarFutureWindowIsAccepted(row: Option<Row>, now: int, later: nat, renewBefore: nat)
    requires later + renewBefore > 0
    ensures exists req :: Acceptable(req) && !IsDue(Apply(row, EventsOf(req, now, now)[0]), later, renewBefore)
  {
    var start := later + renewBefore;
    var req := Request("active", start, start + 1, "1", "", 0, "", "");
    assert Acceptable(req);
    assert !IsDue(Apply(row, EventsOf(req, now, now)[0]), later, renewBefore);
  }

  /** The row is due at every instant more than the greatest plausible lifetime after `at`. */
  ghost predicate PromptAfter(row: Option<Row>, at: int, renewBefore: int)
  {
    forall t: int :: t > at + MAX_PLAUSIBLE_LIFETIME ==> IsDue(row, t, renewBefore)
  }

  lemma PromptExactlyWhen(row: Row, at: int, renewBefore: int)
    requires row.notAfter.Some?
    ensures PromptAfter(Some(row), at, renewBefore) <==> row.notAfter.value <= at + MAX_PLAUSIBLE_LIFETIME + renewBefore
  {
    assert PromptAfter(Some(row), at, renewBefore) ==>
      IsDue(Some(row), at + MAX_PLAUSIBLE_LIFETIME + 1, renewBefore);
  }

  /**
   * When reports cannot put renewal off: over a whole history, the certificate is always due again within the greatest
   * plausible lifetime of its latest successful report exactly if every such report claimed an expiry no later than
   * that plus renewBefore, counted from the hub's own clock. The hub checks the claimed window only against itself.
   */
  lemma RenewalIsPromptExactlyWhen(log: seq<Event>, renewBefore: int)
    ensures (forall n, i :: 0 <= i < n <= |log| && Latest(log[..n], i, activations) ==>
               PromptAfter(Replay(log[..n]), log[i].now, renewBefore))
      <==> forall i :: 0 <= i < |log| && log[i].Activated? ==>
             log[i].notAfter <= log[i].now + MAX_PLAUSIBLE_LIFETIME + renewBefore
  {
    forall n, i | 0 <= i < n <= |log| && Latest(log[..n], i, activations)
      ensures PromptAfter(Replay(log[..n]), log[i].now, renewBefore)
        <==> log[i].notAfter <= log[i].now + MAX_PLAUSIBLE_LIFETIME + renewBefore
    {
      ShownExpiry(log[..n], i);
      PromptExactlyWhen(Replay(log[..n]).value, log[i].now, renewBefore);
    }
    forall i | 0 <= i < |log| && log[i].Activated? ensures Latest(log[..i + 1], i, activations) {}
  }

  lemma ShownExpiry(log: seq<Event>, i: nat)
    requires i < |log| && Latest(log, i, activations)
    ensures Replay(log).Some? && Replay(log).value.notAfter == Some(log[i].notAfter)
  {
    RowDescribesHistory(log);
    if Replay(log).None? {
      LastRemoval(log, i);
    }
  }
}
