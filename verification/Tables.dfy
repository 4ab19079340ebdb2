/**
 * The hub's database as one value, and what each store method does to it when it runs as one step
 * (internal/hubstore). The imperative methods are in HubStore and are proved against these functions.
 */
module Tables {
  import opened Basics
  import opened CertState
  import opened Config

  datatype Enrolment = Enrolment(spoke: string, bearer: string, expires: int, redeemedAt: Option<int>)

  datatype Db = Db(
    spokes: set<string>,
    tokens: map<string, string>,             // token to owner
    certs: map<Key, Policy>,
    providers: map<string, ProviderConfig>,
    observed: map<Key, Row>,
    enrolments: map<string, Enrolment>)      // by secret

  const EMPTY := Db({}, map[], map[], map[], map[], map[])

  /** The result of a method: success, one of the sentinel errors, or another refusal. */
  datatype Reply = Done | AlreadyExists | TokenInUse | NotFound | LastToken | InUse | Invalid

  function TokensOf(tokens: map<string, string>, spoke: string): set<string>
  {
    set t | t in tokens && tokens[t] == spoke
  }

  predicate WellFormed(cert: CertConfig)
  {
    && ValidCertName(cert.name)
    && cert.policy.domains != []
    && (forall i :: 0 <= i < |cert.policy.domains| ==> ValidDomain(cert.policy.domains[i]))
    && cert.policy.provider != ""
    && (forall d :: d in cert.policy.overrides ==> d in cert.policy.domains)
  }

  /** Every provider the policy names is in `providers`. */
  predicate ProvidersExist(policy: Policy, providers: set<string>)
  {
    && policy.provider in providers
    && forall d :: d in policy.overrides ==> policy.overrides[d] in providers
  }

  predicate Uses(policy: Policy, provider: string)
  {
    policy.provider == provider || exists d :: d in policy.overrides && policy.overrides[d] == provider
  }

  predicate ProviderInUse(certs: map<Key, Policy>, provider: string)
  {
    exists k :: k in certs && Uses(certs[k], provider)
  }

  /** One call of a store method, or one statement on the observed state. */
  datatype Write =
    | CreateSpoke(id: string, token: string)
    | DeleteSpoke(id: string)
    | AddSpokeToken(id: string, token: string)
    | RemoveSpokeToken(id: string, token: string)
    | UpsertSpokeCert(id: string, cert: CertConfig)
    | RemoveSpokeCert(id: string, name: string)
    | UpsertDNSProvider(name: string, config: ProviderConfig)
    | RemoveDNSProvider(name: string)
    | InsertEnrollmentToken(secret: string, id: string, bearer: string, expires: int)
    | RedeemEnrollmentToken(secret: string, now: int)
    | Observe(key: Key, event: Event)

  function Perform(db: Db, w: Write): (Db, Reply)
  {
    match w
    case CreateSpoke(id, token) =>
      if id in db.spokes then (db, AlreadyExists)
      else if token in db.tokens then (db, TokenInUse)
      else (db.(spokes := db.spokes + {id}, tokens := db.tokens[token := id]), Done)
    case DeleteSpoke(id) =>
      if id !in db.spokes then (db, NotFound) else (WithoutSpoke(db, id), Done)
    case AddSpokeToken(id, token) =>
      if id !in db.spokes then (db, NotFound) else InsertToken(db, id, token)
    case RemoveSpokeToken(id, token) =>
      var owned := TokensOf(db.tokens, id);
      if |owned| <= 1 then (db, LastToken)
      else if token !in owned then (db, NotFound)
      else (db.(tokens := db.tokens - {token}), Done)
    case UpsertSpokeCert(id, cert) =>
      if !WellFormed(cert) then (db, Invalid)
      else if id !in db.spokes then (db, NotFound)
      else if !ProvidersExist(cert.policy, db.providers.Keys) then (db, Invalid)
      else (db.(certs := db.certs[(id, cert.name) := cert.policy]), Done)
    case RemoveSpokeCert(id, name) =>
      if (id, name) !in db.certs then (db, NotFound) else (db.(certs := db.certs - {(id, name)}), Done)
    case UpsertDNSProvider(name, config) =>
      if name == "" then (db, Invalid) else (db.(providers := db.providers[name := config]), Done)
    case RemoveDNSProvider(name) =>
      if ProviderInUse(db.certs, name) then (db, InUse) else DeleteProvider(db, name)
    case InsertEnrollmentToken(secret, id, bearer, expires) =>
      if secret in db.enrolments then (db, Invalid)
      else (db.(enrolments := db.enrolments[secret := Enrolment(id, bearer, expires, None)]), Done)
    case RedeemEnrollmentToken(secret, now) =>
      if Redeemable(db.enrolments, secret, now)
      then (db.(enrolments := db.enrolments[secret := db.enrolments[secret].(redeemedAt := Some(now))]), Done)
      else (db, NotFound)
    case Observe(key, event) => (db.(observed := ApplyAt(db.observed, key, event)), Done)
  }

  /** The insert of AddSpokeToken alone, without its check that the spoke exists. */
  function InsertToken(db: Db, id: string, token: string): (Db, Reply)
  {
    if token in db.tokens then (db, TokenInUse) else (db.(tokens := db.tokens[token := id]), Done)
  }

  /** The delete of RemoveDNSProvider alone, without its scan for references. */
  function DeleteProvider(db: Db, name: string): (Db, Reply)
  {
    if name !in db.providers then (db, NotFound) else (db.(providers := db.providers - {name}), Done)
  }

  /** The row of `secret` is there, unredeemed and unexpired. */
  predicate Redeemable(enrolments: map<string, Enrolment>, secret: string, now: int)
  {
    secret in enrolments && enrolments[secret].redeemedAt.None? && enrolments[secret].expires > now
  }

  function WithoutSpoke(db: Db, id: string): Db
  {
    db.(
      spokes := db.spokes - {id},
      tokens := map t | t in db.tokens && db.tokens[t] != id :: db.tokens[t],
      certs := map k | k in db.certs && k.0 != id :: db.certs[k],
      observed := map k | k in db.observed && k.0 != id :: db.observed[k],
      enrolments := map s | s in db.enrolments && db.enrolments[s].spoke != id :: db.enrolments[s])
  }

  function RowAt(observed: map<Key, Row>, key: Key): Option<Row>
  {
    if key in observed then Some(observed[key]) else None
  }

  function ApplyAt(observed: map<Key, Row>, key: Key, event: Event): map<Key, Row>
  {
    var row := Apply(RowAt(observed, key), event);
    if row.Some? then observed[key := row.value] else observed - {key}
  }

  function PerformAll(db: Db, writes: seq<Write>): Db
  {
    if writes == [] then db else Perform(PerformAll(db, writes[..|writes| - 1]), writes[|writes| - 1]).0
  }
}
