/** What the tables promise each other although the schema declares no foreign key. */
module Integrity {
  import opened Basics
  import opened CertState
  import opened Config
  import opened Tables
  import History
  import opened HubStore

  /** Every spoke can authenticate: it owns a token. */
  ghost predicate SpokesHaveTokens(db: Db)
  {
    forall s :: s in db.spokes ==> exists t :: t in db.tokens && db.tokens[t] == s
  }

  ghost predicate TokensHaveSpokes(db: Db)
  {
    forall t :: t in db.tokens ==> db.tokens[t] in db.spokes
  }

  ghost predicate CertsWellFormed(db: Db)
  {
    forall k :: k in db.certs ==> WellFormed(CertConfig(k.1, db.certs[k]))
  }

  ghost predicate CertsHaveSpokes(db: Db)
  {
    forall k :: k in db.certs ==> k.0 in db.spokes
  }

  ghost predicate CertsHaveProviders(db: Db)
  {
    forall k :: k in db.certs ==> ProvidersExist(db.certs[k], db.providers.Keys)
  }

  ghost predicate Consistent(db: Db)
  {
    SpokesHaveTokens(db) && TokensHaveSpokes(db) && CertsWellFormed(db) && CertsHaveSpokes(db) && CertsHaveProviders(db)
  }

  /** Removing one of several tokens leaves the owner another. */
  lemma AnotherToken(tokens: map<string, string>, spoke: string, token: string)
    requires |TokensOf(tokens, spoke)| > 1
    ensures exists t :: t in tokens && t != token && tokens[t] == spoke
  {
    var owned := TokensOf(tokens, spoke);
    assert |owned - {token}| >= |owned| - 1 by {
      assert owned <= (owned - {token}) + {token};
      SubsetSize(owned, (owned - {token}) + {token});
    }
    var t :| t in owned - {token};
  }

  lemma {:induction false} SubsetSize<T>(a: set<T>, b: set<T>)
    requires a <= b
    ensures |a| <= |b|
  {
    if a != {} {
      var x :| x in a;
      SubsetSize(a - {x}, b - {x});
    }
  }

  lemma WriteKeepsTokens(db: Db, w: Write)
    requires SpokesHaveTokens(db)
    ensures SpokesHaveTokens(Perform(db, w).0)
  {
    var db' := Perform(db, w).0;
    forall s | s in db'.spokes ensures exists t :: t in db'.tokens && db'.tokens[t] == s {
      if w.CreateSpoke? && s !in db.spokes {
        assert w.token in db'.tokens && db'.tokens[w.token] == s;
      } else if w.RemoveSpokeToken? && w.id == s && |TokensOf(db.tokens, s)| > 1 {
        AnotherToken(db.tokens, s, w.token);
        var t :| t in db.tokens && t != w.token && db.tokens[t] == s;
        assert t in db'.tokens;
      } else {
        var t :| t in db.tokens && db.tokens[t] == s;
        assert t in db'.tokens && db'.tokens[t] == s;
      }
    }
  }

  lemma WriteKeepsOwners(db: Db, w: Write)
    requires TokensHaveSpokes(db)
    ensures TokensHaveSpokes(Perform(db, w).0)
  {
  }

  lemma WriteKeepsWellFormed(db: Db, w: Write)
    requires CertsWellFormed(db)
    ensures CertsWellFormed(Perform(db, w).0)
  {
    assert w.UpsertSpokeCert? ==> CertConfig(w.cert.name, w.cert.policy) == w.cert;
  }

  lemma WriteKeepsCertOwners(db: Db, w: Write)
    requires CertsHaveSpokes(db)
    ensures CertsHaveSpokes(Perform(db, w).0)
  {
  }

  lemma WriteKeepsProviders(db: Db, w: Write)
    requires CertsHaveProviders(db)
    ensures CertsHaveProviders(Perform(db, w).0)
  {
    var db' := Perform(db, w).0;
    forall k | k in db'.certs ensures ProvidersExist(db'.certs[k], db'.providers.Keys) {
      if w.RemoveDNSProvider? {
        assert !ProviderInUse(db.certs, w.name) ==> !Uses(db.certs[k], w.name);
      }
    }
  }

  lemma WriteKeepsConsistent(db: Db, w: Write)
    requires Consistent(db)
    ensures Consistent(Perform(db, w).0)
  {
    WriteKeepsTokens(db, w);
    WriteKeepsOwners(db, w);
    WriteKeepsWellFormed(db, w);
    WriteKeepsCertOwners(db, w);
    WriteKeepsProviders(db, w);
  }

  /** Every sequence of store methods, each one step and each succeeding or refusing, keeps the tables consistent. */
  lemma {:induction false} AllWritesKeepConsistent(db: Db, writes: seq<Write>)
    requires Consistent(db)
    ensures Consistent(PerformAll(db, writes))
  {
    if writes != [] {
      AllWritesKeepConsistent(db, writes[..|writes| - 1]);
      WriteKeepsConsistent(PerformAll(db, writes[..|writes| - 1]), writes[|writes| - 1]);
    }
  }

  /** A refused method changes nothing. */
  lemma RefusedChangesNothing(db: Db, w: Write)
    ensures Perform(db, w).1 != Done ==> Perform(db, w).0 == db
  {
  }

  /** Which store methods succeed, and on which database. */
  lemma SucceedsExactlyWhen(db: Db, w: Write)
    ensures Perform(db, w).1 == Done <==> match w
      case CreateSpoke(id, token) => id !in db.spokes && token !in db.tokens
      case DeleteSpoke(id) => id in db.spokes
      case AddSpokeToken(id, token) => id in db.spokes && token !in db.tokens
      case RemoveSpokeToken(id, token) =>
        token in db.tokens && db.tokens[token] == id
        && exists other :: other in db.tokens && other != token && db.tokens[other] == id
      case UpsertSpokeCert(id, CertConfig(name, Policy(domains, provider, overrides, _))) =>
        && ValidCertName(name) && domains != [] && (forall d :: d in domains ==> ValidDomain(d))
        && provider != "" && (forall d :: d in overrides ==> d in domains)
        && id in db.spokes && provider in db.providers && overrides.Values <= db.providers.Keys
      case RemoveSpokeCert(id, name) => (id, name) in db.certs
      case UpsertDNSProvider(name, _) => name != ""
      case RemoveDNSProvider(name) =>
        && name in db.providers
        && forall k :: k in db.certs ==> db.certs[k].provider != name && name !in db.certs[k].overrides.Values
      case InsertEnrollmentToken(secret, _, _, _) => secret !in db.enrolments
      case RedeemEnrollmentToken(secret, now) =>
        secret in db.enrolments && db.enrolments[secret].redeemedAt == None && now < db.enrolments[secret].expires
      case Observe(_, _) => true
  {
    match w
    case RemoveSpokeToken(id, token) =>
      if token in db.tokens && db.tokens[token] == id { TwoTokens(db.tokens, id, token); }
    case UpsertSpokeCert(_, cert) => WellFormedExactly(cert, db.providers.Keys);
    case RemoveDNSProvider(name) => InUseExactly(db.certs, name);
    case _ =>
  }

  lemma WellFormedExactly(cert: CertConfig, providers: set<string>)
    ensures WellFormed(cert) && ProvidersExist(cert.policy, providers) <==>
      && ValidCertName(cert.name) && cert.policy.domains != []
      && (forall d :: d in cert.policy.domains ==> ValidDomain(d)) && cert.policy.provider != ""
      && (forall d :: d in cert.policy.overrides ==> d in cert.policy.domains)
      && cert.policy.provider in providers && cert.policy.overrides.Values <= providers
  {
    var policy := cert.policy;
    if forall i :: 0 <= i < |policy.domains| ==> ValidDomain(policy.domains[i]) {
      forall d | d in policy.domains ensures ValidDomain(d) {}
    }
    if policy.overrides.Values <= providers {
      forall d | d in policy.overrides ensures policy.overrides[d] in providers {
        assert policy.overrides[d] in policy.overrides.Values;
      }
    }
  }

  lemma InUseExactly(certs: map<Key, Policy>, name: string)
    ensures ProviderInUse(certs, name) <==>
      exists k :: k in certs && (certs[k].provider == name || name in certs[k].overrides.Values)
  {
    forall k | k in certs
      ensures Uses(certs[k], name) <==> certs[k].provider == name || name in certs[k].overrides.Values
    {
      if name in certs[k].overrides.Values { var d :| d in certs[k].overrides && certs[k].overrides[d] == name; }
    }
  }

  /** A spoke that owns a token owns more than one exactly if it owns another one. */
  lemma TwoTokens(tokens: map<string, string>, spoke: string, token: string)
    requires token in tokens && tokens[token] == spoke
    ensures |TokensOf(tokens, spoke)| > 1 <==> exists t :: t in tokens && t != token && tokens[t] == spoke
  {
    var owned := TokensOf(tokens, spoke);
    if |owned| > 1 {
      AnotherToken(tokens, spoke, token);
    } else if t :| t in tokens && t != token && tokens[t] == spoke {
      SubsetSize({t, token}, owned);
    }
  }

  /** A refusal is true: what it blames is so. */
  lemma RefusalSaysWhy(db: Db, w: Write)
    ensures match Perform(db, w).1
      case Done => true
      case AlreadyExists => w.CreateSpoke? && w.id in db.spokes
      case TokenInUse => (w.CreateSpoke? || w.AddSpokeToken?) && w.token in db.tokens
      case LastToken =>
        w.RemoveSpokeToken? && forall a, b :: {a, b} <= TokensOf(db.tokens, w.id) ==> a == b
      case InUse => w.RemoveDNSProvider? && exists k ::
        k in db.certs && (db.certs[k].provider == w.name || w.name in db.certs[k].overrides.Values)
      case NotFound => (
        match w
        case DeleteSpoke(id) => id !in db.spokes
        case AddSpokeToken(id, _) => id !in db.spokes
        case RemoveSpokeToken(id, token) => token !in db.tokens || db.tokens[token] != id
        case UpsertSpokeCert(id, _) => id !in db.spokes
        case RemoveSpokeCert(id, name) => (id, name) !in db.certs
        case RemoveDNSProvider(name) => name !in db.providers
        case RedeemEnrollmentToken(_, _) => true
        case _ => false)
      case Invalid => (
        match w
        case UpsertSpokeCert(id, cert) => WellFormed(cert) ==> id in db.spokes
        case UpsertDNSProvider(name, _) => name == ""
        case InsertEnrollmentToken(secret, _, _, _) => secret in db.enrolments
        case _ => false)
  {
    match w
    case RemoveSpokeToken(id, _) =>
      forall a, b | {a, b} <= TokensOf(db.tokens, id) && |TokensOf(db.tokens, id)| <= 1 ensures a == b {
        SubsetSize({a, b}, TokensOf(db.tokens, id));
      }
    case RemoveDNSProvider(name) => InUseExactly(db.certs, name);
    case _ =>
  }

  // ----- What was written is what is read -----

  /** After a successful method each spoke has the tokens it had before, but for the one written or removed. */
  lemma TokensAreRead(db: Db, w: Write, spoke: string)
    requires Perform(db, w).1 == Done
    ensures TokensOf(Perform(db, w).0.tokens, spoke) == match w
      case CreateSpoke(id, token) => TokensOf(db.tokens, spoke) + if id == spoke then {token} else {}
      case AddSpokeToken(id, token) => TokensOf(db.tokens, spoke) + if id == spoke then {token} else {}
      case RemoveSpokeToken(id, token) => TokensOf(db.tokens, spoke) - if id == spoke then {token} else {}
      case DeleteSpoke(id) => if id == spoke then {} else TokensOf(db.tokens, spoke)
      case _ => TokensOf(db.tokens, spoke)
  {
    match w
    case CreateSpoke(id, token) => StoredToken(db.tokens, token, id, spoke);
    case AddSpokeToken(id, token) => StoredToken(db.tokens, token, id, spoke);
    case RemoveSpokeToken(id, token) => RemovedToken(db.tokens, token, id, spoke);
    case DeleteSpoke(id) => TokensOfOthers(db, id, spoke);
    case _ =>
  }

  lemma StoredToken(tokens: map<string, string>, token: string, id: string, spoke: string)
    requires token !in tokens
    ensures TokensOf(tokens[token := id], spoke) == TokensOf(tokens, spoke) + if id == spoke then {token} else {}
  {
  }

  lemma RemovedToken(tokens: map<string, string>, token: string, id: string, spoke: string)
    requires token in tokens && tokens[token] == id
    ensures TokensOf(tokens - {token}, spoke) == TokensOf(tokens, spoke) - if id == spoke then {token} else {}
  {
  }

  lemma TokensOfOthers(db: Db, id: string, spoke: string)
    ensures TokensOf(WithoutSpoke(db, id).tokens, spoke) == if id == spoke then {} else TokensOf(db.tokens, spoke)
  {
  }

  /** And the certificates: an assignment is stored whole, in place of any of its name, and no other one changes. */
  lemma CertsAreRead(db: Db, w: Write, spoke: string)
    requires Perform(db, w).1 == Done
    ensures CertsOf(Perform(db, w).0.certs, spoke) == match w
      case UpsertSpokeCert(id, cert) =>
        if id == spoke then Others(CertsOf(db.certs, spoke), cert.name) + {cert} else CertsOf(db.certs, spoke)
      case RemoveSpokeCert(id, name) =>
        if id == spoke then Others(CertsOf(db.certs, spoke), name) else CertsOf(db.certs, spoke)
      case DeleteSpoke(id) => if id == spoke then {} else CertsOf(db.certs, spoke)
      case _ => CertsOf(db.certs, spoke)
  {
    match w
    case UpsertSpokeCert(id, cert) => StoredCert(db.certs, id, cert, spoke);
    case RemoveSpokeCert(id, name) => RemovedCert(db.certs, id, name, spoke);
    case DeleteSpoke(id) => if spoke != id { KeptCerts(db.certs, WithoutSpoke(db, id).certs, spoke); }
    case _ =>
  }

  function Others(certs: set<CertConfig>, name: string): set<CertConfig>
  {
    set c | c in certs && c.name != name
  }

  lemma InCertsOf(certs: map<Key, Policy>, spoke: string, c: CertConfig)
    ensures c in CertsOf(certs, spoke) <==> (spoke, c.name) in certs && certs[(spoke, c.name)] == c.policy
  {
  }

  lemma StoredCert(certs: map<Key, Policy>, id: string, cert: CertConfig, spoke: string)
    ensures CertsOf(certs[(id, cert.name) := cert.policy], spoke) ==
      if id == spoke then Others(CertsOf(certs, spoke), cert.name) + {cert} else CertsOf(certs, spoke)
  {
    forall c { InCertsOf(certs, spoke, c); }
    forall c { InCertsOf(certs[(id, cert.name) := cert.policy], spoke, c); }
  }

  lemma RemovedCert(certs: map<Key, Policy>, id: string, name: string, spoke: string)
    ensures CertsOf(certs - {(id, name)}, spoke) ==
      if id == spoke then Others(CertsOf(certs, spoke), name) else CertsOf(certs, spoke)
  {
    forall c { InCertsOf(certs, spoke, c); }
    forall c { InCertsOf(certs - {(id, name)}, spoke, c); }
  }

  lemma KeptCerts(certs: map<Key, Policy>, after: map<Key, Policy>, spoke: string)
    requires forall k: Key :: k.0 == spoke ==> (k in after <==> k in certs) && (k in certs ==> after[k] == certs[k])
    ensures CertsOf(after, spoke) == CertsOf(certs, spoke)
  {
    forall c { InCertsOf(certs, spoke, c); }
    forall c { InCertsOf(after, spoke, c); }
  }

  /** A minted secret is stored as minted and unused, a redeemed one keeps all but the time of its use. */
  lemma SecretsAreRead(db: Db, w: Write)
    requires Perform(db, w).1 == Done
    ensures var after := Perform(db, w).0.enrolments;
      match w
      case InsertEnrollmentToken(secret, id, bearer, expires) =>
        after == db.enrolments[secret := Enrolment(id, bearer, expires, None)]
      case RedeemEnrollmentToken(secret, now) =>
        var was := db.enrolments[secret];
        after == db.enrolments[secret := Enrolment(was.spoke, was.bearer, was.expires, Some(now))]
      case DeleteSpoke(id) => after.Items == set r | r in db.enrolments.Items && r.1.spoke != id
      case _ => after == db.enrolments
  {
  }

  /** A provider is stored whole, in place of any of its name. */
  lemma ProvidersAreRead(db: Db, w: Write)
    requires Perform(db, w).1 == Done
    ensures Perform(db, w).0.providers == match w
      case UpsertDNSProvider(name, config) => db.providers[name := config]
      case RemoveDNSProvider(name) => db.providers - {name}
      case _ => db.providers
  {
  }

  lemma SpokesAreRead(db: Db, w: Write)
    requires Perform(db, w).1 == Done
    ensures Perform(db, w).0.spokes == match w
      case CreateSpoke(id, _) => db.spokes + {id}
      case DeleteSpoke(id) => db.spokes - {id}
      case _ => db.spokes
  {
  }

  /** No method of the desired state touches what was observed, except that a deleted spoke takes its rows along. */
  lemma ObservedIsRead(db: Db, w: Write)
    requires Perform(db, w).1 == Done
    ensures var after := Perform(db, w).0.observed;
      match w
      case Observe(key, _) => after - {key} == db.observed - {key}
      case DeleteSpoke(id) => after.Items == set r | r in db.observed.Items && r.0.0 != id
      case _ => after == db.observed
  {
  }

  /** DeleteSpoke leaves no row of the spoke in any table, and every row of every other spoke as it was. */
  lemma DeleteLeavesNothing(db: Db, id: string)
    requires id in db.spokes
    ensures var db' := Perform(db, DeleteSpoke(id)).0;
      && id !in db'.spokes && id !in db'.tokens.Values
      && (forall k :: k in db'.certs.Keys + db'.observed.Keys ==> k.0 != id)
      && (forall s :: s in db'.enrolments ==> db'.enrolments[s].spoke != id)
      && db'.providers == db.providers && db'.spokes == db.spokes - {id}
      && (forall t :: t in db.tokens && db.tokens[t] != id ==> t in db'.tokens && db'.tokens[t] == db.tokens[t])
      && (forall k :: k in db.certs && k.0 != id ==> k in db'.certs && db'.certs[k] == db.certs[k])
      && (forall k :: k in db.observed && k.0 != id ==> k in db'.observed && db'.observed[k] == db.observed[k])
      && (forall s :: s in db.enrolments && db.enrolments[s].spoke != id ==>
            s in db'.enrolments && db'.enrolments[s] == db.enrolments[s])
  {
  }

  /** After DeleteSpoke the same id can be created again, with any token no other spoke owns. */
  lemma DeleteThenCreate(db: Db, id: string, token: string)
    requires id in db.spokes && (token in db.tokens ==> db.tokens[token] == id)
    ensures var db' := Perform(db, DeleteSpoke(id)).0;
      Perform(db', CreateSpoke(id, token)).1 == Done
      && TokensOf(Perform(db', CreateSpoke(id, token)).0.tokens, id) == {token}
  {
  }

  /** Rotation's two steps undo each other on the tables. */
  lemma AddThenRemoveToken(db: Db, id: string, token: string)
    requires Consistent(db) && id in db.spokes && token !in db.tokens
    ensures var added := Perform(db, AddSpokeToken(id, token));
      added.1 == Done && Perform(added.0, RemoveSpokeToken(id, token)) == (db, Done)
  {
    var added := Perform(db, AddSpokeToken(id, token)).0;
    var t :| t in db.tokens && db.tokens[t] == id;
    assert TokensOf(added.tokens, id) >= {t, token};
    assert |TokensOf(added.tokens, id)| >= 2 by {
      assert |TokensOf(added.tokens, id)| == |TokensOf(added.tokens, id) - {t, token}| + |{t, token}|;
    }
    assert added.tokens - {token} == db.tokens;
  }

  // ----- Observed rows, key by key -----

  /** The statements of `log` that touch `key`, in order. */
  function Project(log: seq<(Key, Event)>, key: Key): seq<Event>
  {
    if log == [] then []
    else
      var before, last := Project(log[..|log| - 1], key), log[|log| - 1];
      if last.0 == key then before + [last.1] else before
  }

  /** The observed table after the statements of `log`, starting empty. */
  function ObserveAll(log: seq<(Key, Event)>): map<Key, Row>
  {
    if log == [] then map[]
    else ApplyAt(ObserveAll(log[..|log| - 1]), log[|log| - 1].0, log[|log| - 1].1)
  }

  /** Statements on different keys do not disturb each other: each row replays its own key's history. */
  lemma {:induction false} RowsAreIndependent(log: seq<(Key, Event)>, key: Key)
    ensures RowAt(ObserveAll(log), key) == History.Replay(Project(log, key))
  {
    if log != [] {
      var before, last := log[..|log| - 1], log[|log| - 1];
      RowsAreIndependent(before, key);
      if last.0 == key { History.ReplayStep(Project(before, key), last.1); }
    }
  }
}
