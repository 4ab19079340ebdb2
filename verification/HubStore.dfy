/** The hub's store, statement by statement (internal/hubstore). */
module HubStore {
  import opened Basics
  import opened CertState
  import opened Config
  import opened Tables

  /** The rows of a query, in an order the database chooses. */
  method ReadRows<T(!new)>(rows: set<T>) returns (r: seq<T>)
    ensures Enumerates(r, rows)
  {
    r := [];
    var rest := rows;
    while rest != {}
      invariant rest <= rows
      invariant Enumerates(r, rows - rest)
      decreases |rest|
    {
      var x :| x in rest;
      r, rest := r + [x], rest - {x};
    }
  }

  /** What one spoke looks like to a caller: identity, tokens and certificates. */
  datatype Spoke = Spoke(id: string, tokens: seq<string>, certs: seq<CertConfig>)

  function CertsOf(certs: map<Key, Policy>, spoke: string): set<CertConfig>
  {
    set k | k in certs && k.0 == spoke :: CertConfig(k.1, certs[k])
  }

  function Lookup<T>(m: map<string, seq<T>>, id: string): seq<T>
  {
    if id in m then m[id] else []
  }

  /** `m` groups the token table by owner. */
  ghost predicate GroupsTokens(m: map<string, seq<string>>, tokens: map<string, string>)
  {
    forall id: string :: Enumerates(Lookup(m, id), TokensOf(tokens, id))
  }

  /** `m` groups the certificate table by spoke. */
  ghost predicate GroupsCerts(m: map<string, seq<CertConfig>>, certs: map<Key, Policy>)
  {
    forall id: string :: Enumerates(Lookup(m, id), CertsOf(certs, id))
  }

  /** The part of a table that a row loop has seen. */
  ghost function Restrict<K, V>(table: map<K, V>, seen: seq<K>): map<K, V>
  {
    map k | k in table && k in seen :: table[k]
  }

  lemma GroupOneMore(m: map<string, seq<string>>, tokens: map<string, string>, token: string, owner: string)
    requires GroupsTokens(m, tokens) && token !in tokens
    ensures GroupsTokens(m[owner := Lookup(m, owner) + [token]], tokens[token := owner])
  {
    var m', tokens' := m[owner := Lookup(m, owner) + [token]], tokens[token := owner];
    forall id: string ensures Enumerates(Lookup(m', id), TokensOf(tokens', id)) {
      assert Enumerates(Lookup(m, id), TokensOf(tokens, id));
      assert TokensOf(tokens', id) == TokensOf(tokens, id) + if id == owner then {token} else {};
    }
  }

  lemma GroupOneCertMore(m: map<string, seq<CertConfig>>, certs: map<Key, Policy>, k: Key, policy: Policy)
    requires GroupsCerts(m, certs) && k !in certs
    ensures GroupsCerts(m[k.0 := Lookup(m, k.0) + [CertConfig(k.1, policy)]], certs[k := policy])
  {
    var cert := CertConfig(k.1, policy);
    var m', certs' := m[k.0 := Lookup(m, k.0) + [cert]], certs[k := policy];
    forall id: string ensures Enumerates(Lookup(m', id), CertsOf(certs', id)) {
      assert Enumerates(Lookup(m, id), CertsOf(certs, id));
      assert CertsOf(certs', id) == CertsOf(certs, id) + if id == k.0 then {cert} else {} by {
        forall c | c in CertsOf(certs, id) ensures c in CertsOf(certs', id) { assert (id, c.name) in certs'; }
        if id == k.0 { assert k in certs' && k == (id, cert.name); }
      }
      assert cert in CertsOf(certs, id) ==> (id, cert.name) in certs;
    }
  }

  /** Five deletes by spoke leave what WithoutSpoke says. */
  lemma RowsOfOthers(db: Db, id: string)
    ensures WithoutSpoke(db, id).tokens == db.tokens - set t | t in db.tokens && db.tokens[t] == id
    ensures WithoutSpoke(db, id).certs == db.certs - set k | k in db.certs && k.0 == id
    ensures WithoutSpoke(db, id).observed == db.observed - set k | k in db.observed && k.0 == id
    ensures WithoutSpoke(db, id).enrolments
      == db.enrolments - set s | s in db.enrolments && db.enrolments[s].spoke == id
  {
  }

  class Store {
    var spokes: set<string>
    var tokens: map<string, string>
    var certs: map<Key, Policy>
    var providers: map<string, ProviderConfig>
    var observed: map<Key, Row>
    var enrolments: map<string, Enrolment>

    function Contents(): Db
      reads this
    {
      Db(spokes, tokens, certs, providers, observed, enrolments)
    }

    constructor ()
      ensures Contents() == EMPTY
    {
      spokes, tokens, certs, providers, observed, enrolments := {}, map[], map[], map[], map[], map[];
    }

    /** Other connections between two statements of a handler: they may do anything to the database. */
    method Meanwhile(others: Db -> Db)
      modifies this
      ensures Contents() == others(old(Contents()))
    {
      var db := others(Contents());
      spokes, tokens, certs, providers := db.spokes, db.tokens, db.certs, db.providers;
      observed, enrolments := db.observed, db.enrolments;
    }

    // ----- spokes.go -----

    method CreateSpoke(id: string, token: string) returns (reply: Reply)
      modifies this
      ensures (Contents(), reply) == Perform(old(Contents()), Tables.CreateSpoke(id, token))
    {
      var begin := spokes;
      if id in spokes { return AlreadyExists; }
      spokes := spokes + {id};
      if token in tokens {
        spokes := begin;  // the deferred Rollback
        return TokenInUse;
      }
      tokens := tokens[token := id];
      return Done;
    }

    method DeleteSpoke(id: string) returns (reply: Reply)
      modifies this
      ensures (Contents(), reply) == Perform(old(Contents()), Tables.DeleteSpoke(id))
    {
      if id !in spokes { return NotFound; }
      RowsOfOthers(Contents(), id);
      spokes := spokes - {id};
      tokens := tokens - (set t | t in tokens && tokens[t] == id);
      certs := certs - (set k | k in certs && k.0 == id);
      observed := observed - (set k | k in observed && k.0 == id);
      enrolments := enrolments - (set s | s in enrolments && enrolments[s].spoke == id);
      return Done;
    }

    method SpokeExists(id: string) returns (exists_: bool)
      ensures exists_ == (id in spokes)
    {
      return id in spokes;
    }

    method AddSpokeToken(id: string, token: string) returns (reply: Reply)
      modifies this
      ensures (Contents(), reply) == Perform(old(Contents()), Tables.AddSpokeToken(id, token))
    {
      var found := SpokeExists(id);
      if !found { return NotFound; }
      if token in tokens { return TokenInUse; }
      tokens := tokens[token := id];
      return Done;
    }

    method RemoveSpokeToken(id: string, token: string) returns (reply: Reply)
      modifies this
      ensures (Contents(), reply) == Perform(old(Contents()), Tables.RemoveSpokeToken(id, token))
    {
      var count := |TokensOf(tokens, id)|;
      if count <= 1 { return LastToken; }
      var affected := set t | t in tokens && t == token && tokens[t] == id;
      tokens := tokens - affected;
      if affected == {} {
        assert tokens == old(tokens);
        return NotFound;
      }
      assert affected == {token};
      return Done;
    }

    // ----- spokecerts.go -----

    method UpsertSpokeCert(id: string, cert: CertConfig) returns (reply: Reply)
      modifies this
      ensures (Contents(), reply) == Perform(old(Contents()), Tables.UpsertSpokeCert(id, cert))
    {
      var policy := cert.policy;
      var nameOk := ValidateCertName(cert.name);
      if !nameOk || |policy.domains| == 0 { return Invalid; }
      for i := 0 to |policy.domains|
        invariant unchanged(this)
        invariant forall j :: 0 <= j < i ==> ValidDomain(policy.domains[j])
      {
        var domainOk := ValidateDomain(policy.domains[i]);
        if !domainOk { return Invalid; }
      }
      if policy.provider == "" { return Invalid; }
      var domainSet: set<string> := {};
      for i := 0 to |policy.domains|
        invariant unchanged(this)
        invariant forall d :: d in domainSet <==> d in policy.domains[..i]
      {
        domainSet := domainSet + {policy.domains[i]};
      }
      assert policy.domains[..|policy.domains|] == policy.domains;
      var keys := ReadRows(policy.overrides.Keys);
      for i := 0 to |keys|
        invariant unchanged(this)
        invariant forall j :: 0 <= j < i ==> keys[j] in policy.domains
      {
        if keys[i] !in domainSet {
          assert keys[i] in policy.overrides;
          return Invalid;
        }
      }
      assert WellFormed(cert) by {
        forall d | d in policy.overrides ensures d in policy.domains { assert d in keys; }
      }

      if id !in spokes { return NotFound; }
      if policy.provider !in providers { return Invalid; }
      for i := 0 to |keys|
        invariant unchanged(this)
        invariant forall j :: 0 <= j < i ==> keys[j] in policy.overrides && policy.overrides[keys[j]] in providers
      {
        assert keys[i] in policy.overrides;
        if policy.overrides[keys[i]] !in providers { return Invalid; }
      }
      assert ProvidersExist(policy, providers.Keys) by {
        forall d | d in policy.overrides ensures policy.overrides[d] in providers { assert d in keys; }
      }
      certs := certs[(id, cert.name) := policy];
      return Done;
    }

    method RemoveSpokeCert(id: string, name: string) returns (reply: Reply)
      modifies this
      ensures (Contents(), reply) == Perform(old(Contents()), Tables.RemoveSpokeCert(id, name))
    {
      var affected := set k | k in certs && k == (id, name);
      certs := certs - affected;
      if affected == {} {
        assert certs == old(certs);
        assert (id, name) !in certs;
        return NotFound;
      }
      assert affected == {(id, name)};
      return Done;
    }

    // ----- dnsproviders.go -----

    method UpsertDNSProvider(name: string, config: ProviderConfig) returns (reply: Reply)
      modifies this
      ensures (Contents(), reply) == Perform(old(Contents()), Tables.UpsertDNSProvider(name, config))
    {
      if name == "" { return Invalid; }
      providers := providers[name := config];
      return Done;
    }

    /** The nested scan of every certificate and every override before the delete. */
    method RemoveDNSProvider(name: string) returns (reply: Reply)
      modifies this
      ensures (Contents(), reply) == Perform(old(Contents()), Tables.RemoveDNSProvider(name))
    {
      var rows := ReadRows(certs.Keys);
      for i := 0 to |rows|
        invariant unchanged(this)
        invariant forall j :: 0 <= j < i ==> rows[j] in certs && !Uses(certs[rows[j]], name)
      {
        assert rows[i] in certs;
        var policy := certs[rows[i]];
        if policy.provider == name { return InUse; }
        var keys := ReadRows(policy.overrides.Keys);
        for j := 0 to |keys|
          invariant unchanged(this)
          invariant forall l :: 0 <= l < j ==> keys[l] in policy.overrides && policy.overrides[keys[l]] != name
        {
          assert keys[j] in policy.overrides;
          if policy.overrides[keys[j]] == name { return InUse; }
        }
        forall d | d in policy.overrides ensures policy.overrides[d] != name { assert d in keys; }
      }
      forall k | k in certs ensures !Uses(certs[k], name) { assert k in rows; }
      if name !in providers { return NotFound; }
      providers := providers - {name};
      return Done;
    }

    // ----- enrolltoken.go -----

    method InsertEnrollmentToken(secret: string, id: string, bearer: string, expires: int) returns (reply: Reply)
      modifies this
      ensures (Contents(), reply) == Perform(old(Contents()), Tables.InsertEnrollmentToken(secret, id, bearer, expires))
    {
      if secret in enrolments { return Invalid; }
      enrolments := enrolments[secret := Enrolment(id, bearer, expires, None)];
      return Done;
    }

    method LookupEnrollmentToken(secret: string, now: int) returns (found: Option<Enrolment>)
      ensures found.Some? <==>
        secret in enrolments && enrolments[secret].redeemedAt == None && now < enrolments[secret].expires
      ensures found.Some? ==> found.value == enrolments[secret]
    {
      if secret in enrolments && enrolments[secret].redeemedAt.None? && enrolments[secret].expires > now {
        return Some(enrolments[secret]);
      }
      return None;
    }

    method RedeemEnrollmentToken(secret: string, now: int) returns (redeemed: bool)
      modifies this
      ensures (Contents(), if redeemed then Done else NotFound)
        == Perform(old(Contents()), Tables.RedeemEnrollmentToken(secret, now))
      ensures var was := old(enrolments);
        && (redeemed <==> secret in was && was[secret].redeemedAt == None && now < was[secret].expires)
        && enrolments == if redeemed then was[secret := was[secret].(redeemedAt := Some(now))] else was
    {
      if secret !in enrolments || enrolments[secret].redeemedAt.Some? || enrolments[secret].expires <= now {
        return false;
      }
      enrolments := enrolments[secret := enrolments[secret].(redeemedAt := Some(now))];
      return true;
    }

    // ----- certstate.go -----

    method CheckinActive(key: Key, now: int, notBefore: int, notAfter: int, serial: string)
      modifies this
      ensures Contents() == Perform(old(Contents()), Observe(key, Activated(now, notBefore, notAfter, serial))).0
    {
      if key !in observed {
        observed := observed[key := Row(Some(notBefore), Some(notAfter), Some(serial), Active, Some(now), None, 0,
                                        Some(now), None, None, None)];
      } else {
        observed := observed[key := observed[key].(
          notBefore := Some(notBefore), notAfter := Some(notAfter), serial := Some(serial), status := Active,
          lastCheckin := Some(now), lastError := None, failures := 0, lastSuccess := Some(now), claim := None)];
      }
    }

    method CheckinFailed(key: Key, now: int, error: Option<string>, failures: int)
      modifies this
      ensures Contents() == Perform(old(Contents()), Observe(key, FailureReported(now, error, failures))).0
    {
      if key !in observed {
        observed := observed[key := Row(None, None, None, Failed, Some(now), error, failures, None, None, None, None)];
      } else {
        observed := observed[key := observed[key].(
          status := Failed, lastCheckin := Some(now), lastError := error, failures := failures, claim := None)];
      }
    }

    method MarkHookResult(key: Key, now: int, error: Option<string>)
      modifies this
      ensures Contents() == Perform(old(Contents()), Observe(key, HookReported(now, error))).0
    {
      if key !in observed {
        observed := observed[key := Row(None, None, None, Unknown, None, None, 0, None, None, Some(now), error)];
      } else {
        observed := observed[key := observed[key].(lastHook := Some(now), hookError := error)];
      }
    }

    method Get(key: Key) returns (row: Option<Row>)
      ensures row == RowAt(observed, key)
    {
      if key in observed { return Some(observed[key]); }
      return None;
    }

    method All() returns (rows: seq<(Key, Row)>)
      ensures Enumerates(rows, set k | k in observed :: (k, observed[k]))
    {
      rows := ReadRows(set k | k in observed :: (k, observed[k]));
    }

    /** The guarded upsert: `claimed` says whether it affected a row. */
    method Claim(key: Key, now: int, lease: nat) returns (claimed: bool)
      modifies this
      ensures claimed == Grants(RowAt(old(observed), key), now)
      ensures Contents() == Perform(old(Contents()), Observe(key, ClaimTried(now, key.0, lease))).0
    {
      var taken := Some(Lease(key.0, now, now + lease));
      if key !in observed {
        observed := observed[key := Row(None, None, None, Unknown, None, None, 0, None, taken, None, None)];
        return true;
      }
      var row := observed[key];
      if row.claim.None? || row.claim.value.expires < now {
        observed := observed[key := row.(claim := taken)];
        return true;
      }
      assert observed[key := row] == observed;
      return false;
    }

    // ----- Readers of the desired state -----

    /** GetSpoke: three queries, with whatever other connections do between them. */
    method GetSpoke(id: string, others1: Db -> Db, others2: Db -> Db) returns (spoke: Option<Spoke>)
      modifies this
      ensures var db0 := old(Contents()); var db1 := others1(db0); var db2 := others2(db1);
        && (spoke.Some? <==> id in db0.spokes)
        && Contents() == (if spoke.Some? then db2 else db0)
        && (spoke.Some? ==>
              && spoke.value.id == id
              && Enumerates(spoke.value.tokens, TokensOf(db1.tokens, id))
              && Enumerates(spoke.value.certs, CertsOf(db2.certs, id)))
    {
      var found := SpokeExists(id);
      if !found { return None; }
      Meanwhile(others1);
      var owned := ReadRows(TokensOf(tokens, id));
      Meanwhile(others2);
      var held := ReadRows(CertsOf(certs, id));
      return Some(Spoke(id, owned, held));
    }

    method DNSProviderExists(name: string) returns (exists_: bool)
      ensures exists_ == (name in providers)
    {
      return name in providers;
    }

    method AllSpokeIDs() returns (ids: seq<string>)
      ensures Enumerates(ids, spokes)
    {
      ids := ReadRows(spokes);
    }

    method AllSpokeTokens() returns (bySpoke: map<string, seq<string>>)
      ensures GroupsTokens(bySpoke, tokens)
    {
      var rows := ReadRows(tokens.Keys);
      bySpoke := map[];
      for i := 0 to |rows|
        invariant GroupsTokens(bySpoke, Restrict(tokens, rows[..i]))
      {
        var token := rows[i];
        var owner := tokens[token];
        ghost var before := Restrict(tokens, rows[..i]);
        assert token !in rows[..i] && rows[..i + 1] == rows[..i] + [token];
        assert Restrict(tokens, rows[..i + 1]) == before[token := owner];
        assert Enumerates(Lookup(bySpoke, owner), TokensOf(before, owner));
        GroupOneMore(bySpoke, before, token, owner);
        bySpoke := bySpoke[owner := Lookup(bySpoke, owner) + [token]];
      }
      assert rows[..|rows|] == rows && Restrict(tokens, rows) == tokens;
    }

    method AllSpokeCerts() returns (bySpoke: map<string, seq<CertConfig>>)
      ensures GroupsCerts(bySpoke, certs)
    {
      var rows := ReadRows(certs.Keys);
      bySpoke := map[];
      for i := 0 to |rows|
        invariant GroupsCerts(bySpoke, Restrict(certs, rows[..i]))
      {
        var k := rows[i];
        ghost var before := Restrict(certs, rows[..i]);
        assert k !in rows[..i] && rows[..i + 1] == rows[..i] + [k];
        assert Restrict(certs, rows[..i + 1]) == before[k := certs[k]];
        GroupOneCertMore(bySpoke, before, k, certs[k]);
        bySpoke := bySpoke[k.0 := Lookup(bySpoke, k.0) + [CertConfig(k.1, certs[k])]];
      }
      assert rows[..|rows|] == rows && Restrict(certs, rows) == certs;
    }

    method AllDNSProviders() returns (all: map<string, ProviderConfig>)
      ensures all == providers
    {
      var names := ReadRows(providers.Keys);
      all := map[];
      for i := 0 to |names|
        invariant all.Keys == set n | n in names[..i]
        invariant forall n :: n in all ==> n in providers && all[n] == providers[n]
      {
        assert names[i] in providers;
        assert names[..i + 1] == names[..i] + [names[i]];
        all := all[names[i] := providers[names[i]]];
      }
      assert names[..|names|] == names;
    }
  }

  /** The merge of AllSpokes: one entry per id, with whatever the other two queries grouped under it. */
  method MergeSpokes(ids: seq<string>, tokens: map<string, seq<string>>, certs: map<string, seq<CertConfig>>)
    returns (spokes: seq<Spoke>)
    ensures |spokes| == |ids|
    ensures forall i :: 0 <= i < |ids| ==> spokes[i] == Spoke(ids[i], Lookup(tokens, ids[i]), Lookup(certs, ids[i]))
  {
    spokes := [];
    for i := 0 to |ids|
      invariant |spokes| == i
      invariant forall j :: 0 <= j < i ==> spokes[j] == Spoke(ids[j], Lookup(tokens, ids[j]), Lookup(certs, ids[j]))
    {
      spokes := spokes + [Spoke(ids[i], Lookup(tokens, ids[i]), Lookup(certs, ids[i]))];
    }
  }
}
