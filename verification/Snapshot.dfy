/**
 * The served snapshot of the desired state and what requests read from it
 * (internal/hubapi/server.go, auth.go, dns01.go).
 */
module Snapshot {
  import opened Basics
  import opened CertState
  import opened Config
  import opened Tables
  import opened HubStore
  import Integrity

  datatype HubState = HubState(
    spokes: map<string, SpokeEntry>,
    tokenToSpoke: map<string, string>,
    providers: set<string>)

  /** `list` merges three reads: the spoke ids, the token table and the certificate table. */
  ghost predicate Merges(list: seq<Spoke>, ids: set<string>, tokens: map<string, string>, certs: map<Key, Policy>)
  {
    && Enumerates(seq(|list|, i requires 0 <= i < |list| => list[i].id), ids)
    && forall i :: 0 <= i < |list| ==>
         && Enumerates(list[i].tokens, TokensOf(tokens, list[i].id))
         && Enumerates(list[i].certs, CertsOf(certs, list[i].id))
  }

  /**
   * The snapshot of three table reads: exactly the spokes of the first read, each with the tokens and certificates
   * the other two attribute to it, and an index of exactly the tokens whose owner is among them.
   */
  ghost predicate SnapshotOf(hs: HubState, ids: set<string>, tokens: map<string, string>, certs: map<Key, Policy>)
  {
    && hs.spokes.Keys == ids
    && (forall id :: id in ids ==>
          && Enumerates(hs.spokes[id].tokens, TokensOf(tokens, id))
          && Enumerates(hs.spokes[id].certs, CertsOf(certs, id)))
    && (forall t :: t in hs.tokenToSpoke <==> t in tokens && tokens[t] in ids)
    && (forall t :: t in hs.tokenToSpoke ==> hs.tokenToSpoke[t] == tokens[t])
  }

  /** The index says what the served entries say. */
  ghost predicate IndexExact(hs: HubState)
  {
    forall t, s :: (t in hs.tokenToSpoke && hs.tokenToSpoke[t] == s) <==> (s in hs.spokes && t in hs.spokes[s].tokens)
  }

  /** buildState's inner loop: one entry per token, all pointing at the same spoke. */
  method IndexTokens(index: map<string, string>, spoke: Spoke) returns (r: map<string, string>)
    ensures forall t :: t in r <==> t in index || t in spoke.tokens
    ensures forall t :: t in r ==> r[t] == if t in spoke.tokens then spoke.id else index[t]
  {
    r := index;
    for k := 0 to |spoke.tokens|
      invariant forall t :: t in r <==> t in index || t in spoke.tokens[..k]
      invariant forall t :: t in r ==> r[t] == if t in spoke.tokens[..k] then spoke.id else index[t]
    {
      assert spoke.tokens[..k + 1] == spoke.tokens[..k] + [spoke.tokens[k]];
      r := r[spoke.tokens[k] := spoke.id];
    }
    assert spoke.tokens[..|spoke.tokens|] == spoke.tokens;
  }

  /** buildState's last loop: every provider is built, or the whole build fails. */
  method BuildProviders(providers: map<string, ProviderConfig>, buildable: ProviderConfig -> bool)
    returns (built: Option<set<string>>)
    ensures built == if forall n :: n in providers ==> buildable(providers[n]) then Some(providers.Keys) else None
  {
    var names := ReadRows(providers.Keys);
    var done: set<string> := {};
    for i := 0 to |names|
      invariant done == set n | n in names[..i]
      invariant forall n :: n in done ==> n in providers && buildable(providers[n])
    {
      assert names[i] in providers;
      if !buildable(providers[names[i]]) { return None; }
      assert names[..i + 1] == names[..i] + [names[i]];
      done := done + {names[i]};
    }
    assert names[..|names|] == names;
    assert done == providers.Keys;
    return Some(done);
  }

  /**
   * buildState, given what its store reads returned. Each read is one statement, but writes may fall between them,
   * so `ids`, `tokens` and `certs` may stem from three different states of the database.
   */
  method BuildState(list: seq<Spoke>, providers: map<string, ProviderConfig>, buildable: ProviderConfig -> bool,
                    ghost ids: set<string>, ghost tokens: map<string, string>, ghost certs: map<Key, Policy>)
    returns (hs: Option<HubState>)
    requires Merges(list, ids, tokens, certs)
    ensures hs.Some? <==> forall n :: n in providers ==> buildable(providers[n])
    ensures hs.Some? ==> SnapshotOf(hs.value, ids, tokens, certs) && hs.value.providers == providers.Keys
  {
    var spokes: map<string, SpokeEntry>, index: map<string, string> := map[], map[];
    ghost var seen: set<string> := {};
    ghost var listed := seq(|list|, i requires 0 <= i < |list| => list[i].id);
    for i := 0 to |list|
      invariant seen == set id | id in listed[..i]
      invariant SnapshotOf(HubState(spokes, index, {}), seen, tokens, certs)
    {
      var spoke := list[i];
      assert listed[i] == spoke.id && listed[..i + 1] == listed[..i] + [spoke.id];
      forall t ensures t in spoke.tokens <==> t in tokens && tokens[t] == spoke.id {
        assert t in spoke.tokens <==> t in TokensOf(tokens, spoke.id);
      }
      spokes := spokes[spoke.id := SpokeEntry(spoke.tokens, spoke.certs)];
      index := IndexTokens(index, spoke);
      seen := seen + {spoke.id};
    }
    assert listed[..|list|] == listed && seen == ids;
    var built := BuildProviders(providers, buildable);
    return if built.Some? then Some(HubState(spokes, index, built.value)) else None;
  }

  /** Whatever moments the reads come from, the index is exact: a token row names one owner. */
  lemma IndexRefinesEntries(hs: HubState, ids: set<string>, tokens: map<string, string>, certs: map<Key, Policy>)
    requires SnapshotOf(hs, ids, tokens, certs)
    ensures IndexExact(hs)
  {
    forall s, t | s in ids ensures t in hs.spokes[s].tokens <==> t in tokens && tokens[t] == s {
      assert t in hs.spokes[s].tokens <==> t in TokensOf(tokens, s);
    }
  }

  // ----- authorize -----

  datatype Verdict = Allowed(spoke: string, cert: CertConfig) | Unauthorized | Forbidden

  /** The token of an Authorization header. */
  function BearerToken(header: string): Option<string>
  {
    if "Bearer " <= header && |header| > 7 then Some(header[7..]) else None
  }

  /** Exactly the headers of the form "Bearer ", then a token. */
  lemma BearerTokenExactly(header: string, token: string)
    ensures BearerToken(header) == Some(token) <==> token != "" && header == "Bearer " + token
    ensures BearerToken(header) == None <==> forall t :: t != "" ==> header != "Bearer " + t
  {
    if BearerToken(header).Some? {
      assert header == "Bearer " + header[7..];
    }
    forall t | t != "" && header == "Bearer " + t ensures BearerToken(header) == Some(t) {
      assert header[7..] == t;
    }
  }

  /** The entries of the snapshot in some iteration order. */
  ghost predicate ListsEntries(list: seq<Spoke>, hs: HubState)
  {
    && (forall i :: 0 <= i < |list| ==>
          list[i].id in hs.spokes && hs.spokes[list[i].id] == SpokeEntry(list[i].tokens, list[i].certs))
    && (forall id :: id in hs.spokes ==> exists i :: 0 <= i < |list| && list[i].id == id)
  }

  /** The reference: look through all spokes for the token, then through that spoke's certificates for the name. */
  function SearchSpokes(list: seq<Spoke>, token: string, name: string): Verdict
  {
    if list == [] then Unauthorized
    else if token in list[0].tokens then SearchCerts(list[0].id, list[0].certs, name)
    else SearchSpokes(list[1..], token, name)
  }

  function SearchCerts(spoke: string, certs: seq<CertConfig>, name: string): Verdict
  {
    if certs == [] then Forbidden
    else if certs[0].name == name then Allowed(spoke, certs[0])
    else SearchCerts(spoke, certs[1..], name)
  }

  lemma {:induction false} SearchCertsSkips(spoke: string, certs: seq<CertConfig>, name: string, i: nat)
    requires i <= |certs| && forall j :: 0 <= j < i ==> certs[j].name != name
    ensures SearchCerts(spoke, certs, name) == SearchCerts(spoke, certs[i..], name)
  {
    if i > 0 {
      SearchCertsSkips(spoke, certs, name, i - 1);
      assert certs[i - 1..][1..] == certs[i..];
    } else {
      assert certs[0..] == certs;
    }
  }

  /** In an exact snapshot the token decides the spoke, whatever the order of the list. */
  lemma {:induction false} SearchFindsOwner(hs: HubState, list: seq<Spoke>, token: string, name: string)
    requires IndexExact(hs)
    requires forall i :: 0 <= i < |list| ==>
      list[i].id in hs.spokes && hs.spokes[list[i].id] == SpokeEntry(list[i].tokens, list[i].certs)
    ensures (exists i :: 0 <= i < |list| && token in list[i].tokens) ==>
      token in hs.tokenToSpoke && hs.tokenToSpoke[token] in hs.spokes
      && SearchSpokes(list, token, name)
         == SearchCerts(hs.tokenToSpoke[token], hs.spokes[hs.tokenToSpoke[token]].certs, name)
    ensures (forall i :: 0 <= i < |list| ==> token !in list[i].tokens) ==>
      SearchSpokes(list, token, name) == Unauthorized
  {
    if list != [] && token !in list[0].tokens {
      SearchFindsOwner(hs, list[1..], token, name);
    }
  }

  /** authorize: one map lookup and one loop, and the same verdict as the search through everything. */
  method Authorize(hs: HubState, header: string, name: string, ghost list: seq<Spoke>) returns (verdict: Verdict)
    requires IndexExact(hs) && ListsEntries(list, hs)
    ensures verdict == match BearerToken(header)
      case None => Unauthorized
      case Some(token) => SearchSpokes(list, token, name)
  {
    if !("Bearer " <= header) { return Unauthorized; }
    var token := header[7..];
    if token == "" { return Unauthorized; }
    SearchFindsOwner(hs, list, token, name);
    if token !in hs.tokenToSpoke {
      forall i | 0 <= i < |list| ensures token !in list[i].tokens {
        assert hs.spokes[list[i].id].tokens == list[i].tokens;
      }
      return Unauthorized;
    }
    var spoke := hs.tokenToSpoke[token];
    assert exists i :: 0 <= i < |list| && token in list[i].tokens;
    var certs := hs.spokes[spoke].certs;
    for i := 0 to |certs|
      invariant SearchCerts(spoke, certs, name) == SearchCerts(spoke, certs[i..], name)
    {
      if certs[i].name == name { return Allowed(spoke, certs[i]); }
      assert certs[i..][1..] == certs[i + 1..];
    }
    return Forbidden;
  }

  /** An allowed request names a served spoke, one of its tokens, and one of its certificates. */
  lemma {:induction false} AllowedMeansServed(hs: HubState, list: seq<Spoke>, token: string, name: string)
    requires IndexExact(hs) && ListsEntries(list, hs)
    ensures match SearchSpokes(list, token, name)
      case Allowed(spoke, cert) =>
        cert.name == name && spoke in hs.spokes && token in hs.spokes[spoke].tokens && cert in hs.spokes[spoke].certs
      case Unauthorized => forall s :: s in hs.spokes ==> token !in hs.spokes[s].tokens
      case Forbidden =>
        exists s ::
          s in hs.spokes && token in hs.spokes[s].tokens && forall c :: c in hs.spokes[s].certs ==> c.name != name
  {
    SearchFindsOwner(hs, list, token, name);
    if token in hs.tokenToSpoke {
      var s := hs.tokenToSpoke[token];
      assert token in hs.spokes[s].tokens;
      var i :| 0 <= i < |list| && list[i].id == s;
      assert token in list[i].tokens;
      SearchCertsSound(s, hs.spokes[s].certs, name);
    } else {
      forall i | 0 <= i < |list| ensures token !in list[i].tokens {
        assert hs.spokes[list[i].id].tokens == list[i].tokens;
      }
    }
  }

  lemma {:induction false} SearchCertsSound(spoke: string, certs: seq<CertConfig>, name: string)
    ensures match SearchCerts(spoke, certs, name)
      case Allowed(s, cert) => s == spoke && cert in certs && cert.name == name
      case Unauthorized => false
      case Forbidden => forall c :: c in certs ==> c.name != name
  {
    if certs != [] && certs[0].name != name {
      SearchCertsSound(spoke, certs[1..], name);
      assert forall c :: c in certs ==> c == certs[0] || c in certs[1..];
    }
  }

  /** The certificates the watchdog and the status page range over are those the third read found for known spokes. */
  lemma ConfiguredIsRead(hs: HubState, ids: set<string>, tokens: map<string, string>, certs: map<Key, Policy>)
    requires SnapshotOf(hs, ids, tokens, certs)
    ensures Configured(hs.spokes) == set k | k in certs && k.0 in ids
  {
    forall id, c | id in ids
      ensures c in hs.spokes[id].certs <==> (id, c.name) in certs && certs[(id, c.name)] == c.policy
    {
      assert c in hs.spokes[id].certs <==> c in CertsOf(certs, id);
    }
    forall k | k in certs && k.0 in ids ensures k in Configured(hs.spokes) {
      assert CertConfig(k.1, certs[k]) in hs.spokes[k.0].certs;
    }
  }

  /**
   * The verdict follows from the table reads alone: a token that no known spoke owns is unauthorised, a certificate its
   * owner does not have is forbidden, and any other is allowed with the policy on file.
   */
  lemma VerdictFollowsTables(hs: HubState, list: seq<Spoke>, ids: set<string>, tokens: map<string, string>,
                             certs: map<Key, Policy>, token: string, name: string)
    requires SnapshotOf(hs, ids, tokens, certs) && ListsEntries(list, hs)
    ensures SearchSpokes(list, token, name) ==
      if token !in tokens || tokens[token] !in ids then Unauthorized
      else if (tokens[token], name) !in certs then Forbidden
      else Allowed(tokens[token], CertConfig(name, certs[(tokens[token], name)]))
  {
    IndexRefinesEntries(hs, ids, tokens, certs);
    AllowedMeansServed(hs, list, token, name);
    if token in tokens && tokens[token] in ids {
      var s := tokens[token];
      assert token in hs.tokenToSpoke && token in hs.spokes[s].tokens;
      var i :| 0 <= i < |list| && list[i].id == s;
      SearchFindsOwner(hs, list, token, name);
      SearchCertsSound(s, hs.spokes[s].certs, name);
      forall c ensures c in hs.spokes[s].certs <==> (s, c.name) in certs && certs[(s, c.name)] == c.policy {
        assert c in hs.spokes[s].certs <==> c in CertsOf(certs, s);
      }
      if (s, name) in certs { assert CertConfig(name, certs[(s, name)]) in hs.spokes[s].certs; }
    } else {
      forall s | s in hs.spokes ensures token !in hs.spokes[s].tokens {
        assert token in hs.spokes[s].tokens <==> token in TokensOf(tokens, s);
      }
    }
  }

  // ----- DNS relay -----

  /** `normalizeDomain`; `lower` is the character mapping of strings.ToLower. */
  function Normalize(lower: char -> char, d: string): string
  {
    var trimmed := if |d| > 0 && d[|d| - 1] == '.' then d[..|d| - 1] else d;
    seq(|trimmed|, i requires 0 <= i < |trimmed| => lower(trimmed[i]))
  }

  predicate Matches(lower: char -> char, a: string, b: string)
  {
    Normalize(lower, a) == Normalize(lower, b)
  }

  /** The number of characters that count: a final dot does not. */
  function Significant(d: string): nat
  {
    if |d| > 0 && d[|d| - 1] == '.' then |d| - 1 else |d|
  }

  /** Two domains match exactly if they are equal character by character in lower case, one final dot aside. */
  lemma MatchesExactly(lower: char -> char, a: string, b: string)
    ensures Matches(lower, a, b) <==>
      && Significant(a) == Significant(b)
      && forall i :: 0 <= i < Significant(a) ==> lower(a[i]) == lower(b[i])
    ensures a == "" || a[|a| - 1] != '.' ==> Matches(lower, a, a + ".") && !Matches(lower, a, a + "..")
  {
    var x, y := Normalize(lower, a), Normalize(lower, b);
    assert |x| == Significant(a) && forall i :: 0 <= i < |x| ==> x[i] == lower(a[i]);
    assert |y| == Significant(b) && forall i :: 0 <= i < |y| ==> y[i] == lower(b[i]);
    assert |Normalize(lower, a + "..")| == |a| + 1;
    assert Significant(a + ".") == |a| && (a + ".")[..|a|] == a;
  }

  /** The domain is one of the certificate's, up to case and a final dot. */
  predicate IsAuthorised(lower: char -> char, policy: Policy, domain: string)
  {
    exists d :: d in policy.domains && Matches(lower, d, domain)
  }

  method DomainAuthorized(lower: char -> char, policy: Policy, domain: string) returns (ok: bool)
    ensures ok == IsAuthorised(lower, policy, domain)
  {
    var want := Normalize(lower, domain);
    for i := 0 to |policy.domains|
      invariant forall j :: 0 <= j < i ==> !Matches(lower, policy.domains[j], domain)
    {
      var d := policy.domains[i];
      if Normalize(lower, d) == want {
        assert d in policy.domains && Matches(lower, d, domain);
        return true;
      }
    }
    return false;
  }

  /** The provider resolveDNSProvider returns when it ranges over the overrides in this order. */
  function FirstMatch(lower: char -> char, policy: Policy, domain: string, order: seq<string>): string
    requires forall d :: d in order ==> d in policy.overrides
  {
    if order == [] then policy.provider
    else if Matches(lower, order[0], domain) then policy.overrides[order[0]]
    else FirstMatch(lower, policy, domain, order[1..])
  }

  method ResolveDNSProvider(lower: char -> char, policy: Policy, domain: string, order: seq<string>)
    returns (provider: string)
    requires Enumerates(order, policy.overrides.Keys)
    ensures provider == FirstMatch(lower, policy, domain, order)
  {
    var want := Normalize(lower, domain);
    assert forall d :: d in order ==> d in policy.overrides;
    for i := 0 to |order|
      invariant FirstMatch(lower, policy, domain, order) == FirstMatch(lower, policy, domain, order[i..])
    {
      assert order[i] in policy.overrides && order[i..][1..] == order[i + 1..];
      if Normalize(lower, order[i]) == want { return policy.overrides[order[i]]; }
    }
    return policy.provider;
  }

  /** The result is the default, when no override matches, or the provider of a matching override. */
  lemma {:induction false} FirstMatchIsAMatch(lower: char -> char, policy: Policy, domain: string, order: seq<string>)
    requires forall d :: d in order ==> d in policy.overrides
    ensures var p := FirstMatch(lower, policy, domain, order);
      (p == policy.provider && forall d :: d in order ==> !Matches(lower, d, domain))
      || exists d :: d in order && Matches(lower, d, domain) && p == policy.overrides[d]
  {
    if order != [] && !Matches(lower, order[0], domain) {
      FirstMatchIsAMatch(lower, policy, domain, order[1..]);
      assert forall d :: d in order ==> d == order[0] || d in order[1..];
    }
  }

  predicate IsMatch(lower: char -> char, policy: Policy, domain: string, override: string)
  {
    override in policy.overrides && Matches(lower, override, domain)
  }

  /** Every override that matches the domain names the same provider. */
  ghost predicate Unambiguous(lower: char -> char, policy: Policy, domain: string)
  {
    forall a, b :: IsMatch(lower, policy, domain, a) && IsMatch(lower, policy, domain, b) ==>
      policy.overrides[a] == policy.overrides[b]
  }

  /** Some enumeration of `elements` begins with `first`. */
  lemma {:induction false} EnumerationFrom(first: string, elements: set<string>) returns (order: seq<string>)
    requires first in elements
    ensures Enumerates(order, elements) && order != [] && order[0] == first
    decreases |elements|
  {
    var rest := elements - {first};
    if rest == {} {
      order := [first];
    } else {
      var next :| next in rest;
      var tail := EnumerationFrom(next, rest);
      order := [first] + tail;
    }
  }

  /** The resolved provider is independent of map order exactly when the matching overrides agree. */
  lemma ResolutionIsOrderFree(lower: char -> char, policy: Policy, domain: string)
    ensures Unambiguous(lower, policy, domain) <==>
      forall x, y :: Enumerates(x, policy.overrides.Keys) && Enumerates(y, policy.overrides.Keys) ==>
        FirstMatch(lower, policy, domain, x) == FirstMatch(lower, policy, domain, y)
  {
    if Unambiguous(lower, policy, domain) {
      forall x, y | Enumerates(x, policy.overrides.Keys) && Enumerates(y, policy.overrides.Keys)
        ensures FirstMatch(lower, policy, domain, x) == FirstMatch(lower, policy, domain, y)
      {
        FirstMatchIsAMatch(lower, policy, domain, x);
        FirstMatchIsAMatch(lower, policy, domain, y);
        assert forall d :: d in x <==> d in y;
      }
    } else {
      var a, b :| IsMatch(lower, policy, domain, a) && IsMatch(lower, policy, domain, b)
        && policy.overrides[a] != policy.overrides[b];
      var x := EnumerationFrom(a, policy.overrides.Keys);
      var y := EnumerationFrom(b, policy.overrides.Keys);
      assert FirstMatch(lower, policy, domain, x) != FirstMatch(lower, policy, domain, y);
    }
  }

  /** Distinct normalised override keys suffice. */
  lemma DistinctKeysAreUnambiguous(lower: char -> char, policy: Policy, domain: string)
    requires forall a, b :: a in policy.overrides && b in policy.overrides && Matches(lower, a, b) ==> a == b
    ensures Unambiguous(lower, policy, domain)
  {
    forall a, b | IsMatch(lower, policy, domain, a) && IsMatch(lower, policy, domain, b)
      ensures policy.overrides[a] == policy.overrides[b]
    {
      assert Matches(lower, a, b);
    }
  }

  /**
   * In a snapshot read at one moment from a consistent database, every certificate resolves every domain to a provider
   * of that snapshot, in every map order. Module Relay says when a reload in several reads publishes such a snapshot.
   */
  lemma ResolvedProviderIsServed(db: Db, hs: HubState, spoke: string, cert: CertConfig, lower: char -> char,
                                 domain: string, order: seq<string>)
    requires Integrity.Consistent(db)
    requires SnapshotOf(hs, db.spokes, db.tokens, db.certs) && hs.providers == db.providers.Keys
    requires spoke in hs.spokes && cert in hs.spokes[spoke].certs
    requires Enumerates(order, cert.policy.overrides.Keys)
    ensures FirstMatch(lower, cert.policy, domain, order) in hs.providers
  {
    assert cert in CertsOf(db.certs, spoke);
    assert ProvidersExist(db.certs[(spoke, cert.name)], db.providers.Keys);
    FirstMatchIsAMatch(lower, cert.policy, domain, order);
  }
}
