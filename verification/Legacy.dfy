/** Importing a pre-database configuration (config/legacy.go, cmd/acme-hub/main.go runImportConfig). */
module Legacy {
  import opened Basics
  import opened CertState
  import opened Config
  import opened Tables
  import opened HubStore
  import opened Snapshot

  datatype Document = Document(providers: map<string, ProviderConfig>, spokes: map<string, SpokeEntry>)

  // ----- validate -----

  ghost predicate TokensUnique(spokes: map<string, SpokeEntry>)
  {
    forall a, i, b, j :: (a in spokes && b in spokes && 0 <= i < |spokes[a].tokens| && 0 <= j < |spokes[b].tokens|
                          && spokes[a].tokens[i] == spokes[b].tokens[j]) ==> a == b && i == j
  }

  ghost predicate ValidTokens(entry: SpokeEntry)
  {
    entry.tokens != [] && forall i :: 0 <= i < |entry.tokens| ==> entry.tokens[i] != ""
  }

  predicate ValidCert(cert: CertConfig, providers: set<string>)
  {
    && ValidCertName(cert.name)
    && cert.policy.domains != []
    && (forall i :: 0 <= i < |cert.policy.domains| ==> ValidDomain(cert.policy.domains[i]))
    && (forall d :: d in cert.policy.overrides ==> d in cert.policy.domains)
    && ProvidersExist(cert.policy, providers)
  }

  /** The two checks agree on everything but a provider named by the empty string. */
  lemma ValidCertIsStorable(cert: CertConfig, providers: set<string>)
    ensures ValidCert(cert, providers) && cert.policy.provider != ""
      <==> WellFormed(cert) && ProvidersExist(cert.policy, providers)
  {
  }

  ghost predicate ValidCerts(certs: seq<CertConfig>, providers: set<string>)
  {
    && (forall i :: 0 <= i < |certs| ==> ValidCert(certs[i], providers))
    && forall i, j :: 0 <= i < j < |certs| ==> certs[i].name != certs[j].name
  }

  ghost predicate ValidDocument(doc: Document)
  {
    && TokensUnique(doc.spokes)
    && forall id :: id in doc.spokes ==>
         && ValidTokens(doc.spokes[id])
         && doc.spokes[id].certs != []
         && ValidCerts(doc.spokes[id].certs, doc.providers.Keys)
  }

  method ValidateCert(cert: CertConfig, providers: set<string>) returns (ok: bool)
    ensures ok == ValidCert(cert, providers)
  {
    var policy := cert.policy;
    ok := ValidateCertName(cert.name);
    if !ok || |policy.domains| == 0 { return false; }
    for i := 0 to |policy.domains|
      invariant forall j :: 0 <= j < i ==> ValidDomain(policy.domains[j])
    {
      ok := ValidateDomain(policy.domains[i]);
      if !ok { return false; }
    }
    if policy.provider !in providers { return false; }
    var domainSet := {};
    for i := 0 to |policy.domains|
      invariant forall d :: d in domainSet <==> d in policy.domains[..i]
    {
      domainSet := domainSet + {policy.domains[i]};
    }
    assert policy.domains[..|policy.domains|] == policy.domains;
    var keys := ReadRows(policy.overrides.Keys);
    for i := 0 to |keys|
      invariant forall j :: 0 <= j < i ==>
        keys[j] in policy.overrides && keys[j] in policy.domains && policy.overrides[keys[j]] in providers
    {
      assert keys[i] in policy.overrides;
      if keys[i] !in domainSet || policy.overrides[keys[i]] !in providers { return false; }
    }
    forall d | d in policy.overrides ensures d in policy.domains && policy.overrides[d] in providers {
      assert d in keys;
    }
    return true;
  }

  method ValidateCerts(certs: seq<CertConfig>, providers: set<string>) returns (ok: bool)
    ensures ok == ValidCerts(certs, providers)
  {
    var seenNames: set<string> := {};
    for i := 0 to |certs|
      invariant seenNames == set j | 0 <= j < i :: certs[j].name
      invariant ValidCerts(certs[..i], providers)
    {
      ok := ValidateCert(certs[i], providers);
      if !ok || certs[i].name in seenNames { return false; }
      seenNames := seenNames + {certs[i].name};
      assert forall j :: 0 <= j < i ==> certs[..i][j] == certs[j] && certs[j].name in seenNames;
    }
    assert certs[..|certs|] == certs;
    return true;
  }

  /** The tokens of the spokes seen so far, each attributed to its spoke. */
  ghost predicate Seen(seenTokens: map<string, string>, spokes: map<string, SpokeEntry>)
  {
    forall t, s :: (t in seenTokens && seenTokens[t] == s) <==> (s in spokes && t in spokes[s].tokens)
  }

  /** The token loop of validate for one spoke. */
  method ValidateTokens(id: string, entry: SpokeEntry, seenTokens: map<string, string>,
                        ghost seen: map<string, SpokeEntry>)
    returns (ok: bool, seen': map<string, string>)
    requires Seen(seenTokens, seen) && TokensUnique(seen) && id !in seen
    ensures ok <==> ValidTokens(entry) && TokensUnique(seen[id := entry])
    ensures ok ==> Seen(seen', seen[id := entry])
  {
    seen' := seenTokens;
    if |entry.tokens| == 0 { return false, seen'; }
    ghost var all := seen[id := entry];
    for i := 0 to |entry.tokens|
      invariant forall j :: 0 <= j < i ==> entry.tokens[j] != ""
      invariant Seen(seen', seen[id := SpokeEntry(entry.tokens[..i], entry.certs)])
      invariant TokensUnique(seen[id := SpokeEntry(entry.tokens[..i], entry.certs)])
    {
      var token := entry.tokens[i];
      ghost var part := seen[id := SpokeEntry(entry.tokens[..i], entry.certs)];
      if token == "" { return false, seen'; }
      if token in seen' {
        var other := seen'[token];
        assert token in part[other].tokens;
        ghost var j :| 0 <= j < |part[other].tokens| && part[other].tokens[j] == token;
        assert all[other].tokens[j] == token == all[id].tokens[i] && (other != id || j != i);
        return false, seen';
      }
      assert forall s :: s in part ==> token !in part[s].tokens;
      assert part[id].tokens == entry.tokens[..i] && forall s :: s in seen ==> part[s] == seen[s];
      UniqueWithOneMore(seen, id, entry, i);
      SeenWithOneMore(seen', seen, id, entry, i);
      seen' := seen'[token := id];
    }
    assert entry.tokens[..|entry.tokens|] == entry.tokens && SpokeEntry(entry.tokens, entry.certs) == entry;
    return true, seen';
  }

  lemma UniqueWithOneMore(seen: map<string, SpokeEntry>, id: string, entry: SpokeEntry, i: nat)
    requires i < |entry.tokens| && id !in seen
    requires TokensUnique(seen[id := SpokeEntry(entry.tokens[..i], entry.certs)])
    requires forall s :: s in seen ==> entry.tokens[i] !in seen[s].tokens
    requires entry.tokens[i] !in entry.tokens[..i]
    ensures TokensUnique(seen[id := SpokeEntry(entry.tokens[..i + 1], entry.certs)])
  {
    var part := seen[id := SpokeEntry(entry.tokens[..i], entry.certs)];
    var more := seen[id := SpokeEntry(entry.tokens[..i + 1], entry.certs)];
    forall s, k | s in part && 0 <= k < |part[s].tokens| ensures part[s].tokens[k] != entry.tokens[i] {
      assert part[s].tokens[k] in part[s].tokens;
    }
    assert forall s, k :: s in more && 0 <= k < |more[s].tokens| && !(s == id && k == i) ==>
      k < |part[s].tokens| && part[s].tokens[k] == more[s].tokens[k];
    assert more[id].tokens[i] == entry.tokens[i];
  }

  lemma SeenWithOneMore(seenTokens: map<string, string>, seen: map<string, SpokeEntry>, id: string, entry: SpokeEntry,
                        i: nat)
    requires i < |entry.tokens| && id !in seen && entry.tokens[i] !in seenTokens
    requires Seen(seenTokens, seen[id := SpokeEntry(entry.tokens[..i], entry.certs)])
    ensures Seen(seenTokens[entry.tokens[i] := id], seen[id := SpokeEntry(entry.tokens[..i + 1], entry.certs)])
  {
    var part := seen[id := SpokeEntry(entry.tokens[..i], entry.certs)];
    var more := seen[id := SpokeEntry(entry.tokens[..i + 1], entry.certs)];
    var token := entry.tokens[i];
    assert entry.tokens[..i + 1] == entry.tokens[..i] + [token];
    var after := seenTokens[token := id];
    forall t, s ensures (t in after && after[t] == s) <==> (s in more && t in more[s].tokens) {
      assert (t in seenTokens && seenTokens[t] == s) <==> (s in part && t in part[s].tokens);
      if s == id {
        assert part[s].tokens == entry.tokens[..i] && more[s].tokens == entry.tokens[..i + 1];
      } else {
        assert s in part <==> s in more;
        assert s in part ==> part[s] == more[s];
        assert t == token ==> t !in seenTokens;
      }
    }
  }

  /** validate, for every iteration order of the two maps it ranges over. */
  method Validate(doc: Document) returns (ok: bool)
    ensures ok <==> ValidDocument(doc)
  {
    var seenTokens: map<string, string> := map[];
    ghost var seen: map<string, SpokeEntry> := map[];
    var rest := doc.spokes.Keys;
    while rest != {}
      invariant rest <= doc.spokes.Keys
      invariant seen == map id | id in doc.spokes && id !in rest :: doc.spokes[id]
      invariant Seen(seenTokens, seen) && ValidDocument(Document(doc.providers, seen))
      decreases |rest|
    {
      var id :| id in rest;
      var entry := doc.spokes[id];
      ok, seenTokens := ValidateTokens(id, entry, seenTokens, seen);
      ghost var more := seen[id := entry];
      if !ok {
        assert TokensUnique(doc.spokes) ==> TokensUnique(more);
        return false;
      }
      if |entry.certs| == 0 { return false; }
      ok := ValidateCerts(entry.certs, doc.providers.Keys);
      if !ok { return false; }
      seen, rest := more, rest - {id};
    }
    assert seen == doc.spokes;
    return true;
  }
}
