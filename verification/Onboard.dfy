/** Adding certificates, spokes and tokens in one command (internal/onboard/plan.go), run without interruption. */
module Onboard {
  import opened Basics
  import opened Config
  import opened HubStore
  import opened Tables
  import Integrity

  datatype Request = Request(
    spoke: string, name: string, domains: seq<string>, provider: string, overrides: map<string, string>)

  function CertOf(req: Request): CertConfig
  {
    CertConfig(req.name, Policy(req.domains, req.provider, req.overrides, 0))
  }

  /** What the command checks before it writes anything. */
  predicate Checked(req: Request, providers: set<string>)
  {
    && req.spoke != "" && req.name != "" && req.domains != [] && req.provider != ""
    && (forall d :: d in req.overrides ==> d in req.domains)
    && ProvidersExist(CertOf(req).policy, providers)
  }

  method ValidateCertRequest(st: Store, req: Request) returns (ok: bool)
    ensures ok == Checked(req, st.providers.Keys)
    ensures ok <==>
      && req.spoke != "" && req.name != "" && req.domains != [] && req.provider != ""
      && req.provider in st.providers
      && forall d :: d in req.overrides ==> d in req.domains && req.overrides[d] in st.providers
  {
    if req.spoke == "" || req.name == "" || |req.domains| == 0 || req.provider == "" { return false; }
    var found := st.DNSProviderExists(req.provider);
    if !found { return false; }
    var domainSet: set<string> := {};
    for i := 0 to |req.domains|
      invariant forall d :: d in domainSet <==> d in req.domains[..i]
    {
      domainSet := domainSet + {req.domains[i]};
    }
    assert req.domains[..|req.domains|] == req.domains;
    var keys := ReadRows(req.overrides.Keys);
    for i := 0 to |keys|
      invariant forall j :: 0 <= j < i ==>
        keys[j] in req.domains && keys[j] in req.overrides && req.overrides[keys[j]] in st.providers
    {
      assert keys[i] in req.overrides;
      if keys[i] !in domainSet { return false; }
      found := st.DNSProviderExists(req.overrides[keys[i]]);
      if !found { return false; }
    }
    forall d | d in req.overrides ensures d in req.domains && req.overrides[d] in st.providers { assert d in keys; }
    return true;
  }

  /** The command leaves exactly the syntax of the certificate name and of the domains to the store. */
  lemma CheckedFallsShortExactly(req: Request, providers: set<string>)
    requires Checked(req, providers)
    ensures WellFormed(CertOf(req)) <==>
      '/' !in req.name && '\\' !in req.name && req.name != "." && req.name != ".."
      && forall i :: 0 <= i < |req.domains| ==> ValidDomain(req.domains[i])
  {
    assert CertOf(req).policy.domains == req.domains;
  }

  /** The spoke with its first token, then the certificate. */
  function Created(db: Db, req: Request, token: string): Db
  {
    Perform(Perform(db, CreateSpoke(req.spoke, token)).0, UpsertSpokeCert(req.spoke, CertOf(req))).0
  }

  /**
   * PlanEnrollment, with the bearer token it generated. When it fails it has changed nothing, except that for a request
   * that passes every check but is malformed the spoke and its token stay behind without a certificate.
   */
  method PlanEnrollment(st: Store, req: Request, hubUrl: string, bearer: string) returns (ok: bool)
    modifies st
    ensures var db := old(st.Contents());
      var begun := Checked(req, db.providers.Keys) && hubUrl != "" && req.spoke !in db.spokes && bearer !in db.tokens;
      && ok == (begun && WellFormed(CertOf(req)))
      && st.Contents() == (if ok then Created(db, req, bearer)
        else if begun then Perform(db, CreateSpoke(req.spoke, bearer)).0 else db)
    ensures ok ==>
      && st.spokes == old(st.spokes) + {req.spoke} && st.tokens == old(st.tokens)[bearer := req.spoke]
      && st.certs == old(st.certs)[(req.spoke, req.name) := Policy(req.domains, req.provider, req.overrides, 0)]
  {
    ok := ValidateCertRequest(st, req);
    if !ok || hubUrl == "" { return false; }
    var known := st.SpokeExists(req.spoke);
    if known { return false; }
    var reply := st.CreateSpoke(req.spoke, bearer);
    if reply != Done { return false; }
    reply := st.UpsertSpokeCert(req.spoke, CertOf(req));
    return reply == Done;
  }

  /** What Plan reports: the token to use, and the certificates that the generated spoke configuration lists. */
  datatype Result = Result(token: string, isNew: bool, listed: seq<(string, seq<string>)>)

  /** The generated configuration lists exactly the certificates the hub now has for the spoke. */
  ghost predicate ListsAll(listed: seq<(string, seq<string>)>, db: Db, spoke: string)
  {
    forall name, domains :: (name, domains) in listed <==>
      (spoke, name) in db.certs && db.certs[(spoke, name)].domains == domains
  }

  /**
   * Plan, with the token it generated in case the spoke is new: the certificate is added under a token of the spoke,
   * other certificates stay listed, and an existing certificate is never replaced.
   */
  method Plan(st: Store, req: Request, paramsOk: bool, generated: string) returns (result: Option<Result>)
    modifies st
    ensures var db := old(st.Contents());
      var begun := Checked(req, db.providers.Keys) && paramsOk
                   && (if req.spoke !in db.spokes then generated !in db.tokens
                       else (req.spoke, req.name) !in db.certs && TokensOf(db.tokens, req.spoke) != {});
      && (result.Some? <==> begun && WellFormed(CertOf(req)))
      && st.Contents() == (
           if result.Some? && req.spoke in db.spokes then Perform(db, UpsertSpokeCert(req.spoke, CertOf(req))).0
           else if result.Some? then Created(db, req, generated)
           else if begun && req.spoke !in db.spokes then Perform(db, CreateSpoke(req.spoke, generated)).0
           else db)
    ensures result.Some? ==>
      && st.certs == old(st.certs)[(req.spoke, req.name) := Policy(req.domains, req.provider, req.overrides, 0)]
      && result.value.isNew == (req.spoke !in old(st.spokes))
      && result.value.token in TokensOf(st.tokens, req.spoke)
      && (Integrity.CertsHaveSpokes(old(st.Contents())) ==> ListsAll(result.value.listed, st.Contents(), req.spoke))
  {
    var ok := ValidateCertRequest(st, req);
    if !ok || !paramsOk { return None; }
    var existing := st.GetSpoke(req.spoke, db => db, db => db);
    var token := generated;
    ghost var before := st.certs;
    if existing.Some? {
      var taken := HasName(existing.value.certs, req.name);
      NameTaken(existing.value.certs, before, req.spoke, req.name);
      if taken { return None; }
      if existing.value.tokens == [] { return None; }
      token := existing.value.tokens[0];
      assert token in existing.value.tokens;
    } else {
      var reply := st.CreateSpoke(req.spoke, token);
      if reply != Done { return None; }
    }
    var reply := st.UpsertSpokeCert(req.spoke, CertOf(req));
    if reply != Done { return None; }
    var certs := if existing.Some? then existing.value.certs else [];
    var listed := ListCerts(certs);
    listed := listed + [(req.name, req.domains)];
    if Integrity.CertsHaveSpokes(old(st.Contents())) { Listed(certs, before, st.certs, req, listed); }
    return Some(Result(token, existing.None?, listed));
  }

  method HasName(certs: seq<CertConfig>, name: string) returns (found: bool)
    ensures found <==> exists c :: c in certs && c.name == name
  {
    for i := 0 to |certs|
      invariant forall j :: 0 <= j < i ==> certs[j].name != name
    {
      if certs[i].name == name { return true; }
    }
    return false;
  }

  lemma NameTaken(certs: seq<CertConfig>, table: map<Key, Policy>, id: string, name: string)
    requires Enumerates(certs, CertsOf(table, id))
    ensures (exists c :: c in certs && c.name == name) <==> (id, name) in table
  {
    if (id, name) in table { assert CertConfig(name, table[(id, name)]) in certs; }
  }

  method ListCerts(certs: seq<CertConfig>) returns (listed: seq<(string, seq<string>)>)
    ensures forall name, domains :: (name, domains) in listed <==>
      exists c :: c in certs && c.name == name && c.policy.domains == domains
  {
    listed := [];
    for i := 0 to |certs|
      invariant forall name, domains :: (name, domains) in listed <==>
        exists c :: c in certs[..i] && c.name == name && c.policy.domains == domains
    {
      assert certs[..i + 1] == certs[..i] + [certs[i]];
      assert certs[i] in certs[..i + 1];
      listed := listed + [(certs[i].name, certs[i].policy.domains)];
    }
    assert certs[..|certs|] == certs;
  }

  lemma Listed(certs: seq<CertConfig>, before: map<Key, Policy>, after: map<Key, Policy>, req: Request,
               listed: seq<(string, seq<string>)>)
    requires certs == [] ==> forall k :: k in before ==> k.0 != req.spoke
    requires certs != [] ==> Enumerates(certs, CertsOf(before, req.spoke))
    requires (req.spoke, req.name) !in before && after == before[(req.spoke, req.name) := CertOf(req).policy]
    requires forall name, domains :: (name, domains) in listed <==>
      || (name, domains) == (req.name, req.domains)
      || exists c :: c in certs && c.name == name && c.policy.domains == domains
    ensures forall name, domains :: (name, domains) in listed <==>
      (req.spoke, name) in after && after[(req.spoke, name)].domains == domains
  {
    forall name, domains
      ensures (name, domains) in listed <==> (req.spoke, name) in after && after[(req.spoke, name)].domains == domains
    {
      if (req.spoke, name) in before {
        var c := CertConfig(name, before[(req.spoke, name)]);
        assert c in CertsOf(before, req.spoke);
      }
      if c :| c in certs && c.name == name && c.policy.domains == domains {
        assert c in CertsOf(before, req.spoke);
      }
    }
  }

  /** PlanRotation: the new token joins the old ones, which all stay valid. */
  method PlanRotation(st: Store, id: string, token: string) returns (ok: bool)
    modifies st
    ensures ok == (id != "" && id in old(st.spokes) && token !in old(st.tokens))
    ensures st.Contents() == if ok then Perform(old(st.Contents()), AddSpokeToken(id, token)).0 else old(st.Contents())
    ensures ok ==> TokensOf(st.tokens, id) == TokensOf(old(st.tokens), id) + {token}
  {
    if id == "" { return false; }
    var known := st.SpokeExists(id);
    if !known { return false; }
    var reply := st.AddSpokeToken(id, token);
    return reply == Done;
  }
}
