/** What an imported legacy document becomes, and that it can be read back (cmd/acme-hub/main.go runImportConfig). */
module Importer {
  import opened Basics
  import opened Config
  import opened Tables
  import opened HubStore
  import opened Snapshot
  import opened Legacy

  ghost predicate CertsHeld(certs: map<Key, Policy>, spokes: map<string, SpokeEntry>)
  {
    forall k, p :: (k in certs && certs[k] == p) <==> (k.0 in spokes && CertConfig(k.1, p) in spokes[k.0].certs)
  }

  /** The database says of spokes and providers exactly what the two maps say, and nothing else. */
  ghost predicate Holds(db: Db, spokes: map<string, SpokeEntry>, providers: map<string, ProviderConfig>)
  {
    && db.spokes == spokes.Keys && db.providers == providers
    && Seen(db.tokens, spokes) && CertsHeld(db.certs, spokes)
    && db.observed == map[] && db.enrolments == map[]
  }

  lemma OneTokenMore(db: Db, done: map<string, SpokeEntry>, providers: map<string, ProviderConfig>, id: string,
                     entry: SpokeEntry, i: nat)
    requires 0 < i < |entry.tokens| && id !in done && TokensUnique(done[id := entry])
    requires Holds(db, done[id := SpokeEntry(entry.tokens[..i], [])], providers)
    ensures Perform(db, AddSpokeToken(id, entry.tokens[i])).1 == Done
    ensures Holds(Perform(db, AddSpokeToken(id, entry.tokens[i])).0,
                  done[id := SpokeEntry(entry.tokens[..i + 1], [])], providers)
  {
    TokenUnused(db, done, id, entry, i, []);
    SeenKept(db.tokens, done, id, entry, i);
    CertsHeldBy(db.certs, done[id := SpokeEntry(entry.tokens[..i], [])],
                done[id := SpokeEntry(entry.tokens[..i + 1], [])]);
  }

  /** The certificate table depends only on who has which certificate. */
  lemma CertsHeldBy(certs: map<Key, Policy>, a: map<string, SpokeEntry>, b: map<string, SpokeEntry>)
    requires CertsHeld(certs, a)
    requires forall s, c :: (s in a && c in a[s].certs) <==> (s in b && c in b[s].certs)
    ensures CertsHeld(certs, b)
  {
    forall k: Key, p ensures (k in certs && certs[k] == p) <==> (k.0 in b && CertConfig(k.1, p) in b[k.0].certs) {
      assert (k in certs && certs[k] == p) <==> (k.0 in a && CertConfig(k.1, p) in a[k.0].certs);
    }
  }

  lemma TokenUnused(db: Db, done: map<string, SpokeEntry>, id: string, entry: SpokeEntry, i: nat,
                    certs: seq<CertConfig>)
    requires i < |entry.tokens| && id !in done && TokensUnique(done[id := entry])
    requires Seen(db.tokens, if i == 0 then done else done[id := SpokeEntry(entry.tokens[..i], certs)])
    ensures entry.tokens[i] !in db.tokens
  {
    var all := done[id := entry];
    var token := entry.tokens[i];
    assert all[id].tokens[i] == token;
    forall s | s in done ensures token !in done[s].tokens {
      assert forall k :: 0 <= k < |done[s].tokens| ==> all[s].tokens[k] == done[s].tokens[k];
    }
    assert forall k :: 0 <= k < i ==> all[id].tokens[k] != token;
    var part := if i == 0 then done else done[id := SpokeEntry(entry.tokens[..i], certs)];
    forall s | s in part ensures token !in part[s].tokens {
      assert s != id ==> part[s] == done[s];
    }
    assert forall t :: t in db.tokens ==> db.tokens[t] in part && t in part[db.tokens[t]].tokens;
  }

  lemma SeenKept(tokens: map<string, string>, done: map<string, SpokeEntry>, id: string, entry: SpokeEntry, i: nat)
    requires i < |entry.tokens| && id !in done && entry.tokens[i] !in tokens
    requires Seen(tokens, done[id := SpokeEntry(entry.tokens[..i], [])])
    ensures Seen(tokens[entry.tokens[i] := id], done[id := SpokeEntry(entry.tokens[..i + 1], [])])
  {
    SeenWithOneMore(tokens, done, id, SpokeEntry(entry.tokens, []), i);
  }

  lemma SpokeCreated(db: Db, done: map<string, SpokeEntry>, providers: map<string, ProviderConfig>, id: string,
                     entry: SpokeEntry)
    requires Holds(db, done, providers) && id !in done && entry.tokens != [] && TokensUnique(done[id := entry])
    ensures Perform(db, CreateSpoke(id, entry.tokens[0])).1 == Done
    ensures Holds(Perform(db, CreateSpoke(id, entry.tokens[0])).0,
                  done[id := SpokeEntry(entry.tokens[..1], [])], providers)
  {
    TokenUnused(db, done, id, entry, 0, []);
    var part := done[id := SpokeEntry([], [])];
    assert entry.tokens[..0] == [];
    forall t, s ensures (t in db.tokens && db.tokens[t] == s) <==> (s in part && t in part[s].tokens) {
      assert s != id && s in done ==> part[s] == done[s];
    }
    SeenKept(db.tokens, done, id, entry, 0);
    var created := done[id := SpokeEntry(entry.tokens[..1], [])];
    forall s, c ensures (s in done && c in done[s].certs) <==> (s in created && c in created[s].certs) {
      assert s != id && s in done ==> created[s] == done[s];
    }
    CertsHeldBy(db.certs, done, created);
  }

  lemma OneCertMore(db: Db, done: map<string, SpokeEntry>, providers: map<string, ProviderConfig>, id: string,
                    entry: SpokeEntry, i: nat)
    requires i < |entry.certs| && id !in done && ValidCerts(entry.certs, providers.Keys) && "" !in providers
    requires Holds(db, done[id := SpokeEntry(entry.tokens, entry.certs[..i])], providers)
    ensures Perform(db, UpsertSpokeCert(id, entry.certs[i])).1 == Done
    ensures Holds(Perform(db, UpsertSpokeCert(id, entry.certs[i])).0,
                  done[id := SpokeEntry(entry.tokens, entry.certs[..i + 1])], providers)
  {
    var cert := entry.certs[i];
    var part := done[id := SpokeEntry(entry.tokens, entry.certs[..i])];
    var more := done[id := SpokeEntry(entry.tokens, entry.certs[..i + 1])];
    assert ValidCert(cert, providers.Keys);
    assert WellFormed(cert);
    var after := Perform(db, UpsertSpokeCert(id, cert)).0;
    assert entry.certs[..i + 1] == entry.certs[..i] + [cert];
    assert forall c :: c in entry.certs[..i] ==> c.name != cert.name;
    forall k: Key, p
      ensures (k in after.certs && after.certs[k] == p) <==> (k.0 in more && CertConfig(k.1, p) in more[k.0].certs)
    {
      assert (k in db.certs && db.certs[k] == p) <==> (k.0 in part && CertConfig(k.1, p) in part[k.0].certs);
      if k.0 == id {
        assert part[id].certs == entry.certs[..i] && more[id].certs == entry.certs[..i + 1];
        assert CertConfig(k.1, p) == cert <==> k.1 == cert.name && p == cert.policy;
      } else {
        assert k.0 in part ==> part[k.0] == more[k.0];
      }
    }
    forall t, s ensures (s in part && t in part[s].tokens) <==> (s in more && t in more[s].tokens) {
      assert s != id && s in part ==> part[s] == more[s];
    }
  }

  /** The import of one spoke: create it with its first token, then add its other tokens and its certificates. */
  method ImportSpoke(st: Store, id: string, entry: SpokeEntry, ghost done: map<string, SpokeEntry>,
                     ghost providers: map<string, ProviderConfig>) returns (ok: bool)
    requires Holds(st.Contents(), done, providers) && "" !in providers
    requires id !in done && entry.tokens != [] && TokensUnique(done[id := entry])
    requires ValidCerts(entry.certs, providers.Keys)
    modifies st
    ensures ok && Holds(st.Contents(), done[id := entry], providers)
  {
    SpokeCreated(st.Contents(), done, providers, id, entry);
    var reply := st.CreateSpoke(id, entry.tokens[0]);
    if reply != Done { return false; }
    for i := 1 to |entry.tokens|
      invariant Holds(st.Contents(), done[id := SpokeEntry(entry.tokens[..i], [])], providers)
    {
      OneTokenMore(st.Contents(), done, providers, id, entry, i);
      reply := st.AddSpokeToken(id, entry.tokens[i]);
      if reply != Done { return false; }
    }
    assert entry.tokens[..|entry.tokens|] == entry.tokens && entry.certs[..0] == [];
    for i := 0 to |entry.certs|
      invariant Holds(st.Contents(), done[id := SpokeEntry(entry.tokens, entry.certs[..i])], providers)
    {
      OneCertMore(st.Contents(), done, providers, id, entry, i);
      reply := st.UpsertSpokeCert(id, entry.certs[i]);
      if reply != Done { return false; }
    }
    assert entry.certs[..|entry.certs|] == entry.certs && SpokeEntry(entry.tokens, entry.certs) == entry;
    return true;
  }

  /** The first loop: every provider, in any order, up to one named by the empty string. */
  method ImportProviders(st: Store, providers: map<string, ProviderConfig>) returns (ok: bool)
    requires st.Contents() == EMPTY
    modifies st
    ensures ok <==> "" !in providers
    ensures ok ==> st.Contents() == EMPTY.(providers := providers)
  {
    var names := ReadRows(providers.Keys);
    ghost var loaded: map<string, ProviderConfig> := map[];
    for i := 0 to |names|
      invariant loaded == map n | n in providers && n in names[..i] :: providers[n]
      invariant "" !in names[..i]
      invariant st.Contents() == EMPTY.(providers := loaded)
    {
      assert names[i] in providers && names[..i + 1] == names[..i] + [names[i]];
      var reply := st.UpsertDNSProvider(names[i], providers[names[i]]);
      if reply != Done { return false; }
      loaded := loaded[names[i] := providers[names[i]]];
    }
    assert names[..|names|] == names && loaded == providers;
    return true;
  }

  /** The second loop: every spoke, in any order. */
  method ImportSpokes(st: Store, doc: Document) returns (ok: bool)
    requires Holds(st.Contents(), map[], doc.providers) && ValidDocument(doc) && "" !in doc.providers
    modifies st
    ensures ok && Holds(st.Contents(), doc.spokes, doc.providers)
  {
    var rest := doc.spokes.Keys;
    ghost var done: map<string, SpokeEntry> := map[];
    while rest != {}
      invariant rest <= doc.spokes.Keys
      invariant done == doc.spokes - rest
      invariant Holds(st.Contents(), done, doc.providers)
      decreases |rest|
    {
      var id :| id in rest;
      ghost var more := done[id := doc.spokes[id]];
      PartIsUnique(doc.spokes, more);
      ok := ImportSpoke(st, id, doc.spokes[id], done, doc.providers);
      if !ok { return false; }
      rest := rest - {id};
      done := more;
      assert done == doc.spokes - rest;
    }
    assert doc.spokes - rest == doc.spokes;
    return true;
  }

  lemma PartIsUnique(all: map<string, SpokeEntry>, part: map<string, SpokeEntry>)
    requires TokensUnique(all) && part.Keys <= all.Keys && forall s :: s in part ==> part[s] == all[s]
    ensures TokensUnique(part)
  {
  }

  /**
   * runImportConfig on an empty store: for every iteration order of both maps, a validated document is imported without
   * any step failing exactly when none of its providers is named by the empty string, which validate does not check.
   */
  method ImportDocument(st: Store, doc: Document) returns (ok: bool)
    requires st.Contents() == EMPTY && ValidDocument(doc)
    modifies st
    ensures ok <==> "" !in doc.providers
    ensures ok ==> Holds(st.Contents(), doc.spokes, doc.providers)
  {
    ok := ImportProviders(st, doc.providers);
    if ok { ok := ImportSpokes(st, doc); }
  }

  /**
   * Reading all spokes and providers back gives the document: the same spokes, each with the same tokens and the same
   * certificates, none lost, none added and none twice.
   */
  lemma ReadBack(doc: Document, db: Db, list: seq<Spoke>)
    requires ValidDocument(doc) && Holds(db, doc.spokes, doc.providers)
    requires Merges(list, db.spokes, db.tokens, db.certs)
    ensures db.providers == doc.providers
    ensures forall id :: id in doc.spokes <==> exists i :: 0 <= i < |list| && list[i].id == id
    ensures forall i, j :: 0 <= i < j < |list| ==> list[i].id != list[j].id
    ensures forall i :: 0 <= i < |list| ==> (
      list[i].id in doc.spokes
      && SameElements(list[i].tokens, doc.spokes[list[i].id].tokens)
      && SameElements(list[i].certs, doc.spokes[list[i].id].certs))
  {
    var listed := seq(|list|, i requires 0 <= i < |list| => list[i].id);
    forall id ensures id in doc.spokes <==> exists i :: 0 <= i < |list| && list[i].id == id {
      assert id in doc.spokes <==> id in listed;
      if id in listed { var i :| 0 <= i < |list| && listed[i] == id; assert list[i].id == id; }
      if i :| 0 <= i < |list| && list[i].id == id { assert listed[i] == id; }
    }
    forall i, j | 0 <= i < j < |list| ensures list[i].id != list[j].id {
      assert listed[i] == list[i].id && listed[j] == list[j].id;
    }
    forall i | 0 <= i < |list|
      ensures list[i].id in doc.spokes
        && SameElements(list[i].tokens, doc.spokes[list[i].id].tokens)
        && SameElements(list[i].certs, doc.spokes[list[i].id].certs)
    {
      var id := list[i].id;
      assert listed[i] == id && id in doc.spokes;
      var entry := doc.spokes[id];
      forall t ensures t in list[i].tokens <==> t in entry.tokens {
        assert t in list[i].tokens <==> t in TokensOf(db.tokens, id);
      }
      forall c ensures c in list[i].certs <==> c in entry.certs {
        assert c in list[i].certs <==> c in CertsOf(db.certs, id);
        assert c in entry.certs <==> ((id, c.name) in db.certs && db.certs[(id, c.name)] == c.policy) by {
          var k: Key, p := (id, c.name), c.policy;
          assert (k in db.certs && db.certs[k] == p) <==>
            (k.0 in doc.spokes && CertConfig(k.1, p) in doc.spokes[k.0].certs);
        }
        assert (id, c.name) in db.certs && db.certs[(id, c.name)] == c.policy ==> c in CertsOf(db.certs, id);
      }
      forall a, b | 0 <= a < b < |entry.tokens| ensures entry.tokens[a] != entry.tokens[b] {}
      forall a, b | 0 <= a < b < |entry.certs| ensures entry.certs[a] != entry.certs[b] {}
    }
  }

  /** The same elements, none repeated on either side: equal up to order. */
  ghost predicate SameElements<T(!new)>(a: seq<T>, b: seq<T>)
  {
    && (forall x :: x in a <==> x in b)
    && (forall i, j :: 0 <= i < j < |a| ==> a[i] != a[j])
    && (forall i, j :: 0 <= i < j < |b| ==> b[i] != b[j])
  }

  /** A document validate accepts and the import then refuses. */
  lemma EmptyProviderNamePassesValidate()
    ensures var doc := Document(map["" := ProviderConfig("cloudflare", map[])],
                                map["s" := SpokeEntry(["t"], [CertConfig("c", Policy(["a"], "", map[], 0))])]);
      ValidDocument(doc) && Perform(EMPTY, UpsertDNSProvider("", doc.providers[""])).1 == Invalid
  {
    var cert := CertConfig("c", Policy(["a"], "", map[], 0));
    assert ValidDomain("a") && ValidCertName("c");
    assert ValidCert(cert, map["" := ProviderConfig("cloudflare", map[])].Keys);
    assert [cert][0] == cert;
  }
}
