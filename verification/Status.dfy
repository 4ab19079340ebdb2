/** The fleet-wide status listing (internal/hubapi/status.go). */
module FleetStatus {
  import opened Basics
  import opened CertState
  import opened Config
  import opened History
  import opened Integrity
  import opened Ordering
  import opened Tables

  /** One line of the listing, with "" and the zero time standing for what never happened. */
  datatype Entry = Entry(
    spoke: string, name: string, status: Status, serial: string, notBefore: int, notAfter: int, lastCheckin: int,
    lastSuccess: int, lastError: string, failures: int, lastHook: int, hookError: string)

  function TimeOr(t: Option<int>): int
  {
    if t.Some? then t.value else ZERO_TIME
  }

  function TextOr(t: Option<string>): string
  {
    if t.Some? then t.value else ""
  }

  /** What the listing must say of a certificate with this observed row, or none. */
  function EntryFor(k: Key, row: Option<Row>): Entry
  {
    var r := OrDefaults(row);
    Entry(k.0, k.1, r.status, TextOr(r.serial), TimeOr(r.notBefore), TimeOr(r.notAfter), TimeOr(r.lastCheckin),
          TimeOr(r.lastSuccess), TextOr(r.lastError), r.failures, TimeOr(r.lastHook), TextOr(r.hookError))
  }

  function KeyOf(e: Entry): Key
  {
    (e.spoke, e.name)
  }

  predicate EntryLess(a: Entry, b: Entry)
  {
    if a.spoke != b.spoke then Less(a.spoke, b.spoke) else Less(a.name, b.name)
  }

  lemma EntryLessIsOrder()
    ensures StrictOrder(EntryLess)
    ensures forall a, b :: EntryLess(a, b) || KeyOf(a) == KeyOf(b) || EntryLess(b, a)
  {
    PairLessIsOrder();
    forall a, b: Entry ensures EntryLess(a, b) <==> PairLess(KeyOf(a), KeyOf(b)) {
      LessIrreflexive(a.spoke);
    }
    forall a, b ensures EntryLess(a, b) || KeyOf(a) == KeyOf(b) || EntryLess(b, a) {
      assert PairLess(KeyOf(a), KeyOf(b)) || KeyOf(a) == KeyOf(b) || PairLess(KeyOf(b), KeyOf(a));
    }
    forall a, b, c | EntryLess(a, b) && EntryLess(b, c) ensures EntryLess(a, c) {
      assert PairLess(KeyOf(a), KeyOf(b)) && PairLess(KeyOf(b), KeyOf(c));
    }
  }

  /** `entries` holds one entry for each of these certificates, in any order. */
  ghost predicate ListsOnce(entries: seq<Entry>, keys: set<Key>, observed: map<Key, Row>)
  {
    && (forall e :: e in entries ==> KeyOf(e) in keys)
    && (forall k :: k in keys ==> EntryFor(k, RowAt(observed, k)) in entries)
    && (forall e :: e in entries ==> e == EntryFor(KeyOf(e), RowAt(observed, KeyOf(e))))
    && (forall i, j :: 0 <= i < j < |entries| ==> KeyOf(entries[i]) != KeyOf(entries[j]))
  }

  /** The listing the status page and the dashboard promise. */
  ghost predicate IsListing(entries: seq<Entry>, spokes: map<string, SpokeEntry>, observed: map<Key, Row>)
  {
    ListsOnce(entries, Configured(spokes), observed) && StrictlySorted(entries, EntryLess)
  }

  /** `byKey` answers for every certificate with a valid name as the observed rows do. */
  ghost predicate Indexes(byKey: map<string, Row>, observed: map<Key, Row>)
  {
    forall k: Key :: ValidCertName(k.1) ==>
      (if JoinKey(k) in byKey then Some(byKey[JoinKey(k)]) else None) == RowAt(observed, k)
  }

  method IndexRows(rows: seq<(Key, Row)>, ghost observed: map<Key, Row>) returns (byKey: map<string, Row>)
    requires Enumerates(rows, set k | k in observed :: (k, observed[k]))
    requires forall k :: k in observed ==> ValidCertName(k.1)
    ensures Indexes(byKey, observed)
  {
    byKey := map[];
    for i := 0 to |rows|
      invariant forall s :: s in byKey ==> exists j :: 0 <= j < i && s == JoinKey(rows[j].0) && rows[j].1 == byKey[s]
      invariant forall j :: 0 <= j < i ==> JoinKey(rows[j].0) in byKey
    {
      byKey := byKey[JoinKey(rows[i].0) := rows[i].1];
    }
    forall k | k in observed ensures JoinKey(k) in byKey { assert (k, observed[k]) in rows; }
    forall k: Key | ValidCertName(k.1)
      ensures (if JoinKey(k) in byKey then Some(byKey[JoinKey(k)]) else None) == RowAt(observed, k)
    {
      if JoinKey(k) in byKey {
        var j :| 0 <= j < |rows| && JoinKey(k) == JoinKey(rows[j].0) && rows[j].1 == byKey[JoinKey(k)];
        assert rows[j] in rows;
        JoinKeyInjective(k, rows[j].0);
      }
    }
  }

  lemma ListsOneMore(entries: seq<Entry>, keys: set<Key>, observed: map<Key, Row>, k: Key)
    requires ListsOnce(entries, keys, observed) && k !in keys
    ensures ListsOnce(entries + [EntryFor(k, RowAt(observed, k))], keys + {k}, observed)
  {
    forall i | 0 <= i < |entries| ensures KeyOf(entries[i]) != k { assert entries[i] in entries; }
  }

  /** The inner loop: the certificates of one spoke. */
  method ListSpoke(id: string, certs: seq<CertConfig>, byKey: map<string, Row>, before: seq<Entry>,
                   ghost done: set<Key>, ghost observed: map<Key, Row>) returns (entries: seq<Entry>)
    requires ListsOnce(before, done, observed) && Indexes(byKey, observed) && CertNamesOk(certs)
    requires forall k :: k in done ==> k.0 != id
    ensures ListsOnce(entries, done + KeysOf(id, certs), observed)
  {
    entries := before;
    for i := 0 to |certs|
      invariant ListsOnce(entries, done + KeysOf(id, certs[..i]), observed)
    {
      KeysOneMore(id, certs, i);
      ghost var k: Key := (id, certs[i].name);
      ListsOneMore(entries, done + KeysOf(id, certs[..i]), observed, k);
      assert done + KeysOf(id, certs[..i + 1]) == done + KeysOf(id, certs[..i]) + {k};
      var key := id + "/" + certs[i].name;
      assert key == JoinKey(k);
      if key !in byKey {
        entries := entries + [
          Entry(id, certs[i].name, Unknown, "", ZERO_TIME, ZERO_TIME, ZERO_TIME, ZERO_TIME, "", 0, ZERO_TIME, "")];
      } else {
        var r := byKey[key];
        entries := entries + [
          Entry(id, certs[i].name, r.status, TextOr(r.serial), TimeOr(r.notBefore), TimeOr(r.notAfter),
                TimeOr(r.lastCheckin), TimeOr(r.lastSuccess), TextOr(r.lastError), r.failures,
                TimeOr(r.lastHook), TextOr(r.hookError))];
      }
    }
    assert certs[..|certs|] == certs;
  }

  /**
   * adminEntries: exactly one entry per configured certificate, in strictly increasing order, with the observed columns
   * exactly when a row with that very spoke and name exists, whatever order the maps and the table are read in.
   */
  method AdminEntries(spokes: map<string, SpokeEntry>, rows: seq<(Key, Row)>, ghost observed: map<Key, Row>)
    returns (entries: seq<Entry>)
    requires NamesOk(spokes) && Enumerates(rows, set k | k in observed :: (k, observed[k]))
    requires forall k :: k in observed ==> ValidCertName(k.1)
    ensures IsListing(entries, spokes, observed)
    ensures forall i, j :: 0 <= i < j < |entries| ==>
      Less(entries[i].spoke, entries[j].spoke)
      || (entries[i].spoke == entries[j].spoke && Less(entries[i].name, entries[j].name))
  {
    var byKey := IndexRows(rows, observed);
    entries := [];
    var rest := spokes.Keys;
    while rest != {}
      invariant rest <= spokes.Keys
      invariant ListsOnce(entries, Configured(spokes - rest), observed)
      decreases |rest|
    {
      var id :| id in rest;
      ConfiguredOneMore(spokes, rest, id);
      entries := ListSpoke(id, spokes[id].certs, byKey, entries, Configured(spokes - rest), observed);
      rest := rest - {id};
    }
    assert spokes - rest == spokes;
    EntryLessIsOrder();
    ghost var unsorted := entries;
    entries := Sort(entries, EntryLess);
    SortedListsOnce(unsorted, entries, Configured(spokes), observed);
  }

  lemma SortedListsOnce(unsorted: seq<Entry>, entries: seq<Entry>, keys: set<Key>, observed: map<Key, Row>)
    requires ListsOnce(unsorted, keys, observed)
    requires StrictlySorted(entries, EntryLess) && forall e :: e in entries <==> e in unsorted
    ensures ListsOnce(entries, keys, observed)
  {
    forall i, j | 0 <= i < j < |entries| ensures KeyOf(entries[i]) != KeyOf(entries[j]) {
      LessIrreflexive(entries[i].name);
      assert EntryLess(entries[i], entries[j]);
    }
  }

  /** The listing is a function of what is configured and observed: two reads of the same facts give the same bytes. */
  lemma ListingUnique(a: seq<Entry>, b: seq<Entry>, spokes: map<string, SpokeEntry>, observed: map<Key, Row>)
    requires IsListing(a, spokes, observed) && IsListing(b, spokes, observed)
    ensures a == b
  {
    EntryLessIsOrder();
    forall e ensures e in a <==> e in b {
      assert e in a ==> KeyOf(e) in Configured(spokes);
      assert e in b ==> KeyOf(e) in Configured(spokes);
    }
    SortedUnique(a, b, EntryLess);
  }

  // ----- What a line says -----

  ghost predicate SaysCertificate(e: Entry, own: seq<Event>)
  {
    && (forall i :: 0 <= i < |own| && Latest(own, i, activations) ==>
          e.notBefore == own[i].notBefore && e.notAfter == own[i].notAfter && e.serial == own[i].serial
          && e.lastSuccess == own[i].now)
    && (Never(own, activations) ==>
          e.notBefore == ZERO_TIME && e.notAfter == ZERO_TIME && e.serial == "" && e.lastSuccess == ZERO_TIME)
  }

  ghost predicate SaysCheckin(e: Entry, own: seq<Event>)
  {
    && (forall i :: 0 <= i < |own| && Latest(own, i, checkins) ==>
          && e.lastCheckin == own[i].now
          && (own[i].Activated? ==> e.status == Active && e.failures == 0 && e.lastError == "")
          && (own[i].FailureReported? ==>
                e.status == Failed && e.failures == own[i].failures
                && e.lastError == if own[i].error.Some? then own[i].error.value else ""))
    && (Never(own, checkins) ==>
          e.status == Unknown && e.failures == 0 && e.lastError == "" && e.lastCheckin == ZERO_TIME)
  }

  ghost predicate SaysHook(e: Entry, own: seq<Event>)
  {
    && (forall i :: 0 <= i < |own| && Latest(own, i, hooks) ==>
          e.lastHook == own[i].now && e.hookError == if own[i].error.Some? then own[i].error.value else "")
    && (Never(own, hooks) ==> e.lastHook == ZERO_TIME && e.hookError == "")
  }

  lemma EntrySays(k: Key, row: Option<Row>, own: seq<Event>)
    requires ShowsCertificate(OrDefaults(row), own) && ShowsCheckin(OrDefaults(row), own)
    requires ShowsHook(OrDefaults(row), own)
    ensures var e := EntryFor(k, row); SaysCertificate(e, own) && SaysCheckin(e, own) && SaysHook(e, own)
  {
  }

  /**
   * After any statements on any rows, the line of a certificate tells its own history: its validity, serial and success
   * time are those of the latest successful report, its health that of the latest report, its hook's outcome that of
   * the latest hook report, and each part is empty when there was none.
   */
  lemma EntryTellsHistory(log: seq<(Key, Event)>, k: Key)
    ensures var e, own := EntryFor(k, RowAt(ObserveAll(log), k)), Project(log, k);
      e.spoke == k.0 && e.name == k.1 && SaysCertificate(e, own) && SaysCheckin(e, own) && SaysHook(e, own)
  {
    var own := Project(log, k);
    RowsAreIndependent(log, k);
    RowDescribesHistory(own);
    if Replay(own).None? { DefaultsShowNothing(own); }
    EntrySays(k, RowAt(ObserveAll(log), k), own);
  }
}
