/** The staleness watchdog (internal/hubapi/watchdog.go). */
module Watchdog {
  import opened Basics
  import opened CertState
  import opened Config
  import opened History
  import opened Integrity

  datatype Alarm = Stale | Recovered

  /** What the watchdog remembers of one certificate between passes. */
  datatype Memory = Memory(notified: bool, since: Option<int>)

  const NOTHING := Memory(false, None)

  predicate IsStale(m: Memory, last: Option<int>, now: int, staleAfter: int)
  {
    match last
    case Some(at) => now - at > staleAfter
    case None => m.since.Some? && now - m.since.value > staleAfter
  }

  /** One pass over one configured certificate whose last checkin was `last`. */
  function Look(m: Memory, last: Option<int>, now: int, staleAfter: int): (Memory, Option<Alarm>)
  {
    var since := if last.Some? then None else if m.since.None? then Some(now) else m.since;
    var stale := IsStale(m, last, now, staleAfter);
    (Memory(stale, since), if stale == m.notified then None else Some(if stale then Stale else Recovered))
  }

  /** The last checkin on record for a certificate. */
  function LastCheckin(observed: map<Key, Row>, k: Key): Option<int>
  {
    if k in observed then observed[k].lastCheckin else None
  }

  /** `byKey` answers for every certificate with a valid name as the observed rows do. */
  ghost predicate Indexes(byKey: map<string, int>, observed: map<Key, Row>)
  {
    forall k: Key :: ValidCertName(k.1) ==>
      (if JoinKey(k) in byKey then Some(byKey[JoinKey(k)]) else None) == LastCheckin(observed, k)
  }

  /** The index "spoke/name" to last checkin that a pass builds first. */
  method IndexCheckins(rows: seq<(Key, Row)>, ghost observed: map<Key, Row>) returns (byKey: map<string, int>)
    requires Enumerates(rows, set k | k in observed :: (k, observed[k]))
    requires forall k :: k in observed ==> ValidCertName(k.1)
    ensures Indexes(byKey, observed)
  {
    byKey := map[];
    for i := 0 to |rows|
      invariant forall s :: s in byKey ==>
        exists j :: 0 <= j < i && s == JoinKey(rows[j].0) && rows[j].1.lastCheckin == Some(byKey[s])
      invariant forall j :: 0 <= j < i && rows[j].1.lastCheckin.Some? ==> JoinKey(rows[j].0) in byKey
    {
      assert rows[i] in rows;
      if rows[i].1.lastCheckin.Some? {
        byKey := byKey[JoinKey(rows[i].0) := rows[i].1.lastCheckin.value];
      }
    }
    forall k: Key | ValidCertName(k.1)
      ensures (if JoinKey(k) in byKey then Some(byKey[JoinKey(k)]) else None) == LastCheckin(observed, k)
    {
      if JoinKey(k) in byKey {
        var j :|
          0 <= j < |rows| && JoinKey(k) == JoinKey(rows[j].0) && rows[j].1.lastCheckin == Some(byKey[JoinKey(k)]);
        assert rows[j] in rows;
        JoinKeyInjective(k, rows[j].0);
      } else if k in observed {
        assert (k, observed[k]) in rows;
        var j :| 0 <= j < |rows| && rows[j] == (k, observed[k]);
      }
    }
  }

  /** The two collections the watchdog keeps between passes. */
  datatype Memo = Memo(notified: set<string>, since: map<string, int>)

  function Recall(memo: Memo, key: string): Memory
  {
    Memory(key in memo.notified, if key in memo.since then Some(memo.since[key]) else None)
  }

  /** What one configured certificate got out of a pass. */
  ghost predicate Looked(was: Memo, is_: Memo, k: Key, events: seq<(Key, Alarm)>, last: Option<int>, now: int,
                         staleAfter: int)
  {
    var (m, alarm) := Look(Recall(was, JoinKey(k)), last, now, staleAfter);
    Recall(is_, JoinKey(k)) == m && forall a :: (k, a) in events <==> alarm == Some(a)
  }

  /**
   * The certificates in `done` have been looked at, every other key is untouched, and no certificate has two events.
   */
  ghost predicate PassedOver(was: Memo, is_: Memo, done: set<Key>, events: seq<(Key, Alarm)>,
                             observed: map<Key, Row>, now: int, staleAfter: int)
  {
    && (forall k :: k in done ==> Looked(was, is_, k, events, LastCheckin(observed, k), now, staleAfter))
    && (forall key: string :: (forall k :: k in done ==> JoinKey(k) != key) ==> Recall(is_, key) == Recall(was, key))
    && (forall i :: 0 <= i < |events| ==> events[i].0 in done)
    && (forall i, j :: 0 <= i < j < |events| ==> events[i].0 != events[j].0)
  }

  lemma OneMoreLook(was: Memo, mid: Memo, is_: Memo, done: set<Key>, events: seq<(Key, Alarm)>,
                    observed: map<Key, Row>, now: int, staleAfter: int, k: Key, alarm: Option<Alarm>)
    requires PassedOver(was, mid, done, events, observed, now, staleAfter)
    requires k !in done && ValidCertName(k.1) && forall d :: d in done ==> ValidCertName(d.1)
    requires (Recall(is_, JoinKey(k)), alarm)
      == Look(Recall(mid, JoinKey(k)), LastCheckin(observed, k), now, staleAfter)
    requires forall key: string :: key != JoinKey(k) ==> Recall(is_, key) == Recall(mid, key)
    ensures PassedOver(was, is_, done + {k}, events + if alarm.Some? then [(k, alarm.value)] else [],
                       observed, now, staleAfter)
  {
    var events' := events + if alarm.Some? then [(k, alarm.value)] else [];
    forall d | d in done ensures JoinKey(d) != JoinKey(k) {
      if JoinKey(d) == JoinKey(k) { JoinKeyInjective(d, k); }
    }
    forall d | d in done + {k}
      ensures Looked(was, is_, d, events', LastCheckin(observed, d), now, staleAfter)
    {
      if d in done {
        assert Looked(was, mid, d, events, LastCheckin(observed, d), now, staleAfter);
        assert forall a :: (d, a) in events' <==> (d, a) in events;
      } else {
        assert forall a :: (k, a) in events' <==> alarm == Some(a);
      }
    }
  }

  class State {
    var notified: set<string>
    var neverCheckedInSince: map<string, int>

    constructor ()
      ensures Contents() == Memo({}, map[])
    {
      notified, neverCheckedInSince := {}, map[];
    }

    function Contents(): Memo
      reads this
    {
      Memo(notified, neverCheckedInSince)
    }

    /** The body of the inner loop. */
    method Visit(key: string, last: Option<int>, now: int, staleAfter: int) returns (alarm: Option<Alarm>)
      modifies this
      ensures (Recall(Contents(), key), alarm) == Look(Recall(old(Contents()), key), last, now, staleAfter)
      ensures forall other: string :: other != key ==> Recall(Contents(), other) == Recall(old(Contents()), other)
    {
      var stale := false;
      if last.Some? && now - last.value > staleAfter {
        stale := true;
      } else if last.None? {
        if key !in neverCheckedInSince {
          neverCheckedInSince := neverCheckedInSince[key := now];
        } else if now - neverCheckedInSince[key] > staleAfter {
          stale := true;
        }
      }
      if last.Some? { neverCheckedInSince := neverCheckedInSince - {key}; }
      if stale {
        if key !in notified {
          notified := notified + {key};
          return Some(Stale);
        }
        return None;
      }
      if key in notified {
        notified := notified - {key};
        return Some(Recovered);
      }
      return None;
    }

    /**
     * watchdogPass: every configured certificate is looked at exactly once, in whatever order the maps are iterated;
     * the events are those of the individual looks, at most one per certificate.
     */
    method Pass(spokes: map<string, SpokeEntry>, rows: seq<(Key, Row)>, now: int, staleAfter: int,
                ghost observed: map<Key, Row>) returns (events: seq<(Key, Alarm)>)
      requires NamesOk(spokes) && Enumerates(rows, set k | k in observed :: (k, observed[k]))
      requires forall k :: k in observed ==> ValidCertName(k.1)
      modifies this
      ensures PassedOver(old(Contents()), Contents(), Configured(spokes), events, observed, now, staleAfter)
    {
      var byKey := IndexCheckins(rows, observed);
      events := [];
      var rest := spokes.Keys;
      ghost var done: set<Key> := {};
      while rest != {}
        invariant rest <= spokes.Keys
        invariant done == Configured(spokes - rest)
        invariant PassedOver(old(Contents()), Contents(), done, events, observed, now, staleAfter)
        decreases |rest|
      {
        var id :| id in rest;
        ConfiguredOneMore(spokes, rest, id);
        assert forall k :: k in done ==> ValidCertName(k.1);
        events, done :=
          VisitSpoke(id, spokes[id].certs, byKey, events, now, staleAfter, old(Contents()), done, observed);
        rest := rest - {id};
      }
      assert spokes - rest == spokes;
    }

    /** The inner loop of a pass: the certificates of one spoke. */
    method VisitSpoke(id: string, certs: seq<CertConfig>, byKey: map<string, int>, events: seq<(Key, Alarm)>,
                      now: int, staleAfter: int, ghost was: Memo, ghost done: set<Key>, ghost observed: map<Key, Row>)
      returns (events': seq<(Key, Alarm)>, ghost done': set<Key>)
      requires PassedOver(was, Contents(), done, events, observed, now, staleAfter)
      requires forall d :: d in done ==> ValidCertName(d.1) && d.0 != id
      requires CertNamesOk(certs) && Indexes(byKey, observed)
      modifies this
      ensures done' == done + KeysOf(id, certs)
      ensures PassedOver(was, Contents(), done', events', observed, now, staleAfter)
    {
      events', done' := events, done;
      for i := 0 to |certs|
        invariant done' == done + KeysOf(id, certs[..i])
        invariant PassedOver(was, Contents(), done', events', observed, now, staleAfter)
      {
        var k: Key := (id, certs[i].name);
        var key := JoinKey(k);
        KeysOneMore(id, certs, i);
        ghost var mid := Contents();
        var alarm := Visit(key, if key in byKey then Some(byKey[key]) else None, now, staleAfter);
        OneMoreLook(was, mid, Contents(), done', events', observed, now, staleAfter, k, alarm);
        events' := events' + if alarm.Some? then [(k, alarm.value)] else [];
        done' := done' + {k};
      }
      assert certs[..|certs|] == certs;
    }
  }

  // ----- Runs -----

  /** What one pass sees of one certificate. */
  datatype View = View(configured: bool, last: Option<int>, now: int, staleAfter: int)

  /** The memory and the events of one certificate after these passes of a fresh watchdog. */
  function Watch(views: seq<View>): (Memory, seq<Alarm>)
  {
    if views == [] then (NOTHING, [])
    else
      var (m, alarms) := Watch(views[..|views| - 1]);
      var v := views[|views| - 1];
      if !v.configured then (m, alarms)
      else
        var (m', alarm) := Look(m, v.last, v.now, v.staleAfter);
        (m', if alarm.Some? then alarms + [alarm.value] else alarms)
  }

  /** The events of a certificate alternate strictly, starting with stale, over all passes, snapshots and clocks. */
  lemma {:induction false} AlarmsAlternate(views: seq<View>)
    ensures var (m, alarms) := Watch(views);
      && (forall i :: 0 <= i < |alarms| ==> (alarms[i] == Stale <==> i % 2 == 0))
      && (m.notified <==> |alarms| % 2 == 1)
  {
    if views != [] { AlarmsAlternate(views[..|views| - 1]); }
  }

  /**
   * Pass `j` saw the certificate configured and unreported, and no pass from `j` on saw it configured and checked in.
   */
  ghost predicate UnreportedSince(views: seq<View>, j: nat)
    requires j < |views|
  {
    && views[j].configured && views[j].last.None?
    && forall m :: j < m < |views| && views[m].configured ==> views[m].last.None?
  }

  lemma {:induction false} SinceIsAnEarlierPass(views: seq<View>)
    ensures var m := Watch(views).0;
      m.since.Some? ==> exists j :: 0 <= j < |views| && UnreportedSince(views, j) && views[j].now == m.since.value
  {
    if views != [] {
      var n := |views| - 1;
      var before := views[..n];
      SinceIsAnEarlierPass(before);
      var old_ := Watch(before).0;
      if Watch(views).0.since.Some? {
        if old_.since == Watch(views).0.since {
          var j :| 0 <= j < |before| && UnreportedSince(before, j) && before[j].now == old_.since.value;
          assert views[j] == before[j];
          assert forall m :: j < m < n ==> views[m] == before[m];
          assert UnreportedSince(views, j);
        } else {
          assert UnreportedSince(views, n);
        }
      }
    }
  }

  /**
   * Grace period: a stale event for a certificate that never checked in needs an earlier pass, more than staleAfter
   * ago, that saw it configured and unreported, with no pass since seeing it checked in; for one that has checked in,
   * the last checkin is more than staleAfter ago.
   */
  lemma StaleNeedsGracePeriod(views: seq<View>)
    requires views != [] && views[|views| - 1].configured
    requires |Watch(views).1| > |Watch(views[..|views| - 1]).1| && Watch(views).1[|Watch(views).1| - 1] == Stale
    ensures var v, before := views[|views| - 1], views[..|views| - 1];
      match v.last
      case Some(at) => at < v.now - v.staleAfter
      case None => exists j :: 0 <= j < |before| && UnreportedSince(before, j) && before[j].now < v.now - v.staleAfter
  {
    SinceIsAnEarlierPass(views[..|views| - 1]);
  }

  // ----- Whose grace period it is -----

  /** The first pass from which on the certificate was never seen configured and checked in. */
  ghost predicate FirstUnreported(views: seq<View>, j: nat)
    requires j < |views|
  {
    UnreportedSince(views, j) && forall i :: 0 <= i < j ==> !UnreportedSince(views, i)
  }

  lemma UnreportedStep(views: seq<View>, j: nat)
    requires j < |views| - 1
    ensures var n := |views| - 1;
      UnreportedSince(views, j) <==> UnreportedSince(views[..n], j) && (views[n].configured ==> views[n].last.None?)
  {
    var n := |views| - 1;
    if UnreportedSince(views[..n], j) && (views[n].configured ==> views[n].last.None?) {
      forall m | j < m < |views| && views[m].configured ensures views[m].last.None? {
        if m < n { assert views[..n][m] == views[m]; }
      }
    }
    if UnreportedSince(views, j) {
      forall m | j < m < n && views[..n][m].configured ensures views[..n][m].last.None? { assert views[m].last.None?; }
    }
  }

  /** The memory holds the clock of that pass, also when the certificate was unconfigured in between. */
  lemma {:induction false} SinceIsTheFirst(views: seq<View>)
    ensures var m := Watch(views).0;
      && (m.since.None? <==> forall j :: 0 <= j < |views| ==> !UnreportedSince(views, j))
      && (m.since.Some? ==> exists j :: 0 <= j < |views| && FirstUnreported(views, j) && views[j].now == m.since.value)
  {
    if views != [] {
      var n := |views| - 1;
      var before, v := views[..n], views[n];
      SinceIsTheFirst(before);
      forall j | 0 <= j < n
        ensures UnreportedSince(views, j) <==> UnreportedSince(before, j) && (v.configured ==> v.last.None?)
      {
        UnreportedStep(views, j);
      }
      assert UnreportedSince(views, n) <==> v.configured && v.last.None?;
      var old_ := Watch(before).0;
      if old_.since.Some? && (v.configured ==> v.last.None?) {
        var j :| 0 <= j < n && FirstUnreported(before, j) && before[j].now == old_.since.value;
        assert FirstUnreported(views, j) && views[j].now == old_.since.value;
      } else if v.configured && v.last.None? {
        assert FirstUnreported(views, n);
      }
    }
  }

  // ----- Who is alarmed about -----

  /**
   * What the last pass saw: a checkin longer ago than the threshold; or none, when the first pass from which on the
   * certificate was never seen checked in is that long ago.
   */
  ghost predicate Overdue(views: seq<View>)
    requires views != []
  {
    var v, before := views[|views| - 1], views[..|views| - 1];
    match v.last
    case Some(at) => v.now - at > v.staleAfter
    case None => exists j: nat :: j < |before| && FirstUnreported(before, j) && v.now - before[j].now > v.staleAfter
  }

  /** A configured certificate stands as reported stale after a pass exactly when it is overdue. */
  lemma NotifiedExactlyWhen(views: seq<View>)
    requires views != [] && views[|views| - 1].configured
    ensures Watch(views).0.notified <==> Overdue(views)
  {
    var before := views[..|views| - 1];
    SinceIsTheFirst(before);
    forall i: nat, j: nat | i < |before| && j < |before| && FirstUnreported(before, i) && FirstUnreported(before, j)
      ensures i == j {}
  }

  /**
   * A pass tells of a certificate exactly what is new: that it is stale when it is overdue and was last told not to be,
   * and that it has recovered when it is the other way round.
   */
  lemma AlarmsExactlyWhen(views: seq<View>)
    requires views != [] && views[|views| - 1].configured
    ensures var before := Watch(views[..|views| - 1]).1;
      Watch(views).1 == before + if Overdue(views) && |before| % 2 == 0 then [Stale]
                                 else if !Overdue(views) && |before| % 2 == 1 then [Recovered] else []
  {
    NotifiedExactlyWhen(views);
    AlarmsAlternate(views[..|views| - 1]);
  }

  ghost predicate ClockKeepsUp(views: seq<View>)
  {
    forall i, j :: 0 <= i < j < |views| ==> views[i].now <= views[j].now
  }

  /** From the last pass on, the certificate is stale only when more than a whole threshold has passed since. */
  ghost predicate GraceIsFresh(m: Memory, from: int)
  {
    forall now: int, staleAfter: nat :: IsStale(m, None, now, staleAfter) ==> now - from > staleAfter
  }

  /**
   * A certificate that a pass sees configured and unreported gets its whole grace period from that pass on exactly when
   * no earlier pass, at an earlier time, saw it so without seeing it checked in later: being unconfigured in between
   * does not count.
   */
  lemma GraceIsFreshExactlyWhen(views: seq<View>)
    requires views != [] && views[|views| - 1].configured && views[|views| - 1].last.None? && ClockKeepsUp(views)
    ensures var v := views[|views| - 1];
      GraceIsFresh(Watch(views).0, v.now)
      <==> forall i :: 0 <= i < |views| && UnreportedSince(views, i) ==> views[i].now == v.now
  {
    SinceIsTheFirst(views);
    var m, v := Watch(views).0, views[|views| - 1];
    assert UnreportedSince(views, |views| - 1);
    var f :| 0 <= f < |views| && FirstUnreported(views, f) && views[f].now == m.since.value;
    if views[f].now < v.now {
      assert IsStale(m, None, v.now, v.now - views[f].now - 1);
    }
  }

  /** So a certificate deleted before it ever reported, and added again later, alerts in the first pass that sees it. */
  lemma ReaddedAlertsAtOnce(first: int, gap: seq<View>, again: int, staleAfter: nat)
    requires again - first > staleAfter && forall v :: v in gap ==> !v.configured
    ensures var before := [View(true, None, first, staleAfter)] + gap;
      Watch(before).1 == [] && Watch(before + [View(true, None, again, staleAfter)]).1 == [Stale]
  {
    var start, last := [View(true, None, first, staleAfter)], View(true, None, again, staleAfter);
    assert start[..0] == [] && Watch(start) == (Memory(false, Some(first)), []);
    GapChangesNothing(start, gap);
    assert (start + gap + [last])[..|start + gap|] == start + gap;
  }

  lemma {:induction false} GapChangesNothing(views: seq<View>, gap: seq<View>)
    requires forall v :: v in gap ==> !v.configured
    ensures Watch(views + gap) == Watch(views)
    decreases |gap|
  {
    if gap == [] {
      assert views + gap == views;
    } else {
      var n := |gap| - 1;
      GapChangesNothing(views, gap[..n]);
      assert (views + gap)[..|views + gap| - 1] == views + gap[..n];
      assert gap[n] in gap;
    }
  }

  /** What one pass reads: the served spokes, the observed rows, the clock and the threshold. */
  datatype Scan = Scan(spokes: map<string, SpokeEntry>, observed: map<Key, Row>, now: int, staleAfter: int)

  ghost predicate Passed(was: Memo, is_: Memo, scan: Scan, events: seq<(Key, Alarm)>)
  {
    && (forall k :: k in Configured(scan.spokes) ==> ValidCertName(k.1))
    && PassedOver(was, is_, Configured(scan.spokes), events, scan.observed, scan.now, scan.staleAfter)
  }

  /** The memories and event lists of a run of passes that starts with a fresh watchdog. */
  ghost predicate IsRun(memos: seq<Memo>, scans: seq<Scan>, events: seq<seq<(Key, Alarm)>>)
  {
    && |memos| == |scans| + 1 && |events| == |scans|
    && memos[0] == Memo({}, map[])
    && forall i :: 0 <= i < |scans| ==> Passed(memos[i], memos[i + 1], scans[i], events[i])
  }

  lemma OnePass(was: Memo, is_: Memo, scan: Scan, events: seq<(Key, Alarm)>, k: Key)
    requires Passed(was, is_, scan, events) && ValidCertName(k.1)
    ensures k in Configured(scan.spokes) ==>
      Looked(was, is_, k, events, LastCheckin(scan.observed, k), scan.now, scan.staleAfter)
    ensures k !in Configured(scan.spokes) ==>
      Recall(is_, JoinKey(k)) == Recall(was, JoinKey(k)) && forall a :: (k, a) !in events
  {
    var done := Configured(scan.spokes);
    if k !in done {
      forall d | d in done ensures JoinKey(d) != JoinKey(k) {
        if JoinKey(d) == JoinKey(k) { JoinKeyInjective(d, k); }
      }
      forall a ensures (k, a) !in events {
        assert forall i :: 0 <= i < |events| ==> events[i].0 in done;
      }
    }
  }

  ghost function ViewOf(scan: Scan, k: Key): View
  {
    View(k in Configured(scan.spokes), LastCheckin(scan.observed, k), scan.now, scan.staleAfter)
  }

  ghost function ViewsOf(scans: seq<Scan>, k: Key): (views: seq<View>)
    ensures |views| == |scans| && forall i :: 0 <= i < |scans| ==> views[i] == ViewOf(scans[i], k)
  {
    seq(|scans|, i requires 0 <= i < |scans| => ViewOf(scans[i], k))
  }

  /** The events of one certificate over a run. */
  ghost function EventsOf(events: seq<seq<(Key, Alarm)>>, k: Key): seq<Alarm>
  {
    if events == [] then [] else
      var last := events[|events| - 1];
      EventsOf(events[..|events| - 1], k)
      + if (k, Stale) in last then [Stale] else if (k, Recovered) in last then [Recovered] else []
  }

  /** Certificates do not disturb each other: in every run each behaves as if it were the only one watched. */
  lemma {:induction false} PassesFollowWatch(memos: seq<Memo>, scans: seq<Scan>, events: seq<seq<(Key, Alarm)>>, k: Key)
    requires IsRun(memos, scans, events) && ValidCertName(k.1)
    ensures (Recall(memos[|scans|], JoinKey(k)), EventsOf(events, k)) == Watch(ViewsOf(scans, k))
    decreases |scans|
  {
    if scans != [] {
      var n := |scans| - 1;
      var views := ViewsOf(scans, k);
      PassesFollowWatch(memos[..n + 1], scans[..n], events[..n], k);
      assert ViewsOf(scans[..n], k) == views[..n];
      OnePass(memos[n], memos[n + 1], scans[n], events[n], k);
      assert (Recall(memos[n], JoinKey(k)), EventsOf(events[..n], k)) == Watch(views[..n]);
      assert views[n] == ViewOf(scans[n], k);
      var alarm := Look(Recall(memos[n], JoinKey(k)), views[n].last, views[n].now, views[n].staleAfter).1;
      var more := if alarm.Some? && views[n].configured then [alarm.value] else [];
      assert EventsOf(events, k) == EventsOf(events[..n], k) + more;
      assert Watch(views).1 == Watch(views[..n]).1 + more;
      assert Recall(memos[|scans|], JoinKey(k)) == Watch(views).0;
    }
  }

  /** Over every run of passes, the events of each certificate alternate strictly, starting with stale. */
  lemma RunsAlternate(memos: seq<Memo>, scans: seq<Scan>, events: seq<seq<(Key, Alarm)>>, k: Key)
    requires IsRun(memos, scans, events) && ValidCertName(k.1)
    ensures forall i :: 0 <= i < |EventsOf(events, k)| ==> (EventsOf(events, k)[i] == Stale <==> i % 2 == 0)
  {
    PassesFollowWatch(memos, scans, events, k);
    AlarmsAlternate(ViewsOf(scans, k));
  }

  /** Over every run: the last pass alarms about a configured certificate exactly when it is overdue and untold. */
  lemma RunsAlarmExactlyWhen(memos: seq<Memo>, scans: seq<Scan>, events: seq<seq<(Key, Alarm)>>, k: Key)
    requires IsRun(memos, scans, events) && scans != [] && ValidCertName(k.1)
    requires k in Configured(scans[|scans| - 1].spokes)
    ensures var n := |scans| - 1;
      var overdue, told := Overdue(ViewsOf(scans, k)), |EventsOf(events[..n], k)| % 2 == 1;
      && ((k, Stale) in events[n] <==> overdue && !told)
      && ((k, Recovered) in events[n] <==> !overdue && told)
  {
    var n := |scans| - 1;
    var views := ViewsOf(scans, k);
    PassesFollowWatch(memos, scans, events, k);
    PassesFollowWatch(memos[..n + 1], scans[..n], events[..n], k);
    assert ViewsOf(scans[..n], k) == views[..n];
    AlarmsExactlyWhen(views);
    OnePass(memos[n], memos[n + 1], scans[n], events[n], k);
    AlarmsAlternate(views[..n]);
    NotifiedExactlyWhen(views);
  }

  /**
   * What a pass takes for the last checkin of a certificate, after any statements on any rows: the clock of the latest
   * checkin of either kind since its row was last removed, and nothing if there was none.
   */
  lemma LastCheckinIsTheLatest(log: seq<(Key, Event)>, k: Key)
    ensures var own, last := Project(log, k), LastCheckin(ObserveAll(log), k);
      && (forall i :: 0 <= i < |own| && Latest(own, i, checkins) ==> last == Some(own[i].now))
      && (Never(own, checkins) ==> last == None)
  {
    var own := Project(log, k);
    RowsAreIndependent(log, k);
    RowDescribesHistory(own);
    if Replay(own).None? { DefaultsShowNothing(own); }
  }

  /** A stale event in the last pass of a run had its grace period. */
  lemma RunsGiveGracePeriod(memos: seq<Memo>, scans: seq<Scan>, events: seq<seq<(Key, Alarm)>>, k: Key)
    requires IsRun(memos, scans, events) && scans != [] && ValidCertName(k.1)
    requires (k, Stale) in events[|scans| - 1]
    ensures var views, n := ViewsOf(scans, k), |scans| - 1;
      match views[n].last
      case Some(at) => at < views[n].now - views[n].staleAfter
      case None => exists j ::
        0 <= j < n && UnreportedSince(views[..n], j) && views[j].now < views[n].now - views[n].staleAfter
  {
    var n := |scans| - 1;
    var views := ViewsOf(scans, k);
    OnePass(memos[n], memos[n + 1], scans[n], events[n], k);
    PassesFollowWatch(memos[..n + 1], scans[..n], events[..n], k);
    assert ViewsOf(scans[..n], k) == views[..n];
    StaleNeedsGracePeriod(views);
  }

  /** The same over runs of passes, for the memory of a certificate that the last pass saw unreported. */
  lemma RunsGraceIsFreshExactlyWhen(memos: seq<Memo>, scans: seq<Scan>, events: seq<seq<(Key, Alarm)>>, k: Key)
    requires IsRun(memos, scans, events) && scans != [] && ValidCertName(k.1)
    requires k in Configured(scans[|scans| - 1].spokes) && LastCheckin(scans[|scans| - 1].observed, k).None?
    requires ClockKeepsUp(ViewsOf(scans, k))
    ensures var views, now := ViewsOf(scans, k), scans[|scans| - 1].now;
      GraceIsFresh(Recall(memos[|scans|], JoinKey(k)), now)
      <==> forall i :: 0 <= i < |views| && UnreportedSince(views, i) ==> views[i].now == now
  {
    PassesFollowWatch(memos, scans, events, k);
    GraceIsFreshExactlyWhen(ViewsOf(scans, k));
  }
}
