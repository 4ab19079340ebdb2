/** A spoke's polling loop (internal/spokeagent/agent.go). */
module SpokeAgent {
  import opened Basics
  import opened Checkin
  import opened Float64
  import opened SpokeStore
  import CertState
  import Due

  datatype Settings = Settings(retry: int, max: int)

  datatype Attempt = Obtained(notBefore: int, notAfter: int, serial: string) | Broken(error: string)

  /** Everything a poll of one certificate meets: its reload hook's configuration, the clock, and what others answer. */
  datatype World = World(
    hasHook: bool,
    access: Access,        // whether the local row can be read, or created
    lookedAt: int,         // the clock when the backoff is checked
    due: Option<bool>,     // the hub's answer; None is an error
    attempt: Attempt,      // the outcome of the ACME order and the install
    finishedAt: int,       // the clock when the outcome is recorded
    recorded: bool,        // the local UPDATE of the outcome works
    hook: Option<string>,  // the hook's error, if it fails
    hookAt: int,           // the clock when the hook's outcome is recorded
    hookRecorded: bool,    // that UPDATE works
    converted: int)        // what converting an out-of-range float64 to a Duration yields

  datatype Sent = AskedDue | Reported(req: Request)

  // ----- Backoff -----

  const INT64_LIMIT := 0x8000_0000_0000_0000

  predicate IsInt64(n: int)
  {
    -INT64_LIMIT <= n < INT64_LIMIT
  }

  /** float64(retry) * 2^(failures - 1), truncated: the scaling is exact. */
  function Product(failures: nat, retry: int): int
  {
    var base := Float(retry);
    if failures > 0 then base * Pow2(failures - 1) else if base >= 0 then base / 2 else -(-base / 2)
  }

  function BackoffFor(failures: nat, retry: int, max: int, converted: int): int
  {
    var product := Product(failures, retry);
    var backoff := if IsInt64(product) then product else converted;
    if backoff > max then max else backoff
  }

  function Min(a: int, b: int): int
  {
    if a <= b then a else b
  }

  /** The backoff is the capped exponential, whatever the platform's conversion does, exactly when the product fits. */
  lemma CappedExactlyWhenItFits(failures: nat, retry: int, max: int)
    requires IsInt64(max) && max > -INT64_LIMIT
    ensures (forall c :: IsInt64(c) ==> BackoffFor(failures, retry, max, c) == Min(max, Product(failures, retry)))
      <==> IsInt64(Product(failures, retry))
  {
    if !IsInt64(Product(failures, retry)) {
      assert BackoffFor(failures, retry, max, -INT64_LIMIT) == -INT64_LIMIT;
    }
  }

  /** With the default of one hour the product fits exactly up to a streak of 22. */
  lemma DefaultFitsUpTo22(failures: nat)
    ensures IsInt64(Product(failures, 3600 * SECOND)) <==> failures <= 22
  {
    SmallIsExact(3600 * SECOND);
    assert Pow2(4) == 16;
    assert Pow2(8) == 256;
    assert Pow2(12) == 4096;
    assert Pow2(16) == 65536;
    assert Pow2(20) == 1048576;
    if 0 < failures <= 22 {
      Pow2Grows(failures - 1, 21);
    } else if failures > 22 {
      Pow2Grows(22, failures - 1);
    }
  }

  // ----- One poll -----

  predicate BackingOff(row: Row, w: World, s: Settings)
  {
    && row.status == Failed && row.lastAttempt.Some?
    && w.lookedAt - row.lastAttempt.value < BackoffFor(row.failures, s.retry, s.max, w.converted)
  }

  /** The row after an UPDATE that may fail. */
  function Recorded(row: Row, e: Event, works: bool): Row
  {
    if works then Apply(row, e) else row
  }

  function HookReport(w: World, notBefore: int, notAfter: int, serial: string): seq<Sent>
  {
    if !w.hasHook then []
    else [Reported(Request("active", notBefore, notAfter, serial, "", 0,
                           if w.hook.None? then "ok" else "failed", if w.hook.None? then "" else w.hook.value))]
  }

  /** An empty command succeeds. */
  function HookOutcome(w: World): Option<string>
  {
    if w.hasHook then w.hook else None
  }

  function OrZero(t: Option<int>): int
  {
    if t.Some? then t.value else ZERO_TIME
  }

  function OrEmpty(t: Option<string>): string
  {
    if t.Some? then t.value else ""
  }

  /** What processIfDue does to the certificate's row and what it sends to the hub. */
  function Poll(row: Row, w: World, s: Settings): (Row, seq<Sent>)
  {
    if w.access != Fine || BackingOff(row, w, s) then (row, [])
    else if w.due == Some(true) then Process(row, w)
    else if w.due == Some(false) && w.hasHook && row.hookError.Some? then
      (Recorded(row, HookRan(w.hookAt, w.hook), w.hookRecorded),
       [AskedDue] + HookReport(w, OrZero(row.notBefore), OrZero(row.notAfter), OrEmpty(row.serial)))
    else (row, [AskedDue])
  }

  function Process(row: Row, w: World): (Row, seq<Sent>)
  {
    match w.attempt
    case Broken(error) =>
      var row' := Recorded(row, Broke(w.finishedAt, error), w.recorded);
      (row', [AskedDue, Reported(Request("failed", ZERO_TIME, ZERO_TIME, "", error,
                                         if w.recorded then row'.failures else 0, "", ""))])
    case Obtained(nb, na, serial) =>
      if !w.recorded then (row, [AskedDue])
      else
        (Recorded(Apply(row, Issued(w.finishedAt, nb, na, serial)), HookRan(w.hookAt, HookOutcome(w)), w.hookRecorded),
         [AskedDue, Reported(Request("active", nb, na, serial, "", 0, "", ""))] + HookReport(w, nb, na, serial))
  }

  class Agent {
    const st: Store

    constructor (st: Store)
      ensures this.st == st
    {
      this.st := st;
    }

    method ProcessIfDue(name: string, w: World, s: Settings) returns (sent: seq<Sent>)
      modifies st
      ensures (RowOf(st.rows, name), sent) == Poll(RowOf(old(st.rows), name), w, s)
      ensures forall n :: n != name ==> RowOf(st.rows, n) == RowOf(old(st.rows), n)
      ensures w.access != Unreadable ==> name in st.rows
    {
      var found := st.GetOrCreateCertState(name, w.access);
      if found.None? { return []; }
      var row := found.value;
      if row.status == Failed {
        var backoff := BackoffFor(row.failures, s.retry, s.max, w.converted);
        if row.lastAttempt.Some? && w.lookedAt - row.lastAttempt.value < backoff { return []; }
      }
      sent := [AskedDue];
      if w.due.None? { return; }
      if !w.due.value {
        var more := RetryHookIfFailed(name, w, row);
        sent := sent + more;
        assert more == [] ==> sent == [AskedDue];
        assert st.rows == old(st.rows)[name := Poll(row, w, s).0];
        return;
      }
      var more := ProcessCert(name, w, row);
      sent := sent + more;
      assert st.rows == old(st.rows)[name := Poll(row, w, s).0];
    }

    method RetryHookIfFailed(name: string, w: World, row: Row) returns (sent: seq<Sent>)
      requires name in st.rows && st.rows[name] == row
      modifies st
      ensures st.rows == old(st.rows)[name :=
        if w.hasHook && row.hookError.Some? then Recorded(row, HookRan(w.hookAt, w.hook), w.hookRecorded) else row]
      ensures sent == if w.hasHook && row.hookError.Some?
        then HookReport(w, OrZero(row.notBefore), OrZero(row.notAfter), OrEmpty(row.serial))
        else []
    {
      if !w.hasHook || row.hookError.None? {
        assert st.rows == st.rows[name := row];
        return [];
      }
      st.MarkHookResult(name, w.hookAt, w.hook, w.hookRecorded);
      sent := ReportHookResult(w, OrZero(row.notBefore), OrZero(row.notAfter), OrEmpty(row.serial));
    }

    method ReportHookResult(w: World, notBefore: int, notAfter: int, serial: string) returns (sent: seq<Sent>)
      ensures sent == HookReport(w, notBefore, notAfter, serial)
    {
      if !w.hasHook { return []; }
      var req := Request("active", notBefore, notAfter, serial, "", 0, "ok", "");
      if w.hook.Some? { req := req.(hookStatus := "failed", hookError := w.hook.value); }
      return [Reported(req)];
    }

    method ProcessCert(name: string, w: World, ghost row: Row) returns (sent: seq<Sent>)
      requires name in st.rows && st.rows[name] == row
      modifies st
      ensures st.rows == old(st.rows)[name := Process(row, w).0]
      ensures [AskedDue] + sent == Process(row, w).1
    {
      match w.attempt
      case Broken(error) =>
        sent := Fail(name, w, error);
      case Obtained(nb, na, serial) =>
        var ok := st.MarkIssued(name, w.finishedAt, nb, na, serial, w.recorded);
        if !ok {
          assert st.rows == st.rows[name := row];
          return [];
        }
        sent := [Reported(Request("active", nb, na, serial, "", 0, "", ""))];
        var hookErr := if w.hasHook then w.hook else None;
        st.MarkHookResult(name, w.hookAt, hookErr, w.hookRecorded);
        var more := ReportHookResult(w, nb, na, serial);
        sent := sent + more;
    }

    method Fail(name: string, w: World, error: string) returns (sent: seq<Sent>)
      requires name in st.rows
      modifies st
      ensures st.rows == old(st.rows)[name := Recorded(old(st.rows)[name], Broke(w.finishedAt, error), w.recorded)]
      ensures sent == [Reported(Request("failed", ZERO_TIME, ZERO_TIME, "", error,
                                        if w.recorded then st.rows[name].failures else 0, "", ""))]
    {
      var streak := st.MarkFailed(name, w.finishedAt, error, w.recorded);
      return [Reported(Request("failed", ZERO_TIME, ZERO_TIME, "", error, streak, "", ""))];
    }

    /** RunOnce: every configured certificate once, each on its own row, whatever happens to the others. */
    method RunOnce(names: seq<string>, worlds: seq<World>, s: Settings) returns (sent: seq<seq<Sent>>)
      requires |worlds| == |names| && forall i, j :: 0 <= i < j < |names| ==> names[i] != names[j]
      modifies st
      ensures |sent| == |names|
      ensures forall i :: 0 <= i < |names| ==>
        (RowOf(st.rows, names[i]), sent[i]) == Poll(RowOf(old(st.rows), names[i]), worlds[i], s)
      ensures forall n :: n !in names ==> RowOf(st.rows, n) == RowOf(old(st.rows), n)
    {
      sent := [];
      for i := 0 to |names|
        invariant |sent| == i
        invariant forall j :: 0 <= j < i ==>
          (RowOf(st.rows, names[j]), sent[j]) == Poll(RowOf(old(st.rows), names[j]), worlds[j], s)
        invariant forall n :: n !in names[..i] ==> RowOf(st.rows, n) == RowOf(old(st.rows), n)
      {
        assert names[i] !in names[..i];
        var out := ProcessIfDue(names[i], worlds[i], s);
        sent := sent + [out];
        assert names[..i + 1] == names[..i] + [names[i]];
      }
    }
  }

  // ----- What a poll sends -----

  /**
   * A spoke that backs off, or cannot read its row, sends nothing, so it takes no lease for an attempt it will not
   * make.
   */
  lemma AsksExactlyUnlessBackingOff(row: Row, w: World, s: Settings)
    ensures AskedDue in Poll(row, w, s).1 <==> w.access == Fine && !BackingOff(row, w, s)
    ensures Poll(row, w, s).1 == [] <==> w.access != Fine || BackingOff(row, w, s)
  {
    if w.access == Fine && !BackingOff(row, w, s) { assert Poll(row, w, s).1[0] == AskedDue; }
  }

  /** The capped exponential; past the range of int64 the platform's conversion decides. */
  function Wait(failures: nat, s: Settings, converted: int): int
  {
    var product := Product(failures, s.retry);
    Min(s.max, if IsInt64(product) then product else converted)
  }

  /** After a failure the hub is asked again exactly from the last attempt plus the capped exponential on. */
  lemma AsksExactlyFrom(row: Row, w: World, s: Settings)
    requires Inv(row)
    ensures AskedDue in Poll(row, w, s).1 <==>
      && w.access == Fine
      && (row.status == Failed ==> w.lookedAt >= row.lastAttempt.value + Wait(row.failures, s, w.converted))
    ensures IsInt64(Product(row.failures, s.retry)) ==>
      Wait(row.failures, s, w.converted) == Min(s.max, Product(row.failures, s.retry))
  {
    AsksExactlyUnlessBackingOff(row, w, s);
  }

  /** What a poll changes in the row: the outcome of an attempt and of a hook, as far as they could be recorded. */
  lemma PollRecords(row: Row, w: World, s: Settings)
    ensures var (after, sent) := Poll(row, w, s);
      var attempted := AskedDue in sent && w.due == Some(true) && w.recorded;
      var hooked := w.hookRecorded && AskedDue in sent && (
        if w.due == Some(true) then w.recorded && w.attempt.Obtained?
        else w.due == Some(false) && w.hasHook && row.hookError.Some?);
      && (after.lastHook, after.hookError)
         == (if hooked then (Some(w.hookAt), if w.hasHook then w.hook else None) else (row.lastHook, row.hookError))
      && (if attempted && w.attempt.Obtained? then
            && after.status == Active && after.failures == 0 && after.lastError == None
            && after.notBefore == Some(w.attempt.notBefore) && after.notAfter == Some(w.attempt.notAfter)
            && after.serial == Some(w.attempt.serial)
            && after.lastIssued == Some(w.finishedAt) && after.lastAttempt == Some(w.finishedAt)
          else if attempted then
            && after.status == Failed && after.failures == row.failures + 1
            && after.lastError == Some(w.attempt.error) && after.lastAttempt == Some(w.finishedAt)
            && (after.notBefore, after.notAfter, after.serial, after.lastIssued)
               == (row.notBefore, row.notAfter, row.serial, row.lastIssued)
          else after.(lastHook := row.lastHook, hookError := row.hookError) == row)
  {
    AsksExactlyUnlessBackingOff(row, w, s);
  }

  /**
   * A hook's outcome is reported exactly when the hook ran: after an issuance, or again because its last run failed
   * and the certificate was not due; and the report says how it went.
   */
  lemma HookIsReportedExactlyWhen(row: Row, w: World, s: Settings)
    ensures var sent := Poll(row, w, s).1;
      && ((exists req :: Reported(req) in sent && req.hookStatus != "") <==>
            && w.hasHook && AskedDue in sent
            && (if w.due == Some(true) then w.attempt.Obtained? && w.recorded
                else w.due == Some(false) && row.hookError.Some?))
      && forall req :: Reported(req) in sent && req.hookStatus != "" ==>
           (req.hookStatus, req.hookError) == if w.hook.None? then ("ok", "") else ("failed", w.hook.value)
  {
    var sent := Poll(row, w, s).1;
    if w.hasHook && w.due == Some(true) && w.attempt.Obtained? && w.recorded && |sent| == 3 {
      assert sent[2].Reported? && sent[2] in sent;
    }
    if w.hasHook && w.due == Some(false) && row.hookError.Some? && |sent| == 2 {
      assert sent[1].Reported? && sent[1] in sent;
    }
  }

  /** The attempt did not yield a certificate, or yielded one that the hub would believe. */
  predicate BelievableAttempt(w: World)
  {
    w.attempt.Obtained? ==> Plausible(w.attempt.notBefore, w.attempt.notAfter) && w.attempt.serial != ""
  }

  /**
   * The answer "due" took a lease; a report that the hub accepts, and that so frees it, follows exactly for a failure
   * and for a believable certificate whose issuance could be recorded. Otherwise the lease stands until it expires.
   */
  lemma DueIsFollowedByAReport(row: Row, w: World, s: Settings)
    requires w.access == Fine && !BackingOff(row, w, s) && w.due == Some(true)
    ensures (exists req :: Reported(req) in Poll(row, w, s).1 && Acceptable(req))
      <==> w.attempt.Broken? || (w.recorded && BelievableAttempt(w))
  {
    var sent := Poll(row, w, s).1;
    if w.attempt.Broken? || (w.recorded && BelievableAttempt(w)) {
      assert sent[1].Reported? && sent[1] in sent && Acceptable(sent[1].req);
    }
  }

  // ----- Runs of polls of one certificate -----

  /** The rows between the polls of one spoke process after another, under a clock that never goes back. */
  ghost predicate IsRun(rows: seq<Row>, worlds: seq<World>, s: Settings)
  {
    && |rows| == |worlds| + 1 && rows[0] == PENDING
    && (forall i :: 0 <= i < |worlds| ==> rows[i + 1] == Poll(rows[i], worlds[i], s).0)
    && (forall i :: 0 <= i < |worlds| ==> worlds[i].lookedAt <= worlds[i].finishedAt <= worlds[i].hookAt)
    && (forall i, j :: 0 <= i < j < |worlds| ==> worlds[i].hookAt <= worlds[j].lookedAt)
  }

  ghost predicate Inv(row: Row)
  {
    && (row.status == Failed <==> row.failures >= 1)
    && (row.status == Failed ==> row.lastAttempt.Some?)
    && (row.notBefore.Some? <==> row.serial.Some?) && (row.notAfter.Some? <==> row.serial.Some?)
    && (row.hookError.Some? ==> row.serial.Some? && row.status != Pending)
  }

  lemma PollKeepsInv(row: Row, w: World, s: Settings)
    requires Inv(row)
    ensures Inv(Poll(row, w, s).0)
  {
  }

  /** Status "failed" and a positive streak go together, and a recorded hook error implies an earlier issuance. */
  lemma {:induction false} RunKeepsInv(rows: seq<Row>, worlds: seq<World>, s: Settings, i: nat)
    requires IsRun(rows, worlds, s) && i < |rows|
    ensures Inv(rows[i])
  {
    if i > 0 {
      RunKeepsInv(rows, worlds, s, i - 1);
      PollKeepsInv(rows[i - 1], worlds[i - 1], s);
    }
  }

  // ----- The streak, and when it ends -----

  /** Poll `i` attempted the certificate and recorded how that ended. */
  ghost predicate Records(rows: seq<Row>, worlds: seq<World>, s: Settings, i: nat)
    requires i < |rows| && i < |worlds|
  {
    AskedDue in Poll(rows[i], worlds[i], s).1 && worlds[i].due == Some(true) && worlds[i].recorded
  }

  /** The failures recorded by the first `i` polls since the last success they recorded. */
  ghost function FailuresInARow(rows: seq<Row>, worlds: seq<World>, s: Settings, i: nat): nat
    requires i < |rows| && i <= |worlds|
  {
    if i == 0 then 0
    else if !Records(rows, worlds, s, i - 1) then FailuresInARow(rows, worlds, s, i - 1)
    else if worlds[i - 1].attempt.Obtained? then 0
    else FailuresInARow(rows, worlds, s, i - 1) + 1
  }

  /** Poll `a` is the last one before poll `i` that recorded an attempt. */
  ghost predicate LastRecord(rows: seq<Row>, worlds: seq<World>, s: Settings, a: nat, i: nat)
    requires i < |rows| && i <= |worlds|
  {
    a < i && Records(rows, worlds, s, a) && forall k :: a < k < i ==> !Records(rows, worlds, s, k)
  }

  /** The row's streak is that count, and while it lasts the last attempt is dated by the poll that recorded it. */
  lemma {:induction false} StreakIsCounted(rows: seq<Row>, worlds: seq<World>, s: Settings, i: nat)
    requires IsRun(rows, worlds, s) && i < |rows|
    ensures rows[i].failures == FailuresInARow(rows, worlds, s, i)
    ensures rows[i].status == Failed <==> FailuresInARow(rows, worlds, s, i) > 0
    ensures rows[i].lastAttempt.Some? ==>
      exists a: nat :: LastRecord(rows, worlds, s, a, i) && rows[i].lastAttempt == Some(worlds[a].finishedAt)
  {
    RunKeepsInv(rows, worlds, s, i);
    if i > 0 {
      StreakIsCounted(rows, worlds, s, i - 1);
      PollRecords(rows[i - 1], worlds[i - 1], s);
      if Records(rows, worlds, s, i - 1) {
        assert LastRecord(rows, worlds, s, i - 1, i);
      } else if rows[i - 1].lastAttempt.Some? {
        var a: nat :| LastRecord(rows, worlds, s, a, i - 1) && rows[i - 1].lastAttempt == Some(worlds[a].finishedAt);
        assert LastRecord(rows, worlds, s, a, i);
      }
    }
  }

  /**
   * Over every run and across restarts: a spoke that can read its row asks the hub in exactly those polls that do not
   * fall into a backoff, that is, from the last recorded failure plus the capped exponential of the streak on, and
   * always while there is no streak.
   */
  lemma AsksAgainExactlyAfterBackoff(rows: seq<Row>, worlds: seq<World>, s: Settings, i: nat)
    requires IsRun(rows, worlds, s) && i < |worlds| && worlds[i].access == Fine
    ensures var n := FailuresInARow(rows, worlds, s, i);
      AskedDue in Poll(rows[i], worlds[i], s).1 <==> n == 0 || exists a: nat ::
        LastRecord(rows, worlds, s, a, i)
        && worlds[i].lookedAt >= worlds[a].finishedAt + Wait(n, s, worlds[i].converted)
  {
    RunKeepsInv(rows, worlds, s, i);
    StreakIsCounted(rows, worlds, s, i);
    AsksExactlyFrom(rows[i], worlds[i], s);
  }

  /** Poll `i` ran the hook, or found none configured after an issuance, and recorded how that went. */
  ghost predicate RecordsHook(rows: seq<Row>, worlds: seq<World>, s: Settings, i: nat)
    requires i < |rows| && i < |worlds|
  {
    && AskedDue in Poll(rows[i], worlds[i], s).1 && worlds[i].hookRecorded
    && (if worlds[i].due == Some(true) then worlds[i].recorded && worlds[i].attempt.Obtained?
        else worlds[i].due == Some(false) && worlds[i].hasHook && rows[i].hookError.Some?)
  }

  /** The last hook outcome recorded before poll `i` is the failure in poll `a`. */
  ghost predicate LastHookFailed(rows: seq<Row>, worlds: seq<World>, s: Settings, a: nat, i: nat)
    requires i < |rows| && i <= |worlds|
  {
    && a < i && RecordsHook(rows, worlds, s, a) && worlds[a].hasHook && worlds[a].hook.Some?
    && forall k :: a < k < i ==> !RecordsHook(rows, worlds, s, k)
  }

  lemma {:induction false} HookErrorIsTheLast(rows: seq<Row>, worlds: seq<World>, s: Settings, i: nat)
    requires IsRun(rows, worlds, s) && i < |rows|
    ensures rows[i].hookError.Some? <==> exists a: nat :: LastHookFailed(rows, worlds, s, a, i)
  {
    if i > 0 {
      var j: nat := i - 1;
      HookErrorIsTheLast(rows, worlds, s, j);
      PollRecords(rows[j], worlds[j], s);
      if RecordsHook(rows, worlds, s, j) {
        forall a: nat | LastHookFailed(rows, worlds, s, a, i) ensures a == j {}
        assert rows[i].hookError.Some? ==> LastHookFailed(rows, worlds, s, j, i);
      } else {
        assert rows[i].hookError == rows[j].hookError;
        if a: nat :| LastHookFailed(rows, worlds, s, a, i) { assert LastHookFailed(rows, worlds, s, a, j); }
        if a: nat :| LastHookFailed(rows, worlds, s, a, j) { assert LastHookFailed(rows, worlds, s, a, i); }
      }
    }
  }

  /**
   * Over every run: a poll that is told "not due" reruns and reports the hook exactly if one is configured and the last
   * outcome on record is a failure, so in every such poll until a success is recorded.
   */
  lemma HookRetriedExactlyUntilItWorks(rows: seq<Row>, worlds: seq<World>, s: Settings, i: nat)
    requires IsRun(rows, worlds, s) && i < |worlds| && worlds[i].due == Some(false)
    requires AskedDue in Poll(rows[i], worlds[i], s).1
    ensures (exists req :: Reported(req) in Poll(rows[i], worlds[i], s).1)
      <==> worlds[i].hasHook && exists a: nat :: LastHookFailed(rows, worlds, s, a, i)
  {
    HookErrorIsTheLast(rows, worlds, s, i);
    HookIsReportedExactlyWhen(rows[i], worlds[i], s);
    assert forall req :: Reported(req) in Poll(rows[i], worlds[i], s).1 ==> req.hookStatus != "";
  }

  // ----- Failure spacing -----

  /** The backoffs after the first `n` failures of a streak, together. */
  function TotalBackoff(n: nat, s: Settings): int
  {
    if n == 0 then 0 else TotalBackoff(n - 1, s) + Min(s.max, Product(n, s.retry))
  }

  /** Before the cap bites, the waits form a geometric series in the float64 of the interval. */
  lemma {:induction false} TotalBeforeCap(n: nat, s: Settings)
    requires s.retry >= 0 && (n > 0 ==> Product(n, s.retry) <= s.max)
    ensures TotalBackoff(n, s) == Float(s.retry) * (Pow2(n) - 1)
    ensures s.retry <= EXACT ==> Float(s.retry) == s.retry
  {
    if s.retry <= EXACT { SmallIsExact(s.retry); }
    if n > 0 {
      if n > 1 { ProductGrows(n - 1, n, s.retry); }
      TotalBeforeCap(n - 1, s);
      OneTermMore(Float(s.retry), Pow2(n - 1));
    }
  }

  lemma OneTermMore(base: int, p: nat)
    ensures base * (2 * p - 1) == base * (p - 1) + base * p
  {
  }

  /** Every backoff of a streak up to `n` failures is computed without overflow. */
  ghost predicate Fits(n: nat, s: Settings)
  {
    forall i :: 1 <= i <= n ==> IsInt64(Product(i, s.retry))
  }

  /** Poll `a` recorded the first failure of a streak that still lasts in row `b`. */
  ghost predicate Streak(rows: seq<Row>, a: nat, b: nat)
  {
    && a < b < |rows| && rows[a].failures == 0
    && forall i :: a < i <= b ==> rows[i].failures >= 1
  }

  lemma PollDelays(row: Row, w: World, s: Settings)
    requires Inv(row) && Inv(Poll(row, w, s).0) && row.failures >= 1 && Poll(row, w, s).0.failures >= 1
    requires IsInt64(Product(row.failures, s.retry)) && w.lookedAt <= w.finishedAt
    ensures var row' := Poll(row, w, s).0;
      || (row'.failures == row.failures && row'.lastAttempt == row.lastAttempt)
      || (row'.failures == row.failures + 1 && row'.lastAttempt == Some(w.finishedAt)
          && w.finishedAt >= row.lastAttempt.value + Min(s.max, Product(row.failures, s.retry)))
  {
  }

  lemma PollStarts(row: Row, w: World, s: Settings)
    requires Inv(row) && row.failures == 0 && Poll(row, w, s).0.failures >= 1
    ensures Poll(row, w, s).0.failures == 1 && Poll(row, w, s).0.lastAttempt == Some(w.finishedAt)
  {
  }

  /**
   * Failure spacing, over every run and across restarts: the k-th consecutive failure is recorded no earlier than the
   * first one plus the k - 1 capped exponential backoffs in between, as long as their products fit.
   */
  lemma {:induction false} FailuresAreSpaced(rows: seq<Row>, worlds: seq<World>, s: Settings, a: nat, b: nat)
    requires IsRun(rows, worlds, s) && Streak(rows, a, b) && Fits(rows[b].failures - 1, s)
    ensures rows[b].lastAttempt.Some?
    ensures rows[b].lastAttempt.value >= worlds[a].finishedAt + TotalBackoff(rows[b].failures - 1, s)
    decreases b
  {
    RunKeepsInv(rows, worlds, s, b - 1);
    RunKeepsInv(rows, worlds, s, b);
    if b == a + 1 {
      PollStarts(rows[a], worlds[a], s);
    } else {
      var row := rows[b - 1];
      assert rows[b] == Poll(row, worlds[b - 1], s).0;
      StreakStep(row, worlds[b - 1], s);
      FailuresAreSpaced(rows, worlds, s, a, b - 1);
      if row.failures < rows[b].failures { PollDelays(row, worlds[b - 1], s); }
    }
  }

  lemma StreakStep(row: Row, w: World, s: Settings)
    requires Inv(row) && row.failures >= 1 && Poll(row, w, s).0.failures >= 1
    ensures var row' := Poll(row, w, s).0;
      (row'.failures == row.failures && row'.lastAttempt == row.lastAttempt) || row'.failures == row.failures + 1
  {
  }

  lemma ProductGrows(m: nat, n: nat, retry: nat)
    requires 1 <= m <= n
    ensures 0 <= Product(m, retry) <= Product(n, retry)
  {
    Pow2Grows(m - 1, n - 1);
    Due.TimesMonotone(Pow2(m - 1), Pow2(n - 1), Float(retry));
  }

  /** In numbers, for as long as the next backoff is below the cap. */
  lemma FailuresAreSpacedGeometrically(rows: seq<Row>, worlds: seq<World>, s: Settings, a: nat, b: nat)
    requires IsRun(rows, worlds, s) && Streak(rows, a, b) && 0 <= s.retry && IsInt64(s.max)
    requires rows[b].failures > 1 ==> Product(rows[b].failures - 1, s.retry) <= s.max
    ensures rows[b].lastAttempt.Some?
    ensures rows[b].lastAttempt.value - worlds[a].finishedAt >= Float(s.retry) * (Pow2(rows[b].failures - 1) - 1)
    ensures s.retry <= EXACT ==> Float(s.retry) == s.retry
  {
    var n := rows[b].failures - 1;
    forall i | 1 <= i <= n ensures IsInt64(Product(i, s.retry)) { ProductGrows(i, n, s.retry); }
    FailuresAreSpaced(rows, worlds, s, a, b);
    TotalBeforeCap(n, s);
  }

  /** Past the range the spacing is lost: a conversion to the least int64 has the next poll ask the hub at once. */
  lemma OverflowRetriesAtOnce(row: Row, w: World, s: Settings)
    requires Inv(row) && row.status == Failed && !IsInt64(Product(row.failures, s.retry))
    requires w.access == Fine && w.lookedAt >= row.lastAttempt.value && w.converted == -INT64_LIMIT
    ensures AskedDue in Poll(row, w, s).1
  {
    AsksExactlyUnlessBackingOff(row, w, s);
  }

  // ----- The hub accepts what a spoke sends -----

  /** The certificate columns, where set, describe a certificate the hub would believe. */
  ghost predicate BelievableRow(row: Row)
  {
    row.notBefore.Some? && row.notAfter.Some? && row.serial.Some? ==>
      Plausible(row.notBefore.value, row.notAfter.value) && row.serial.value != ""
  }

  lemma PollKeepsBelievable(row: Row, w: World, s: Settings)
    requires Inv(row) && BelievableRow(row) && BelievableAttempt(w)
    ensures BelievableRow(Poll(row, w, s).0)
    ensures forall req :: Reported(req) in Poll(row, w, s).1 ==> Acceptable(req)
  {
  }

  lemma {:induction false} RowsStayBelievable(rows: seq<Row>, worlds: seq<World>, s: Settings, i: nat)
    requires IsRun(rows, worlds, s) && i < |rows|
    requires forall k :: 0 <= k < |worlds| ==> BelievableAttempt(worlds[k])
    ensures BelievableRow(rows[i])
  {
    if i > 0 {
      RowsStayBelievable(rows, worlds, s, i - 1);
      RunKeepsInv(rows, worlds, s, i - 1);
      PollKeepsBelievable(rows[i - 1], worlds[i - 1], s);
    }
  }

  /** In every run whose issued certificates are plausible, no report a spoke ever sends is refused as malformed. */
  lemma ReportsAreAccepted(rows: seq<Row>, worlds: seq<World>, s: Settings, i: nat, req: Request)
    requires IsRun(rows, worlds, s) && i < |worlds|
    requires forall k :: 0 <= k < |worlds| ==> BelievableAttempt(worlds[k])
    requires Reported(req) in Poll(rows[i], worlds[i], s).1
    ensures Acceptable(req)
  {
    RowsStayBelievable(rows, worlds, s, i);
    RunKeepsInv(rows, worlds, s, i);
    PollKeepsBelievable(rows[i], worlds[i], s);
  }

  // ----- What the hub then knows -----

  /** The hub's row after one delivered report: a malformed one is refused and changes nothing. */
  function Receive(row: Option<CertState.Row>, req: Request, now: int, hookNow: int): Option<CertState.Row>
  {
    if Acceptable(req) then Due.ApplyAll(row, EventsOf(req, now, hookNow)) else row
  }

  /** The hub's row after these messages were delivered, at these readings of its clock. */
  function Deliver(row: Option<CertState.Row>, sent: seq<Sent>, now: int, hookNow: int): Option<CertState.Row>
    decreases |sent|
  {
    if sent == [] then row
    else if sent[0].AskedDue? then Deliver(row, sent[1..], now, hookNow)
    else Deliver(Receive(row, sent[0].req, now, hookNow), sent[1..], now, hookNow)
  }

  ghost predicate SameCertificate(local: Row, hub: Option<CertState.Row>)
  {
    && hub.Some?
    && hub.value.notBefore == local.notBefore && hub.value.notAfter == local.notAfter
    && hub.value.serial == local.serial
  }

  ghost predicate SameHealth(local: Row, hub: Option<CertState.Row>)
  {
    && hub.Some?
    && (hub.value.status == CertState.Active <==> local.status == Active)
    && (hub.value.status == CertState.Failed <==> local.status == Failed)
    && hub.value.failures == local.failures
  }

  /** The hub accepts what a poll reports: a failure, a believable new certificate, or a believable one kept. */
  ghost predicate Accepted(row: Row, w: World)
  {
    if w.due == Some(true) then BelievableAttempt(w) else BelievableRow(row)
  }

  /** Of a hook retry after a failed renewal, and of a failure not recorded locally, the hub hears something else. */
  predicate Misleads(row: Row, w: World)
  {
    || (w.due == Some(false) && row.status == Failed)
    || (w.due == Some(true) && w.attempt.Broken? && !w.recorded)
  }

  /** How the hub's row compares with the spoke's row `local` once the accepted reports of this poll are delivered. */
  ghost predicate Agree(row: Row, w: World, local: Row, after: Option<CertState.Row>)
  {
    && after.Some?
    && (w.due == Some(false) || w.attempt.Obtained? ==> SameCertificate(local, after))
    && (SameHealth(local, after) <==> !Misleads(row, w))
    && (w.due == Some(true) && w.attempt.Broken? && w.recorded ==>
          OrEmpty(after.value.lastError) == OrEmpty(local.lastError))
    && (w.hookRecorded && w.hasHook && (w.due == Some(false) || w.attempt.Obtained?) ==>
          after.value.hookError == local.hookError)
  }

  /** Delivered reports either make the hub agree as far as they can, or are all refused and change nothing. */
  lemma DeliveredPollAgrees(row: Row, w: World, s: Settings, hub: Option<CertState.Row>, now: int, hookNow: int)
    requires Inv(row) && |Poll(row, w, s).1| > 1
    ensures var (local, sent) := Poll(row, w, s); var after := Deliver(hub, sent, now, hookNow);
      if Accepted(row, w) then Agree(row, w, local, after) else after == hub
  {
    var sent := Poll(row, w, s).1;
    DeliverSteps(hub, sent, now, hookNow);
    if w.due == Some(false) {
      RetryAgrees(row, w, s, hub, now, hookNow);
    } else {
      AttemptAgrees(row, w, hub, now, hookNow);
    }
  }

  /** What the hub holds after a message list's first report, and after its second if there is one. */
  function AfterReports(hub: Option<CertState.Row>, sent: seq<Sent>, now: int, hookNow: int): Option<CertState.Row>
    requires 2 <= |sent| <= 3 && sent[1].Reported? && (|sent| == 3 ==> sent[2].Reported?)
  {
    var hub1 := Receive(hub, sent[1].req, now, hookNow);
    if |sent| == 2 then hub1 else Receive(hub1, sent[2].req, now, hookNow)
  }

  lemma RetryAgrees(row: Row, w: World, s: Settings, hub: Option<CertState.Row>, now: int, hookNow: int)
    requires Inv(row) && w.due == Some(false) && |Poll(row, w, s).1| > 1
    ensures var (local, sent) := Poll(row, w, s); var after := AfterReports(hub, sent, now, hookNow);
      if Accepted(row, w) then Agree(row, w, local, after) else after == hub
  {
    ReportedEvents(hub, Poll(row, w, s).1[1].req, now, hookNow);
  }

  lemma AttemptAgrees(row: Row, w: World, hub: Option<CertState.Row>, now: int, hookNow: int)
    requires Inv(row) && w.due == Some(true) && |Process(row, w).1| > 1
    ensures var (local, sent) := Process(row, w); var after := AfterReports(hub, sent, now, hookNow);
      if Accepted(row, w) then Agree(row, w, local, after) else after == hub
  {
    var sent := Process(row, w).1;
    ReportedEvents(hub, sent[1].req, now, hookNow);
    if |sent| == 3 {
      ReportedEvents(Receive(hub, sent[1].req, now, hookNow), sent[2].req, now, hookNow);
    }
  }

  lemma DeliverSteps(hub: Option<CertState.Row>, sent: seq<Sent>, now: int, hookNow: int)
    requires 2 <= |sent| <= 3 && sent[0] == AskedDue && sent[1].Reported? && (|sent| == 3 ==> sent[2].Reported?)
    ensures Deliver(hub, sent, now, hookNow) == AfterReports(hub, sent, now, hookNow)
  {
    var hub1 := Receive(hub, sent[1].req, now, hookNow);
    assert sent[1..][0] == sent[1] && sent[1..][1..] == sent[2..];
    assert Deliver(hub, sent, now, hookNow) == Deliver(hub1, sent[2..], now, hookNow);
    if |sent| == 3 {
      assert sent[2..][0] == sent[2] && sent[2..][1..] == [];
      var hub2 := Receive(hub1, sent[2].req, now, hookNow);
      assert Deliver(hub1, sent[2..], now, hookNow) == Deliver(hub2, [], now, hookNow);
    } else {
      assert sent[2..] == [];
    }
  }

  /**
   * When delivery makes the hub agree with the spoke, whatever the hub knew before. On the certificate: exactly when
   * the reports describe one that the hub believes. On its health: exactly when the hub believes the reports, the poll
   * was not the hook retry of a certificate whose last renewal failed (that report says "active"), and not a failure
   * that could not be recorded locally (that report says "failed" with streak 0).
   */
  lemma DeliveryInformsExactlyWhen(row: Row, w: World, s: Settings, now: int, hookNow: int)
    requires Inv(row) && |Poll(row, w, s).1| > 1
    ensures var (local, sent) := Poll(row, w, s);
      && ((forall hub :: SameCertificate(local, Deliver(hub, sent, now, hookNow)))
          <==> Accepted(row, w) && (w.due == Some(false) || w.attempt.Obtained?))
      && ((forall hub :: SameHealth(local, Deliver(hub, sent, now, hookNow)))
          <==> Accepted(row, w) && !Misleads(row, w))
  {
    var (local, sent) := Poll(row, w, s);
    var nothing: Option<CertState.Row> := None;
    DeliveredPollAgrees(row, w, s, nothing, now, hookNow);
    if Accepted(row, w) {
      forall hub ensures Agree(row, w, local, Deliver(hub, sent, now, hookNow)) {
        DeliveredPollAgrees(row, w, s, hub, now, hookNow);
      }
      if w.due == Some(true) && w.attempt.Broken? { FailureKeepsTheHubsCertificate(row, w, s, now, hookNow); }
      if Misleads(row, w) { assert !SameHealth(local, Deliver(nothing, sent, now, hookNow)); }
    } else {
      assert !SameHealth(local, Deliver(nothing, sent, now, hookNow));
      assert !SameCertificate(local, Deliver(nothing, sent, now, hookNow));
    }
  }

  /** A failure report leaves the hub with whatever certificate it knew, so possibly with another one. */
  lemma FailureKeepsTheHubsCertificate(row: Row, w: World, s: Settings, now: int, hookNow: int)
    requires Inv(row) && |Poll(row, w, s).1| > 1 && w.due == Some(true) && w.attempt.Broken?
    ensures var (local, sent) := Poll(row, w, s);
      exists hub :: !SameCertificate(local, Deliver(hub, sent, now, hookNow))
  {
    var (local, sent) := Poll(row, w, s);
    var other := Some(if local.serial == Some("1") then "2" else "1");
    var hub := Some(CertState.DEFAULTS.(serial := other));
    DeliverSteps(hub, sent, now, hookNow);
    ReportedEvents(hub, sent[1].req, now, hookNow);
    assert Deliver(hub, sent, now, hookNow).value.serial == other;
  }

  /**
   * A private authority may issue a certificate of more than 398 days. The spoke installs it and reports it, and the
   * hub refuses to hear of it: its row, lease included, stays as it was.
   */
  lemma LongLivedCertificateIsRefused(row: Row, w: World, s: Settings, hub: Option<CertState.Row>, now: int,
                                      hookNow: int)
    requires Inv(row) && w.access == Fine && !BackingOff(row, w, s) && w.due == Some(true) && w.recorded
    requires w.attempt.Obtained? && w.attempt.notAfter == w.attempt.notBefore + MAX_PLAUSIBLE_LIFETIME + 1
    ensures var (local, sent) := Poll(row, w, s);
      && |sent| > 1 && local.status == Active && local.notAfter == Some(w.attempt.notAfter)
      && Deliver(hub, sent, now, hookNow) == hub
  {
    DeliveredPollAgrees(row, w, s, hub, now, hookNow);
  }
}
