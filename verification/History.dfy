/** The mutable row as a function of everything that ever happened to it. */
module History {
  import opened Basics
  import opened CertState

  /** The row after the statements of `log`, executed in that order on a key without a row. */
  function Replay(log: seq<Event>): Option<Row>
  {
    if log == [] then None else Apply(Replay(log[..|log| - 1]), log[|log| - 1])
  }

  lemma ReplayStep(log: seq<Event>, e: Event)
    ensures Replay(log + [e]) == Apply(Replay(log), e)
  {
    assert (log + [e])[..|log|] == log;
  }

  /** Event `i` succeeded in taking the lease. */
  predicate Granted(log: seq<Event>, i: nat)
    requires i < |log|
  {
    log[i].ClaimTried? && Grants(Replay(log[..i]), log[i].now)
  }

  // ----- Which event a column shows -----

  /** Event `i` satisfies `p`, and neither another such event nor a removal of the row came after it. */
  ghost predicate Latest(log: seq<Event>, i: nat, p: Event -> bool)
    requires i < |log|
  {
    p(log[i]) && !log[i].Removed? && forall j :: i < j < |log| ==> !p(log[j]) && !log[j].Removed?
  }

  /** No event since the row was last removed satisfies `p`. */
  ghost predicate Never(log: seq<Event>, p: Event -> bool)
  {
    forall i :: 0 <= i < |log| ==> !Latest(log, i, p)
  }

  const anything := (e: Event) => true
  const activations := (e: Event) => e.Activated?
  const checkins := (e: Event) => IsCheckin(e)
  const hooks := (e: Event) => e.HookReported?

  /** Event `i` took the lease and no later event released it or took it over. */
  ghost predicate OpenClaim(log: seq<Event>, i: nat)
    requires i < |log|
  {
    Granted(log, i) && forall j :: i < j < |log| ==> !Releases(log[j]) && !Granted(log, j)
  }

  /** The certificate columns repeat the latest successful checkin. */
  ghost predicate ShowsCertificate(r: Row, log: seq<Event>)
  {
    && (forall i :: 0 <= i < |log| && Latest(log, i, activations) ==>
          r.notBefore == Some(log[i].notBefore) && r.notAfter == Some(log[i].notAfter)
          && r.serial == Some(log[i].serial) && r.lastSuccess == Some(log[i].now))
    && (Never(log, activations) ==>
          r.notBefore == None && r.notAfter == None && r.serial == None && r.lastSuccess == None)
  }

  /** Status, error and streak repeat the latest checkin of either kind. */
  ghost predicate ShowsCheckin(r: Row, log: seq<Event>)
  {
    && (forall i :: 0 <= i < |log| && Latest(log, i, checkins) ==>
          r.lastCheckin == Some(log[i].now)
          && (log[i].Activated? ==> r.status == Active && r.failures == 0 && r.lastError == None)
          && (log[i].FailureReported? ==>
                r.status == Failed && r.failures == log[i].failures && r.lastError == log[i].error))
    && (Never(log, checkins) ==>
          r.status == Unknown && r.failures == 0 && r.lastError == None && r.lastCheckin == None)
  }

  /** The hook columns repeat the latest hook report. */
  ghost predicate ShowsHook(r: Row, log: seq<Event>)
  {
    && (forall i :: 0 <= i < |log| && Latest(log, i, hooks) ==>
          r.lastHook == Some(log[i].now) && r.hookError == log[i].error)
    && (Never(log, hooks) ==> r.lastHook == None && r.hookError == None)
  }

  /** The lease columns repeat the open claim. */
  ghost predicate ShowsClaim(r: Row, log: seq<Event>)
  {
    && (forall i :: 0 <= i < |log| && OpenClaim(log, i) ==>
          r.claim == Some(Lease(log[i].holder, log[i].now, log[i].now + log[i].lease)))
    && ((forall i :: 0 <= i < |log| ==> !OpenClaim(log, i)) ==> r.claim == None)
  }

  /**
   * What the row ought to say about its history: each group of columns repeats one particular event,
   * and holds its default when there was none.
   */
  ghost predicate Describes(row: Option<Row>, log: seq<Event>)
  {
    && (row.None? <==> Never(log, anything))
    && (row.Some? ==>
          ShowsCertificate(row.value, log) && ShowsCheckin(row.value, log)
          && ShowsHook(row.value, log) && ShowsClaim(row.value, log))
  }

  lemma DefaultsShowNothing(log: seq<Event>)
    requires Never(log, anything)
    ensures ShowsCertificate(DEFAULTS, log) && ShowsCheckin(DEFAULTS, log) && ShowsHook(DEFAULTS, log)
    ensures forall i :: 0 <= i < |log| && OpenClaim(log, i) ==> false
  {
    forall i | 0 <= i < |log| ensures !OpenClaim(log, i) && !Latest(log, i, activations)
        && !Latest(log, i, checkins) && !Latest(log, i, hooks) {
      LastRemoval(log, i);
    }
  }

  /** When nothing counts any more, a removal came at `i` or later. */
  lemma {:induction false} LastRemoval(log: seq<Event>, i: nat)
    requires i < |log| && Never(log, anything)
    ensures exists j :: i <= j < |log| && log[j].Removed?
  {
    assert !Latest(log, |log| - 1, anything);
    assert log[|log| - 1].Removed?;
  }

  /** How the latest event of a kind moves when one more event happens. */
  lemma LatestStep(log: seq<Event>, e: Event, p: Event -> bool)
    ensures forall i :: 0 <= i < |log| ==>
      (Latest(log + [e], i, p) <==> Latest(log, i, p) && !p(e) && !e.Removed?)
    ensures Latest(log + [e], |log|, p) <==> p(e) && !e.Removed?
    ensures Never(log + [e], p) <==> (e.Removed? || (!p(e) && Never(log, p)))
  {
    var l := log + [e];
    forall i | 0 <= i < |log| ensures Latest(l, i, p) <==> Latest(log, i, p) && !p(e) && !e.Removed? {
      assert l[|log|] == e;
      assert forall j :: 0 <= j < |log| ==> l[j] == log[j];
    }
    assert forall i :: 0 <= i < |log| ==> (Latest(l, i, p) <==> Latest(log, i, p) && !p(e) && !e.Removed?);
    if !e.Removed? && !p(e) && Never(l, p) {
      forall i | 0 <= i < |log| ensures !Latest(log, i, p) { assert !Latest(l, i, p); }
    }
    if p(e) && !e.Removed? { assert Latest(l, |log|, p); }
  }

  lemma OpenClaimStep(log: seq<Event>, e: Event)
    ensures var l := log + [e];
      && (forall i :: 0 <= i < |log| ==>
            (OpenClaim(l, i) <==> OpenClaim(log, i) && !Releases(e) && !Granted(l, |log|)))
      && (OpenClaim(l, |log|) <==> Granted(l, |log|))
      && (Granted(l, |log|) <==> e.ClaimTried? && Grants(Replay(log), e.now))
  {
    var l := log + [e];
    assert l[..|log|] == log;
    forall i | 0 <= i < |log| ensures Granted(l, i) == Granted(log, i) && l[i] == log[i] {
      assert l[..i] == log[..i];
    }
    assert l[|log|] == e;
    forall i | 0 <= i < |log| ensures OpenClaim(l, i) <==> OpenClaim(log, i) && !Releases(e) && !Granted(l, |log|) {
    }
  }

  /** At most one claim is open. */
  lemma OpenClaimUnique(log: seq<Event>, i: nat, j: nat)
    requires i < |log| && j < |log| && OpenClaim(log, i) && OpenClaim(log, j)
    ensures i == j
  {
  }

  lemma CertificateStep(r: Row, log: seq<Event>, e: Event)
    requires ShowsCertificate(r, log) && !e.Removed?
    ensures forall r' :: Apply(Some(r), e) == Some(r') ==> ShowsCertificate(r', log + [e])
  {
    LatestStep(log, e, activations);
  }

  lemma CheckinStep(r: Row, log: seq<Event>, e: Event)
    requires ShowsCheckin(r, log) && !e.Removed?
    ensures forall r' :: Apply(Some(r), e) == Some(r') ==> ShowsCheckin(r', log + [e])
  {
    LatestStep(log, e, checkins);
  }

  lemma HookStep(r: Row, log: seq<Event>, e: Event)
    requires ShowsHook(r, log) && !e.Removed?
    ensures forall r' :: Apply(Some(r), e) == Some(r') ==> ShowsHook(r', log + [e])
  {
    LatestStep(log, e, hooks);
  }

  lemma ClaimStep(row: Option<Row>, log: seq<Event>, e: Event)
    requires row == Replay(log) && ShowsClaim(OrDefaults(row), log) && !e.Removed?
    ensures ShowsClaim(Apply(row, e).value, log + [e])
  {
    OpenClaimStep(log, e);
    var l := log + [e];
    if Releases(e) || Granted(l, |log|) {
    } else if exists i :: 0 <= i < |log| && OpenClaim(log, i) {
      var i :| 0 <= i < |log| && OpenClaim(log, i);
      assert OpenClaim(l, i);
    }
  }

  lemma DescribesStep(row: Option<Row>, log: seq<Event>, e: Event)
    requires row == Replay(log) && Describes(row, log)
    ensures Describes(Apply(row, e), log + [e])
  {
    LatestStep(log, e, anything);
    if row.None? { DefaultsShowNothing(log); }
    if !e.Removed? {
      var r := OrDefaults(row);
      CertificateStep(r, log, e);
      CheckinStep(r, log, e);
      HookStep(r, log, e);
      ClaimStep(row, log, e);
      assert row.None? && e.ClaimTried? ==> Grants(Some(r), e.now);
      assert Apply(Some(r), e) == Apply(row, e);
    }
  }

  /** For every history of a key, the row kept by in-place updates describes that history. */
  lemma {:induction false} RowDescribesHistory(log: seq<Event>)
    ensures Describes(Replay(log), log)
  {
    if log != [] {
      var before, e := log[..|log| - 1], log[|log| - 1];
      assert log == before + [e];
      RowDescribesHistory(before);
      DescribesStep(Replay(before), before, e);
    }
  }

  lemma LatestOrNever(log: seq<Event>, p: Event -> bool)
    ensures Never(log, p) || exists i :: 0 <= i < |log| && Latest(log, i, p)
  {
  }

  /** The description leaves nothing open: two rows that fit the same history are equal. */
  lemma DescriptionDetermines(a: Option<Row>, b: Option<Row>, log: seq<Event>)
    requires Describes(a, log) && Describes(b, log)
    ensures a == b
  {
    LatestOrNever(log, activations);
    LatestOrNever(log, checkins);
    LatestOrNever(log, hooks);
    if !Never(log, checkins) {
      var i :| 0 <= i < |log| && Latest(log, i, checkins);
      assert log[i].Activated? || log[i].FailureReported?;
    }
  }

  // ----- The lease -----

  /** A granted claim keeps the row leased at least until its expiry while nothing releases it. */
  lemma {:induction false} HeldUntilReleased(log: seq<Event>, i: nat, m: nat)
    requires i < m <= |log| && Granted(log, i)
    requires forall k :: i < k < m ==> !Releases(log[k])
    ensures var row := Replay(log[..m]);
      row.Some? && row.value.claim.Some? && row.value.claim.value.expires >= log[i].now + log[i].lease
    decreases m
  {
    assert log[..m] == log[..m - 1] + [log[m - 1]];
    ReplayStep(log[..m - 1], log[m - 1]);
    if i < m - 1 { HeldUntilReleased(log, i, m - 1); }
  }

  /**
   * Lease exclusion, for statements in any order with any sampled times: of two granted claims,
   * either the first was released in between or the second was sampled after the first expired.
   */
  lemma LeaseExclusion(log: seq<Event>, i: nat, j: nat)
    requires i < j < |log| && Granted(log, i) && Granted(log, j)
    ensures (exists k :: i < k < j && Releases(log[k])) || log[j].now > log[i].now + log[i].lease
  {
    if forall k :: i < k < j ==> !Releases(log[k]) {
      HeldUntilReleased(log, i, j);
    }
  }

  /** A claim is granted exactly when every open claim has expired by the time it sampled. */
  lemma GrantedExactly(log: seq<Event>, j: nat)
    requires j < |log| && log[j].ClaimTried?
    ensures var past := log[..j];
      Granted(log, j) <==>
        forall i :: 0 <= i < |past| && OpenClaim(past, i) ==> past[i].now + past[i].lease < log[j].now
  {
    var past := log[..j];
    RowDescribesHistory(past);
    OpenClaimOrFree(past);
  }

  /** The row is leased exactly when a claim is open, and until that claim's expiry. */
  lemma OpenClaimOrFree(log: seq<Event>)
    ensures var row := Replay(log);
      (exists i :: 0 <= i < |log| && OpenClaim(log, i)
         && row.Some? && row.value.claim.Some? && row.value.claim.value.expires == log[i].now + log[i].lease
         && forall i' :: 0 <= i' < |log| && OpenClaim(log, i') ==> i' == i)
      || ((forall i :: 0 <= i < |log| ==> !OpenClaim(log, i)) && (row.None? || row.value.claim.None?))
  {
    RowDescribesHistory(log);
    var row := Replay(log);
    if i :| 0 <= i < |log| && OpenClaim(log, i) {
      if row.None? { DefaultsShowNothing(log); }
      forall i' | 0 <= i' < |log| && OpenClaim(log, i') ensures i' == i { OpenClaimUnique(log, i, i'); }
      assert ShowsClaim(row.value, log);
    } else if row.Some? {
      assert ShowsClaim(row.value, log);
    }
  }
}
