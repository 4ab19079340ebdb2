/** What a spoke reports about a certificate, and which reports the hub accepts (internal/hubapi/handlers.go). */
module Checkin {
  import opened Basics
  import opened CertState
  import opened Due

  /** The fields of a check-in that the hub acts on; "" and the zero time stand for absent fields. */
  datatype Request = Request(
    status: string, notBefore: int, notAfter: int, serial: string, error: string, failures: int,
    hookStatus: string, hookError: string)

  const SECOND := 1_000_000_000
  const MAX_PLAUSIBLE_LIFETIME := 398 * 24 * 3600 * SECOND

  /** A validity window that a certificate could have. */
  predicate Plausible(notBefore: int, notAfter: int)
  {
    notBefore != ZERO_TIME && notAfter != ZERO_TIME && notBefore < notAfter <= notBefore + MAX_PLAUSIBLE_LIFETIME
  }

  predicate Acceptable(r: Request)
  {
    && ((r.status == "active" && r.serial != "" && Plausible(r.notBefore, r.notAfter)) || r.status == "failed")
    && (r.hookStatus == "" || r.hookStatus == "ok" || r.hookStatus == "failed")
  }

  /** validate, branch by branch. */
  method Validate(r: Request) returns (ok: bool)
    ensures ok == Acceptable(r)
    ensures ok <==>
      && (r.hookStatus == "" || r.hookStatus == "ok" || r.hookStatus == "failed")
      && (r.status == "failed" || (
            && r.status == "active" && r.serial != "" && ZERO_TIME != r.notBefore && ZERO_TIME != r.notAfter
            && 0 < r.notAfter - r.notBefore <= 34_387_200_000_000_000))  // 398 days
  {
    if r.status != "active" && r.status != "failed" { return false; }
    if r.status == "active" {
      if r.serial == "" { return false; }
      if r.notBefore == ZERO_TIME || r.notAfter == ZERO_TIME { return false; }
      if !(r.notBefore < r.notAfter) { return false; }
      if r.notAfter - r.notBefore > MAX_PLAUSIBLE_LIFETIME { return false; }
    }
    return r.hookStatus == "" || r.hookStatus == "ok" || r.hookStatus == "failed";
  }

  /** The statements an accepted report runs on the row, at these two readings of the clock. */
  function EventsOf(r: Request, now: int, hookNow: int): seq<Event>
  {
    [if r.status == "active" then Activated(now, r.notBefore, r.notAfter, r.serial)
     else FailureReported(now, if r.error == "" then None else Some(r.error), r.failures)]
    + if r.hookStatus == "" then []
      else [HookReported(hookNow, if r.hookStatus == "failed" then Some(r.hookError) else None)]
  }

  /** An accepted report runs one statement, and a second one if it carries a hook result. */
  lemma ReportedEvents(row: Option<Row>, req: Request, now: int, hookNow: int)
    ensures var events := EventsOf(req, now, hookNow); var first := Apply(row, events[0]);
      ApplyAll(row, events) == if req.hookStatus == "" then first else Apply(first, events[1])
  {
    var events := EventsOf(req, now, hookNow);
    var first := Apply(row, events[0]);
    if req.hookStatus != "" {
      assert events[1..] == [events[1]] && events[1..][1..] == [];
      assert ApplyAll(first, events[1..]) == ApplyAll(Apply(first, events[1]), []);
    }
  }
}
