/** The hub's row for one certificate and the four statements that write it (internal/hubstore/certstate.go). */
module CertState {
  import opened Basics

  datatype Status = Unknown | Active | Failed

  /** The three lease columns, which every statement sets or clears together. */
  datatype Lease = Lease(holder: string, at: int, expires: int)

  datatype Row = Row(
    notBefore: Option<int>,
    notAfter: Option<int>,
    serial: Option<string>,
    status: Status,
    lastCheckin: Option<int>,
    lastError: Option<string>,
    failures: int,
    lastSuccess: Option<int>,
    claim: Option<Lease>,
    lastHook: Option<int>,
    hookError: Option<string>)

  /** The column defaults of the schema, which an INSERT leaves in the columns it does not name. */
  const DEFAULTS := Row(None, None, None, Unknown, None, None, 0, None, None, None, None)

  function OrDefaults(row: Option<Row>): Row
  {
    if row.Some? then row.value else DEFAULTS
  }

  /** What one statement does to the row of its key. */
  datatype Event =
    | Activated(now: int, notBefore: int, notAfter: int, serial: string)
    | FailureReported(now: int, error: Option<string>, failures: int)
    | HookReported(now: int, error: Option<string>)
    | ClaimTried(now: int, holder: string, lease: nat)
    | Removed  // DeleteSpoke of the spoke that owns the row

  /** The guard of Claim's upsert: no row, no lease, or a lease that expired before the sampled time. */
  predicate Grants(row: Option<Row>, now: int)
  {
    row.None? || row.value.claim.None? || row.value.claim.value.expires < now
  }

  function Apply(row: Option<Row>, e: Event): Option<Row>
  {
    var r := OrDefaults(row);
    match e
    case Activated(now, nb, na, serial) =>
      Some(r.(notBefore := Some(nb), notAfter := Some(na), serial := Some(serial), status := Active,
              lastCheckin := Some(now), lastError := None, failures := 0, lastSuccess := Some(now), claim := None))
    case FailureReported(now, error, failures) =>
      Some(r.(status := Failed, lastCheckin := Some(now), lastError := error, failures := failures, claim := None))
    case HookReported(now, error) =>
      Some(r.(lastHook := Some(now), hookError := error))
    case ClaimTried(now, holder, lease) =>
      if Grants(row, now) then Some(r.(claim := Some(Lease(holder, now, now + lease)))) else row
    case Removed => None
  }

  predicate IsCheckin(e: Event)
  {
    e.Activated? || e.FailureReported?
  }

  /** The events after which no earlier claim is in force. */
  predicate Releases(e: Event)
  {
    IsCheckin(e) || e.Removed?
  }
}
