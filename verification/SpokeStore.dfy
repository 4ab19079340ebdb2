/** A spoke's own record of its certificates (internal/store/certstate.go). */
module SpokeStore {
  import opened Basics

  datatype Status = Pending | Active | Failed

  datatype Row = Row(
    status: Status,
    notBefore: Option<int>,
    notAfter: Option<int>,
    serial: Option<string>,
    lastIssued: Option<int>,
    lastAttempt: Option<int>,
    lastError: Option<string>,
    failures: nat,
    lastHook: Option<int>,
    hookError: Option<string>)

  /** A certificate never attempted. */
  const PENDING := Row(Pending, None, None, None, None, None, None, 0, None, None)

  datatype Event =
    | Issued(now: int, notBefore: int, notAfter: int, serial: string)
    | Broke(now: int, reason: string)
    | HookRan(now: int, error: Option<string>)

  function Apply(row: Row, e: Event): Row
  {
    match e
    case Issued(now, nb, na, serial) =>
      row.(status := Active, notBefore := Some(nb), notAfter := Some(na), serial := Some(serial),
           lastIssued := Some(now), lastAttempt := Some(now), lastError := None, failures := 0)
    case Broke(now, reason) =>
      row.(status := Failed, lastAttempt := Some(now), lastError := Some(reason), failures := row.failures + 1)
    case HookRan(now, error) => row.(lastHook := Some(now), hookError := error)
  }

  /** How reading or creating a row goes: well, not at all, or with an error from the last query. */
  datatype Access = Fine | Unreadable | LastReadFails

  /** The row of a name; a name not met yet counts as pending. */
  function RowOf(rows: map<string, Row>, name: string): Row
  {
    if name in rows then rows[name] else PENDING
  }

  class Store {
    var rows: map<string, Row>

    constructor ()
      ensures rows == map[]
    {
      rows := map[];
    }

    /** The row, inserted as pending if there is none. An error leaves nothing changed but possibly that insert. */
    method GetOrCreateCertState(name: string, access: Access) returns (row: Option<Row>)
      modifies this
      ensures row == if access == Fine then Some(RowOf(old(rows), name)) else None
      ensures row.Some? && name !in old(rows) ==>
        row.value == Row(Pending, None, None, None, None, None, None, 0, None, None)
      ensures rows == if access == Unreadable then old(rows) else old(rows)[name := RowOf(old(rows), name)]
    {
      if access == Unreadable { return None; }
      if name !in rows { rows := rows[name := PENDING]; }
      assert rows == old(rows)[name := RowOf(old(rows), name)];
      return if access == Fine then Some(rows[name]) else None;
    }

    /** An UPDATE: a name without a row is not an error. `works` is false when the statement itself fails. */
    method MarkIssued(name: string, now: int, notBefore: int, notAfter: int, serial: string, works: bool)
      returns (ok: bool)
      modifies this
      ensures ok == works
      ensures rows == if works && name in old(rows)
                      then old(rows)[name := Apply(old(rows)[name], Issued(now, notBefore, notAfter, serial))]
                      else old(rows)
    {
      if works && name in rows {
        rows := rows[name := rows[name].(
          status := Active, notBefore := Some(notBefore), notAfter := Some(notAfter), serial := Some(serial),
          lastIssued := Some(now), lastAttempt := Some(now), lastError := None, failures := 0)];
      }
      return works;
    }

    /** UPDATE ... RETURNING: the new streak, or 0 when the statement fails or finds no row. */
    method MarkFailed(name: string, now: int, error: string, works: bool) returns (streak: nat)
      modifies this
      ensures rows == if works && name in old(rows)
                      then old(rows)[name := Apply(old(rows)[name], Broke(now, error))] else old(rows)
      ensures streak == if works && name in old(rows) then rows[name].failures else 0
    {
      if !works || name !in rows { return 0; }
      var row := rows[name];
      rows := rows[name := row.(
        status := Failed, lastAttempt := Some(now), lastError := Some(error), failures := row.failures + 1)];
      return row.failures + 1;
    }

    method MarkHookResult(name: string, now: int, error: Option<string>, works: bool)
      modifies this
      ensures rows == if works && name in old(rows)
                      then old(rows)[name := Apply(old(rows)[name], HookRan(now, error))] else old(rows)
    {
      if works && name in rows {
        rows := rows[name := rows[name].(lastHook := Some(now), hookError := error)];
      }
    }
  }
}
