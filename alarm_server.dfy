/**
  The alarm decision server (`ESP/server.js`). `/check-alarm` answers with
  an alarm when the manual override is on, or when the detection with the
  highest id is at most ten minutes old; `/set-alarm` updates the override.

  The result of the `SELECT` (or its failure) and the `Date.now()` reading
  are parameters; times are milliseconds since the epoch, and a row whose
  `time` is not a valid date has `time == None`.
 */
module AlarmServer {
  import opened Wrappers
  import opened AlarmSwitch

  /** How old the latest detection may be for `/check-alarm`: 10 minutes. */
  const MAX_AGE_MS: int := 10 * 60 * 1000

  /** One row of `LogDetections`. */
  datatype DbRow = DbRow(id: int, time: Option<int>, latitude: real, longitude: real)

  /** What the `SELECT` gives: a database error, or the table's rows. */
  datatype Query = DbDown | Rows(rows: seq<DbRow>)

  /** `row` is one of `rows` and no row has a higher id. */
  predicate HighestId(rows: seq<DbRow>, row: DbRow) {
    row in rows && forall x :: x in rows ==> x.id <= row.id
  }

  /** `ORDER BY id DESC LIMIT 1`: the row with the highest id, if any. */
  function LatestRow(rows: seq<DbRow>): (r: Option<DbRow>)
    ensures r.None? <==> rows == []
    ensures r.Some? ==> HighestId(rows, r.value)
  {
    if rows == [] then None
    else
      var rest := LatestRow(rows[1..]);
      assert rows == [rows[0]] + rows[1..];
      if rest.None? || rows[0].id >= rest.value.id then Some(rows[0]) else rest
  }

  /** `Math.round(ageMs / 1000)`: whole seconds, halves rounded up. */
  function RoundedSeconds(ageMs: int): (s: int)
    ensures s * 1000 - 500 <= ageMs < s * 1000 + 500
  {
    (ageMs + 500) / 1000
  }

  /** The `detection` object of a `/check-alarm` reply. */
  datatype Detection = Detection(id: int, time: int, latitude: real, longitude: real, ageSeconds: int)

  /** The row is recent at `now`: its time is valid and at most `maxAgeMs` ago. */
  predicate IsRecent(row: DbRow, now: int, maxAgeMs: int) {
    row.time.Some? && now - row.time.value <= maxAgeMs
  }

  /** What `getLatestDetectionIfRecent` gives: it throws, returns `null`, or returns a detection. */
  datatype Lookup = LookupFailed | NoRecent | Recent(detection: Detection)

  /**
    `getLatestDetectionIfRecent`: the highest-id row, reported when its
    time is valid and its age is at most `maxAgeMs`; a database error is
    passed on.
   */
  function LatestDetectionIfRecent(q: Query, now: int, maxAgeMs: int): (r: Lookup)
    ensures r.LookupFailed? <==> q.DbDown?
    ensures r.Recent? <==> q.Rows? && LatestRow(q.rows).Some? && IsRecent(LatestRow(q.rows).value, now, maxAgeMs)
    ensures r.Recent? ==>
              var row := LatestRow(q.rows).value;
              r.detection.id == row.id && Some(r.detection.time) == row.time
              && r.detection.latitude == row.latitude && r.detection.longitude == row.longitude
              && r.detection.ageSeconds * 1000 - 500 <= now - r.detection.time < r.detection.ageSeconds * 1000 + 500
  {
    match q
    case DbDown => LookupFailed
    case Rows(rows) =>
      var latest := LatestRow(rows);
      if latest.None? then NoRecent
      else
        var row := latest.value;
        if row.time.None? then NoRecent
        else
          var ageMs := now - row.time.value;
          if ageMs <= maxAgeMs then
            Recent(Detection(row.id, row.time.value, row.latitude, row.longitude, RoundedSeconds(ageMs)))
          else NoRecent
  }

  /**
    A `/check-alarm` answer: a `success: true` JSON reply (status 200), or
    status 500 with `success: false` when the database query throws.
   */
  datatype Response =
    | Reply(alarm: bool, alertCount: nat, detection: Option<Detection>, message: string)
    | InternalError

  function StatusCode(r: Response): int {
    if r.Reply? then 200 else 500
  }

  /** The response `/check-alarm` selects, given the override, the query result and the clock. */
  function CheckAlarmResponse(manualAlarm: bool, q: Query, now: int): (r: Response)
    ensures manualAlarm ==> r == Reply(true, 1, None, "manual alarm override")
    ensures r.InternalError? <==> !manualAlarm && q.DbDown?
    ensures r.Reply? ==> r.alertCount == AlertCount(r.alarm)
    ensures r.Reply? ==> (r.detection.Some? ==> r.alarm)
    ensures !manualAlarm && r.Reply? ==>
              (r.alarm <==> LatestDetectionIfRecent(q, now, MAX_AGE_MS).Recent?)
              && (r.alarm ==> r.detection == Some(LatestDetectionIfRecent(q, now, MAX_AGE_MS).detection))
  {
    if manualAlarm then Reply(true, 1, None, "manual alarm override")
    else
      match LatestDetectionIfRecent(q, now, MAX_AGE_MS)
      case LookupFailed => InternalError
      case Recent(d) => Reply(true, 1, Some(d), "recent detection found")
      case NoRecent => Reply(false, 0, None, "no recent detection (older than 10 minutes or no rows)")
  }

  /** The override decides alone: the database is not consulted. */
  lemma ManualIgnoresDatabase(q1: Query, q2: Query, now1: int, now2: int)
    ensures CheckAlarmResponse(true, q1, now1) == CheckAlarmResponse(true, q2, now2)
  {
  }

  /** An empty table gives no alarm and an alert count of 0. */
  lemma NoRowsNoAlarm(now: int)
    ensures var r := CheckAlarmResponse(false, Rows([]), now);
            r.Reply? && !r.alarm && r.alertCount == 0
  {
  }

  /** A highest-id row without a valid time gives no alarm, however recent the other rows are. */
  lemma InvalidTimeNoAlarm(rows: seq<DbRow>, now: int)
    requires LatestRow(rows).Some? && LatestRow(rows).value.time.None?
    ensures var r := CheckAlarmResponse(false, Rows(rows), now);
            r.Reply? && !r.alarm && r.alertCount == 0
  {
  }

  /**
    "Latest" is by id, not by time: a fresh detection stored under a lower
    id than a stale one raises no alarm.
   */
  lemma LatestMeansHighestId(now: int)
    ensures var newer := DbRow(1, Some(now), 0.0, 0.0);
            var stale := DbRow(2, Some(now - MAX_AGE_MS - 1), 0.0, 0.0);
            IsRecent(newer, now, MAX_AGE_MS)
            && !CheckAlarmResponse(false, Rows([newer, stale]), now).alarm
  {
    var newer := DbRow(1, Some(now), 0.0, 0.0);
    var stale := DbRow(2, Some(now - MAX_AGE_MS - 1), 0.0, 0.0);
    assert LatestRow([newer, stale]) == Some(stale) by {
      assert [newer, stale][1..] == [stale];
      assert LatestRow([stale]) == Some(stale) by {
        assert [stale][1..] == [];
      }
    }
  }

  /**
    The age test is `ageMs <= maxAgeMs` and nothing else: a row stamped in
    the future (negative age) counts as recent, and so does one exactly ten
    minutes old.
   */
  lemma AgeBoundInclusive(row: DbRow, now: int)
    requires row.time.Some? && now - row.time.value <= MAX_AGE_MS
    ensures CheckAlarmResponse(false, Rows([row]), now).alarm
  {
    assert [row][1..] == [];
  }

  /** The server's mutable state: the manual override flag. */
  class Server {
    var manualAlarm: bool

    constructor ()
      ensures !manualAlarm
    {
      manualAlarm := false;
    }

    /** `/set-alarm`; the page shows whether the override is now active. */
    method SetAlarm(status: Option<string>) returns (shownActive: bool)
      modifies this
      ensures manualAlarm == NextFlag(status, old(manualAlarm))
      ensures shownActive == manualAlarm
    {
      if status == Some("true") {
        manualAlarm := true;
      } else if status == Some("false") {
        manualAlarm := false;
      } else {
        manualAlarm := !manualAlarm;
      }
      shownActive := manualAlarm;
    }

    /** `/check-alarm`: reads the override and leaves it as it is. */
    method CheckAlarm(q: Query, now: int) returns (r: Response)
      ensures r == CheckAlarmResponse(manualAlarm, q, now)
      ensures manualAlarm ==> r.Reply? && r.alarm
    {
      if manualAlarm {
        return Reply(true, 1, None, "manual alarm override");
      }
      var detection := LatestDetectionIfRecent(q, now, MAX_AGE_MS);
      if detection.LookupFailed? {
        r := InternalError;
      } else if detection.Recent? {
        r := Reply(true, 1, Some(detection.detection), "recent detection found");
      } else {
        r := Reply(false, 0, None, "no recent detection (older than 10 minutes or no rows)");
      }
    }

    /** `/status`: reports the override. */
    method Status() returns (manual: bool)
      ensures manual == manualAlarm
    {
      manual := manualAlarm;
    }
  }
}
