/**
  The two ends of `/check-alarm` together: the server's answer, as the
  firmware's JSON parser sees it, raises an alarm on the device exactly
  when the server reported one.
 */
module ServerToDevice {
  import opened Wrappers
  import AlarmFirmware
  import AlarmServer
  import TestServer

  /** The JSON members of `ESP/server.js`'s answer, as the device receives it over a working link. */
  function ServerReply(r: AlarmServer.Response): (reply: AlarmFirmware.Reply)
    ensures reply.code == AlarmServer.StatusCode(r) && reply.body.Document?
  {
    match r
    case InternalError =>
      AlarmFirmware.Posted(500, AlarmFirmware.Document(map[
        "success" := AlarmFirmware.JBool(false),
        "error" := AlarmFirmware.JOther(false, true)]))
    case Reply(alarm, alertCount, detection, message) =>
      var fields := map[
        "success" := AlarmFirmware.JBool(true),
        "alarm" := AlarmFirmware.JBool(alarm),
        "alert_count" := AlarmFirmware.JOther(false, alertCount != 0),
        "message" := AlarmFirmware.JOther(false, true),
        "timestamp" := AlarmFirmware.JOther(false, true)];
      AlarmFirmware.Posted(200, AlarmFirmware.Document(
        if detection.Some? then fields["detection" := AlarmFirmware.JOther(true, true)] else fields))
  }

  /** The JSON members of `ESP/test.js`'s answer. */
  function TestReply(r: TestServer.Reply): (reply: AlarmFirmware.Reply)
    ensures reply.code == 200 && reply.body.Document?
  {
    AlarmFirmware.Posted(200, AlarmFirmware.Document(map[
      "success" := AlarmFirmware.JBool(true),
      "alarm" := AlarmFirmware.JBool(r.alarm),
      "alert_count" := AlarmFirmware.JOther(false, r.alertCount != 0),
      "message" := AlarmFirmware.JOther(false, true),
      "timestamp" := AlarmFirmware.JOther(false, true)]))
  }

  /** The device raises the alarm exactly when the server's answer says `alarm: true`. */
  lemma DeviceFollowsServer(r: AlarmServer.Response)
    ensures AlarmFirmware.ClassifyReply(ServerReply(r)) <==> r.Reply? && r.alarm
  {
    var reply := ServerReply(r);
    if r.Reply? {
      assert "alarm" in reply.body.fields && reply.body.fields["alarm"] == AlarmFirmware.JBool(r.alarm);
    } else {
      assert "alarm" !in reply.body.fields && "detection" !in reply.body.fields;
    }
  }

  /**
    End to end: without the override the device alarms exactly when the
    highest-id detection is at most ten minutes old, and a database error
    (status 500) leaves it silent.
   */
  lemma DeviceAlarmsOnRecentDetection(q: AlarmServer.Query, now: int)
    ensures AlarmFirmware.ClassifyReply(ServerReply(AlarmServer.CheckAlarmResponse(false, q, now)))
            <==> q.Rows? && AlarmServer.LatestRow(q.rows).Some?
                 && AlarmServer.IsRecent(AlarmServer.LatestRow(q.rows).value, now, AlarmServer.MAX_AGE_MS)
  {
    DeviceFollowsServer(AlarmServer.CheckAlarmResponse(false, q, now));
  }

  /** With the test server the device simply mirrors `alarmStatus`. */
  lemma DeviceFollowsTestServer(r: TestServer.Reply)
    ensures AlarmFirmware.ClassifyReply(TestReply(r)) == r.alarm
  {
    var reply := TestReply(r);
    assert "alarm" in reply.body.fields && reply.body.fields["alarm"] == AlarmFirmware.JBool(r.alarm);
  }
}
