/**
  The stand-alone test server (`ESP/test.js`): one alarm flag that
  `/set-alarm` updates and that `/check-alarm` and `/status` only report.
 */
module TestServer {
  import opened Wrappers
  import opened AlarmSwitch

  /** A `/check-alarm` reply; `success` is always true and the message fixed. */
  datatype Reply = Reply(alarm: bool, alertCount: nat)

  class Server {
    var alarmStatus: bool

    constructor ()
      ensures !alarmStatus
    {
      alarmStatus := false;
    }

    /** `/set-alarm`; the page shows whether the alarm is now active. */
    method SetAlarm(status: Option<string>) returns (shownActive: bool)
      modifies this
      ensures alarmStatus == NextFlag(status, old(alarmStatus))
      ensures shownActive == alarmStatus
    {
      if status == Some("true") {
        alarmStatus := true;
      } else if status == Some("false") {
        alarmStatus := false;
      } else {
        alarmStatus := !alarmStatus;
      }
      shownActive := alarmStatus;
    }

    /** `/check-alarm`: reports the flag, with an alert count of 1 exactly when it is set. */
    method CheckAlarm() returns (r: Reply)
      ensures r.alarm == alarmStatus
      ensures r.alertCount == 1 <==> alarmStatus
      ensures r.alertCount == 0 <==> !alarmStatus
    {
      r := Reply(alarmStatus, AlertCount(alarmStatus));
    }

    /** `/status`: reports the flag. */
    method Status() returns (alarm: bool)
      ensures alarm == alarmStatus
    {
      alarm := alarmStatus;
    }
  }

  /**
    A series of requests: only `/set-alarm` changes the flag, and after
    two toggles in a row every handler reports the flag as it was.
   */
  method ToggleTwiceReportsSame(s: Server, status: Option<string>) returns (before: Reply, between: bool, after: Reply)
    requires !IsExplicit(status)
    modifies s
    ensures between == !before.alarm
    ensures before == after && s.alarmStatus == old(s.alarmStatus)
  {
    before := s.CheckAlarm();
    var _ := s.SetAlarm(status);
    between := s.Status();
    var _ := s.SetAlarm(status);
    after := s.CheckAlarm();
  }
}
