/**
  The ESP32 alarm firmware: it polls the alarm server every
  `QUERY_INTERVAL`, classifies the reply, and on an alarm drives the LED
  and buzzer for `ALARM_DURATION` (blinking the LED) while suppressing
  further queries for `SUPPRESS_AFTER_ALARM_MS`.

  `millis()` is a 32-bit `unsigned long` that wraps every 2^32 ms (about
  49.7 days); times are modelled as `U32` with explicit wrap-around, and
  clock readings are parameters. WiFi status and the HTTP/JSON libraries
  are modelled by what they report.
 */
module AlarmFirmware {
  import opened Arith


  const WRAP: int := 0x1_0000_0000
  const HALF: int := 0x8000_0000

  /** An `unsigned long` on the ESP32: 32 bits. */
  type U32 = x: int | 0 <= x < 0x1_0000_0000

  const QUERY_INTERVAL: U32 := 5 * 1000
  const SUPPRESS_AFTER_ALARM_MS: U32 := 5 * 60 * 1000
  const ALARM_DURATION: U32 := 15 * 1000
  const BLINK_PERIOD: U32 := 1000
  const BLINK_ON: U32 := 500
  const STATUS_EVERY: U32 := 15000
  const MAX_WIFI_ATTEMPTS: nat := 30

  /** Unsigned addition `a + b`, wrapping modulo 2^32. */
  function Add32(a: U32, b: U32): (r: U32)
    ensures a + b < WRAP ==> r == a + b
    ensures a + b >= WRAP ==> r == a + b - WRAP
  {
    (a + b) % WRAP
  }

  /** Unsigned subtraction `a - b`, wrapping modulo 2^32. */
  function Sub32(a: U32, b: U32): (r: U32)
    ensures a >= b ==> r == a - b
    ensures a < b ==> r == a - b + WRAP
  {
    (a - b) % WRAP
  }

  /** The elapsed time `now - start` is exact across a wrap of the counter. */
  lemma ElapsedAfter(start: U32, d: U32)
    ensures Sub32(Add32(start, d), start) == d
  {
  }

  /** Adding the same offset to both sides leaves the unsigned difference unchanged. */
  lemma SubShift(x: U32, a: U32, b: U32)
    ensures Sub32(Add32(x, a), Add32(x, b)) == Sub32(a, b)
  {
  }

  // ---- Query scheduling ----

  /**
    The test at main.cpp line 209 as written, `now >= nextQueryTime` on the
    raw counter values: it holds exactly when `now - nextQueryTime` does
    not wrap.
   */
  function DueAsWritten(now: U32, nextQueryTime: U32): (due: bool)
    ensures due <==> Sub32(now, nextQueryTime) == now - nextQueryTime
  {
    now >= nextQueryTime
  }

  /**
    The wrap-safe test `(long)(now - nextQueryTime) >= 0`: the deadline
    lies at most 2^31 - 1 ms in the past.
   */
  function Due(now: U32, nextQueryTime: U32): (due: bool)
    ensures due <==> ToLong(Sub32(now, nextQueryTime)) >= 0
  {
    Sub32(now, nextQueryTime) < HALF
  }

  /**
    As written, a deadline in the last loop period before the counter wraps
    is jumped over: with `nextQueryTime = 2^32 - 6` and the next loop at
    `now = 54` (60 ms late), no time until the deadline comes round again,
    about 49.7 days later, passes the test, so the device stops polling.
   */
  lemma DueAsWrittenStallsAcrossWrap()
    ensures var deadline: U32 := WRAP - 6;
            Due(54, deadline)
            && forall now: U32 :: 54 <= now < deadline ==> !DueAsWritten(now, deadline)
  {
  }

  /**
    As written, a deadline that wraps is due at once: 1000 ms before the
    wrap, `now + QUERY_INTERVAL` is 4000, and 100 ms later the test already
    passes, 4.9 s early.
   */
  lemma DueAsWrittenFiresEarly()
    ensures var now: U32 := WRAP - 1000;
            var next := Add32(now, QUERY_INTERVAL);
            DueAsWritten(Add32(now, 100), next) && !Due(Add32(now, 100), next)
  {
  }

  /**
    The wrap-safe test holds exactly when the deadline was reached less than
    2^31 ms ago, however the counter wraps in between.
   */
  lemma DueFromDeadline(deadline: U32, d: U32)
    ensures Due(Add32(deadline, d), deadline) <==> d < HALF
  {
    ElapsedAfter(deadline, d);
  }

  /**
    A deadline set `wait` ms after time `t` (the regular interval or the
    suppression window) is due at `t + d` exactly when `wait <= d`, for
    any `d` below 2^31 ms, whatever wraps happen.
   */
  lemma DueAfterWait(t: U32, wait: U32, d: U32)
    requires wait < HALF && d < HALF
    ensures Due(Add32(t, d), Add32(t, wait)) <==> wait <= d
  {
    SubShift(t, d, wait);
  }

  /** Where the counter does not wrap, the wrap-safe test agrees with the test as written. */
  lemma DueAgreesWithoutWrap(now: U32, next: U32)
    requires now >= next ==> now - next < HALF
    requires now < next ==> next - now <= HALF
    ensures Due(now, next) <==> DueAsWritten(now, next)
  {
  }

  // ---- Alarm timing ----

  /**
    The LED level while the alarm runs, `(now - start) % 1000 < 500`: on
    in the even-numbered half seconds since the start, off in the others.
   */
  function LedOn(now: U32, start: U32): (on: bool)
    ensures on <==> (Sub32(now, start) / BLINK_ON) % 2 == 0
  {
    HalfSeconds(Sub32(now, start));
    Sub32(now, start) % BLINK_PERIOD < BLINK_ON
  }

  lemma HalfSeconds(x: nat)
    ensures x % 1000 < 500 <==> (x / 500) % 2 == 0
  {
    var q, r := x / 1000, x % 1000;
    assert x == 1000 * q + r;
    if r < 500 {
      DivUnique(x, 500, 2 * q, r);
    } else {
      DivUnique(x, 500, 2 * q + 1, r - 500);
    }
  }

  /**
    The alarm has run its full duration, `now - start >= ALARM_DURATION`:
    `now` is not one of the readings in the 15 s that follow the start,
    however the counter wraps.
   */
  function Expired(now: U32, start: U32): (expired: bool)
    ensures expired <==> forall d: U32 :: d < ALARM_DURATION ==> Add32(start, d) != now
  {
    var elapsed := Sub32(now, start);
    assert Add32(start, elapsed) == now;
    assert forall d: U32 :: Add32(start, d) == now ==> d == elapsed by {
      forall d: U32 | Add32(start, d) == now ensures d == elapsed {
        ElapsedAfter(start, d);
      }
    }
    elapsed >= ALARM_DURATION
  }

  /**
    An alarm started at `start` and observed `d` ms later has expired
    exactly when `d >= ALARM_DURATION`, and the LED is on exactly in the
    first half of each second, across any wrap of the counter.
   */
  lemma AlarmTiming(start: U32, d: U32)
    ensures Expired(Add32(start, d), start) <==> d >= ALARM_DURATION
    ensures LedOn(Add32(start, d), start) <==> d % 1000 < 500
  {
    ElapsedAfter(start, d);
  }

  /** `(long)x` on the ESP32, where `long` is 32 bits: the two's-complement reading. */
  function ToLong(x: U32): (r: int)
    ensures -HALF <= r < HALF
    ensures (r - x) % WRAP == 0
  {
    if x < HALF then x else x - WRAP
  }

  /** C's integer division, truncating toward zero. */
  function TruncDiv(a: int, b: int): (q: int)
    requires b > 0
    ensures a >= 0 ==> q == a / b
    ensures a < 0 ==> q <= 0
  {
    if a >= 0 then a / b else -((-a) / b)
  }

  /**
    The seconds-to-next-check figure of the status line:
    `(long)(nextQueryTime - now) / 1000`, clamped at 0.
   */
  function SecondsLeft(nextQueryTime: U32, now: U32): (s: int)
    ensures s >= 0
    ensures Sub32(nextQueryTime, now) < HALF ==> s == Sub32(nextQueryTime, now) / 1000
    ensures Sub32(nextQueryTime, now) >= HALF ==> s == 0
  {
    var left := TruncDiv(ToLong(Sub32(nextQueryTime, now)), 1000);
    if left < 0 then 0 else left
  }

  // ---- Server reply classification ----

  /**
    A JSON value as the ArduinoJson library reports it: a boolean, or some
    other value with what `is<JsonObject>()` and `as<bool>()` give for it.
   */
  datatype JsonValue = JBool(b: bool) | JOther(isObject: bool, asBool: bool)

  function AsBool(v: JsonValue): bool {
    match v
    case JBool(b) => b
    case JOther(_, coerced) => coerced
  }

  function IsObject(v: JsonValue): bool {
    v.JOther? && v.isObject
  }

  /** `doc[key].is<JsonObject>()`: the member exists and is an object. */
  predicate MemberIsObject(fields: map<string, JsonValue>, key: string) {
    key in fields && IsObject(fields[key])
  }

  /** The response body: a parse failure or a JSON object's members. */
  datatype Body = Malformed | Document(fields: map<string, JsonValue>)

  /** What `http.POST` gave: its code (`<= 0` is a transport error) and the body. */
  datatype Reply = Posted(code: int, body: Body)

  /**
    The classification in `queryAlarmStatus` after the POST: a transport
    error or a body that does not parse is no alarm; otherwise an `alarm`
    member decides by its boolean value, else a `detection` member means
    alarm, else no alarm.
   */
  function ClassifyReply(r: Reply): (alarm: bool)
    ensures r.code <= 0 || r.body.Malformed? ==> !alarm
    ensures r.code > 0 && r.body.Document? && "alarm" in r.body.fields ==>
              alarm == AsBool(r.body.fields["alarm"])
    ensures r.code > 0 && r.body.Document? && "alarm" !in r.body.fields ==>
              alarm == ("detection" in r.body.fields)
  {
    if r.code <= 0 then false
    else match r.body
      case Malformed => false
      case Document(fields) =>
        if "alarm" in fields then AsBool(fields["alarm"])
        else if "detection" in fields then true
        else if "success" in fields && "detection" in fields then MemberIsObject(fields, "detection")
        else false
  }

  // ---- WiFi ----

  /**
    `connectToWiFi`: returns at once when connected; otherwise waits one
    second at a time, at most 30 times, until the link is up.
    `linkUpAfter(i)` is whether the status is `WL_CONNECTED` after `i` waits.
   */
  method ConnectToWiFi(connected: bool, linkUpAfter: nat -> bool) returns (up: bool, attempts: nat)
    ensures attempts <= MAX_WIFI_ATTEMPTS
    ensures connected ==> up && attempts == 0
    ensures !connected ==> up == linkUpAfter(attempts)
    ensures !connected ==> forall i :: 0 <= i < attempts ==> !linkUpAfter(i)
    ensures !connected ==> (up <==> exists i :: 0 <= i <= MAX_WIFI_ATTEMPTS && linkUpAfter(i))
  {
    if connected {
      return true, 0;
    }
    attempts := 0;
    while !linkUpAfter(attempts) && attempts < MAX_WIFI_ATTEMPTS
      invariant attempts <= MAX_WIFI_ATTEMPTS
      invariant forall i :: 0 <= i < attempts ==> !linkUpAfter(i)
    {
      attempts := attempts + 1;
    }
    up := linkUpAfter(attempts);
  }

  /** WiFi status before the query, the link's behaviour if a reconnect is tried, and the server's reply. */
  datatype QueryEnv = QueryEnv(connected: bool, linkUpAfter: nat -> bool, reply: Reply)

  /** The device can post: it was connected, or the reconnect brought the link up within 30 waits. */
  predicate Online(env: QueryEnv) {
    env.connected || exists i :: 0 <= i <= MAX_WIFI_ATTEMPTS && env.linkUpAfter(i)
  }

  /**
    `queryAlarmStatus`: when offline, reconnect once; if still offline,
    report no alarm without posting. Otherwise post and classify the reply.
   */
  method QueryAlarmStatus(env: QueryEnv) returns (alarm: bool, posted: bool)
    ensures posted <==> Online(env)
    ensures alarm <==> posted && ClassifyReply(env.reply)
  {
    var online := env.connected;
    if !online {
      var up, _ := ConnectToWiFi(env.connected, env.linkUpAfter);
      online := up;
      if !online {
        return false, false;
      }
    }
    posted := true;
    alarm := ClassifyReply(env.reply);
  }

  // ---- The controller ----

  /** The firmware's globals and its two output pins (true = HIGH). */
  class Controller {
    var alarmActive: bool
    var alarmStartTime: U32
    var nextQueryTime: U32
    var lastStatus: U32
    var led: bool
    var buzzer: bool

    /** The buzzer sounds exactly while the alarm is active, and the LED is dark when it is not. */
    predicate Valid()
      reads this
    {
      buzzer == alarmActive && (!alarmActive ==> !led)
    }

    /** The globals' initial values and `setup`: outputs LOW, first query immediately. */
    constructor ()
      ensures Valid()
      ensures !alarmActive && alarmStartTime == 0 && nextQueryTime == 0 && lastStatus == 0
      ensures !led && !buzzer
    {
      alarmActive := false;
      alarmStartTime := 0;
      nextQueryTime := 0;
      lastStatus := 0;
      led := false;
      buzzer := false;
    }

    /**
      `triggerAlarm`: start (or restart) the alarm at the first `millis()`
      reading and suppress queries until the suppression window after the
      second.
     */
    method TriggerAlarm(startClock: U32, suppressClock: U32)
      modifies this
      ensures Valid()
      ensures alarmActive && alarmStartTime == startClock && led && buzzer
      ensures nextQueryTime == Add32(suppressClock, SUPPRESS_AFTER_ALARM_MS)
      ensures lastStatus == old(lastStatus)
    {
      alarmActive := true;
      alarmStartTime := startClock;
      led := true;
      buzzer := true;
      nextQueryTime := Add32(suppressClock, SUPPRESS_AFTER_ALARM_MS);
    }

    /** `stopAlarm`: clear the flag and drive both outputs LOW. */
    method StopAlarm()
      modifies this
      ensures Valid()
      ensures !alarmActive && !led && !buzzer
      ensures alarmStartTime == old(alarmStartTime) && nextQueryTime == old(nextQueryTime)
      ensures lastStatus == old(lastStatus)
    {
      alarmActive := false;
      led := false;
      buzzer := false;
    }

    /**
      One pass of `loop` at time `now`: blink and expire a running alarm,
      then query the server if the next query is due (using the wrap-safe
      test), triggering the alarm or scheduling the next regular query;
      otherwise throttle the status line. `startClock` and `suppressClock`
      are the two `millis()` readings inside `triggerAlarm`.
     */
    method Loop(now: U32, env: QueryEnv, startClock: U32, suppressClock: U32) returns (queried: bool, alarm: bool)
      requires Valid()
      modifies this
      ensures Valid()
      ensures queried == Due(now, old(nextQueryTime))
      ensures !queried ==> !alarm && nextQueryTime == old(nextQueryTime)
      ensures !queried ==> lastStatus == if Sub32(now, old(lastStatus)) >= STATUS_EVERY then now else old(lastStatus)
      ensures queried ==> lastStatus == old(lastStatus)
      ensures queried && alarm ==> alarmActive && alarmStartTime == startClock && led
                                   && nextQueryTime == Add32(suppressClock, SUPPRESS_AFTER_ALARM_MS)
      ensures queried && !alarm ==> nextQueryTime == Add32(now, QUERY_INTERVAL)
      ensures !alarm ==> alarmStartTime == old(alarmStartTime)
      ensures !alarm ==> alarmActive == (old(alarmActive) && !Expired(now, old(alarmStartTime)))
      ensures !alarm && alarmActive ==> led == LedOn(now, alarmStartTime)
      ensures alarm <==> queried && Online(env) && ClassifyReply(env.reply)
    {
      if alarmActive {
        led := LedOn(now, alarmStartTime);
        if Expired(now, alarmStartTime) {
          StopAlarm();
        }
      }
      queried := Due(now, nextQueryTime);
      alarm := false;
      if queried {
        var posted;
        alarm, posted := QueryAlarmStatus(env);
        if alarm {
          TriggerAlarm(startClock, suppressClock);
        } else {
          nextQueryTime := Add32(now, QUERY_INTERVAL);
        }
      } else if Sub32(now, lastStatus) >= STATUS_EVERY {
        lastStatus := now;
      }
    }
  }

  /**
    The third branch of the classification (`success` and `detection`
    both present) can never be reached: a `detection` member is already
    caught by the second. The classification is exactly the two-key
    precedence rule.
   */
  lemma FallbackBranchIsDead(r: Reply)
    requires r.code > 0 && r.body.Document?
    ensures ClassifyReply(r) <==>
              ("alarm" in r.body.fields && AsBool(r.body.fields["alarm"]))
              || ("alarm" !in r.body.fields && "detection" in r.body.fields)
  {
  }
}
