# Leopard detection alarm — a Dafny model

The system watches a camera for leopards and raises an alarm on an ESP32 board. It has four cooperating parts, and this project models the decision logic of each one:

1. **Live detector** (`newDetect.py`).
   - A capture loop downscales frames and forwards every Nth frame to a background inference worker.
   - The worker's pending-frame slot is a one-frame mailbox: a new frame overwrites the old one, and the worker takes and clears it.
   - For each frame with detections, the worker appends `time,lat,lon` to a detection log. It does so only outside a cooldown window, or always when forced.
   - It persists the last-logged time in a state file. `load_last_ts` reads that file back on restart.
   - Modules: `LastTimestamp`, `DetectionCount`, `InferenceWorker`, `CaptureLoop`.
2. **Log ingester** (`outputTxt/insertLog.js`).
   - It tails the detection log by byte offset. It handles truncation, keeps an unterminated last line as a leftover, and flushes that leftover when no more bytes arrive.
   - It parses each line and inserts it into the database. An insert is skipped when the same coordinates, rounded to six decimals, were inserted within the cooldown.
   - Module: `LogIngest`.
3. **Alarm servers** (`ESP/server.js`, `ESP/test.js`).
   - `/check-alarm` answers with an alarm in two cases: a manual override is on, or the detection with the highest id is at most ten minutes old.
   - `/set-alarm` sets, clears or toggles the override.
   - `test.js` is a stand-alone variant built around one flag.
   - Modules: `AlarmSwitch` (the shared toggle rule), `AlarmServer`, `TestServer`.
4. **Alarm firmware** (`leopardDetectionAlarm/src/main.cpp`).
   - Every five seconds it polls the server and classifies the JSON reply.
   - On an alarm it drives the LED (blinking) and the buzzer for fifteen seconds, and suppresses queries for five minutes.
   - All of its times are 32-bit `millis()` values.
   - Module: `AlarmFirmware`.

`ServerToDevice` connects the two ends of the alarm chain: the device raises an alarm exactly when the server's answer says so. `ParseWrittenLine` connects the detector to the ingester: a line in the format the detector writes parses back to its time and coordinates.

Shared helper modules:
- `Wrappers`: `Option`.
- `Decimal`: the digit scanning behind Python's `float()` and JavaScript's `parseFloat`, and the printing of a non-exponent float.
- `Text`: `strip`/`trim`, `split(",")` and `split(/\r?\n/)`.

Two kinds of code are modelled differently:
- **Imperative, as classes with fields and `modifies` clauses.** The worker (`InferenceWorker.Worker`), the tailer (`LogIngest.Ingest`), the firmware globals (`AlarmFirmware.Controller`) and the two servers' flags.
- **Pure, as functions with lemmas beside them.** Every decision function.

Most state-changing methods are proved against a specification function, for example `Worker.Run` against `RunSpec` and `Ingest.FinishRead` against `Run` over `ReadLines`. The properties are proved about those functions.

Modelling conventions:
- Clocks, file contents and sizes, database results and WiFi or HTTP outcomes are parameters.
- Callbacks from timers and streams are explicit method calls, each of which runs to completion.
- The firmware's `millis()` arithmetic wraps explicitly modulo 2^32 (`AlarmFirmware.Add32`, `Sub32`).

Where the code and its comments disagree, the model follows the code:
- **The ingester's default cooldown.** Its comment says 10 minutes, but the value is `5 * 60 * 1000` ms (`insertLog.js:8`). `LogIngest.COOLDOWN_MS` is 5 minutes.

Two consequences of the code that a reader may not expect:
- **The first detection after a fresh start.** With a 600 s cooldown, one might expect detections at 0 s, 300 s and 650 s to log at 0 s and 650 s. The code does that only when the first detection comes at least 600 s after the stored time.
  - A fresh state file loads as 0.0, which counts as a line logged at the epoch.
  - So from time 0, only 650 s is logged (`CooldownScenarioFromEpoch`).
  - From any T >= 600, T and T + 650 are logged (`CooldownScenario`).
- **Coordinates never inserted before.** In the ingester, a key never inserted counts as inserted at time 0 (`lastInsertMap.get(key) || 0`). So a clock reading below the cooldown skips even a first insert.

## Model

| member | source | states |
|---|---|---|
| `LastTimestamp.ParseFloat` | newDetect.py:57 | `float(s)` on stripped text succeeds exactly when a number spans the whole text, and then gives that number's value |
| `LastTimestamp.LoadLastTs` | newDetect.py:52-60 | 0.0 for a missing or unreadable file, for blank text and for text that does not parse; when the stripped text parses, its value |
| `LastTimestamp.ParseFormatted` | newDetect.py:62-65 | the text `str(float(ts))` writes has nothing for `strip()` to remove and parses back to exactly the reading it came from |
| `LastTimestamp.LoadSaved` | newDetect.py:52-69 | `load_last_ts` after a successful `save_last_ts` gives back the saved time, so a restart keeps the cooldown |
| `DetectionCount.FirstAvailable` | newDetect.py:71-88 | the first field in the chain that gave a value, with no earlier field giving one; the default when none did |
| `DetectionCount.CountIsFirstAvailable` | newDetect.py:71-88 | the box count is `len(boxes)` if available, else `boxes.xyxy.shape[0]`, else `int(res.n)`, else 0 |
| `DetectionCount.Count` | newDetect.py:71-88 | a negative count can come only from `res.n`, and only when neither box field gave a value |
| `InferenceWorker.WriteLog` | newDetect.py:137-153 | when the call is forced or outside the cooldown and the line was written, one line is appended, even when `fsync` or `close` raised afterwards; `last_logged` becomes `now` and the state file is saved only when the whole `with` block completed; otherwise nothing changes; a failed save leaves the file as the failed write left it and does not undo the advance |
| `InferenceWorker.IterateSpec` | newDetect.py:155-197 | one `run` iteration: it exits exactly when stopped, idles exactly on an empty slot, and otherwise clears the slot; it processes a frame exactly when inference succeeded, with the box count `Count` gives; the log changes only by `WriteLog` on a positive count; the display gets the plotted frame, or the raw one with plotting off or when `plot()` raised; nothing changes in the log or the display unless a frame was processed |
| `InferenceWorker.LatestPublishWaits` | newDetect.py:126-128 | after any history, the slot holds the most recently published frame until the worker next runs; earlier untaken frames are dropped |
| `InferenceWorker.NextIterationTakesLatest` | newDetect.py:157-165 | the next iteration takes exactly that latest frame, and leaves the slot empty |
| `InferenceWorker.StoppedWorkerIsInert` | newDetect.py:134-156 | once a stop is requested, no later step logs or publishes for display |
| `InferenceWorker.LinesAreCooldownApart` | newDetect.py:139-144 | without force, and when no append raised after writing, n new lines over any run move `last_logged` forward by at least n cooldowns |
| `InferenceWorker.RaisedAfterWriteRepeats` | newDetect.py:141-148 | when `fsync` or `close` raises after the line was written, `last_logged` is not advanced, so the next detection appends a second line inside the same cooldown window |
| `InferenceWorker.CooldownScenario` | newDetect.py:139-144 | with a 600 s cooldown and a fresh state file, detections at T, T + 300 and T + 650 (T >= 600) log T and T + 650; when the last save succeeds, the state file loads back as T + 650 |
| `InferenceWorker.CooldownScenarioFromEpoch` | newDetect.py:52-60 | the same detections from T = 0 log only 650, because the fresh state file loads as 0.0; when the last save succeeds, the state file loads back as 650 |
| `InferenceWorker.ForceLogsEveryDetection` | newDetect.py:139-143 | with `force_log`, every line that was written is appended, whatever the cooldown |
| `InferenceWorker.RestartKeepsCooldown` | newDetect.py:124 | after a restart, the cooldown counts from the saved time |
| `InferenceWorker.Worker.constructor` | newDetect.py:105-124 | both mailboxes are empty, no stop is requested, and `last_logged` is loaded from the state file |
| `InferenceWorker.Worker.UpdateFrame` | newDetect.py:126-128 | the pending slot is overwritten unconditionally; nothing else changes |
| `InferenceWorker.Worker.GetAnnotated` | newDetect.py:130-132 | returns the latest annotated frame, if any |
| `InferenceWorker.Worker.Stop` | newDetect.py:134-135 | sets only the stop flag |
| `InferenceWorker.Worker.TakeFrame` | newDetect.py:157-165 | returns the pending frame and leaves the slot empty |
| `InferenceWorker.Worker.MaybeWriteLog` | newDetect.py:137-153 | reports whether it logged, and the new log state is `WriteLog` of the old one |
| `InferenceWorker.Worker.RunIteration` | newDetect.py:155-197 | the new state and the outcome are those of `IterateSpec` |
| `InferenceWorker.Worker.Run` | newDetect.py:155-165 | performing an interleaving of publishes, iterations and stops leaves the state `RunSpec` gives |
| `CaptureLoop.Trunc` | newDetect.py:204-205 | Python's `int()` on a float truncates toward zero |
| `CaptureLoop.ScaleFrame` | newDetect.py:199-205 | the size arithmetic of the resize: frames no wider than the maximum pass through unchanged |
| `CaptureLoop.Scale` | newDetect.py:199-206 | `scale_frame_to_max_width` with its failures: a frame no wider than the maximum is returned as it is |
| `CaptureLoop.ScaleFailsExactly` | newDetect.py:199-206 | scaling fails exactly when the frame is wider than `max_w` and either `max_w <= 0` or h·max_w < w. The first case is `ZeroDivisionError` for a zero-wide frame, else a width `cv2.resize` rejects. The second is a height truncated to 0 |
| `CaptureLoop.ScaleKeepsAspect` | newDetect.py:199-206 | a wider frame comes out exactly `max_w` wide, with its height the aspect-preserving height truncated |
| `CaptureLoop.ScaledWidth` | newDetect.py:203-206 | a frame wider than `max_w`, unless it is zero wide, is resized to exactly `max_w` columns |
| `CaptureLoop.ScaledHeight` | newDetect.py:203-206 | the resized height h' satisfies h'·w <= h·max_w < (h'+1)·w, and lies between 0 and the original height |
| `CaptureLoop.HeightBounds` | newDetect.py:204-205 | `int(h * (max_w / w))` is the floor of h·max_w / w |
| `CaptureLoop.ScaleAllAt` | newDetect.py:259-268 | the k-th entry of the scaled sequence is the outcome of scaling the k-th frame read |
| `CaptureLoop.ForwardedFrames` | newDetect.py:271-274 | every listed frame number is among the first n and passes the `k % N == 0` rule |
| `CaptureLoop.ForwardedFramesComplete` | newDetect.py:271-274 | every frame number that passes the rule is listed |
| `CaptureLoop.ForwardedCount` | newDetect.py:271-274 | with N > 0, exactly n / N of the first n frames are forwarded |
| `CaptureLoop.EveryThirdFrame` | newDetect.py:272 | with N = 3, frames 3, 6 and 9 of nine are forwarded |
| `CaptureLoop.ToShow` | newDetect.py:276-278 | the annotated frame is shown when there is one, else the current scaled frame |
| `CaptureLoop.Forward` | newDetect.py:270-274 | the counter is incremented first; with a frame skip of 0 the `%` raises `ZeroDivisionError` before any handover; otherwise the frame is handed over exactly when the new count passes the rule, and the slot is otherwise unchanged |
| `CaptureLoop.CaptureFrame` | newDetect.py:268-286 | one frame read: a frame that cannot be scaled ends the loop before it is counted; otherwise it is counted, and with a frame skip of 0 the `%` raises before any handover; otherwise it is handed over by the rule, and when display is on the `ToShow` choice is shown and the quit key ends the loop |
| `CaptureLoop.CaptureNext` | newDetect.py:260-286 | one pass of the loop either keeps the loop's state for one more frame counted or ends it in the state `Capture` promises |
| `CaptureLoop.Capture` | newDetect.py:259-298 | the loop ends when the source runs out, on the quit key, at the first frame that cannot be scaled (before it is counted), or on the first frame when the frame skip is 0; every frame counted was scaled, and only the last one counted can have seen the quit key; the pending slot holds the scaled copy of the last frame the `ForwardedFrames` rule selected, or its earlier content; one frame is shown per frame counted when display is on, none on the zero-skip crash, each the `ToShow` choice; on every exit the `finally` block asks the worker to stop |
| `AlarmFirmware.Add32` | leopardDetectionAlarm/src/main.cpp:179 | unsigned 32-bit addition wraps modulo 2^32 |
| `AlarmFirmware.Sub32` | leopardDetectionAlarm/src/main.cpp:197 | unsigned 32-bit subtraction wraps modulo 2^32 |
| `AlarmFirmware.DueAsWritten` | leopardDetectionAlarm/src/main.cpp:209 | `now >= nextQueryTime` holds exactly when the wrapped difference `now - nextQueryTime` equals the true difference, that is, when the subtraction does not wrap |
| `AlarmFirmware.Due` | leopardDetectionAlarm/src/main.cpp:209 | the wrap-safe test holds exactly when the wrapped difference, read as a signed `long`, is non-negative |
| `AlarmFirmware.DueAsWrittenStallsAcrossWrap` | leopardDetectionAlarm/src/main.cpp:209 | the comparison as written skips a deadline just before the wrap, leaving no query for about 49.7 days |
| `AlarmFirmware.DueAsWrittenFiresEarly` | leopardDetectionAlarm/src/main.cpp:209-219 | the comparison as written fires 4.9 s early when `now + QUERY_INTERVAL` wraps |
| `AlarmFirmware.DueFromDeadline` | leopardDetectionAlarm/src/main.cpp:209 | the wrap-safe test holds exactly when the deadline passed less than 2^31 ms ago |
| `AlarmFirmware.DueAfterWait` | leopardDetectionAlarm/src/main.cpp:209-219 | a deadline set `wait` ms after t is due at t + d exactly when wait <= d, across any wrap |
| `AlarmFirmware.DueAgreesWithoutWrap` | leopardDetectionAlarm/src/main.cpp:209 | where the counter does not wrap, the wrap-safe test agrees with the comparison as written |
| `AlarmFirmware.LedOn` | leopardDetectionAlarm/src/main.cpp:197 | the LED is on exactly when the wrapped time since the alarm started lies in an even half-second, the first 500 ms of a second |
| `AlarmFirmware.Expired` | leopardDetectionAlarm/src/main.cpp:203 | the alarm has expired exactly when `now` is not among the 15000 wrapped instants starting at the alarm's start |
| `AlarmFirmware.AlarmTiming` | leopardDetectionAlarm/src/main.cpp:195-205 | the alarm expires exactly 15 s after its start, and the LED is on exactly in the first 500 ms of each second, across a wrap |
| `AlarmFirmware.ToLong` | leopardDetectionAlarm/src/main.cpp:227 | `(long)` of an unsigned value is its two's-complement reading in [-2^31, 2^31) |
| `AlarmFirmware.TruncDiv` | leopardDetectionAlarm/src/main.cpp:227 | C division truncates toward zero: floor division for non-negative numerators, never positive for negative ones |
| `AlarmFirmware.SecondsLeft` | leopardDetectionAlarm/src/main.cpp:226-228 | the status line shows the whole seconds left when the deadline is ahead, and 0 when it has passed |
| `AlarmFirmware.ClassifyReply` | leopardDetectionAlarm/src/main.cpp:114-164 | a transport error or an unparsable body means no alarm; an `alarm` member decides by its boolean value; otherwise a `detection` member means alarm |
| `AlarmFirmware.FallbackBranchIsDead` | leopardDetectionAlarm/src/main.cpp:139-141 | the `success` and `detection` fallback can never be reached, so the classification is the two-key precedence rule |
| `AlarmFirmware.ConnectToWiFi` | leopardDetectionAlarm/src/main.cpp:53-80 | at most 30 one-second waits; it returns at once when already connected; connected at the end exactly when the link came up within 30 waits |
| `AlarmFirmware.QueryAlarmStatus` | leopardDetectionAlarm/src/main.cpp:83-164 | it posts exactly when the board is online, already or after one reconnect of at most 30 waits, and reports an alarm exactly when it posted and the reply classifies as an alarm |
| `AlarmFirmware.Controller.constructor` | leopardDetectionAlarm/src/main.cpp:22-44 | no alarm, both outputs LOW, first query immediately |
| `AlarmFirmware.Controller.TriggerAlarm` | leopardDetectionAlarm/src/main.cpp:166-182 | the alarm is active from the first clock reading with LED and buzzer on, and queries are suppressed until five minutes after the second reading |
| `AlarmFirmware.Controller.StopAlarm` | leopardDetectionAlarm/src/main.cpp:184-189 | the alarm is cleared and both outputs are LOW; the schedule is unchanged |
| `AlarmFirmware.Controller.Loop` | leopardDetectionAlarm/src/main.cpp:191-238 | blinks and expires a running alarm; queries exactly when due, by the corrected test; it alarms exactly when it queried, the board is online and the reply classifies as an alarm, and then triggers and suppresses; otherwise it schedules the next query 5 s on; the status line is throttled to one per 15 s; the buzzer stays on exactly while the alarm is active |
| `Text.Trim` | outputTxt/insertLog.js:37-38 | the trimmed text is empty exactly when the line is all whitespace, and otherwise neither starts nor ends with whitespace |
| `Text.Split` | outputTxt/insertLog.js:41 | `split(",")` gives at least one field, and no field contains a comma |
| `Text.JoinSplit` | outputTxt/insertLog.js:41 | joining the fields with commas gives the line back |
| `Text.SplitJoin` | outputTxt/insertLog.js:41 | splitting comma-joined comma-free fields gives those fields back |
| `Text.SplitLines` | outputTxt/insertLog.js:101 | `split(/\r?\n/)` gives as many pieces as splitting on `\n`, none containing a newline, the last one unchanged |
| `Decimal.ScanDecimal` | outputTxt/insertLog.js:47-48 | a number is found exactly when the text starts, after an optional sign, with a digit or a point and a digit; it spans at least one character of the text |
| `Decimal.ScanPrinted` | newDetect.py:140 | a number printed as `[-]whole.frac` scans back to its value and spans the whole text |
| `LogIngest.ParseFloatPrefix` | outputTxt/insertLog.js:47-48 | `parseFloat` gives a number exactly when one starts the text after its leading whitespace |
| `LogIngest.ParseLine` | outputTxt/insertLog.js:36-52 | a line is skipped when blank; it is malformed when it has fewer than three comma fields; otherwise a record holds the trimmed first field and numbers read from the second and third fields |
| `LogIngest.ParseFields` | outputTxt/insertLog.js:41-52 | a record exactly when there are three or more fields and both coordinate fields start with a number |
| `LogIngest.ParseWrittenLine` | outputTxt/insertLog.js:36-52 | a `time,lat,lon` line as the detector writes it parses back to its time and both coordinates |
| `LogIngest.Key` | outputTxt/insertLog.js:55 | each coordinate of the key keeps its sign and holds its magnitude in millionths, rounded half up |
| `LogIngest.LastInsert` | outputTxt/insertLog.js:57 | the key's last insert time when there is one, and 0 otherwise |
| `LogIngest.ToFixed6` | outputTxt/insertLog.js:55 | `toFixed(6)` keeps the sign and rounds the magnitude to millionths, halves up |
| `LogIngest.SameFixed6Close` | outputTxt/insertLog.js:55 | two values that share a key differ by less than a millionth |
| `LogIngest.Admit` | outputTxt/insertLog.js:54-65 | a non-record changes nothing; a record is skipped exactly when its key's last time is less than the cooldown ago; otherwise the insert is attempted, the row is stored if the database is up, and the key's time becomes `now` either way |
| `LogIngest.AdmitAdvances` | outputTxt/insertLog.js:57-65 | a key's time never moves back, and an attempt comes at least a cooldown after the key's previous time |
| `LogIngest.AttemptsAfterCooldown` | outputTxt/insertLog.js:57-65 | over any run of lines, each attempt is at least a cooldown after the key's time in the starting table |
| `LogIngest.AttemptsSpaced` | outputTxt/insertLog.js:54-65 | two insert attempts for the same rounded coordinates are at least a cooldown apart, when each line is processed to the end before the next starts (a flush overlapping a read breaks this; see `LogIngest.Ingest.FireFlushTimer` under "Left out") |
| `LogIngest.ItemsAt` | outputTxt/insertLog.js:130-132 | the i-th item processed is the i-th line, parsed, with the clock reading and database state of its turn |
| `LogIngest.ReadLines` | outputTxt/insertLog.js:100-105 | the lines processed are the newline-terminated pieces without `\r`, plus an empty line when the data ends with a newline; the leftover is the text after the last newline |
| `LogIngest.ChunkedReads` | outputTxt/insertLog.js:98-105 | reading in two parts, carrying the leftover, ends the same lines and leaves the same rest as one read |
| `LogIngest.FlushTerminates` | outputTxt/insertLog.js:110-119 | flushing the leftover is equivalent to receiving a newline after it |
| `LogIngest.Ingest.StartIngest` | outputTxt/insertLog.js:158-175 | the cooldown option is used when it is a number; tailing starts at the file's size, or at 0 when the file cannot be stat'ed |
| `LogIngest.Ingest.ProcessLine` | outputTxt/insertLog.js:36-66 | the table and the outcome are `Admit` applied to the parsed line |
| `LogIngest.Ingest.ProcessRecord` | outputTxt/insertLog.js:54-65 | the cooldown check and the insert on a parsed line, as `Admit` |
| `LogIngest.Ingest.BeginPoll` | outputTxt/insertLog.js:68-97 | nothing happens while a read is in flight or after a stat error; a shrunken file resets the offset and the leftover; an unchanged size reads nothing; otherwise it reads from the offset to the new size |
| `LogIngest.Ingest.FinishRead` | outputTxt/insertLog.js:98-139 | the offset moves to the new size and the complete lines are processed in order; the rest becomes the leftover, with a flush scheduled unless the data ended with a newline; every newline-terminated piece received is handed on exactly once, unless a flush's insert is still pending (see `LogIngest.Ingest.FireFlushTimer` under "Left out") |
| `LogIngest.Ingest.TakeChunk` | outputTxt/insertLog.js:99-128 | the offset moves to the new size; the lines handed back are those `ReadLines` gives for the leftover plus the chunk; the rest becomes the leftover, with a flush scheduled unless the data ended with a newline; every newline-terminated piece received is recorded once, unless a flush's insert is still pending (see `LogIngest.Ingest.FireFlushTimer` under "Left out") |
| `LogIngest.Ingest.ProcessLines` | outputTxt/insertLog.js:130-136 | processing the lines one by one gives the table `Run` gives |
| `LogIngest.Ingest.ProcessNth` | outputTxt/insertLog.js:131-132 | processing line i extends the run over the first i lines by one item |
| `LogIngest.Ingest.ReadFailed` | outputTxt/insertLog.js:141-144 | a stream error only ends the read, so the same bytes are read again |
| `LogIngest.Ingest.FireFlushTimer` | outputTxt/insertLog.js:110-121 | the leftover is processed and cleared exactly when it is non-empty and neither it nor the offset changed since scheduling; otherwise nothing changes. The flush is one step, with no read during its insert |
| `LogIngest.Ingest.FlushLeftover` | outputTxt/insertLog.js:112-119 | the leftover is processed as a line of its own, then cleared, with no read in between |
| `LogIngest.Ingest.TerminateLeftover` | outputTxt/insertLog.js:118 | clearing a processed leftover keeps the lines handed on equal to the terminated pieces received |
| `AlarmSwitch.NextFlag` | ESP/server.js:86-95 | `true` sets the flag, `false` clears it, and any other or absent value flips it |
| `AlarmSwitch.AlertCount` | ESP/test.js:17 | `alert_count` is 1 exactly when there is an alarm, and 0 otherwise |
| `AlarmSwitch.ToggleTwice` | ESP/test.js:33-35 | two toggles restore the flag |
| `AlarmSwitch.OnlyToggles` | ESP/server.js:92-95 | a series of toggles leaves the flag flipped once per toggle |
| `AlarmSwitch.ExplicitForgets` | ESP/server.js:86-91 | after an explicit `true` or `false`, earlier requests no longer matter |
| `AlarmServer.LatestRow` | ESP/server.js:14-18 | no row for an empty table; otherwise a row of the table with the highest id |
| `AlarmServer.RoundedSeconds` | ESP/server.js:29 | `Math.round(ageMs / 1000)` is within half a second of the age |
| `AlarmServer.LatestDetectionIfRecent` | ESP/server.js:12-37 | a database error is passed on; a detection is reported exactly when the highest-id row has a valid time at most `maxAgeMs` ago, and it carries that row's fields and rounded age |
| `AlarmServer.CheckAlarmResponse` | ESP/server.js:39-82 | the override answers alarm with count 1; otherwise a database error gives status 500, and the alarm holds exactly when a recent detection exists, which is then included; `alert_count` is 1 exactly for an alarm |
| `AlarmServer.ManualIgnoresDatabase` | ESP/server.js:49-57 | with the override on, the answer does not depend on the database or the clock |
| `AlarmServer.NoRowsNoAlarm` | ESP/server.js:17 | an empty table gives no alarm and count 0 |
| `AlarmServer.InvalidTimeNoAlarm` | ESP/server.js:20-21 | a highest-id row with an invalid time gives no alarm and count 0 |
| `AlarmServer.LatestMeansHighestId` | ESP/server.js:15 | a recent row under a lower id than a stale row raises no alarm |
| `AlarmServer.AgeBoundInclusive` | ESP/server.js:22-23 | a row exactly ten minutes old, or stamped in the future, counts as recent |
| `AlarmServer.Server.constructor` | ESP/server.js:9 | the override starts off |
| `AlarmServer.Server.SetAlarm` | ESP/server.js:84-105 | the override becomes `NextFlag(status, old)`, and the page shows the new value |
| `AlarmServer.Server.CheckAlarm` | ESP/server.js:39-82 | the answer is `CheckAlarmResponse` for the current override, and the override is not changed |
| `AlarmServer.Server.Status` | ESP/server.js:107-113 | reports the override without changing it |
| `TestServer.Server.constructor` | ESP/test.js:8 | the flag starts off |
| `TestServer.Server.SetAlarm` | ESP/test.js:24-47 | the flag becomes `NextFlag(status, old)`, and the page shows the new value |
| `TestServer.Server.CheckAlarm` | ESP/test.js:11-21 | `alarm` is the flag, and `alert_count` is 1 exactly when the flag is set, else 0 |
| `TestServer.Server.Status` | ESP/test.js:50-56 | reports the flag without changing it |
| `TestServer.ToggleTwiceReportsSame` | ESP/test.js:24-56 | across two toggles with a status read between, the status read shows the flipped flag and `/check-alarm` reports the same before and after |
| `ServerToDevice.ServerReply` | ESP/server.js:50-80 | the reply's HTTP status is 200 for an answer and 500 for a database error, always with a JSON object body |
| `ServerToDevice.DeviceFollowsServer` | leopardDetectionAlarm/src/main.cpp:114-141 | the device classifies the server's answer as an alarm exactly when it says `alarm: true` |
| `ServerToDevice.DeviceAlarmsOnRecentDetection` | ESP/server.js:59-80 | without the override, the device alarms exactly when the highest-id detection is at most ten minutes old; a database error leaves it silent |
| `ServerToDevice.TestReply` | ESP/test.js:14-20 | the test server always answers with status 200 and a JSON object body |
| `ServerToDevice.DeviceFollowsTestServer` | ESP/test.js:11-21 | with the test server, the device alarms exactly when `alarmStatus` is set |

## Left out

- Threads, locks, `threading.Event`, `sleep` and `join`. The worker is modelled as any interleaving of the atomic steps its locks protect (`InferenceWorker.Step`, `Worker.Run`). The capture loop is modelled on its own, with no worker step between its frames.
- `CaptureLoop.Capture`: the worker thread is idle during the modelled run, so the annotated frame stays fixed and no forwarded frame is taken. With a running worker, the frame shown may change from one frame to the next, and the pending slot may be emptied between handovers.
- The worker's `test_write` and `parse_args`, `--verbose` printing, and the FPS counter.
- YOLO inference, `res.plot()`, `cv2.resize`, `imshow`, `waitKey` and `VideoCapture`.
  - Frames and results are opaque values.
  - An exception from inference or from `plot()` is a parameter.
  - `cv2.resize` is a symbolic `Resized` image.
  - The quit key is a parameter.
- `AlarmFirmware.Controller.Loop`: it decides whether a query is due with the wrap-safe `Due`, not with line 209's `now >= nextQueryTime` (`DueAsWritten`). The two agree while the counter does not wrap (`DueAgreesWithoutWrap`). The as-written behaviour across a wrap is shown by `DueAsWrittenStallsAcrossWrap` and `DueAsWrittenFiresEarly`.
- `InferenceWorker.LinesAreCooldownApart`: proved only for runs where no append raised after writing its line. `RaisedAfterWriteRepeats` shows that such an append lets two lines fall inside one cooldown window.
- Partial writes. An append either writes its whole line or none of it (`WrittenThenRaised` covers a raise from `flush`, `fsync` or `close` after the write). A `write` that raises after writing part of the line is not modelled.
- Binary floating point. Numbers are exact reals.
  - `toFixed(6)`, `Math.round(ageMs / 1000)` and the parsed value of a decimal text may differ from the source by one unit in the last place.
  - `int(w * scale)` truncates after the rounding error, so the source can be a whole pixel below the model. For w = 49 and `max_w` = 1, `49 * (1 / 49)` is `0.9999999999999999`, so the source's new width is 0 and `cv2.resize` raises. The model computes a width of 1 and scales (`ScaledWidth`, `ScaleFailsExactly`).
- Number syntax. `float()` and `parseFloat` accept only `[+|-] digits [. digits]` here. Not modelled:
  - exponents;
  - `inf`, `nan` and `Infinity`;
  - Python's digit underscores.
- `str(float(ts))`: it is modelled for non-negative readings printed as `whole.fraction`. Exponent notation is not modelled.
- Whitespace. Python's `strip()` and JavaScript's `trim()` are modelled on the six ASCII whitespace characters, not on all Unicode whitespace.
- Text is read one character per byte. UTF-8 decoding across read boundaries is not modelled.
- File I/O, `fsync`, `fs.stat`, `createReadStream` and `existsSync`/`writeFileSync` in `startIngest`.
  - File contents, sizes and stat results are parameters.
  - How a log append ends is a parameter: nothing written, written, or written and then `flush`, `fsync` or `close` raised (`InferenceWorker.Append`). A failed state-file save is a parameter too.
- Timers.
  - `setInterval(poll, POLL_MS)` and `setTimeout(…, FLUSH_MS)` are explicit calls to `BeginPoll`, `FinishRead` and `FireFlushTimer`.
  - `POLL_MS`, `FLUSH_MS` and the `FILE` option therefore do not appear.
  - When the flush timer fires and its condition fails, the model still drops the timer, while the source keeps the stale handle. A later `clearTimeout` on it has no effect, so behaviour is the same.
- `LogIngest.Ingest.FireFlushTimer`: the flush is one step. In the source, the timer awaits `processLine(leftover)` (insertLog.js:114) before it clears the leftover (insertLog.js:118-119). Since `poll` runs every 10 ms, a whole read can finish during that await. Two consequences are not modelled:
  - If that read completes the line (for example with a bare newline), the stale leftover is processed again. The flush's insert has not yet reached `lastInsertMap.set` (insertLog.js:65), so the same coordinates are inserted twice within the cooldown.
  - If that read leaves a new unterminated rest, line 118 erases it. The new flush timer then finds the leftover empty, so that text is never processed.
- The `await` points inside one read's line loop. A flush timer firing between two lines of the same read is not modelled; each read's lines are processed as one step.
- `insertLog`'s SQL, `insertId` and the `onDetection` callback. Whether an insert reaches the database is a parameter (`dbUp`).
- WiFi, `HTTPClient`, the JSON request body, `Serial` output, `delay(100)` and the GPIO writes. The pins appear as the `led` and `buzzer` fields. `setup`'s `connectToWiFi` call is covered by `ConnectToWiFi`. The HTTP reply is given parsed, as an object's members or a parse failure.
- ArduinoJson's `as<bool>()` on non-boolean values. The model takes the coerced value as given.
- Express routing, the HTML pages, the `/` redirect, `listen`, the request-body logging and ISO date formatting.
  - `timestamp` and `message` appear only as values present in the reply.
  - The JSON serialisation of the answers is modelled only by the members the device reads (`ServerToDevice.ServerReply`, `ServerToDevice.TestReply`).
- MySQL. The `SELECT` result is a parameter: a database error or the table's rows, with each row's time already converted to milliseconds, or `None` for an invalid date.
- Rows that share an id. Ids are assumed distinct, as the table's key makes them. With ties, `LatestRow` picks one of the tied rows.

## Findings

| source | as written | input that shows it | evidently intended | confidence | as-written member | corrected member |
|---|---|---|---|---|---|---|
| leopardDetectionAlarm/src/main.cpp:209 | `if (now >= nextQueryTime)` compares 32-bit `millis()` values directly, so the test breaks when the counter wraps (every ~49.7 days) | `nextQueryTime = 2^32 - 6` and the next loop runs at `now = 54`: no `now` before the deadline comes round again passes the test, so the device stops polling for ~49.7 days. Also `now = 2^32 - 1000` schedules `nextQueryTime = 4000`, which is due 100 ms later, 4.9 s early | the wrap-safe test `(long)(now - nextQueryTime) >= 0` | not executed | `AlarmFirmware.DueAsWrittenStallsAcrossWrap` | `AlarmFirmware.DueAfterWait` |
