/**
  The background inference worker of the live detector (`InferenceWorker`):
  a single-slot pending-frame mailbox that publishing overwrites, a
  take-and-clear step per loop iteration, the cooldown-gated append to the
  detection log with persistence of the last-logged time, and the
  single-slot annotated-frame mailbox the display reads.

  Threads are modelled as interleavings of the atomic steps each lock
  protects: a publish by the capture loop, one worker iteration, a stop
  request. Frames are values of the opaque type `F`.
 */
module InferenceWorker {
  import opened Wrappers
  import opened LastTimestamp
  import opened DetectionCount

  /** The worker's constructor arguments that its logic depends on. */
  datatype Config = Config(lat: real, lon: real, cooldownSecs: real, forceLog: bool, noPlot: bool)

  /** One line of the detection log: `time,lat,lon`. */
  datatype LogLine = LogLine(time: string, lat: real, lon: real)

  /** The part of the worker's state `_maybe_write_log` reads and changes. */
  datatype LogState = LogState(lastLogged: real, log: seq<LogLine>, lastFile: LastFile)

  /**
    How the append in `_maybe_write_log` went: `open` or `write` raised
    before the line reached the file; the line was written, flushed and
    synced; or it was written and flushed, and then `os.fsync` or closing
    the file raised.
   */
  datatype Append = NotWritten | Written | WrittenThenRaised

  /**
    What the outside world contributes to one `_maybe_write_log` call: the
    formatted wall-clock text, the `time.time()` reading, how the append to
    the log file went, and how saving the state file went (`None`: saved;
    `Some(f)`: the write raised, leaving the file as `f`).
   */
  datatype LogAttempt = LogAttempt(timeText: string, now: Timestamp, append: Append, saveFault: Option<LastFile>)

  /** The cooldown test: forced, or at least `cooldown` seconds since the last logged line. */
  predicate ShouldLog(force: bool, now: real, lastLogged: real, cooldown: real) {
    force || now - lastLogged >= cooldown
  }

  /** Whether a call puts a line in the log file: the cooldown test passes and the line is written. */
  predicate Appends(c: Config, lastLogged: real, a: LogAttempt) {
    ShouldLog(c.forceLog, Seconds(a.now), lastLogged, c.cooldownSecs) && !a.append.NotWritten?
  }

  /** Whether a call logs: it appends and the `with` block completes, so `last_logged` advances. */
  predicate Logs(c: Config, lastLogged: real, a: LogAttempt) {
    ShouldLog(c.forceLog, Seconds(a.now), lastLogged, c.cooldownSecs) && a.append.Written?
  }

  /**
    `_maybe_write_log`: a line is appended exactly when the cooldown test
    passes and the write reaches the file; `last_logged` becomes `now` and
    the state file is saved only when the whole `with` block completed. A
    failing save only warns, so the state file is then whatever the failed
    write left.
   */
  function WriteLog(c: Config, s: LogState, a: LogAttempt): (r: LogState)
    ensures Appends(c, s.lastLogged, a) <==> |r.log| == |s.log| + 1
    ensures !Appends(c, s.lastLogged, a) <==> r == s
    ensures Appends(c, s.lastLogged, a) ==> r.log == s.log + [LogLine(a.timeText, c.lat, c.lon)]
    ensures Logs(c, s.lastLogged, a) ==>
              r.lastLogged == Seconds(a.now) && r.lastFile == a.saveFault.GetOr(Saved(a.now))
    ensures !Logs(c, s.lastLogged, a) ==> r.lastLogged == s.lastLogged && r.lastFile == s.lastFile
  {
    if !Appends(c, s.lastLogged, a) then s
    else
      var log := s.log + [LogLine(a.timeText, c.lat, c.lon)];
      if a.append.Written? then LogState(Seconds(a.now), log, a.saveFault.GetOr(Saved(a.now)))
      else s.(log := log)
  }

  /** What the detection model gives for the taken frame; `plot` is `None` when `res.plot()` raised. */
  datatype Inference<F> = InferenceFailed | Inferred(result: ModelResult, plot: Option<F>)

  /** The outside world's part in one worker iteration. */
  datatype IterationEnv<F> = IterationEnv(inference: Inference<F>, attempt: LogAttempt)

  /** How one iteration of `run` ended. */
  datatype Iteration = Exited | Idle | Backoff | Processed(boxes: int)

  /** The whole worker state, as one value. */
  datatype State<F> = State(pending: Option<F>, annotated: Option<F>, stopped: bool, logState: LogState)

  /**
    One iteration of `run`: leave if a stop was requested; otherwise take
    and clear the pending frame (idle when there is none), run inference
    (back off when it raised), log when boxes were found, and publish the
    frame to display.
   */
  function IterateSpec<F>(c: Config, s: State<F>, env: IterationEnv<F>): (r: (State<F>, Iteration))
    ensures r.1.Exited? <==> s.stopped
    ensures r.1.Idle? <==> !s.stopped && s.pending.None?
    ensures !s.stopped ==> r.0.pending.None?
    ensures r.0.stopped == s.stopped
    ensures !r.1.Processed? ==> r.0.logState == s.logState && r.0.annotated == s.annotated
    ensures r.1.Processed? && r.1.boxes <= 0 ==> r.0.logState == s.logState
    ensures r.1.Processed? <==> !s.stopped && s.pending.Some? && env.inference.Inferred?
    ensures r.1.Processed? ==>
              r.1.boxes == Count(env.inference.result)
              && r.0.annotated == Some(if c.noPlot then s.pending.value else env.inference.plot.GetOr(s.pending.value))
    ensures r.1.Processed? && r.1.boxes > 0 ==> r.0.logState == WriteLog(c, s.logState, env.attempt)
  {
    if s.stopped then (s, Exited)
    else match s.pending
      case None => (s, Idle)
      case Some(frame) =>
        var taken := s.(pending := None);
        match env.inference
        case InferenceFailed => (taken, Backoff)
        case Inferred(res, plot) =>
          var n := Count(res);
          var logState := if n > 0 then WriteLog(c, s.logState, env.attempt) else s.logState;
          var shown := if c.noPlot then frame else plot.GetOr(frame);
          (taken.(annotated := Some(shown), logState := logState), Processed(n))
  }

  /** The atomic steps of the two threads and of the shutdown path. */
  datatype Step<F> = Publish(frame: F) | Iterate(env: IterationEnv<F>) | RequestStop

  function ApplyStep<F>(c: Config, s: State<F>, step: Step<F>): State<F> {
    match step
    case Publish(f) => s.(pending := Some(f))
    case Iterate(env) => IterateSpec(c, s, env).0
    case RequestStop => s.(stopped := true)
  }

  /** The state after a run of steps. */
  function RunSpec<F>(c: Config, s: State<F>, steps: seq<Step<F>>): State<F>
    decreases |steps|
  {
    if steps == [] then s else RunSpec(c, ApplyStep(c, s, steps[0]), steps[1..])
  }

  /** Running `a` and then `b` is running `a + b`. */
  lemma {:induction false} RunSpecAppend<F>(c: Config, s: State<F>, a: seq<Step<F>>, b: seq<Step<F>>)
    ensures RunSpec(c, s, a + b) == RunSpec(c, RunSpec(c, s, a), b)
    decreases |a|
  {
    if a != [] {
      assert (a + b)[1..] == a[1..] + b;
      RunSpecAppend(c, ApplyStep(c, s, a[0]), a[1..], b);
    } else {
      assert a + b == b;
    }
  }

  /**
    Drop-oldest: after any history, the slot holds the latest published
    frame as long as no worker iteration has run since (only stop requests
    may follow); every frame published before it and not yet taken is lost.
   */
  lemma LatestPublishWaits<F>(c: Config, s: State<F>, pre: seq<Step<F>>, f: F, post: seq<Step<F>>)
    requires forall i :: 0 <= i < |post| ==> post[i].RequestStop?
    ensures RunSpec(c, s, pre + [Publish(f)] + post).pending == Some(f)
  {
    RunSpecAppend(c, s, pre + [Publish(f)], post);
    RunSpecAppend(c, s, pre, [Publish(f)]);
    var s1 := RunSpec(c, s, pre + [Publish(f)]);
    assert RunSpec(c, RunSpec(c, s, pre), [Publish(f)]).pending == Some(f);
    OnlyStopsKeepSlot(c, s1, post);
  }

  lemma {:induction false} OnlyStopsKeepSlot<F>(c: Config, s: State<F>, post: seq<Step<F>>)
    requires forall i :: 0 <= i < |post| ==> post[i].RequestStop?
    ensures RunSpec(c, s, post).pending == s.pending
    decreases |post|
  {
    if post != [] {
      assert forall i :: 0 <= i < |post[1..]| ==> post[1..][i] == post[i + 1];
      OnlyStopsKeepSlot(c, ApplyStep(c, s, post[0]), post[1..]);
    }
  }

  /**
    The next iteration after that takes exactly this latest frame: with
    plotting off it is the frame published for display, and the pending slot
    is empty again.
   */
  lemma NextIterationTakesLatest<F>(c: Config, s: State<F>, pre: seq<Step<F>>, f: F, res: ModelResult, a: LogAttempt)
    requires c.noPlot
    requires !RunSpec(c, s, pre + [Publish(f)]).stopped
    ensures var r := RunSpec(c, s, pre + [Publish(f), Iterate(IterationEnv(Inferred(res, None), a))]);
            r.annotated == Some(f) && r.pending.None?
  {
    var env := IterationEnv(Inferred(res, None), a);
    assert pre + [Publish(f), Iterate(env)] == (pre + [Publish(f)]) + [Iterate(env)];
    RunSpecAppend(c, s, pre + [Publish(f)], [Iterate(env)]);
    LatestPublishWaits(c, s, pre, f, []);
    assert pre + [Publish(f)] + [] == pre + [Publish(f)];
  }

  /** Once a stop has been requested, no step logs or publishes for display again. */
  lemma {:induction false} StoppedWorkerIsInert<F>(c: Config, s: State<F>, steps: seq<Step<F>>)
    requires s.stopped
    ensures RunSpec(c, s, steps).logState == s.logState
    ensures RunSpec(c, s, steps).annotated == s.annotated
    ensures RunSpec(c, s, steps).stopped
    decreases |steps|
  {
    if steps != [] {
      StoppedWorkerIsInert(c, ApplyStep(c, s, steps[0]), steps[1..]);
    }
  }

  /** The step is not a worker iteration whose log file raised after the line was written. */
  predicate SyncedAppend<F>(step: Step<F>) {
    step.Iterate? ==> !step.env.attempt.append.WrittenThenRaised?
  }

  /**
    When `os.fsync` or closing the log file raises after the line was
    written, `last_logged` keeps its old value, so the next detection
    appends again, inside the cooldown: two lines for one cooldown window.
   */
  lemma RaisedAfterWriteRepeats(c: Config, s: LogState, a1: LogAttempt, a2: LogAttempt)
    requires ShouldLog(c.forceLog, Seconds(a1.now), s.lastLogged, c.cooldownSecs)
    requires ShouldLog(c.forceLog, Seconds(a2.now), s.lastLogged, c.cooldownSecs)
    requires a1.append.WrittenThenRaised? && !a2.append.NotWritten?
    ensures WriteLog(c, WriteLog(c, s, a1), a2).log
            == s.log + [LogLine(a1.timeText, c.lat, c.lon), LogLine(a2.timeText, c.lat, c.lon)]
  {
    var s1 := WriteLog(c, s, a1);
    assert s1.lastLogged == s.lastLogged;
  }

  /**
    Without the force override and with a non-negative cooldown, every line
    the worker appends moves `last_logged` forward by at least the cooldown:
    over any run, n new lines mean `last_logged` advanced by at least n
    cooldowns, so no two lines fall inside one cooldown window.
   */
  lemma {:induction false} LinesAreCooldownApart<F>(c: Config, s: State<F>, steps: seq<Step<F>>)
    requires !c.forceLog && c.cooldownSecs >= 0.0
    requires forall i :: 0 <= i < |steps| ==> SyncedAppend(steps[i])
    ensures var r := RunSpec(c, s, steps).logState;
            |r.log| >= |s.logState.log|
            && r.lastLogged - s.logState.lastLogged >= c.cooldownSecs * (|r.log| - |s.logState.log|) as real
    decreases |steps|
  {
    if steps != [] {
      var s1 := ApplyStep(c, s, steps[0]);
      assert SyncedAppend(steps[0]);
      assert forall i :: 0 <= i < |steps[1..]| ==> steps[1..][i] == steps[i + 1];
      assert s1.logState == s.logState
          || (|s1.logState.log| == |s.logState.log| + 1
              && s1.logState.lastLogged - s.logState.lastLogged >= c.cooldownSecs);
      LinesAreCooldownApart(c, s1, steps[1..]);
      var r := RunSpec(c, s1, steps[1..]).logState;
      var k := (|r.log| - |s1.logState.log|) as real;
      assert c.cooldownSecs * ((|r.log| - |s.logState.log|) as real)
          == c.cooldownSecs * k + c.cooldownSecs * ((|s1.logState.log| - |s.logState.log|) as real);
    }
  }

  /**
    Cooldown of 600 s, no force, a fresh state file (0.0), detections at
    T, T + 300 and T + 650 with T >= 600: lines for T and T + 650 only,
    `last_logged` ends at T + 650, and when the last save succeeds the
    state file loads back as T + 650.
   */
  lemma CooldownScenario(c: Config, f: LastFile, a0: LogAttempt, a1: LogAttempt, a2: LogAttempt, t: real)
    requires !c.forceLog && c.cooldownSecs == 600.0 && t >= 600.0
    requires Seconds(a0.now) == t && Seconds(a1.now) == t + 300.0 && Seconds(a2.now) == t + 650.0
    requires a0.append.Written? && a1.append.Written? && a2.append.Written?
    ensures var r := WriteLog(c, WriteLog(c, WriteLog(c, LogState(LoadLastTs(Missing), [], f), a0), a1), a2);
            r.log == [LogLine(a0.timeText, c.lat, c.lon), LogLine(a2.timeText, c.lat, c.lon)]
            && r.lastLogged == t + 650.0
            && (a2.saveFault.None? ==> r.lastFile == Saved(a2.now) && LoadLastTs(r.lastFile) == t + 650.0)
  {
    LoadSaved(a2.now);
  }

  /**
    The same detections with T = 0 against a fresh state file: 0.0 counts
    as a time logged at the epoch, so neither 0 nor 300 is logged, and
    650 is the only line.
   */
  lemma CooldownScenarioFromEpoch(c: Config, f: LastFile, a0: LogAttempt, a1: LogAttempt, a2: LogAttempt)
    requires !c.forceLog && c.cooldownSecs == 600.0
    requires Seconds(a0.now) == 0.0 && Seconds(a1.now) == 300.0 && Seconds(a2.now) == 650.0
    requires a0.append.Written? && a1.append.Written? && a2.append.Written?
    ensures var r := WriteLog(c, WriteLog(c, WriteLog(c, LogState(LoadLastTs(Missing), [], f), a0), a1), a2);
            r.log == [LogLine(a2.timeText, c.lat, c.lon)] && r.lastLogged == 650.0
            && (a2.saveFault.None? ==> r.lastFile == Saved(a2.now) && LoadLastTs(r.lastFile) == 650.0)
  {
    LoadSaved(a2.now);
  }

  /** With the force override every line that reaches the file is appended, whatever the cooldown. */
  lemma ForceLogsEveryDetection(c: Config, s: LogState, a: LogAttempt)
    requires c.forceLog && !a.append.NotWritten?
    ensures WriteLog(c, s, a).log == s.log + [LogLine(a.timeText, c.lat, c.lon)]
  {
  }

  /**
    After a restart, the cooldown counts from the saved time: with
    `last_logged` saved at 1000 s and a 600 s cooldown, a detection at
    1300 s is not logged and one at 1650 s is.
   */
  lemma RestartKeepsCooldown(c: Config, saved: Timestamp, a1: LogAttempt, a2: LogAttempt)
    requires !c.forceLog && c.cooldownSecs == 600.0 && Seconds(saved) == 1000.0
    requires Seconds(a1.now) == 1300.0 && Seconds(a2.now) == 1650.0 && a1.append.Written? && a2.append.Written?
    ensures var s0 := LogState(LoadLastTs(Saved(saved)), [], Saved(saved));
            WriteLog(c, s0, a1) == s0
            && WriteLog(c, s0, a2).log == [LogLine(a2.timeText, c.lat, c.lon)]
  {
    LoadSaved(saved);
    var s0 := LogState(LoadLastTs(Saved(saved)), [], Saved(saved));
    assert s0.lastLogged == 1000.0;
    assert !Appends(c, s0.lastLogged, a1) && Appends(c, s0.lastLogged, a2);
  }

  class Worker<F> {
    const config: Config
    var pending: Option<F>
    var annotated: Option<F>
    var stopRequested: bool
    var lastLogged: real
    var log: seq<LogLine>
    var lastFile: LastFile

    function LogView(): LogState
      reads this
    {
      LogState(lastLogged, log, lastFile)
    }

    function View(): State<F>
      reads this
    {
      State(pending, annotated, stopRequested, LogView())
    }

    /** `__init__`: empty mailboxes, no stop request, `last_logged` loaded from the state file. */
    constructor (config: Config, lastFile: LastFile)
      ensures this.config == config
      ensures View() == State(None, None, false, LogState(LoadLastTs(lastFile), [], lastFile))
    {
      this.config := config;
      pending := None;
      annotated := None;
      stopRequested := false;
      lastLogged := LoadLastTs(lastFile);
      log := [];
      this.lastFile := lastFile;
    }

    /** `update_frame`: overwrite the pending frame, read or not. */
    method UpdateFrame(frame: F)
      modifies this`pending
      ensures View() == old(View()).(pending := Some(frame))
    {
      pending := Some(frame);
    }

    /** `get_annotated`: the latest frame published for display, if any. */
    method GetAnnotated() returns (a: Option<F>)
      ensures a == annotated
    {
      a := annotated;
    }

    /** `stop`: set the stop flag the loop polls. */
    method Stop()
      modifies this`stopRequested
      ensures View() == old(View()).(stopped := true)
    {
      stopRequested := true;
    }

    /** The locked block at the top of `run`: take the pending frame and clear the slot. */
    method TakeFrame() returns (frame: Option<F>)
      modifies this`pending
      ensures frame == old(pending)
      ensures View() == old(View()).(pending := None)
    {
      frame := pending;
      pending := None;
    }

    /** `_maybe_write_log`. */
    method MaybeWriteLog(a: LogAttempt) returns (logged: bool)
      modifies this`lastLogged, this`log, this`lastFile
      ensures logged == Logs(config, old(lastLogged), a)
      ensures LogView() == WriteLog(config, old(LogView()), a)
    {
      var now := Seconds(a.now);
      logged := false;
      if config.forceLog || now - lastLogged >= config.cooldownSecs {
        if !a.append.NotWritten? {
          log := log + [LogLine(a.timeText, config.lat, config.lon)];
        }
        if a.append.Written? {
          lastLogged := now;
          lastFile := a.saveFault.GetOr(Saved(a.now));
          logged := true;
        }
      }
    }

    /** One iteration of the `run` loop. */
    method RunIteration(env: IterationEnv<F>) returns (it: Iteration)
      modifies this
      ensures (View(), it) == IterateSpec(config, old(View()), env)
    {
      if stopRequested {
        return Exited;
      }
      var frame := TakeFrame();
      if frame.None? {
        return Idle;
      }
      match env.inference {
        case InferenceFailed =>
          it := Backoff;
        case Inferred(res, plot) =>
          var n := Count(res);
          if n > 0 {
            var _ := MaybeWriteLog(env.attempt);
          }
          var shown := if config.noPlot then frame.value else plot.GetOr(frame.value);
          annotated := Some(shown);
          it := Processed(n);
      }
    }

    /** Performs the steps of an interleaving of the capture loop, the worker and shutdown, in order. */
    method Run(steps: seq<Step<F>>)
      modifies this
      ensures View() == RunSpec(config, old(View()), steps)
    {
      var i := 0;
      while i < |steps|
        invariant 0 <= i <= |steps|
        invariant RunSpec(config, View(), steps[i..]) == RunSpec(config, old(View()), steps)
      {
        assert steps[i..][1..] == steps[i + 1..];
        match steps[i] {
          case Publish(f) => UpdateFrame(f);
          case Iterate(env) => var _ := RunIteration(env);
          case RequestStop => Stop();
        }
        i := i + 1;
      }
    }
  }
}
