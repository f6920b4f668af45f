/**
 * The body of `main` after argument parsing: export the pin, set it to output,
 * then sample, decide, write and sleep forever. The loop never ends, so a run is
 * observed over a finite sequence of ticks (what the sensor command returned and
 * whether the pin write succeeded on each pass) and recorded as a log of the
 * effects on the pin, the sensor and the clock.
 */
module FanLoop {
  import opened Common
  import opened Sensor
  import opened Control

  /** The environment's answers for one pass of the inner loop. */
  datatype Tick = Tick(command: CommandResult, writeOk: bool)

  /** One observable effect of the controller, with its outcome where it can fail. */
  datatype Event =
    | Export(ok: bool)                    // sysfs export of the pin
    | SetDirection(ok: bool)              // set_direction(Out)
    | Measure(reading: Option<real>)      // one probe that returned (None: no reading)
    | SetValue(value: uint8, ok: bool)    // set_value(high) or set_value(low)
    | Sleep(secs: nat)                    // one call of `sleep`
    | Unexport                            // sysfs unexport when the closure returns an error

  /** Why a run stopped: every one of these ends the process through a panic. */
  datatype Fault = ExportFailed | DirectionFailed | SlicePanicked

  /** `Running`: the loop is still going after the observed ticks. */
  datatype Outcome = Running | Aborted(fault: Fault)

  datatype Trace = Trace(outcome: Outcome, log: seq<Event>)

  /** The log prefix of a run whose pin was exported and set to output. */
  const STARTED: seq<Event> := [Export(true), SetDirection(true)]

  function SleepEvents(secs: seq<nat>): (r: seq<Event>)
    ensures |r| == |secs| && forall k :: 0 <= k < |r| ==> r[k] == Sleep(secs[k])
  {
    seq(|secs|, k requires 0 <= k < |secs| => Sleep(secs[k]))
  }

  /** One pass of the inner loop: probe, then one write, then the sleeps of `Step`. */
  function Iteration(overTemp: real, parse: seq<uint8> -> Option<real>, tick: Tick): (r: Trace)
    ensures r.outcome.Running? ==>
      3 <= |r.log| <= 4 && r.log[0].Measure? && r.log[1].SetValue? &&
      forall k :: 2 <= k < |r.log| ==> r.log[k].Sleep?
    ensures r.outcome.Aborted? <==> ReadCurrentTemp(tick.command, parse).Panicked?
    ensures r.outcome.Running? ==>
      r.log[0] == Measure(ReadCurrentTemp(tick.command, parse).reading) && r.log[1].ok == tick.writeOk
    ensures r.outcome.Aborted? ==> r.outcome.fault == SlicePanicked && r.log == []
  {
    match ReadCurrentTemp(tick.command, parse)
    case Panicked => Trace(Aborted(SlicePanicked), [])
    case Sensed(reading) =>
      var step := Step(reading, overTemp, tick.writeOk);
      Trace(Running, [Measure(reading), SetValue(step.value, tick.writeOk)] + SleepEvents(step.sleeps))
  }

  /** The run after a successful setup, over the ticks observed so far. */
  function ControlTrace(overTemp: real, parse: seq<uint8> -> Option<real>, ticks: seq<Tick>): (r: Trace)
    ensures |r.log| >= 2 && r.log[..2] == STARTED
    ensures r.outcome.Aborted? ==> r.outcome.fault == SlicePanicked
    decreases |ticks|
  {
    if |ticks| == 0 then Trace(Running, STARTED)
    else
      var before := ControlTrace(overTemp, parse, ticks[..|ticks| - 1]);
      if before.outcome.Aborted? then before
      else
        var pass := Iteration(overTemp, parse, ticks[|ticks| - 1]);
        assert (before.log + pass.log)[..2] == before.log[..2];
        Trace(pass.outcome, before.log + pass.log)
  }

  /**
   * The whole run: a failed export aborts before the closure runs, a failed
   * `set_direction` leaves the closure through `?`, which unexports the pin, and
   * `unwrap` then aborts; otherwise the inner loop runs.
   */
  function Run(overTemp: real, exportOk: bool, directionOk: bool,
               parse: seq<uint8> -> Option<real>, ticks: seq<Tick>): (r: Trace)
    ensures |r.log| >= 1 && r.log[0] == Export(exportOk)
    ensures r.outcome == Aborted(ExportFailed) <==> !exportOk
    ensures r.outcome == Aborted(DirectionFailed) <==> exportOk && !directionOk
    ensures r.outcome.Aborted? && r.outcome.fault != SlicePanicked ==> |r.log| <= 3
    ensures exportOk && directionOk ==> r == ControlTrace(overTemp, parse, ticks)
  {
    if !exportOk then Trace(Aborted(ExportFailed), [Export(false)])
    else if !directionOk then Trace(Aborted(DirectionFailed), [Export(true), SetDirection(false), Unexport])
    else ControlTrace(overTemp, parse, ticks)
  }

  // ---------------------------------------------------------------------------
  // Properties of a log

  /** Every write follows the probe it acts on, and is high exactly when that reading exceeds the threshold. */
  ghost predicate WritesFollowReadings(log: seq<Event>, overTemp: real) {
    forall i :: 0 <= i < |log| && log[i].SetValue? ==>
      1 <= i && log[i - 1].Measure? &&
      (log[i].value == HIGH || log[i].value == LOW) &&
      (log[i].value == HIGH <==> log[i - 1].reading.Some? && log[i - 1].reading.value > overTemp)
  }

  /** Position `j` is the next probe, or the end of what has been observed. */
  ghost predicate SampleOrEnd(log: seq<Event>, j: int) {
    j == |log| || (0 <= j < |log| && log[j].Measure?)
  }

  /** The sleeps that follow the write at position `i`, before the next probe. */
  ghost predicate PauseAfter(log: seq<Event>, i: int)
    requires 0 <= i < |log| && log[i].SetValue?
  {
    if !log[i].ok then
      i + 1 < |log| && log[i + 1] == Sleep(ERR_NEXT_SECS) && SampleOrEnd(log, i + 2)
    else if log[i].value == HIGH then
      i + 2 < |log| && log[i + 1] == Sleep(FAN_RUNNING_SECS) && log[i + 2] == Sleep(OK_NEXT_SECS) &&
      SampleOrEnd(log, i + 3)
    else
      i + 1 < |log| && log[i + 1] == Sleep(OK_NEXT_SECS) && SampleOrEnd(log, i + 2)
  }

  /**
   * A successful high write is followed by 15 s and then 5 s of sleep, a successful
   * low write by 5 s, a failed write by 2 s, and then comes the next probe.
   */
  ghost predicate PausesFollowWrites(log: seq<Event>) {
    forall i :: 0 <= i < |log| && log[i].SetValue? ==> PauseAfter(log, i)
  }

  /**
   * Export happens first and only once, `set_direction` at most once and right
   * after it, and every write comes after a successful `set_direction`.
   */
  ghost predicate DirectionBeforeValues(log: seq<Event>) {
    && (forall i :: 0 <= i < |log| && log[i].Export? ==> i == 0)
    && (forall i :: 0 <= i < |log| && log[i].SetDirection? ==> i == 1)
    && (forall i :: 0 <= i < |log| && log[i].SetValue? ==> 2 <= i && log[1] == SetDirection(true))
  }

  /** Number of events of `log` that satisfy `kind`. */
  function Count(log: seq<Event>, kind: Event -> bool): nat {
    if log == [] then 0
    else Count(log[..|log| - 1], kind) + (if kind(log[|log| - 1]) then 1 else 0)
  }

  predicate IsMeasure(e: Event) { e.Measure? }
  predicate IsSetValue(e: Event) { e.SetValue? }
  predicate IsUnexport(e: Event) { e.Unexport? }

  // ---------------------------------------------------------------------------
  // Lemmas

  lemma {:induction false} CountAppend(a: seq<Event>, b: seq<Event>, kind: Event -> bool)
    ensures Count(a + b, kind) == Count(a, kind) + Count(b, kind)
    decreases |b|
  {
    if b == [] {
      assert a + b == a;
    } else {
      var n := |b| - 1;
      assert (a + b)[..|a + b| - 1] == a + b[..n];
      CountAppend(a, b[..n], kind);
    }
  }

  /** Appending one completed pass keeps all three log properties. */
  lemma AppendPass(log: seq<Event>, overTemp: real, parse: seq<uint8> -> Option<real>, tick: Tick)
    requires |log| >= 2 && log[..2] == STARTED
    requires WritesFollowReadings(log, overTemp) && PausesFollowWrites(log) && DirectionBeforeValues(log)
    ensures var pass := Iteration(overTemp, parse, tick);
      var log' := log + pass.log;
      WritesFollowReadings(log', overTemp) && PausesFollowWrites(log') && DirectionBeforeValues(log')
  {
    var pass := Iteration(overTemp, parse, tick);
    var log' := log + pass.log;
    if pass.outcome.Aborted? {
      assert log' == log;
    } else {
      var n := |log|;
      var reading := ReadCurrentTemp(tick.command, parse).reading;
      var step := Step(reading, overTemp, tick.writeOk);
      assert pass.log == [Measure(reading), SetValue(step.value, tick.writeOk)] + SleepEvents(step.sleeps);
      assert log'[n] == Measure(reading) && log'[n + 1] == SetValue(step.value, tick.writeOk);
      assert |log'| == n + 2 + |step.sleeps|;
      forall i | 0 <= i < |log'| && log'[i].SetValue?
        ensures PauseAfter(log', i)
      {
        if i < n {
          assert PauseAfter(log, i);
        } else {
          assert i == n + 1;
        }
      }
      assert log'[0] == log[0] && log'[1] == log[1];
    }
  }

  /** The three log properties hold for every run after a successful setup. */
  lemma {:induction false} ControlTraceWellFormed(overTemp: real, parse: seq<uint8> -> Option<real>, ticks: seq<Tick>)
    ensures var log := ControlTrace(overTemp, parse, ticks).log;
      WritesFollowReadings(log, overTemp) && PausesFollowWrites(log) && DirectionBeforeValues(log)
    decreases |ticks|
  {
    if |ticks| > 0 {
      var before := ControlTrace(overTemp, parse, ticks[..|ticks| - 1]);
      ControlTraceWellFormed(overTemp, parse, ticks[..|ticks| - 1]);
      if !before.outcome.Aborted? {
        AppendPass(before.log, overTemp, parse, ticks[|ticks| - 1]);
      }
    }
  }

  /** Every pass probes once and writes once; a probe that panics ends the run. */
  lemma {:induction false} ControlTraceCounts(overTemp: real, parse: seq<uint8> -> Option<real>, ticks: seq<Tick>)
    ensures var r := ControlTrace(overTemp, parse, ticks);
      && Count(r.log, IsMeasure) == Count(r.log, IsSetValue)
      && (r.outcome.Running? ==> Count(r.log, IsMeasure) == |ticks|)
      && (r.outcome.Aborted? ==> Count(r.log, IsMeasure) < |ticks|)
      && Count(r.log, IsUnexport) == 0
    decreases |ticks|
  {
    if |ticks| == 0 {
      StartedCounts();
    } else {
      var before := ControlTrace(overTemp, parse, ticks[..|ticks| - 1]);
      ControlTraceCounts(overTemp, parse, ticks[..|ticks| - 1]);
      if !before.outcome.Aborted? {
        var pass := Iteration(overTemp, parse, ticks[|ticks| - 1]);
        assert ControlTrace(overTemp, parse, ticks) == Trace(pass.outcome, before.log + pass.log);
        CountAppend(before.log, pass.log, IsMeasure);
        CountAppend(before.log, pass.log, IsSetValue);
        CountAppend(before.log, pass.log, IsUnexport);
        if pass.outcome.Running? {
          PassCounts(pass.log);
        } else {
          assert pass.log == [];
        }
      }
    }
  }

  lemma StartedCounts()
    ensures Count(STARTED, IsMeasure) == 0 && Count(STARTED, IsSetValue) == 0 && Count(STARTED, IsUnexport) == 0
  {
    var one := [Export(true)];
    assert one[..0] == [];
    assert Count(one, IsMeasure) == 0 && Count(one, IsSetValue) == 0 && Count(one, IsUnexport) == 0;
    assert STARTED[..1] == one;
  }

  /** A completed pass: one probe, one write, sleeps only. */
  lemma {:induction false} PassCounts(block: seq<Event>)
    requires |block| >= 2 && block[0].Measure? && block[1].SetValue?
    requires forall k :: 2 <= k < |block| ==> block[k].Sleep?
    ensures Count(block, IsMeasure) == 1 && Count(block, IsSetValue) == 1 && Count(block, IsUnexport) == 0
    decreases |block|
  {
    if |block| == 2 {
      var one := [block[0]];
      assert one[..0] == [];
      assert Count(one, IsMeasure) == 1 && Count(one, IsSetValue) == 0 && Count(one, IsUnexport) == 0;
      assert block[..1] == one;
    } else {
      PassCounts(block[..|block| - 1]);
    }
  }

  /** Once a run has aborted, further ticks add nothing: the process is gone. */
  lemma {:induction false} AbortIsFinal(overTemp: real, parse: seq<uint8> -> Option<real>, ticks: seq<Tick>, k: nat)
    requires k <= |ticks|
    requires ControlTrace(overTemp, parse, ticks[..k]).outcome.Aborted?
    ensures ControlTrace(overTemp, parse, ticks) == ControlTrace(overTemp, parse, ticks[..k])
    decreases |ticks| - k
  {
    if k < |ticks| {
      assert ticks[..|ticks| - 1][..k] == ticks[..k];
      AbortIsFinal(overTemp, parse, ticks[..|ticks| - 1], k);
    } else {
      assert ticks[..k] == ticks;
    }
  }

  /** A run after setup aborts exactly when some observed probe's output cannot be sliced. */
  lemma {:induction false} ControlTraceAborts(overTemp: real, parse: seq<uint8> -> Option<real>, ticks: seq<Tick>)
    ensures ControlTrace(overTemp, parse, ticks).outcome.Aborted? <==>
      exists k :: 0 <= k < |ticks| && ReadCurrentTemp(ticks[k].command, parse).Panicked?
    decreases |ticks|
  {
    if |ticks| > 0 {
      var n := |ticks| - 1;
      var prefix := ticks[..n];
      ControlTraceAborts(overTemp, parse, prefix);
      if exists k :: 0 <= k < n && ReadCurrentTemp(prefix[k].command, parse).Panicked? {
        var k :| 0 <= k < n && ReadCurrentTemp(prefix[k].command, parse).Panicked?;
        assert ticks[k] == prefix[k];
      }
      if exists k :: 0 <= k < |ticks| && ReadCurrentTemp(ticks[k].command, parse).Panicked? {
        var k :| 0 <= k < |ticks| && ReadCurrentTemp(ticks[k].command, parse).Panicked?;
        if k < n {
          assert prefix[k] == ticks[k];
        }
      }
    }
  }

  /**
   * The pass for tick `i` logs that tick's own reading and the outcome of that
   * tick's own write, right after the events of the earlier ticks.
   */
  lemma PassRecordsTick(overTemp: real, parse: seq<uint8> -> Option<real>, ticks: seq<Tick>, i: nat)
    requires i < |ticks| && ControlTrace(overTemp, parse, ticks[..i + 1]).outcome.Running?
    ensures var log := ControlTrace(overTemp, parse, ticks[..i + 1]).log;
      var n := |ControlTrace(overTemp, parse, ticks[..i]).log|;
      n + 1 < |log| &&
      log[n] == Measure(ReadCurrentTemp(ticks[i].command, parse).reading) &&
      log[n + 1].SetValue? && log[n + 1].ok == ticks[i].writeOk
  {
    assert ticks[..i + 1][..i] == ticks[..i];
    assert ticks[..i + 1][i] == ticks[i];
  }

  /** The pin goes high exactly when the probe just before it read more than the threshold. */
  lemma RunWritesFollowReadings(overTemp: real, exportOk: bool, directionOk: bool,
                                parse: seq<uint8> -> Option<real>, ticks: seq<Tick>)
    ensures WritesFollowReadings(Run(overTemp, exportOk, directionOk, parse, ticks).log, overTemp)
  {
    if exportOk && directionOk {
      ControlTraceWellFormed(overTemp, parse, ticks);
    }
  }

  /** The sleeps after every write depend only on the value written and whether the write succeeded. */
  lemma RunPausesFollowWrites(overTemp: real, exportOk: bool, directionOk: bool,
                              parse: seq<uint8> -> Option<real>, ticks: seq<Tick>)
    ensures PausesFollowWrites(Run(overTemp, exportOk, directionOk, parse, ticks).log)
  {
    if exportOk && directionOk {
      ControlTraceWellFormed(overTemp, parse, ticks);
    }
  }

  /**
   * Setup: the export comes first, `set_direction` exactly once right after a
   * successful export and before any write; a failed export or `set_direction`
   * aborts with no probe and no write, and only the latter unexports the pin.
   */
  lemma RunSetup(overTemp: real, exportOk: bool, directionOk: bool,
                 parse: seq<uint8> -> Option<real>, ticks: seq<Tick>)
    ensures var r := Run(overTemp, exportOk, directionOk, parse, ticks);
      && DirectionBeforeValues(r.log)
      && |r.log| >= 1 && r.log[0] == Export(exportOk)
      && (exportOk ==> |r.log| >= 2 && r.log[1] == SetDirection(directionOk))
      && (!exportOk ==> r.outcome == Aborted(ExportFailed) && |r.log| == 1)
      && (exportOk && !directionOk ==>
            r.outcome == Aborted(DirectionFailed) && r.log[|r.log| - 1] == Unexport &&
            Count(r.log, IsMeasure) == 0 && Count(r.log, IsSetValue) == 0)
      && (Count(r.log, IsUnexport) > 0 <==> r.outcome == Aborted(DirectionFailed))
  {
    var r := Run(overTemp, exportOk, directionOk, parse, ticks);
    if !exportOk {
      assert r.log[..0] == [];
    } else if !directionOk {
      assert r.log[..2][..1] == [Export(true)] && [Export(true)][..0] == [];
    } else {
      ControlTraceWellFormed(overTemp, parse, ticks);
      ControlTraceCounts(overTemp, parse, ticks);
      assert r.log[0] == r.log[..2][0] && r.log[1] == r.log[..2][1];
    }
  }

  /**
   * With setup done, each observed tick yields exactly one probe and one write,
   * unless a probe panicked, which ends the run.
   */
  lemma RunCounts(overTemp: real, exportOk: bool, directionOk: bool,
                  parse: seq<uint8> -> Option<real>, ticks: seq<Tick>)
    requires exportOk && directionOk
    ensures var r := Run(overTemp, exportOk, directionOk, parse, ticks);
      && Count(r.log, IsMeasure) == Count(r.log, IsSetValue)
      && (r.outcome == Running <==> Count(r.log, IsMeasure) == |ticks|)
      && (r.outcome.Aborted? ==> r.outcome.fault == SlicePanicked)
  {
    ControlTraceCounts(overTemp, parse, ticks);
  }

  /** One more tick extends a running trace by the pass it performs. */
  lemma ControlTraceSnoc(overTemp: real, parse: seq<uint8> -> Option<real>, ticks: seq<Tick>, i: nat)
    requires i < |ticks| && ControlTrace(overTemp, parse, ticks[..i]).outcome.Running?
    ensures ControlTrace(overTemp, parse, ticks[..i + 1]) ==
      var pass := Iteration(overTemp, parse, ticks[i]);
      Trace(pass.outcome, ControlTrace(overTemp, parse, ticks[..i]).log + pass.log)
  {
    assert ticks[..i + 1][..i] == ticks[..i];
  }

  // ---------------------------------------------------------------------------
  // The controller itself

  /**
   * The body of the inner loop: probe, write the pin according to the threshold,
   * then sleep; `panicked` when the probe's slice panics.
   */
  method Pass(overTemp: real, parse: seq<uint8> -> Option<real>, tick: Tick)
    returns (panicked: bool, pass: seq<Event>)
    ensures Iteration(overTemp, parse, tick) ==
      if panicked then Trace(Aborted(SlicePanicked), []) else Trace(Running, pass)
  {
    var sensed := ReadCurrentTemp(tick.command, parse);
    if sensed.Panicked? {
      return true, [];
    }
    ghost var step := Step(sensed.reading, overTemp, tick.writeOk);
    var temp := sensed.reading.UnwrapOr(overTemp);
    pass := [Measure(sensed.reading)];
    var nextDuration: nat;
    if temp > overTemp {
      pass := pass + [SetValue(HIGH, tick.writeOk)];
      if tick.writeOk {
        pass := pass + [Sleep(FAN_RUNNING_SECS)];
        nextDuration := OK_NEXT_SECS;
      } else {
        nextDuration := ERR_NEXT_SECS;
      }
    } else {
      pass := pass + [SetValue(LOW, tick.writeOk)];
      nextDuration := if tick.writeOk then OK_NEXT_SECS else ERR_NEXT_SECS;
    }
    pass := pass + [Sleep(nextDuration)];
    assert pass[2..] == SleepEvents(step.sleeps);
    panicked := false;
  }

  /**
   * `main` from the export onward, over the observed ticks: the same branches,
   * writes and sleeps as the source, returning how the run stands and its log.
   */
  method RunController(overTemp: real, exportOk: bool, directionOk: bool,
                       parse: seq<uint8> -> Option<real>, ticks: seq<Tick>)
    returns (outcome: Outcome, log: seq<Event>)
    ensures Trace(outcome, log) == Run(overTemp, exportOk, directionOk, parse, ticks)
  {
    if !exportOk {
      return Aborted(ExportFailed), [Export(false)];
    }
    log := [Export(true)];
    if !directionOk {
      log := log + [SetDirection(false), Unexport];
      return Aborted(DirectionFailed), log;
    }
    log := log + [SetDirection(true)];

    var i := 0;
    while i < |ticks|
      invariant 0 <= i <= |ticks|
      invariant ControlTrace(overTemp, parse, ticks[..i]) == Trace(Running, log)
    {
      var panicked, pass := Pass(overTemp, parse, ticks[i]);
      ControlTraceSnoc(overTemp, parse, ticks, i);
      if panicked {
        assert log + [] == log;
        AbortIsFinal(overTemp, parse, ticks, i + 1);
        return Aborted(SlicePanicked), log;
      }
      log := log + pass;
      i := i + 1;
    }
    assert ticks[..|ticks|] == ticks;
    outcome := Running;
  }
}
