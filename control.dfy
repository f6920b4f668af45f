/**
 * One pass of the fan loop: compare the reading with the threshold, drive the pin
 * high or low, and choose how long to sleep before the next sample.
 */
module Control {
  import opened Common

  /** The pin values written by `set_value`. */
  const HIGH: uint8 := 1
  const LOW: uint8 := 0

  /** Seconds slept before the next sample after a failed write. */
  const ERR_NEXT_SECS: nat := 2
  /** Seconds slept before the next sample after a successful write. */
  const OK_NEXT_SECS: nat := 5
  /** Seconds the fan is kept running after it was switched on. */
  const FAN_RUNNING_SECS: nat := 15

  /** The pin value one pass writes and the sleeps it then performs, in order. */
  datatype StepResult = StepResult(value: uint8, sleeps: seq<nat>)

  /** Total of a list of durations. */
  function Total(secs: seq<nat>): nat {
    if secs == [] then 0 else secs[0] + Total(secs[1..])
  }

  /**
   * One pass: a missing reading is replaced by the threshold itself, the pin goes
   * high exactly when the temperature is strictly above the threshold, and a
   * successful high write is followed by the 15 s run before the 5 s interval.
   */
  function Step(reading: Option<real>, overTemp: real, writeOk: bool): (r: StepResult)
    ensures r.value == HIGH <==> reading.Some? && reading.value > overTemp
    ensures r.value == LOW <==> !(reading.Some? && reading.value > overTemp)
    ensures reading.None? ==> r.value == LOW
    ensures !writeOk ==> r.sleeps == [ERR_NEXT_SECS] && Total(r.sleeps) == 2
    ensures writeOk && r.value == HIGH ==> r.sleeps == [FAN_RUNNING_SECS, OK_NEXT_SECS] && Total(r.sleeps) == 20
    ensures writeOk && r.value == LOW ==> r.sleeps == [OK_NEXT_SECS] && Total(r.sleeps) == 5
  {
    var temp := reading.UnwrapOr(overTemp);
    assert [FAN_RUNNING_SECS, OK_NEXT_SECS][1..] == [OK_NEXT_SECS] && Total([OK_NEXT_SECS]) == OK_NEXT_SECS;
    if temp > overTemp then
      StepResult(HIGH, if writeOk then [FAN_RUNNING_SECS, OK_NEXT_SECS] else [ERR_NEXT_SECS])
    else
      StepResult(LOW, if writeOk then [OK_NEXT_SECS] else [ERR_NEXT_SECS])
  }
}
