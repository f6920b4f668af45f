/**
 * The temperature probe `read_current_temp`: run `vcgencmd measure_temp`,
 * cut the number out of its report (`temp=48.3'C` gives `48.3`) and parse it.
 * The command and the `f32` parser are outside the model: the command's result
 * is an input and the parser is an arbitrary partial function on bytes.
 */
module Sensor {
  import opened Common

  /** What running `vcgencmd measure_temp` yields: an error, or its output text as UTF-8 bytes. */
  datatype CommandResult = CommandFailed | Output(bytes: seq<uint8>)

  /**
   * What one call of `read_current_temp` does: it returns a reading (absent when the
   * command or the parser fails), or it panics because the slice is out of range.
   */
  datatype TempRead = Sensed(reading: Option<real>) | Panicked

  /** The bytes of `temp=`, which the probe drops without looking at them. */
  const PREFIX: seq<uint8> := [0x74, 0x65, 0x6D, 0x70, 0x3D]
  /** The bytes of `'C`, likewise dropped. */
  const SUFFIX: seq<uint8> := [0x27, 0x43]

  /** A UTF-8 continuation byte (0b10xxxxxx). */
  predicate IsContinuation(b: uint8) {
    0x80 <= b < 0xC0
  }

  /** Rust's `str::is_char_boundary`: byte index `i` starts a character or is the end. */
  predicate IsCharBoundary(s: seq<uint8>, i: int) {
    i == 0 || i == |s| || (0 < i < |s| && !IsContinuation(s[i]))
  }

  /**
   * `&output[5..output.len() - 2]`. `None` stands for the panics: `len() - 2`
   * underflows below 2 bytes, and the slice panics unless 5 <= len - 2 and
   * both ends fall on character boundaries.
   */
  function TempText(output: seq<uint8>): (r: Option<seq<uint8>>)
    ensures r.Some? <==> 7 <= |output| && IsCharBoundary(output, 5) && IsCharBoundary(output, |output| - 2)
    ensures r.Some? ==> |r.value| == |output| - 7
    ensures r.Some? ==> forall k :: 0 <= k < |r.value| ==> r.value[k] == output[k + 5]
  {
    if |output| < 2 then None
    else
      var begin, end := 5, |output| - 2;
      if begin <= end && IsCharBoundary(output, begin) && IsCharBoundary(output, end)
      then Some(output[begin..end])
      else None
  }

  /** The report `vcgencmd measure_temp` prints for the temperature text `t`. */
  function Report(t: seq<uint8>): seq<uint8> {
    PREFIX + t + SUFFIX
  }

  /** Slicing a well-formed report gives back exactly the temperature text inside it. */
  lemma TempTextOfReport(t: seq<uint8>)
    requires |t| == 0 || !IsContinuation(t[0])
    ensures TempText(Report(t)) == Some(t)
  {
    var s := Report(t);
    assert s[5..|s| - 2] == t;
  }

  /**
   * Conversely, whatever the slice returns is the output with its first five and
   * last two bytes removed; if those are `temp=` and `'C`, the output is the report of it.
   */
  lemma ReportOfTempText(output: seq<uint8>)
    requires TempText(output).Some?
    ensures output == output[..5] + TempText(output).value + output[|output| - 2..]
    ensures output[..5] == PREFIX && output[|output| - 2..] == SUFFIX ==> Report(TempText(output).value) == output
  {
    var t := TempText(output).value;
    assert output == output[..5] + output[5..|output| - 2] + output[|output| - 2..];
    assert t == output[5..|output| - 2];
  }

  /** The report of 48.3 degrees slices to `48.3`. */
  lemma SliceExample()
    ensures TempText([0x74, 0x65, 0x6D, 0x70, 0x3D, 0x34, 0x38, 0x2E, 0x33, 0x27, 0x43]) == Some([0x34, 0x38, 0x2E, 0x33])
  {
    TempTextOfReport([0x34, 0x38, 0x2E, 0x33]);
    assert Report([0x34, 0x38, 0x2E, 0x33]) == [0x74, 0x65, 0x6D, 0x70, 0x3D, 0x34, 0x38, 0x2E, 0x33, 0x27, 0x43];
  }

  /**
   * `read_current_temp`: a failed command gives no reading, output too short or cut
   * inside a character panics, and otherwise the sliced text goes to the parser.
   */
  function ReadCurrentTemp(command: CommandResult, parse: seq<uint8> -> Option<real>): (r: TempRead)
    ensures command.CommandFailed? ==> r == Sensed(None)
    ensures r.Panicked? <==> command.Output? && TempText(command.bytes).None?
    ensures command.Output? && TempText(command.bytes).Some? ==> r == Sensed(parse(TempText(command.bytes).value))
  {
    match command
    case CommandFailed => Sensed(None)
    case Output(bytes) =>
      match TempText(bytes)
      case None => Panicked
      case Some(text) => Sensed(parse(text))
  }
}
