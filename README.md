# Raspberry Pi fan controller (rath) — Dafny model

`rath` is a single-binary fan controller for a Raspberry Pi. It exports a sysfs
GPIO pin, sets it to output, and then forever: runs `vcgencmd measure_temp`,
cuts the number out of its report (`temp=48.3'C` gives `48.3`), drives the pin
high when the temperature is strictly above a threshold and low otherwise, and
sleeps — 15 s of fan run plus the 5 s interval after a successful high write,
5 s after a successful low write, 2 s after any failed write. A missing reading
is replaced by the threshold itself, so it always takes the low branch.

The model has four modules:

- `Common` (`common.dfy`): Rust's `Option` with `unwrap_or`, and `u8`.
- `Sensor` (`sensor.dfy`): `read_current_temp`. The command's output is a byte
  sequence and the `f32` parser is a parameter (`parse: seq<uint8> -> Option<real>`).
  `TempText` is the slice `&output[5..output.len() - 2]` with Rust's exact
  panic conditions: `len() - 2` underflows, the start lies past the end, or an
  end is not on a UTF-8 character boundary.
- `Control` (`control.dfy`): one pass of the inner loop as the function `Step`.
  It gives the pin value written and the sleeps that follow, in seconds.
- `FanLoop` (`fan_loop.dfy`): the whole run after argument parsing.
  - The loop never ends, so a run is observed over a finite sequence of `Tick`s.
    Each tick holds what the sensor command returned and whether the pin write succeeded.
  - A run yields a log of `Export`, `SetDirection`, `Measure`, `SetValue`, `Sleep`
    and `Unexport` events, and an outcome. The outcome is either still `Running`
    or `Aborted` with a fault: export failed, `set_direction` failed, or the slice panicked.
  - `Run` and `ControlTrace` are the specification of a run.
  - `Pass` is the loop body, with the source's branches and its mutable
    `next_duration`. `RunController` is the setup followed by the loop over `Pass`.
    It is proved to produce exactly `Run`'s trace.
  - Lemmas prove the properties of every such trace: decision, pauses, setup and counts.

Points of behaviour that are easy to misread, as the code has them:

- A failed `set_direction` is fatal, not retried. It leaves the
  `with_exported` closure through `?` (src/main.rs:54), and the `unwrap`
  (src/main.rs:86) aborts the process. The model records `Unexport`
  and aborts with `DirectionFailed`.
- Not every unreadable sensor output is survived. Output shorter than 7 bytes,
  or cut inside a multi-byte character, panics in the slice at src/main.rs:92
  and ends the process. The model aborts with `SlicePanicked`. Only a failed
  command or a failed parse gives the "no reading" fallback.
- A pass may sleep twice. After a successful high write the code sleeps 15 s
  and then 5 s (src/main.rs:71, 83).
- `set_direction` sits inside an outer `loop` (src/main.rs:53-54). The inner
  loop never exits normally, so it runs exactly once.
- `Pin::with_exported` belongs to the `sysfs_gpio` crate, which is not part of
  this model. The model assumes it exports first and returns the export error
  without running the closure. It assumes an unexport when the closure returns
  an error. It assumes no unexport when the closure panics, because no guard
  runs on unwinding. So only a failed `set_direction` logs `Unexport`.

## Model

| member | source | states |
|---|---|---|
| `Sensor.TempText` | src/main.rs:92 | the slice exists exactly when the output has at least 7 bytes and bytes 5 and len−2 are character boundaries; the text then has length len−7 and is byte for byte the output from index 5 on |
| `Sensor.TempTextOfReport` | src/main.rs:90-92 | slicing a report `temp=<t>'C` gives back exactly `t` (when `t` starts on a character boundary) |
| `Sensor.ReportOfTempText` | src/main.rs:92 | whatever the slice returns is the output minus its first 5 and last 2 bytes; if those are `temp=` and `'C`, the output is the report of the slice |
| `Sensor.SliceExample` | src/main.rs:92 | the report `temp=48.3'C` slices to `48.3` |
| `Sensor.ReadCurrentTemp` | src/main.rs:89-94 | a failed command gives no reading and never panics; the probe panics exactly when the output cannot be sliced; otherwise the reading is the parser's result on the sliced text |
| `Control.Step` | src/main.rs:56-83 | the pin is driven high iff a reading is present and strictly above the threshold (equal or missing gives low); a failed write sleeps 2 s; a successful high write sleeps 15 s then 5 s (20 s in total); a successful low write sleeps 5 s |
| `FanLoop.Iteration` | src/main.rs:63-84 | a pass aborts iff its probe panics (the output cannot be sliced); one pass that does not panic logs one probe carrying the tick's own reading, then one write carrying the tick's own write outcome, then only sleeps (3 or 4 events); a panicking probe logs nothing and aborts with `SlicePanicked` |
| `FanLoop.ControlTrace` | src/main.rs:53-84 | every run after a successful setup starts with the export and a successful `set_direction`, and can only abort through a slice panic |
| `FanLoop.Run` | src/main.rs:52-86 | the export is always the first event; the run aborts with `ExportFailed` iff the export fails and with `DirectionFailed` iff the export succeeds and `set_direction` fails, logging at most export, `set_direction` and unexport; with both succeeding the run is the inner loop's trace |
| `FanLoop.PassRecordsTick` | src/main.rs:64-77 | in a running trace, the events of tick `i` start right after those of the earlier ticks, with the probe carrying tick `i`'s own reading and the write carrying tick `i`'s own write outcome, so the decision and pause rules apply to what the sensor and the pin actually returned |
| `FanLoop.ControlTraceAborts` | src/main.rs:89-94 | a run after setup aborts iff some observed probe returned output that cannot be sliced |
| `FanLoop.ControlTraceWellFormed` | src/main.rs:54-84 | in every such run each write follows its probe and is high iff that reading exceeds the threshold; each write is followed by its pause and then the next probe; export and `set_direction` come first and are never repeated |
| `FanLoop.ControlTraceCounts` | src/main.rs:63-84 | in every such run probes and writes are equal in number; that number equals the number of ticks while running, and is smaller after a panic; nothing is unexported |
| `FanLoop.AbortIsFinal` | src/main.rs:92 | once a run has aborted, later ticks add no event and do not change the outcome |
| `FanLoop.RunWritesFollowReadings` | src/main.rs:64-82 | in every run each pin write is immediately preceded by the probe it acts on, writes only 0 or 1, and writes 1 iff that reading is present and strictly above the threshold |
| `FanLoop.RunPausesFollowWrites` | src/main.rs:59-83 | in every run a successful high write is followed by sleeps of 15 s and 5 s, a successful low write by 5 s, and a failed write by 2 s; then the next probe comes, or the observed run ends |
| `FanLoop.RunSetup` | src/main.rs:52-86 | the export is the first event and never repeats; `set_direction` happens only right after a successful export, once, and before every write; a failed export aborts with nothing else logged; a failed `set_direction` aborts with no probe and no write, and ends with an unexport; an unexport happens iff `set_direction` failed |
| `FanLoop.RunCounts` | src/main.rs:63-84 | after a successful setup, each tick yields exactly one probe and one write; the run is still running iff every tick was consumed, and otherwise it was ended by a slice panic |
| `FanLoop.Pass` | src/main.rs:64-83 | the imperative loop body, with the source's branches and mutable `next_duration`, panics exactly when `Iteration` aborts and otherwise appends exactly `Iteration`'s probe, write and sleeps |
| `FanLoop.RunController` | src/main.rs:52-86 | the export, `set_direction` and the unbounded loop over the observed ticks return exactly the outcome and log of `Run` for the same inputs |

## Left out

- Command-line parsing with `clap`, the help flag, and the fallback defaults
  43.0 °C and pin 14 (src/main.rs:12-50). The threshold is a parameter of the
  model and the pin number does not appear.
- Running `vcgencmd measure_temp` through `xshell` (src/main.rs:90). Its result,
  including any decoding and newline trimming done by `xshell`, is an input `CommandResult`.
- `CommandResult.Output` accepts any byte sequence, including invalid UTF-8. In
  the program `xshell` decodes the output to a `String`, so invalid UTF-8 is a
  command error and gives no reading. The model over-approximates the outputs
  that reach the slice.
- The `f32` parser (src/main.rs:92) is an arbitrary function parameter.
- Control.Step: temperatures are mathematical reals. `f32` rounding is not
  modelled, and neither is NaN, for which `>` is false and the pin would go low.
- The sysfs effects of export, `set_direction`, `set_value` and unexport
  (src/main.rs:52-54, 69, 77). Only each call's success or failure and its
  order in the log are modelled. A failing unexport inside `with_exported` is
  not modelled; it would also end in the `unwrap` panic.
- Wall-clock time: sleeps are logged as durations in seconds and not performed.
- The `println!` diagnostics (src/main.rs:43, 50, 65).
- The unbounded loop: a run is modelled over any finite number of ticks. Every
  property holds for every prefix of the infinite run.
- The hardware test `test_read_current_temp` (src/main.rs:99-103), which needs a Raspberry Pi.
