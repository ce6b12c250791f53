# pi-fan fan curve, modelled in Dafny

pi-fan is a Raspberry Pi fan controller. Every tick it reads the CPU
temperature, turns it into a fan speed through a curve of
(temperature, speed) control points, and drives a PWM pin with that speed.
This project models the curve engine and the speed-selection rule of
`src/main.rs` and proves what they promise.

- `sorted_keys.dfy`, module `SortedKeys`: the minimum of a set of integers, the
  set in ascending order (`Ascending`), and the method that collects and sorts
  the keys of a map (`CollectSorted`). The lookup sorts a copy of the curve's
  keys on every lookup that is not an exact hit. The model states the result of that sort, not the
  sort algorithm.
- `pi_fan.dfy`, module `PiFan`:
  - `Curve` is a datatype holding a `map<int, int>` from temperature to speed.
    The source builds it once and only reads it afterwards, so it is a value.
    `GetValueAt` has no `modifies` clause, so the lookup cannot change the curve.
  - `FromPairs` builds the curve. Its loop inserts the pairs in order into an
    empty map, so a later duplicate temperature overwrites an earlier one. Its
    specification is the fold `Build`.
  - `GetValueAt` is the lookup:
    - an exact hit returns the stored speed;
    - otherwise it collects and sorts the keys and applies the low and high
      clamps;
    - otherwise a `for` loop scans the sorted keys for the bracketing pair, and
      the result is interpolated by `GetValueBetweenPoints`.
    The method is proved equal to the ghost function `ValueAt`, which follows
    the same steps: the sorted keys are `Ascending`, and the scan is the
    recursive function `Scan`.
  - `GetSpeed` returns the fixed speed `FailSpeed` (50.0) when the temperature
    equals `FailTemp` (-100), and otherwise the curve's value from
    `GetValueAt`. Its specification is the ghost function `Speed`.
  - The source's tests become lemmas on their curves. `LinearCurve` and
    `SteepeningCurve` are the curves the tests build.

The source computes the speed as an `f32`. The model uses `real`, the exact
value of the interpolation formula. Every expected value in the tests is exact
in the reals.

Behaviour of the code worth knowing, each stated against the source lines:

- High clamp. For a temperature at or above the highest control point (and
  not equal to it), the source returns the speed of the LOWEST control point
  (src/main.rs:52-53). The model reproduces this on purpose. `HighClampQuirk`
  states it for every curve. `HighClampJump` shows the result on a two-point
  curve: 500.0 at 50 degrees and 0.0 at 51 degrees.
- Bracket scan. One might expect the forward scan (src/main.rs:55-65) to
  sometimes stop on a pair that does not enclose the temperature, because it
  never tests the last pair: when the keys run out, it uses that pair without
  checking it. It cannot: the scan runs
  over the sorted keys, and the temperature lies strictly inside their range.
  So the scan always ends on the adjacent pair around the temperature, whether
  it stops early or runs out of keys. `ScanFindsBracket` proves this.
- Empty curve. `Curve::from` accepts an empty list (src/main.rs:29-37). Only
  a lookup panics, at the `unwrap` of the first key (src/main.rs:47).
  `FromPairs` has no precondition. `GetValueAt` requires a non-empty curve.
  `GetSpeed` requires it only when the temperature is not `FailTemp`, because
  the sentinel check comes before any use of the curve (src/main.rs:90-91).
- The sentinel. `get_speed` treats -100 as a failed read (src/main.rs:90).
  The source's own read and parse failures never produce -100, though: a
  failed read panics (src/main.rs:83), and a failed parse gives -100 / 1000,
  which is 0 under Rust's truncating division (src/main.rs:86). So the
  fallback speed is chosen only for a real reading of -100 degrees.

## Model

| member | source | states |
|---|---|---|
| `PiFan.FromPairs` | src/main.rs:29-37 | Inserting the pairs in order gives the fold `Build`. The key set is exactly the set of temperatures in the input. Each key maps to the speed of the last entry with that temperature. |
| `PiFan.BuildKeys` | src/main.rs:30-36 | The keys of the built map are exactly the temperatures that appear in the input list. |
| `PiFan.BuildLastWins` | src/main.rs:31-34 | A later duplicate temperature overwrites an earlier one: the last entry with a temperature gives its speed. |
| `SortedKeys.CollectSorted` | src/main.rs:44-45 | Collecting and sorting the keys gives `Ascending` of the key set. |
| `SortedKeys.AscendingSorted` | src/main.rs:44-45 | The sorted keys are strictly increasing and contain exactly the keys of the map. |
| `SortedKeys.AscendingFirstIsMin` | src/main.rs:47 | The first sorted key is the smallest key. |
| `SortedKeys.AscendingLastIsMax` | src/main.rs:48 | The last sorted key is the largest key. |
| `PiFan.GetValueBetweenPoints` | src/main.rs:72-78 | The result lies on the straight line through the two control points: (y - y1)(x2 - x1) = (y2 - y1)(temp - x1). It equals y1 at x1 and y2 at x2. Strictly between x1 and x2 it lies between y1 and y2. |
| `PiFan.InterpolationBounds` | src/main.rs:75-76 | slope * (temp - x1) + y1, with slope = (y2 - y1) / (x2 - x1), lies on the line through both points. Strictly inside the bracket it stays between the two speeds. |
| `PiFan.Scan` | src/main.rs:55-65 | The forward scan over the sorted keys always ends on a pair of adjacent keys, keys[j] and keys[j+1]. |
| `PiFan.ScanFindsBracket` | src/main.rs:55-65 | If the temperature lies strictly inside the key range and is not a key, the scan ends on the adjacent keys x1 < temp < x2. This holds whether the loop breaks or runs out of keys. |
| `PiFan.FailTemp` | src/main.rs:6 | The sentinel temperature is -100. |
| `PiFan.FailSpeed` | src/main.rs:7 | The fallback speed is 50.0. |
| `PiFan.ValueAt` | src/main.rs:40-70 | The speed the curve gives at a temperature: on an exact hit, the stored speed. Whatever the temperature, the speed lies between the speeds of two control points, so it never leaves the range of the curve's own speeds. |
| `PiFan.GetValueAt` | src/main.rs:40-70 | The lookup loop computes `ValueAt`. On an exact hit it returns that key's stored speed. |
| `PiFan.LowClamp` | src/main.rs:47-51 | A temperature that is not a key and is at or below the smallest key gets the speed of the smallest key. |
| `PiFan.HighClampQuirk` | src/main.rs:48-53 | A temperature that is not a key and is at or above the largest key gets the speed of the SMALLEST key. |
| `PiFan.Bracket` | src/main.rs:54-67 | Strictly between two keys (and not on one), the value is the interpolation over the adjacent keys x1 < temp < x2, with no key between them. The value lies between their two speeds. |
| `PiFan.Interpolates` | src/main.rs:54-67 | Between any two adjacent keys, the curve's value is the straight line through them. |
| `PiFan.Speed` | src/main.rs:89-95 | For the sentinel temperature -100 the speed is 50.0, whatever the curve. For any other temperature that is a key, it is that key's stored speed. For any other temperature, it lies within the range of the curve's speeds. |
| `PiFan.GetSpeed` | src/main.rs:89-95 | The method computes `Speed`: 50.0 for the sentinel, even on an empty curve, and the lookup `GetValueAt` otherwise. |
| `PiFan.LinearPointsBuild` | src/main.rs:155-163 | Building from the six straight-line points gives the curve 0→0, 10→100, …, 50→500. |
| `PiFan.SteepeningPointsBuild` | src/main.rs:172-178 | Building from the four steepening points gives the curve 0→0, 10→100, 20→300, 30→700. |
| `PiFan.LinearCurveExactHits` | src/main.rs:145-150 | Each control point of the straight-line curve is returned exactly: 0.0, 100.0, …, 500.0. |
| `PiFan.LinearCurveAt5` | src/main.rs:164 | The straight-line curve at 5 degrees gives 50.0. |
| `PiFan.LinearCurveAt15` | src/main.rs:165 | The straight-line curve at 15 degrees gives 150.0. |
| `PiFan.LinearCurveAt25` | src/main.rs:166 | The straight-line curve at 25 degrees gives 250.0. |
| `PiFan.LinearCurveAt35` | src/main.rs:167 | The straight-line curve at 35 degrees gives 350.0. |
| `PiFan.LinearCurveAt45` | src/main.rs:168 | The straight-line curve at 45 degrees gives 450.0. |
| `PiFan.SteepeningCurveAt5` | src/main.rs:179 | The steepening curve at 5 degrees gives 50.0. |
| `PiFan.SteepeningCurveAt15` | src/main.rs:180 | The steepening curve at 15 degrees gives 200.0, interpolating over 10..20 and not 0..10. |
| `PiFan.SteepeningCurveAt25` | src/main.rs:181 | The steepening curve at 25 degrees gives 500.0. |
| `PiFan.TwoPointsBuild` | src/main.rs:29-37 | Building from the pairs (0, 0), (50, 500) gives the curve {0→0, 50→500}. |
| `PiFan.TwoPointTick` | src/main.rs:89-95 | For a reading of 25 on the curve built from (0, 0), (50, 500), the target speed is 250.0. |
| `PiFan.HighClampJump` | src/main.rs:52-53 | On the curve {0→0, 50→500} the speed is 500.0 at 50 degrees and drops to 0.0 at 51 degrees. |

## Left out

- `get_temp` (src/main.rs:81-87) reads a sysfs file. That is file I/O. The
  model's `GetSpeed` takes the temperature as a parameter instead. The
  source's read and parse failures never produce -100: a failed read panics at
  the `expect`, and a failed parse gives `FAIL_TEMP / 1000`, which is 0.
- `update_speed` (src/main.rs:97-102) multiplies the `f32` speed by 256.0 and
  passes it to the PWM driver as an `f64`. That is a foreign call plus float
  scaling.
- `main` (src/main.rs:104-130) loads the TOML configuration, sets up the PWM
  pin and runs the endless sleep loop. All of that is I/O and timing.
- The `Config`, `Settings` and `RawCurve` structs (src/main.rs:9-23) only carry
  the deserialised configuration. Nothing in them is logic.
- `HashMap` iteration order and the sort algorithm are not modelled. The sorted
  keys are modelled as the key set in ascending order.
- PiFan.GetValueAt: `f32` rounding is abstracted away. The speed is the exact
  real value of the interpolation, and converting the `i32` values to `f32` is
  exact in the model.
- PiFan.GetValueAt: temperatures and speeds are unbounded integers. In the
  source, the `i32` subtractions `y2 - y1`, `x2 - x1` and `temp - x1`
  (src/main.rs:75-76) overflow when two control points are 2^31 or more
  apart, in temperature or in speed.
  That panics in debug builds and wraps around in release builds. The model
  does not capture this.
- PiFan.GetValueBetweenPoints: the model requires `x1 != x2`. With equal keys
  the source divides 0.0 by 0.0 in `f32` and gets NaN, which has no value in
  the reals. The lookup never calls it with equal keys (`ScanFindsBracket`).
