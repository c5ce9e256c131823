# pv-simulator in Dafny

A model of the simulation logic of pv-simulator, a pair of Python programs.
`meter.py` publishes a household's power consumption every 5 seconds of one
day as `"<timestamp>:<value>"` messages. `simulator.py` receives each message,
adds the output of a photovoltaic (PV) installation at that time of day, and
writes the sum.

The model covers five parts:

- the wrap-around clock `TimeOfDay` (`time_of_day.dfy`, module `Time`);
- the bounded random walk `continuous_prng` (`prng.dfy`, module `Prng`);
- the PV curve `PvGenerator` and the `weather` factor (`pv_generation.dfy`, module `PvGeneration`);
- the receiving side: the message parser and the `receive` callback (`simulator.dfy`, module `Simulator`);
- the sending side: the sampling times, the consumption bound check and the message bodies (`meter.dfy`, module `Meter`).

Two support modules hold what the Python code gets from its runtime:

- `pytext.dfy` (module `PyText`) holds the builtins the code relies on:
  - `str.strip`, `str.split`, `str.endswith` and `str.join`;
  - `int()` on text and on floats, `str()` on integers and `round()`;
  - the ASCII codec.
- `wrappers.dfy` (module `Wrappers`) holds the `Result` and `Option` types.
  Every Python exception the core can raise becomes a `Failure` value.

Pure parts are datatypes, functions and lemmas. These are `TimeOfDay`,
`PvGenerator`, the parser and the message body.

State that the source updates in place is modelled by classes:

- the shared `random.Random` object is `Prng.Randomness`: an endless stream of raw numbers and a counter of numbers used;
- a `continuous_prng` generator is `Prng.ContinuousPrng`. It holds the generator's locals, and its `Next` and `Take` are proved against the pure step function `Prng.Step` and the run `Prng.Run`;
- the `weather` generator is `PvGeneration.Weather`, and the `receive` closure is `Simulator.Receiver`;
- `times_of_day` is a method with a loop, proved against the function `Meter.DayTimes`.

Each random draw's value is abstract: `randint(a, b)` takes its value from the
stream and is only known to lie in `[a, b]`. The proved properties therefore
hold for every sequence of draws.

Three facts about the code are worth stating outright:

- The walk never leaves `[v_min, v_max]` (`Prng.RunInRange`). A move at libpv/prng.py:27-32 goes towards a target that lies inside the bounds and never past it, so no value outside the bounds is ever yielded.
- The weather factor is exactly 1 when the noise factor is 0, and also when either walk stands at 0 (`PvGeneration.FactorIsOne`). The docstring at src/pv_generation.py:52 names only the first case.
- `weather` never checks that `noise_factor` lies in `[0, 1]`, and the model raises no error for other values. The bounds lemmas take the range as a precondition instead.

`TimeOfDay.from_hms` at src/time_of_day.py:40 multiplies minutes by seconds (see "## Findings"). The model holds both forms. `FromHmsAsWritten` and `ParseHmsAsWritten` compute what the code computes, and the lemmas named "as written" below state what follows from it. `FromHms` and `ParseHms` are the additive form that the docstrings and tests/time_of_day.py describe. No other part of the model calls either form. The simulator calls `parse_hms` only for its command-line arguments (simulator.py:70-71), and command-line parsing is left out.

## Model

| member | source | states |
|---|---|---|
| Time.PyMod | src/time_of_day.py:7 | Python's integer `%` takes the sign of the divisor: in `[0, b)` for `b > 0`, in `(b, 0]` for `b < 0` |
| Time.FloatMod | src/time_of_day.py:7 | Python's float `%` by a positive divisor lies in `[0, y)` (used when a float is added to a time) |
| Time.EuclideanUnique | src/time_of_day.py:4-14 | a quotient and a remainder in `[0, abs(b))` with `a == q * b + r` are exactly Dafny's `a / b` and `a % b` |
| Time.RemEuclid | src/time_of_day.py:4-14 | `rem_euclid(lhs, rhs)` is the least nonnegative remainder: in `[0, abs(rhs))` and equal to `lhs % rhs`, for either sign of `rhs` |
| Time.FromSeconds | src/time_of_day.py:28-30 | `TimeOfDay(n)` holds a second in `[0, 86400)` congruent to `n` modulo one day, for any integer `n` |
| Time.FromSecondsInRange | src/time_of_day.py:28-30 | a second count already in `[0, 86400)` is stored unchanged |
| Time.FromSecondsPeriodic | src/time_of_day.py:28-30 | `TimeOfDay(n + 86400) == TimeOfDay(n)` |
| Time.Seconds | src/time_of_day.py:58-60 | `seconds()` lies in `[0, 86400)` and rebuilds the same time |
| Time.FromHmsAsWritten | src/time_of_day.py:33-40 | as written, the result of `from_hms` never has seconds, so the expectations of tests/time_of_day.py:22 (00:00:59) and :24 (02:05:08) cannot hold |
| Time.FromHmsAsWrittenKeeps | src/time_of_day.py:40 | as written, `from_hms(*t.hms()) == t` exactly when `t` is a whole hour |
| Time.FromHmsAsWrittenMisses | src/time_of_day.py:40 | as written, `from_hms(2, 5, 8)` is 9600 seconds, while the corrected `from_hms` gives 7508, the value tests/time_of_day.py:24 expects |
| Time.FromHmsAsWrittenDropsMinutes | src/time_of_day.py:40 | as written, zero seconds lose the minutes: `from_hms(h, m, 0) == from_hms(h, 0, 0)` for all `h` and `m`, so `from_hms(m=-119)` is midnight, not the 00:01:00 of tests/time_of_day.py:23 |
| Time.FromHmsAsWrittenDropsSeconds | src/time_of_day.py:40 | as written, zero minutes lose the seconds: `from_hms(h, 0, s) == from_hms(h, 0, 0)` for all `h` and `s`, so `from_hms(s=-1)` is midnight, not the 00:00:59 of tests/time_of_day.py:22 |
| Time.FromHms | src/time_of_day.py:33-40 | corrected `from_hms`: reading the result back with `hms()` gives `(h mod 24, m mod 60, s mod 60)` |
| Time.FromHmsIsSum | src/time_of_day.py:37-40 | corrected `from_hms` is `h mod 24 * 3600 + m mod 60 * 60 + s mod 60` with no further wrap |
| Time.Hms | src/time_of_day.py:62-68 | `hms()` gives `h < 24`, `m < 60`, `s < 60` with `h * 3600 + m * 60 + s == seconds()` |
| Time.HmsUnique | src/time_of_day.py:62-68 | the fields of `hms()` are the only in-range fields that add up to the time |
| Time.FromHmsOfHms | src/time_of_day.py:62-68 | corrected `from_hms(*t.hms()) == t` for every time |
| Time.Pad2 | src/time_of_day.py:73-78 | a field below 100 is printed as two digits whose value is the field |
| Time.ToString | src/time_of_day.py:70-80 | `str(t)` has 8 characters: colons at positions 2 and 5, digits elsewhere, the three pairs reading as `hms()` |
| Time.ToStringWraps | tests/time_of_day.py:15 | `str(TimeOfDay(-1)) == "23:59:59"` |
| Time.ToStringPastOneDay | tests/time_of_day.py:13 | `str(TimeOfDay(250000)) == "21:26:40"` |
| Time.Add | src/time_of_day.py:82-84 | `t + k` is a normalised time congruent to `t.seconds() + k` modulo one day |
| Time.Sub | src/time_of_day.py:86-88 | `t - k` is a normalised time congruent to `t.seconds() - k` modulo one day |
| Time.SameClass | src/time_of_day.py:82-88 | two normalised times that differ by a whole number of days are equal |
| Time.AddSub | src/time_of_day.py:82-88 | `(t + k) - k == t` for every integer `k` |
| Time.AddIsFromSeconds | src/time_of_day.py:82-84 | `t + k == TimeOfDay(t.seconds() + k)` |
| Time.Less | src/time_of_day.py:90-91 | `a < b` exactly when `a.hms()` precedes `b.hms()` lexicographically |
| Time.Greater | src/time_of_day.py:93-94 | `a > b` exactly when `b.hms()` precedes `a.hms()` lexicographically |
| Time.ClockOrder | src/time_of_day.py:90-94 | comparing second counts is comparing `hms()` triples lexicographically |
| Time.Fields | src/time_of_day.py:48-55 | there are at least three fields, the last two are the padding `"0", "0"`, no field holds a `:`, and the fields before the padding joined by `:` give the text back |
| Time.ParseClock | src/time_of_day.py:47-55 | the fields parse exactly when each of the first three is an integer literal |
| Time.Clock | src/time_of_day.py:50-52 | the hour, minute and second give a triple exactly when each of the three parsed |
| Time.ParseHms | src/time_of_day.py:43-56 | corrected `parse_hms`: it fails exactly when one of the first three fields is not an integer, and otherwise its `hms()` is those fields, each modulo its unit |
| Time.ParseHmsAsWritten | src/time_of_day.py:43-56 | as written, `parse_hms` fails on exactly the same inputs, and a time it returns never has seconds |
| Time.ParseFromFields | src/time_of_day.py:43-56 | corrected: when the first three fields read as `h`, `m` and `s`, `parse_hms` gives `from_hms(h, m, s)`, or `from_hms(h + 12, m, s)` for a `pm` suffix |
| Time.NoSuffix | src/time_of_day.py:47 | text that ends in a digit takes the branch without a suffix and is split unchanged |
| Time.ClockOfToString | src/time_of_day.py:47-56 | the fields `parse_hms` reads from `str(t)` are `t.hms()` |
| Time.ParseToString | src/time_of_day.py:43-80 | corrected: `parse_hms(str(t)) == t` for every time |
| Time.ParseToStringAsWritten | src/time_of_day.py:40-80 | as written, `parse_hms(str(t)) == t` exactly when `t` is a whole hour |
| Time.ParseHmsAsWrittenMisses | src/time_of_day.py:40-56 | as written, `parse_hms("08:30:00")` gives 08:00:00 |
| Time.ParseAsWrittenDropsMinutes | src/time_of_day.py:40-56 | as written, a time printed with zero seconds parses back to the start of its hour |
| Time.PadRoundTrip | src/time_of_day.py:73-78 | `int()` reads a zero-padded field back as its value |
| Time.ParseZero | src/time_of_day.py:55 | the default field `"0"` reads as 0 |
| Time.OneField | src/time_of_day.py:55 | the fields of a bare number are the number, `"0"` and `"0"` |
| Time.ParseBareHour | src/time_of_day.py:54-56 | `"<h>"` parses as `from_hms(h, 0, 0)` |
| Time.ParseHourWithSuffix | src/time_of_day.py:47-53 | `"<h> am"` parses as `from_hms(h)` and `"<h> pm"` as `from_hms(h + 12)` |
| Time.SuffixedClock | src/time_of_day.py:47-50 | the clock text of `"<digits> am"` or `"<digits> pm"` is the digits, and only the `pm` form adds 12 hours |
| Time.ClockOfSuffixed | src/time_of_day.py:47-50 | for text ending in `am` or `pm`, the clock text is the rest stripped, and the hour shift happens exactly for `pm` |
| Time.ParseTwoFields | src/time_of_day.py:55-56 | corrected: `"<h>:<m>"` parses as `from_hms(h, m, 0)` |
| Time.ParseExtraFields | src/time_of_day.py:55-56 | corrected: fields after the third are ignored |
| Time.ParseRejectsHour | src/time_of_day.py:50-56 | a first field that `int()` rejects makes the parse fail |
| Time.ParseRejectsEmpty | src/time_of_day.py:47-56 | `""` and `"pm"` have an empty hour field, and the parse fails |
| PyText.Strip | src/time_of_day.py:48 | stripping a set of characters gives a slice of the text with none of them at either end, and everything cut off before and after the slice is in the set; `strip()` strips the `str.isspace()` characters, `int()` the narrower set it skips |
| PyText.ParseInt | src/time_of_day.py:50-56 | defines `int()` on text: the whitespace `int()` skips is stripped from both ends, then `ParseLiteral` (properties in `ParseDigits`, `ParseNegativeDigits`, `IntToStringRoundTrip`, `ParseKeepsSeparator`) |
| PyText.ParseKeepsSeparator | src/time_of_day.py:55-56 | `int()` does not skip the separators `\x1c` to `\x1f` that `strip()` removes: `"<sep><digits>".strip()` is the digits, while `int("<sep><digits>")` fails |
| PyText.ParseUnpadded | simulator.py:118 | text that starts and ends with a character `int()` does not skip is read as the literal it is |
| PyText.ParseLiteral | simulator.py:118 | defines the literal `int()` accepts: an optional sign, then digits with single underscores between them |
| PyText.StripBlankAfter | src/time_of_day.py:48 | stripping `"<word> "` gives the word when the word has no whitespace at its ends |
| PyText.Split | src/time_of_day.py:55 | `split(sep)` gives at least one part, no part contains `sep`, and joining the parts with `sep` gives the text back |
| PyText.SplitField | src/time_of_day.py:55 | text without the separator splits into itself alone |
| PyText.SplitAfterField | src/time_of_day.py:55 | a separator after a separator-free field splits exactly there |
| PyText.SplitJoin | simulator.py:117 | splitting undoes joining when no part contains the separator |
| PyText.NatToString | src/time_of_day.py:74 | `str(n)` for `n >= 0` is a nonempty run of digits whose value is `n` |
| PyText.IntToString | meter.py:67 | `str(n)` starts with `-` exactly when `n < 0` and is digits otherwise |
| PyText.ParseDigits | src/time_of_day.py:51 | `int()` reads a run of digits as its decimal value |
| PyText.ParseNegativeDigits | simulator.py:118 | `int()` reads `-` followed by digits as the negated value |
| PyText.IntToStringRoundTrip | simulator.py:118 | `int(str(n)) == n` for every integer, negative ones included |
| PyText.Trunc | libpv/prng.py:25 | `int(x)` on a float truncates toward zero |
| PyText.TruncBetween | libpv/prng.py:25 | truncation keeps a value between two integers that bound it |
| PyText.TruncDivIsTrunc | libpv/prng.py:22-25 | the integer quotient used for the jitter spread equals `int()` of the exact quotient by 200 |
| PyText.RoundHalfEven | simulator.py:96 | `round(x)` is within 0.5 of `x`, and a tie goes to the even integer |
| PyText.RoundBetween | simulator.py:96 | rounding stays inside an interval with integer ends |
| PyText.AsciiDecode | simulator.py:117 | `decode('ascii')` succeeds exactly when every byte is below 128, and then each character is its byte |
| PyText.Encode | meter.py:67 | ASCII text is sent as one byte per character |
| PyText.DecodeEncode | simulator.py:117 | decoding the encoding of ASCII text gives the text |
| PyText.IntToStringIsAscii | meter.py:67 | `str(n)` is ASCII |
| Prng.Pick | libpv/prng.py:16-25 | a `randint(a, b)` draw lies in `[a, b]` |
| Prng.PickCovers | libpv/prng.py:16-25 | every value of `[a, b]` is the draw of some raw number |
| Prng.Randomness.RandInt | libpv/prng.py:16-25 | `randint(a, b)` for `a <= b` uses one raw number and returns its draw; for `a > b` it fails and uses nothing |
| Prng.TruncClip | libpv/prng.py:23-25 | `int()` commutes with clipping to an integer bound |
| Prng.JitterBoundsAgree | libpv/prng.py:22-25 | the integer jitter range equals `int(max(v_min, t - spread))` to `int(min(v_max, t + spread))` on exact reals, for every configuration and target |
| Prng.Approach | libpv/prng.py:27-32 | for `max_diff >= 0` a move goes at most `max_diff` and stays between `prev` and the target |
| Prng.JitterBounds | libpv/prng.py:22-25 | for a target in `[v_min, v_max]` the jitter range lies inside `[v_min, v_max]` and contains the target |
| Prng.ApproachNoOvershoot | libpv/prng.py:27-32 | a move goes at most `max_diff` and stays between `prev` and the target; it lands on the target exactly when that is within `max_diff`, and otherwise moves exactly `max_diff` |
| Prng.StepYieldsPrev | libpv/prng.py:27-36 | each step yields its new `prev` |
| Prng.StepContinuity | libpv/prng.py:27-32 | a yielded value differs from the previous `prev` by at most `max_diff` |
| Prng.Step | libpv/prng.py:14-36 | defines one iteration of the generator's loop; its properties are the `Step…` lemmas below |
| Prng.JitterClose | libpv/prng.py:21-25 | a jittered target is within `spread + 1` of the old one on each side, `spread` being `(v_max - v_min) / 200`; the upper side is within `spread` when `v_min >= 0` |
| Prng.StepJitters | libpv/prng.py:21-25 | with a nonzero counter and `prev` on the target, the new target is one draw from the jitter range |
| Prng.StepInRange | libpv/prng.py:16-32 | from an in-range state, the new state and the yielded value are in `[v_min, v_max]` |
| Prng.StepCounter | libpv/prng.py:15-34 | when the counter is 0, and on the first step, it is refreshed and left below `max_equal_values` after the step; otherwise it drops by exactly 1 |
| Prng.StepTarget | libpv/prng.py:15-25 | while `prev` has not reached the target and the counter is nonzero, the target is kept |
| Prng.StepDraws | libpv/prng.py:15-25 | a step uses 3 draws on the first call, 2 on a later refresh, 1 on a jitter and 0 otherwise |
| Prng.FirstStepFails | libpv/prng.py:16-17 | the first step fails exactly when `max_equal_values < 1` or `v_min > v_max` |
| Prng.StepSucceeds | libpv/prng.py:14-36 | with a valid configuration, no step from an in-range state fails |
| Prng.Run | libpv/prng.py:14-36 | `n` calls of `next()` yield at most `n` values, and fewer exactly when a failure ended the walk |
| Prng.RunStepped | libpv/prng.py:14-36 | a run whose first step succeeds yields that step's value, then the rest of the run |
| Prng.RunFailed | libpv/prng.py:14-36 | a run whose first step fails yields nothing, keeps the state and records the error |
| Prng.RunEmptyKeepsState | libpv/prng.py:14-36 | a run that yields nothing leaves the state as it was |
| Prng.ContinuousMeans | libpv/prng.py:8 | a sequence is continuous exactly when every pair of neighbours differs by at most `max_diff` |
| Prng.RunFirstClose | libpv/prng.py:27-32 | the first value of a run is within `max_diff` of the starting `prev` |
| Prng.RunContinuity | src/prng.ut.py:30-35 | the values of every run are continuous |
| Prng.RunNeighboursClose | src/prng.ut.py:30-35 | every two consecutive values of a run differ by at most `max_diff` |
| Prng.RunEndsAtLast | libpv/prng.py:28-36 | after a run, `prev` is the last value yielded |
| Prng.RunInRange | libpv/prng.py:16-32 | every value of a run from an in-range state lies in `[v_min, v_max]`, and so does the final state |
| Prng.RunSucceeds | libpv/prng.py:14-36 | with a valid configuration, `n` calls give `n` values and no error |
| Prng.ContinuousPrng.constructor | libpv/prng.py:4-12 | a new generator has its configuration and source, has drawn nothing and is not finished |
| Prng.ContinuousPrng.Next | libpv/prng.py:14-36 | one `next()` changes the locals and the draw counter as `Step` does; after a failure, and on every later call, it raises `StopIteration` |
| Prng.ContinuousPrng.Take | src/prng.ut.py:14-16 | taking `n` values gives exactly the trace of `Run`, so equal configurations and equal draws give equal values |
| PvGeneration.ShiftReal | src/pv_generation.py:15-19 | a time plus a float offset wraps into `[0, 86400)` |
| PvGeneration.ShiftRealInRange | src/pv_generation.py:15-19 | an offset that stays within the day is not wrapped |
| PvGeneration.NewPvGenerator | src/pv_generation.py:9-22 | `__init__` fails with a division by zero exactly when `sunrise == sunset`, and otherwise keeps sunrise, sunset and `max_power` |
| PvGeneration.Shape | src/pv_generation.py:14-22 | for `sunrise < sunset`, `max_power >= 0` and a window inside the day, no derived time wraps and the fields satisfy their defining equations |
| PvGeneration.Span | src/pv_generation.py:15-19 | dawn and dusk lie 0.6 day lengths from the zenith, in the order dawn, sunrise, zenith, sunset, dusk |
| PvGeneration.Polynomial | src/pv_generation.py:38-42 | the parabola is 0 at sunrise and at sunset |
| PvGeneration.DawnOrDusk | src/pv_generation.py:32-36 | the rising ramp is 0 at dawn and the falling ramp is 0 at dusk |
| PvGeneration.ValueAt | src/pv_generation.py:24-30 | `get_value` is 0 before dawn and after dusk; between them it is the larger of the parabola and the ramp |
| PvGeneration.GetValue | src/pv_generation.py:24-30 | `get_value(time)` is 0 for a time before dawn or after dusk |
| PvGeneration.PolyFactor | src/pv_generation.py:21 | the parabola opens downwards, and its factor times the squared half day is `-max_power` |
| PvGeneration.PolynomialAroundZenith | src/pv_generation.py:38-42 | the parabola is `max_power` plus its factor times the squared distance from the zenith |
| PvGeneration.PolynomialAtMost | src/pv_generation.py:38-42 | the parabola never exceeds `max_power` |
| PvGeneration.SlopeSpan | src/pv_generation.py:22 | the slope is not negative, and over the dawn-to-zenith distance the ramp climbs `max_power / 3` |
| PvGeneration.RampBounds | src/pv_generation.py:32-36 | between dawn and dusk the ramp lies in `[0, max_power / 3]` |
| PvGeneration.DawnRamp | src/pv_generation.py:33-34 | the rising ramp lies in `[0, max_power / 3]` |
| PvGeneration.DuskRamp | src/pv_generation.py:35-36 | the falling ramp lies in `[0, max_power / 3]` |
| PvGeneration.ValueBounds | src/pv_generation.py:24-42 | `0 <= get_value(t) <= max_power` everywhere |
| PvGeneration.ValueAtZenith | src/pv_generation.py:24-42 | the value at the zenith is exactly `max_power` |
| PvGeneration.PolynomialOutsideDay | src/pv_generation.py:38-42 | the parabola is not positive before sunrise or after sunset |
| PvGeneration.ZeroAtDawnAndDusk | src/pv_generation.py:17-42 | the value at dawn and at dusk is exactly 0, so the curve meets the zero region without a jump |
| PvGeneration.Symmetric | src/pv_generation.py:15-42 | `value(zenith + k) == value(zenith - k)` for every `k` |
| PvGeneration.RampSymmetric | src/pv_generation.py:32-36 | the ramp rises to the zenith exactly as it falls after it |
| PvGeneration.Factor | src/pv_generation.py:70-71 | the factor is 1 when the noise factor is 0 or either walk value is 0 |
| PvGeneration.WeatherStep | src/pv_generation.py:69-71 | a weather step from in-range walks leaves both walks in `[0, 10000]` |
| PvGeneration.FactorBounds | src/pv_generation.py:70-71 | for walk values in `[0, 10000]` and a noise factor in `[0, 1]`, the factor lies in `[1 - noise_factor, 1]` |
| PvGeneration.FactorIsOne | src/pv_generation.py:70-71 | the factor is 1 exactly when the noise factor is 0 or either walk value is 0 |
| PvGeneration.WeatherStepBounds | src/pv_generation.py:69-71 | a weather step keeps both walks in range and yields a factor in `[1 - noise_factor, 1]` |
| PvGeneration.WeatherNoNoise | src/pv_generation.py:51-52 | with no noise every weather step yields exactly 1 |
| PvGeneration.Weather.constructor | src/pv_generation.py:45-67 | `weather()` creates two distinct fresh walks with the weather configuration on the shared source, and draws nothing |
| PvGeneration.Weather.Next | src/pv_generation.py:69-71 | one `next()` steps `rng1` and then `rng2` on the shared source, and returns their factor, as `WeatherStep` states |
| Meter.RangeLen | meter.py:78 | `len(range(start, stop, step))` is the number of steps before `stop` is reached or passed, for either sign of the step |
| Meter.DayTimes | meter.py:75-80 | defines the times `times_of_day(step)` yields; its properties are `TimeOnClockFace`, `TimesIncrease`, `NoTimesForLongSteps` and `FiveSecondSampling` |
| Meter.TimesOfDay | meter.py:75-80 | `times_of_day(step)` yields exactly `DayTimes(step)`, the `k`-th time (from 0) being `(k + 1) * step` wrapped; a step of 0 is `range`'s error |
| Meter.NextTime | meter.py:79 | one more `t += step` reaches the next position |
| Meter.TimeOnClockFace | meter.py:76-80 | for a positive step, the `k`-th time (from 0) is `(k + 1) * step` seconds, strictly inside the day, so midnight is never yielded |
| Meter.TimesIncrease | meter.py:78-80 | consecutive times differ by exactly one step |
| Meter.NoTimesForLongSteps | meter.py:78 | a step of a day or more, or a negative step, yields nothing |
| Meter.FiveSecondSampling | meter.py:63 | with a 5-second step there are 17279 times, from 00:00:05 to 23:59:55 |
| Meter.MeterWalk | meter.py:43-61 | a negative `max_consumption` fails before any walk exists; otherwise the walk is valid with bounds `[0, max_consumption]`, the given `max_diff`, and a new target after at most 300 values |
| Meter.MeterBody | meter.py:67 | the body is ASCII, and the colon after the timestamp's digits is its only colon |
| Meter.PublishedValuesInRange | meter.py:56-67 | for a checked bound the walk gives a value for every time, and each negated value lies in `[-max_consumption, 0]` |
| Meter.Bodies | meter.py:63-67 | defines the message bodies: for each time, its seconds and the negated walk value (see `BodyAt`, `MeterBody`) |
| Meter.PublishAll | meter.py:63-67 | the bodies are `Bodies(times, values)` for the values of the walk's run, one per time, and the source advances as the run does |
| Meter.Publish | meter.py:43-67 | `main` fails exactly for a negative bound, drawing nothing; otherwise it publishes one body per 5-second time with the negated walk values |
| Meter.BodyAt | meter.py:63-67 | the `k`-th body is `"<(k + 1) * step>:<-value_k>"` |
| Simulator.ParseMeterMessage | simulator.py:116-118 | a non-ASCII message is exactly the decode error, and a parsed message has exactly one colon |
| Simulator.TwoFields | simulator.py:117 | text that splits into two fields has its only colon right after the first field |
| Simulator.ParseMeterBody | simulator.py:116-118 | parsing a body `f'{t}:{v}'` gives `(TimeOfDay(t), v)` for any integers, negative ones included, and `t` is kept for `t` in `[0, 86400)` |
| Simulator.BodyFields | simulator.py:117 | a body decodes to itself and splits into the two numbers |
| Simulator.ParseRejectsFieldCount | simulator.py:117 | a message with other than one colon fails with its field count |
| Simulator.ParseRejectsNonNumeric | simulator.py:118 | two fields of which one is not an integer literal fail |
| Simulator.PvValue | simulator.py:96 | the PV value is within 0.5 of the curve value times the weather factor |
| Simulator.PvValueBounds | simulator.py:96 | a curve value in `[0, m]` scaled by a factor in `[0, 1]` rounds into `[0, m]` |
| Simulator.ReceivedPvBounds | simulator.py:96 | for a regular generator and a noise factor in `[0, 1]`, the PV value of a message lies in `[0, max_power]` |
| Simulator.MakeRecord | simulator.py:95-97 | each record's sum is its meter value plus its PV value |
| Simulator.Receiver.constructor | simulator.py:89-92 | the receiver starts with the generator, fresh weather walks and no records |
| Simulator.Receiver.Receive | simulator.py:94-103 | a message that does not parse fails before the weather moves and writes nothing; otherwise one weather step is taken and the record of the parsed time and value is appended |
| Simulator.Receiver.Write | simulator.py:96-103 | the record uses the next weather factor; it is appended and the weather advances as `WeatherStep` states |
| Simulator.CopyDawnOrDusk | simulator.py:148-153 | the copy's ramp, falling as `(x - dusk_end) * (-dawn_slope)`, equals `get_dawn_or_dusk_value` of src/pv_generation.py at every time |
| Simulator.CopyGetValue | simulator.py:139-159 | the copy's `get_value`, which compares second counts directly, equals `get_value` of src/pv_generation.py at every time |

## Left out

- Command-line parsing, the RabbitMQ connection and consumption, the output file and printing are left out: they are I/O without logic. `Simulator.Receiver` keeps the records instead of writing lines, and `Meter.Publish` returns the bodies instead of publishing them.
- The Mersenne Twister is not modelled. `randint` draws its value from an abstract stream of raw numbers, so golden sequences that depend on the generator (src/prng.ut.py:14-28, tests/pv_generation.py:69-84) cannot be stated.
- Floating point is modelled as exact real arithmetic. The rounded golden PV table (tests/pv_generation.py:20-54) and the test's `< 80` step bound (tests/pv_generation.py:64) depend on float rounding and one configuration, so they are not restated.
- PvGeneration.Shape: a window that crosses midnight is outside its precondition. In the source the window comparison breaks for such a window, so the curve properties assume a window inside the day.
- Meter.Publish: takes `max_power / 500` as an integer `maxDiff`. A float step changes what `int(prev)` at libpv/prng.py:36 guarantees.
- Meter.Publish: draws all values with `Take` before building the bodies. This gives the same values as the interleaved loop, because publishing draws nothing.
- The seed override at simulator.py:88 is not modelled. The model is stated for every stream of draws, so the seed does not matter.
- `int()` on text accepts only ASCII digits, underscores between digits, a sign and the whitespace it skips around them. Other Unicode decimal digits are not modelled.
- PyText.ParseDigits: reads a run of digits of any length; the conversion limit between `int` and decimal text that recent CPython enforces (more than 4300 digits raises `ValueError`, `sys.get_int_max_str_digits()`; since 3.11 and the 3.7.14 to 3.10.7 security releases) is not modelled. It is harmless here: timestamps are below 86400 and meter values are bounded by `max_consumption`, so every number the programs convert is far shorter.
- PyText.ParseNegativeDigits: reads `-` followed by digits of any length; the 4300-digit conversion limit of recent CPython (see `PyText.ParseDigits` above) is not modelled, which is harmless here for the same reason.
- PyText.ParseInt: accepts literals of any length; the 4300-digit conversion limit of recent CPython (see `PyText.ParseDigits` above) is not modelled, which is harmless here for the same reason.
- PyText.ParseLiteral: accepts digit groups of any length; the 4300-digit conversion limit of recent CPython (see `PyText.ParseDigits` above) is not modelled, which is harmless here for the same reason.
- PyText.NatToString: is defined for every `n`; the 4300-digit conversion limit of recent CPython (see `PyText.ParseDigits` above) is not modelled, which is harmless here for the same reason.
- PyText.IntToString: is defined for every integer; the 4300-digit conversion limit of recent CPython (see `PyText.ParseDigits` above) is not modelled, which is harmless here for the same reason.
- PyText.IntToStringRoundTrip: holds for every integer; the 4300-digit conversion limit of recent CPython (see `PyText.ParseDigits` above) is not modelled, which is harmless here for the same reason.
- Simulator.ParseMeterBody: holds for any integers; for the f-string at meter.py:67 and for `int()` at simulator.py:118, the 4300-digit conversion limit of recent CPython (see `PyText.ParseDigits` above) is not modelled, which is harmless here for the same reason.
- Time.ParseClock: fails only when a field is not an integer literal; the 4300-digit conversion limit of recent CPython (see `PyText.ParseDigits` above) is not modelled, which is harmless here for the same reason.
- Time.ParseHms: fails only when a field is not an integer literal; the 4300-digit conversion limit of recent CPython (see `PyText.ParseDigits` above) is not modelled, which is harmless here for the same reason.
- Equality of `TimeOfDay` values: src/time_of_day.py defines no `__eq__`, so Python's `==` on two `TimeOfDay` objects compares their identity. In the model, a time is a value and `==` compares the second counts. The rows that state `==` between times (`FromSecondsPeriodic`, `AddSub`, `AddIsFromSeconds`, `FromHmsOfHms`, `ParseToString`, `ParseToStringAsWritten` and the Findings) mean "the same second count", which is what `seconds()`, `hms()` and `str()` show.
- meter.py and tests/time_of_day.py import `libpv.time_of_day`, and simulator.py imports `src.prng`. Neither module is part of this model. The model takes `libpv.time_of_day` to behave like src/time_of_day.py and `src.prng` like libpv/prng.py.
- The test helper `generate_360_times` in tests/pv_generation.py:10-16 is not modelled.
- The simulator's copy of `PvGenerator.__init__` (simulator.py:124-137) shares `PvGeneration.NewPvGenerator`. `sunrise + -dawn_len` is the same wrapped float as `sunrise - dawn_len`. The simulator's copy of `weather` (simulator.py:162-188) is identical to src/pv_generation.py:45-71 and shares `PvGeneration.Weather`.

## Findings

| source | as written | input that shows it | evidently intended | confidence | as-written member | corrected member |
|---|---|---|---|---|---|---|
| src/time_of_day.py:40 | `h * 3600 + m * 60 * s` multiplies minutes by seconds | `from_hms(2, 5, 8)` gives 9600 seconds (02:40:00); `from_hms(s=-1)` and `from_hms(m=-119)` give midnight; tests/time_of_day.py:22-24 expect 00:00:59, 00:01:00 and 02:05:08 | `h * 3600 + m * 60 + s`, which gives 7508 as tests/time_of_day.py:24 expects | not executed | Time.FromHmsAsWrittenMisses | Time.FromHms |
| src/time_of_day.py:53-56 | `parse_hms` passes its fields to the `from_hms` of line 40 | `parse_hms("08:30:00")` gives 08:00:00; `parse_hms(str(t)) == t` holds only for whole hours | `parse_hms(str(t)) == t` for every time | not executed | Time.ParseHmsAsWrittenMisses | Time.ParseToString |
