/**
 * The sending side (meter.py): the sampling times of one day, the
 * `max-consumption` check, the walk of consumption values and the
 * `"<timestamp>:<value>"` body of every published message.
 */
module Meter {
  import opened Wrappers
  import opened PyText
  import opened Time
  import opened Prng

  // ---------------------------------------------------------------------------
  // range() and times_of_day

  /** The error `range()` raises for a step of 0 (Python's `ValueError`). */
  datatype RangeError = ZeroStep

  /**
   * `len(range(start, stop, step))`: the number of values `start + k * step`
   * before `stop` is reached or passed.
   */
  function RangeLen(start: int, stop: int, step: int): (n: nat)
    requires step != 0
    ensures step > 0 ==> start + n * step >= stop && (n == 0 || start + (n - 1) * step < stop)
    ensures step < 0 ==> start + n * step <= stop && (n == 0 || start + (n - 1) * step > stop)
  {
    if step > 0 then
      if stop <= start then 0 else CeilQuotient(stop - start, step)
    else
      if start <= stop then 0 else CeilQuotient(start - stop, -step)
  }

  /** The number of whole or partial steps of size `b` in `a`. */
  function CeilQuotient(a: int, b: int): (q: nat)
    requires a > 0 && b > 0
    ensures q * b >= a && (q - 1) * b < a
  {
    var q := (a + b - 1) / b;
    assert q * b <= a + b - 1 < q * b + b;
    q
  }

  /** The times `times_of_day(step)` yields: the `k`-th (from 0) is `(k + 1) * step` seconds, wrapped onto the clock. */
  function DayTimes(step: int): (ts: seq<TimeOfDay>)
    requires step != 0
  {
    seq(RangeLen(0, SecsPerDay - step, step), k => FromSeconds((k + 1) * step))
  }

  /**
   * `times_of_day(seconds_step)` (lines 75-80): a clock starting at midnight,
   * moved forward by the step once per element of
   * `range(0, SECS_PER_DAY - seconds_step, seconds_step)`, each position
   * yielded after the move. A step of 0 is `range`'s error.
   */
  method TimesOfDay(step: int) returns (r: Result<seq<TimeOfDay>, RangeError>)
    ensures r.Failure? <==> step == 0
    ensures r.Success? ==> r.value == DayTimes(step)
  {
    if step == 0 {
      return Failure(ZeroStep);
    }
    var n := RangeLen(0, SecsPerDay - step, step);
    var t := FromSeconds(0);
    var times: seq<TimeOfDay> := [];
    var i := 0;
    while i < n
      invariant 0 <= i <= n && times == DayTimes(step)[..i]
      invariant t == FromSeconds(i * step)
    {
      NextTime(t, i, step);
      t := Add(t, step);
      times := times + [t];
      i := i + 1;
    }
    return Success(times);
  }

  /** One more step from the `i`-th position reaches the next one. */
  lemma NextTime(t: TimeOfDay, i: int, step: int)
    requires t == FromSeconds(i * step)
    ensures Add(t, step) == FromSeconds((i + 1) * step)
  {
    AddIsFromSeconds(t, step);
    EqualClass(i * step, t.time, step);
    assert (i + 1) * step == i * step + step;
  }

  /** Adding the same amount to two numbers of one class modulo a day gives the same time. */
  lemma EqualClass(n: int, m: int, k: int)
    requires FromSeconds(n).time == m
    ensures FromSeconds(m + k) == FromSeconds(n + k)
  {
    var q := (n - m) / SecsPerDay;
    assert n - m == q * SecsPerDay;
    var a, b := FromSeconds(m + k), FromSeconds(n + k);
    var qa := (m + k - a.time) / SecsPerDay;
    var qb := (n + k - b.time) / SecsPerDay;
    assert m + k - a.time == qa * SecsPerDay;
    assert n + k - b.time == qb * SecsPerDay;
    SameClass(a, b, qb - q - qa);
  }

  /**
   * For a step inside one day, the `k`-th time (counting from 0) lies at
   * `(k + 1) * step` seconds without wrapping, so midnight is never yielded
   * and the times increase by exactly one step.
   */
  lemma TimeOnClockFace(step: int, k: nat)
    requires 0 < step && k < |DayTimes(step)|
    ensures DayTimes(step)[k].time == (k + 1) * step
    ensures 0 < (k + 1) * step < SecsPerDay
  {
    var n := RangeLen(0, SecsPerDay - step, step);
    assert (n - 1) * step < SecsPerDay - step;
    assert k * step <= (n - 1) * step by {
      MulLeft(k, n - 1, step);
    }
    FromSecondsInRange((k + 1) * step);
  }

  lemma MulLeft(a: int, b: int, c: int)
    requires a <= b && c >= 0
    ensures a * c <= b * c
  {
  }

  /** Consecutive times differ by exactly one step. */
  lemma TimesIncrease(step: int, k: nat)
    requires 0 < step && k + 1 < |DayTimes(step)|
    ensures DayTimes(step)[k + 1].time == DayTimes(step)[k].time + step
  {
    TimeOnClockFace(step, k);
    TimeOnClockFace(step, k + 1);
  }

  /** A step of a day or more yields nothing, as does a negative step. */
  lemma NoTimesForLongSteps(step: int)
    requires step >= SecsPerDay || step < 0
    ensures DayTimes(step) == []
  {
  }

  /** Sampling every 5 seconds gives 17279 times, the first at 00:00:05 and the last at 23:59:55. */
  lemma FiveSecondSampling()
    ensures |DayTimes(5)| == 17279
    ensures DayTimes(5)[0].time == 5 && DayTimes(5)[17278].time == SecsPerDay - 5
  {
    TimeOnClockFace(5, 0);
    TimeOnClockFace(5, 17278);
  }

  // ---------------------------------------------------------------------------
  // The published values

  /** The error `main` raises for a negative `--max-consumption` (`CliError`). */
  datatype CliError = NegativeMaxConsumption

  /**
   * The walk `main` sets up (lines 43-44, 56-61) after checking the
   * consumption bound: values in `[0, max_consumption]`, a new target after at
   * most 300 values. A negative bound is rejected before any walk exists.
   */
  function MeterWalk(maxConsumption: int, maxDiff: int): (r: Result<WalkConfig, CliError>)
    ensures r.Failure? <==> maxConsumption < 0
    ensures r.Success? ==>
      && ValidConfig(r.value) && r.value.vMin == 0 && r.value.vMax == maxConsumption
      && r.value.maxDiff == maxDiff && r.value.maxEqualValues == 300
  {
    if maxConsumption < 0 then Failure(NegativeMaxConsumption)
    else Success(WalkConfig(0, maxConsumption, maxDiff, 300))
  }

  /**
   * `f'{timestamp}:{value}'` (line 67): the two decimal numbers around the only
   * colon of the body.
   */
  function MeterBody(timestamp: int, value: int): (r: string)
    ensures IsAscii(r)
    ensures |IntToString(timestamp)| < |r| && r[|IntToString(timestamp)|] == ':'
    ensures forall i :: 0 <= i < |r| && r[i] == ':' ==> i == |IntToString(timestamp)|
  {
    IntToStringIsAscii(timestamp);
    IntToStringIsAscii(value);
    IntToString(timestamp) + ":" + IntToString(value)
  }

  /**
   * Every value published for a checked bound lies in `[-max_consumption, 0]`:
   * the walk never leaves `[0, max_consumption]` and never stops, and line 65
   * negates what it yields.
   */
  lemma PublishedValuesInRange(maxConsumption: int, maxDiff: int, stream: nat -> int, cursor: nat, n: nat)
    requires maxConsumption >= 0 && maxDiff >= 0
    ensures var tr := Run(MeterWalk(maxConsumption, maxDiff).value, Fresh, stream, cursor, n);
      && |tr.outputs| == n
      && forall i :: 0 <= i < n ==> -maxConsumption <= -tr.outputs[i] <= 0
  {
    var c := MeterWalk(maxConsumption, maxDiff).value;
    RunSucceeds(c, Fresh, stream, cursor, n);
    RunInRange(c, Fresh, stream, cursor, n);
  }

  /** The bodies for the given times and walk values: each time's seconds and the negated value. */
  function Bodies(times: seq<TimeOfDay>, values: seq<int>): (bodies: seq<string>)
    requires |values| == |times|
  {
    seq(|times|, k requires 0 <= k < |times| => MeterBody(times[k].time, -values[k]))
  }

  /**
   * The loop of `main` (lines 63-67) without the broker: for every time one
   * `next()` of the walk, negated, in a body with the time's seconds. With a
   * valid configuration the walk never raises, so every time gets a body.
   */
  method PublishAll(rng: ContinuousPrng, times: seq<TimeOfDay>) returns (bodies: seq<string>)
    requires rng.Valid() && !rng.finished && ValidConfig(rng.config) && rng.config.maxDiff >= 0
    requires InRange(rng.config, rng.State())
    modifies rng, rng.randomness
    ensures var tr := Run(rng.config, old(rng.State()), rng.randomness.stream, old(rng.randomness.drawn), |times|);
      && |tr.outputs| == |times| && rng.randomness.drawn == tr.cursor
      && bodies == Bodies(times, tr.outputs)
  {
    RunSucceeds(rng.config, rng.State(), rng.randomness.stream, rng.randomness.drawn, |times|);
    var values, _ := rng.Take(|times|);
    bodies := Bodies(times, values);
  }

  /**
   * `main` (lines 43-44, 56-67) without the broker: the check of the bound,
   * then one body per 5-second time. `maxDiff` stands for `max_power / 500`.
   */
  method Publish(maxConsumption: int, maxDiff: int, randomness: Randomness) returns (r: Result<seq<string>, CliError>)
    requires maxDiff >= 0
    modifies randomness
    ensures r.Failure? <==> maxConsumption < 0
    ensures r.Failure? ==> randomness.drawn == old(randomness.drawn)
    ensures r.Success? ==>
      var tr := Run(WalkConfig(0, maxConsumption, maxDiff, 300), Fresh, randomness.stream, old(randomness.drawn), |DayTimes(5)|);
      && |tr.outputs| == |DayTimes(5)| && randomness.drawn == tr.cursor
      && r.value == Bodies(DayTimes(5), tr.outputs)
  {
    var config := MeterWalk(maxConsumption, maxDiff);
    if config.Failure? {
      return Failure(config.error);
    }
    var times := TimesOfDay(5);
    var rng := new ContinuousPrng(config.value, randomness);
    var bodies := PublishAll(rng, times.value);
    return Success(bodies);
  }

  /** The `k`-th published body carries the `k`-th time, `(k + 1) * step` seconds, and the negated `k`-th walk value. */
  lemma BodyAt(step: int, values: seq<int>, k: nat)
    requires 0 < step && |values| == |DayTimes(step)| && k < |values|
    ensures Bodies(DayTimes(step), values)[k] == MeterBody((k + 1) * step, -values[k])
  {
    TimeOnClockFace(step, k);
  }
}
