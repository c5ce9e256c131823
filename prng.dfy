/**
 * `continuous_prng` (libpv/prng.py): a bounded random walk that heads for a
 * target value at most `max_diff` per step, keeps the target for a random
 * number of steps, and draws every random number from one shared source.
 */
module Prng {
  import opened Wrappers
  import opened PyText

  /** Why a walk stops: `randint(a, b)` with `a > b`, or `next()` on a generator that already raised. */
  datatype WalkError = EmptyRange(lo: int, hi: int) | StopIteration

  // ---------------------------------------------------------------------------
  // The draw source

  /**
   * The draw `randint(a, b)` makes from raw number `raw`: a value of `[a, b]`.
   * Which value the Mersenne Twister would produce is not modelled; every
   * value of the range is the draw of some raw number (`PickCovers`).
   */
  function Pick(raw: int, a: int, b: int): (r: int)
    requires a <= b
    ensures a <= r <= b
  {
    a + raw % (b - a + 1)
  }

  lemma PickCovers(a: int, v: int, b: int)
    requires a <= v <= b
    ensures Pick(v - a, a, b) == v
  {
  }

  /** `random.Random`: an endless stream of raw numbers and how many were used. */
  class Randomness {
    const stream: nat -> int
    var drawn: nat

    constructor (stream: nat -> int)
      ensures this.stream == stream && drawn == 0
    {
      this.stream := stream;
      drawn := 0;
    }

    /** `randint(a, b)`: one draw from `[a, b]`; an empty range raises and draws nothing. */
    method RandInt(a: int, b: int) returns (r: Result<int, WalkError>)
      modifies this
      ensures a <= b ==> r == Success(Pick(stream(old(drawn)), a, b)) && drawn == old(drawn) + 1
      ensures a > b ==> r == Failure(EmptyRange(a, b)) && drawn == old(drawn)
    {
      if a > b {
        return Failure(EmptyRange(a, b));
      }
      r := Success(Pick(stream(drawn), a, b));
      drawn := drawn + 1;
    }
  }

  // ---------------------------------------------------------------------------
  // One step of the walk, as a function of the state and the draws

  datatype WalkConfig = WalkConfig(vMin: int, vMax: int, maxDiff: int, maxEqualValues: int)

  /**
   * The generator's locals. Before the first `next()` `prev` and
   * `next_value` are `None` and `equal_values` is 0; from then on both are
   * set and `equal_values` (the steps left before a new target) is never negative.
   */
  datatype WalkState = Fresh | Walking(prev: int, target: int, equalValues: nat)

  /** One `next()`: the new state, the value yielded and the number of draws used; or the error and the draws used before it. */
  datatype Outcome = Stepped(state: WalkState, output: int, draws: nat) | Failed(error: WalkError, draws: nat)

  /** Every value the state holds lies in `[vMin, vMax]`. */
  predicate InRange(c: WalkConfig, st: WalkState) {
    st.Walking? ==> c.vMin <= st.prev <= c.vMax && c.vMin <= st.target <= c.vMax
  }

  /** The configurations for which `randint` never sees an empty range. */
  predicate ValidConfig(c: WalkConfig) {
    c.maxEqualValues >= 1 && c.vMin <= c.vMax
  }

  /** The move towards the target (lines 27-32): reach it if it is close, otherwise go `maxDiff` towards it. */
  function Approach(prev: int, target: int, maxDiff: int): (p: int)
    ensures maxDiff >= 0 ==> Abs(p - prev) <= maxDiff && (prev <= p <= target || target <= p <= prev)
  {
    if Abs(target - prev) <= maxDiff then target
    else if prev < target then prev + maxDiff
    else prev - maxDiff
  }

  function Abs(x: int): nat {
    if x < 0 then -x else x
  }

  function RealMax(a: real, b: real): real {
    if a >= b then a else b
  }

  function RealMin(a: real, b: real): real {
    if a <= b then a else b
  }

  /**
   * The range the jitter draws the new target from (lines 22-25):
   * `(vMax - vMin) / 200` around the target, clipped to `[vMin, vMax]` and
   * truncated by `int()`, computed on integers (`JitterBoundsAgree`).
   */
  function JitterBounds(c: WalkConfig, target: int): (r: (int, int))
    ensures c.vMin <= target <= c.vMax ==> c.vMin <= r.0 <= target <= r.1 <= c.vMax
  {
    var lo := TruncDiv(200 * target - (c.vMax - c.vMin), 200);
    var hi := TruncDiv(200 * target + (c.vMax - c.vMin), 200);
    (if lo < c.vMin then c.vMin else lo, if hi > c.vMax then c.vMax else hi)
  }

  /** The same range as the source writes it, on exact reals: `int(max(v_min, t - spread))` and `int(min(v_max, t + spread))`. */
  function JitterBoundsReal(c: WalkConfig, target: int): (int, int) {
    var spread := (c.vMax - c.vMin) as real / 200.0;
    (Trunc(RealMax(c.vMin as real, target as real - spread)), Trunc(RealMin(c.vMax as real, target as real + spread)))
  }

  /** `int()` is monotone and keeps integers, so it commutes with the clipping. */
  lemma TruncClip(x: real, bound: int)
    ensures Trunc(RealMax(bound as real, x)) == (if Trunc(x) < bound then bound else Trunc(x))
    ensures Trunc(RealMin(bound as real, x)) == (if Trunc(x) > bound then bound else Trunc(x))
  {
  }

  /** The integer computation of the jitter range gives the source's real-number range for every configuration and target. */
  lemma JitterBoundsAgree(c: WalkConfig, target: int)
    ensures JitterBounds(c, target) == JitterBoundsReal(c, target)
  {
    var d := c.vMax - c.vMin;
    var spread := d as real / 200.0;
    assert JitterBounds(c, target).0 == JitterBoundsReal(c, target).0 by {
      TruncDivIsTrunc(200 * target - d);
      assert (200 * target - d) as real / 200.0 == target as real - spread;
      TruncClip(target as real - spread, c.vMin);
    }
    assert JitterBounds(c, target).1 == JitterBoundsReal(c, target).1 by {
      TruncDivIsTrunc(200 * target + d);
      assert (200 * target + d) as real / 200.0 == target as real + spread;
      TruncClip(target as real + spread, c.vMax);
    }
  }

  /** Approach the target, count the step, yield the new `prev`. */
  function Moved(c: WalkConfig, prev: int, target: int, equalValues: nat, draws: nat): Outcome
    requires equalValues >= 1
  {
    var p := Approach(prev, target, c.maxDiff);
    Stepped(Walking(p, target, equalValues - 1), p, draws)
  }

  /**
   * One iteration of the `while True` loop, reading raw numbers from
   * `stream` at `cursor` onwards: refresh the counter and the target when
   * the counter is 0 (and draw the first `prev` on the first step), jitter
   * the target when `prev` has reached it, then move.
   */
  function Step(c: WalkConfig, st: WalkState, stream: nat -> int, cursor: nat): Outcome {
    if st.Fresh? || st.equalValues == 0 then
      if c.maxEqualValues < 1 then Failed(EmptyRange(1, c.maxEqualValues), 0)
      else if c.vMin > c.vMax then Failed(EmptyRange(c.vMin, c.vMax), 1)
      else
        var equalValues := Pick(stream(cursor), 1, c.maxEqualValues);
        var target := Pick(stream(cursor + 1), c.vMin, c.vMax);
        if st.Fresh? then
          Moved(c, Pick(stream(cursor + 2), c.vMin, c.vMax), target, equalValues, 3)
        else
          Moved(c, st.prev, target, equalValues, 2)
    else if st.target == st.prev then
      var (lo, hi) := JitterBounds(c, st.target);
      if lo > hi then Failed(EmptyRange(lo, hi), 0)
      else Moved(c, st.prev, Pick(stream(cursor), lo, hi), st.equalValues, 1)
    else
      Moved(c, st.prev, st.target, st.equalValues, 0)
  }

  // ---------------------------------------------------------------------------
  // Properties of one step

  /** A move never overshoots: it lands on the target when that is within `maxDiff`, and otherwise goes exactly `maxDiff` towards it. */
  lemma ApproachNoOvershoot(prev: int, target: int, maxDiff: int)
    requires maxDiff >= 0
    ensures var p := Approach(prev, target, maxDiff);
      && Abs(p - prev) <= maxDiff
      && (prev <= p <= target || target <= p <= prev)
      && (Abs(target - prev) <= maxDiff <==> p == target)
      && (p != target ==> Abs(p - prev) == maxDiff)
  {
  }

  /** The value a step yields is its new `prev` (line 36). */
  lemma StepYieldsPrev(c: WalkConfig, st: WalkState, stream: nat -> int, cursor: nat)
    ensures var o := Step(c, st, stream, cursor);
      o.Stepped? ==> o.state.Walking? && o.state.prev == o.output
  {
  }

  /** Every yielded value differs from the previous `prev` by at most `maxDiff` (lines 27-32). */
  lemma StepContinuity(c: WalkConfig, st: WalkState, stream: nat -> int, cursor: nat)
    requires c.maxDiff >= 0 && st.Walking?
    ensures var o := Step(c, st, stream, cursor);
      o.Stepped? ==> Abs(o.output - st.prev) <= c.maxDiff
  {
    var o := Step(c, st, stream, cursor);
    if o.Stepped? {
      ApproachNoOvershoot(st.prev, o.state.target, c.maxDiff);
    }
  }

  /**
   * A jittered target is within `(vMax - vMin) / 200 + 1` of the old one on
   * each side; with `vMin >= 0` the upper side is within `(vMax - vMin) / 200`.
   */
  lemma JitterClose(c: WalkConfig, target: int, t: int)
    requires c.vMin <= target <= c.vMax
    requires JitterBounds(c, target).0 <= t <= JitterBounds(c, target).1
    ensures var spread := (c.vMax - c.vMin) as real / 200.0;
      && (target - t) as real < spread + 1.0
      && (t - target) as real < spread + 1.0
      && (c.vMin >= 0 ==> (t - target) as real <= spread)
  {
    JitterBoundsAgree(c, target);
  }

  /** A jitter step draws its new target from the jitter bounds of the old one (lines 21-25). */
  lemma StepJitters(c: WalkConfig, st: WalkState, stream: nat -> int, cursor: nat)
    requires st.Walking? && st.equalValues > 0 && st.target == st.prev
    ensures var o := Step(c, st, stream, cursor);
      o.Stepped? ==> JitterBounds(c, st.target).0 <= o.state.target <= JitterBounds(c, st.target).1
  {
  }

  /** Every value of the state and every yielded value stays within `[vMin, vMax]` (lines 16-20, 22-25, 27-32). */
  lemma StepInRange(c: WalkConfig, st: WalkState, stream: nat -> int, cursor: nat)
    requires InRange(c, st) && c.maxDiff >= 0
    ensures var o := Step(c, st, stream, cursor);
      o.Stepped? ==> InRange(c, o.state) && c.vMin <= o.output <= c.vMax
  {
    var o := Step(c, st, stream, cursor);
    if o.Stepped? {
      if st.Walking? && st.equalValues != 0 && st.target == st.prev {
      }
      var start := if st.Fresh? then Pick(stream(cursor + 2), c.vMin, c.vMax) else st.prev;
      assert o.output == Approach(start, o.state.target, c.maxDiff);
      ApproachNoOvershoot(start, o.state.target, c.maxDiff);
    }
  }

  /**
   * The counter (lines 15-17, 34): a refresh happens exactly when it is 0 and
   * leaves it in `[0, maxEqualValues)` after the step; otherwise it drops by 1.
   */
  lemma StepCounter(c: WalkConfig, st: WalkState, stream: nat -> int, cursor: nat)
    ensures var o := Step(c, st, stream, cursor);
      o.Stepped? ==>
        && (st.Fresh? || st.equalValues == 0 ==> o.state.equalValues < c.maxEqualValues)
        && (st.Walking? && st.equalValues > 0 ==> o.state.equalValues == st.equalValues - 1)
  {
  }

  /** The target changes only on a refresh or a jitter: it is kept while `prev` has not reached it. */
  lemma StepTarget(c: WalkConfig, st: WalkState, stream: nat -> int, cursor: nat)
    requires st.Walking? && st.equalValues > 0 && st.target != st.prev
    ensures var o := Step(c, st, stream, cursor);
      o.Stepped? && o.state.target == st.target
  {
  }

  /** Draws used by a step: 3 on the first, 2 on a later refresh, 1 on a jitter, 0 otherwise (lines 15-25). */
  lemma StepDraws(c: WalkConfig, st: WalkState, stream: nat -> int, cursor: nat)
    ensures var o := Step(c, st, stream, cursor);
      o.Stepped? ==>
        o.draws == (if st.Fresh? then 3 else if st.equalValues == 0 then 2
                    else if st.target == st.prev then 1 else 0)
  {
  }

  /** The first step fails exactly for the configurations `randint` rejects; nothing else is validated (lines 16-17). */
  lemma FirstStepFails(c: WalkConfig, stream: nat -> int, cursor: nat)
    ensures Step(c, Fresh, stream, cursor).Failed? <==> !ValidConfig(c)
  {
  }

  /** From a state inside the range, a valid configuration never fails. */
  lemma StepSucceeds(c: WalkConfig, st: WalkState, stream: nat -> int, cursor: nat)
    requires ValidConfig(c) && InRange(c, st)
    ensures Step(c, st, stream, cursor).Stepped?
  {
    if st.Walking? && st.equalValues != 0 && st.target == st.prev {
    }
  }

  // ---------------------------------------------------------------------------
  // Many steps

  /** The values of `n` calls to `next()` and what is left after them; `failed` is the error that ended the walk early, if any. */
  datatype Trace = Trace(outputs: seq<int>, state: WalkState, cursor: nat, failed: Option<WalkError>)

  function Run(c: WalkConfig, st: WalkState, stream: nat -> int, cursor: nat, n: nat): (tr: Trace)
    ensures |tr.outputs| <= n && (tr.failed.None? <==> |tr.outputs| == n)
    decreases n, 0
  {
    if n == 0 then Trace([], st, cursor, None) else Advance(c, st, stream, cursor, n - 1)
  }

  /** One step from `st`, then `n` more unless the step fails. */
  function Advance(c: WalkConfig, st: WalkState, stream: nat -> int, cursor: nat, n: nat): (tr: Trace)
    ensures |tr.outputs| <= n + 1 && (tr.failed.None? <==> |tr.outputs| == n + 1)
    decreases n, 1
  {
    match Step(c, st, stream, cursor)
    case Failed(e, d) => Trace([], st, cursor + d, Some(e))
    case Stepped(next, out, d) =>
      var rest := Run(c, next, stream, cursor + d, n);
      Trace([out] + rest.outputs, rest.state, rest.cursor, rest.failed)
  }

  /** A run that takes a step yields that step's value, then the rest of the run. */
  lemma RunStepped(c: WalkConfig, st: WalkState, stream: nat -> int, cursor: nat, n: nat, next: WalkState, out: int, d: nat)
    requires n > 0 && Step(c, st, stream, cursor) == Stepped(next, out, d)
    ensures var rest := Run(c, next, stream, cursor + d, n - 1);
      Run(c, st, stream, cursor, n) == Trace([out] + rest.outputs, rest.state, rest.cursor, rest.failed)
  {
  }

  /** A run whose first step fails yields nothing and keeps the state. */
  lemma RunFailed(c: WalkConfig, st: WalkState, stream: nat -> int, cursor: nat, n: nat, e: WalkError, d: nat)
    requires n > 0 && Step(c, st, stream, cursor) == Failed(e, d)
    ensures Run(c, st, stream, cursor, n) == Trace([], st, cursor + d, Some(e))
  {
  }

  /** A run that yields nothing leaves the state as it was. */
  lemma RunEmptyKeepsState(c: WalkConfig, st: WalkState, stream: nat -> int, cursor: nat, n: nat)
    ensures var tr := Run(c, st, stream, cursor, n);
      |tr.outputs| == 0 ==> tr.state == st
  {
  }

  /** Consecutive values differ by at most `maxDiff`. */
  predicate Continuous(o: seq<int>, maxDiff: int)
    decreases |o|
  {
    |o| < 2 || (Abs(o[1] - o[0]) <= maxDiff && Continuous(o[1..], maxDiff))
  }

  /** `Continuous` says of every pair of neighbours that they differ by at most `maxDiff`. */
  lemma {:induction false} ContinuousMeans(o: seq<int>, maxDiff: int)
    ensures Continuous(o, maxDiff) <==> forall i :: 0 <= i < |o| - 1 ==> Abs(o[i + 1] - o[i]) <= maxDiff
    decreases |o|
  {
    if |o| >= 2 {
      ContinuousMeans(o[1..], maxDiff);
    }
  }

  lemma ContinuousCons(x: int, o: seq<int>, maxDiff: int)
    requires Continuous(o, maxDiff) && (|o| > 0 ==> Abs(o[0] - x) <= maxDiff)
    ensures Continuous([x] + o, maxDiff)
  {
    assert ([x] + o)[1..] == o;
  }

  /** The first value of a run is within `maxDiff` of the starting `prev`. */
  lemma RunFirstClose(c: WalkConfig, st: WalkState, stream: nat -> int, cursor: nat, n: nat)
    requires c.maxDiff >= 0 && st.Walking?
    ensures var o := Run(c, st, stream, cursor, n).outputs;
      |o| > 0 ==> Abs(o[0] - st.prev) <= c.maxDiff
  {
    if n > 0 {
      StepContinuity(c, st, stream, cursor);
    }
  }

  /** A value followed by a continuous run from a state whose `prev` is that value is continuous. */
  lemma ContinuousAfterStep(c: WalkConfig, next: WalkState, out: int, stream: nat -> int, cursor: nat, n: nat)
    requires c.maxDiff >= 0 && next.Walking? && next.prev == out
    requires Continuous(Run(c, next, stream, cursor, n).outputs, c.maxDiff)
    ensures Continuous([out] + Run(c, next, stream, cursor, n).outputs, c.maxDiff)
  {
    RunFirstClose(c, next, stream, cursor, n);
    ContinuousCons(out, Run(c, next, stream, cursor, n).outputs, c.maxDiff);
  }

  /**
   * Continuity over a run (src/prng.ut.py, lines 30-35): consecutive values
   * differ by at most `maxDiff`.
   */
  lemma {:induction false} RunContinuity(c: WalkConfig, st: WalkState, stream: nat -> int, cursor: nat, n: nat)
    requires c.maxDiff >= 0
    ensures Continuous(Run(c, st, stream, cursor, n).outputs, c.maxDiff)
    decreases n
  {
    if n > 0 {
      match Step(c, st, stream, cursor)
      case Failed(_, _) =>
      case Stepped(next, out, d) =>
        StepYieldsPrev(c, st, stream, cursor);
        RunContinuity(c, next, stream, cursor + d, n - 1);
        ContinuousAfterStep(c, next, out, stream, cursor + d, n - 1);
        RunStepped(c, st, stream, cursor, n, next, out, d);
    }
  }

  /** Continuity over a run, pair by pair: every two consecutive values differ by at most `maxDiff`. */
  lemma RunNeighboursClose(c: WalkConfig, st: WalkState, stream: nat -> int, cursor: nat, n: nat)
    requires c.maxDiff >= 0
    ensures var o := Run(c, st, stream, cursor, n).outputs;
      forall i :: 0 <= i < |o| - 1 ==> Abs(o[i + 1] - o[i]) <= c.maxDiff
  {
    RunContinuity(c, st, stream, cursor, n);
    ContinuousMeans(Run(c, st, stream, cursor, n).outputs, c.maxDiff);
  }

  /** The walk's `prev` after a run is the last value it yielded. */
  lemma {:induction false} RunEndsAtLast(c: WalkConfig, st: WalkState, stream: nat -> int, cursor: nat, n: nat)
    ensures var tr := Run(c, st, stream, cursor, n);
      |tr.outputs| > 0 ==> tr.state.Walking? && tr.state.prev == tr.outputs[|tr.outputs| - 1]
    decreases n
  {
    if n > 0 {
      match Step(c, st, stream, cursor)
      case Failed(_, _) =>
      case Stepped(next, out, d) =>
        RunEndsAtLast(c, next, stream, cursor + d, n - 1);
        EndsAtLastAfterStep(c, st, stream, cursor, n, next, out, d);
    }
  }

  lemma EndsAtLastAfterStep(c: WalkConfig, st: WalkState, stream: nat -> int, cursor: nat, n: nat, next: WalkState, out: int, d: nat)
    requires n > 0 && Step(c, st, stream, cursor) == Stepped(next, out, d)
    requires var tr := Run(c, next, stream, cursor + d, n - 1);
      |tr.outputs| > 0 ==> tr.state.Walking? && tr.state.prev == tr.outputs[|tr.outputs| - 1]
    ensures var tr := Run(c, st, stream, cursor, n);
      |tr.outputs| > 0 && tr.state.Walking? && tr.state.prev == tr.outputs[|tr.outputs| - 1]
  {
    StepYieldsPrev(c, st, stream, cursor);
    RunStepped(c, st, stream, cursor, n, next, out, d);
    RunEmptyKeepsState(c, next, stream, cursor + d, n - 1);
  }

  /** Every value of a run lies in `[vMin, vMax]`. */
  lemma {:induction false} RunInRange(c: WalkConfig, st: WalkState, stream: nat -> int, cursor: nat, n: nat)
    requires InRange(c, st) && c.maxDiff >= 0
    ensures var tr := Run(c, st, stream, cursor, n);
      InRange(c, tr.state) && forall i :: 0 <= i < |tr.outputs| ==> c.vMin <= tr.outputs[i] <= c.vMax
    decreases n
  {
    if n > 0 {
      match Step(c, st, stream, cursor)
      case Failed(_, _) =>
      case Stepped(next, out, d) =>
        StepInRange(c, st, stream, cursor);
        RunInRange(c, next, stream, cursor + d, n - 1);
        InRangeAfterStep(c, st, stream, cursor, n, next, out, d);
    }
  }

  lemma InRangeAfterStep(c: WalkConfig, st: WalkState, stream: nat -> int, cursor: nat, n: nat, next: WalkState, out: int, d: nat)
    requires n > 0 && Step(c, st, stream, cursor) == Stepped(next, out, d) && c.vMin <= out <= c.vMax
    requires var tr := Run(c, next, stream, cursor + d, n - 1);
      InRange(c, tr.state) && forall i :: 0 <= i < |tr.outputs| ==> c.vMin <= tr.outputs[i] <= c.vMax
    ensures var tr := Run(c, st, stream, cursor, n);
      InRange(c, tr.state) && forall i :: 0 <= i < |tr.outputs| ==> c.vMin <= tr.outputs[i] <= c.vMax
  {
    RunStepped(c, st, stream, cursor, n, next, out, d);
  }

  /** With a valid configuration the walk never stops: `n` calls give `n` values. */
  lemma {:induction false} RunSucceeds(c: WalkConfig, st: WalkState, stream: nat -> int, cursor: nat, n: nat)
    requires ValidConfig(c) && InRange(c, st) && c.maxDiff >= 0
    ensures Run(c, st, stream, cursor, n).failed.None?
    ensures |Run(c, st, stream, cursor, n).outputs| == n
    decreases n
  {
    if n > 0 {
      StepSucceeds(c, st, stream, cursor);
      StepInRange(c, st, stream, cursor);
      var o := Step(c, st, stream, cursor);
      RunSucceeds(c, o.state, stream, cursor + o.draws, n - 1);
      RunStepped(c, st, stream, cursor, n, o.state, o.output, o.draws);
    }
  }

  /** A trace with `values` yielded before it. */
  function After(values: seq<int>, tr: Trace): Trace {
    Trace(values + tr.outputs, tr.state, tr.cursor, tr.failed)
  }

  /** After a step that yields `out`, the run continues from the step's state with `out` appended to what was yielded. */
  lemma AfterStepped(c: WalkConfig, st: WalkState, stream: nat -> int, cursor: nat, n: nat, values: seq<int>, next: WalkState, out: int, d: nat)
    requires n > 0 && Step(c, st, stream, cursor) == Stepped(next, out, d)
    ensures After(values, Run(c, st, stream, cursor, n)) == After(values + [out], Run(c, next, stream, cursor + d, n - 1))
  {
    var rest := Run(c, next, stream, cursor + d, n - 1);
    RunStepped(c, st, stream, cursor, n, next, out, d);
    assert values + ([out] + rest.outputs) == (values + [out]) + rest.outputs;
  }

  /** After a step that fails, the run ends with what was yielded before it. */
  lemma AfterFailed(c: WalkConfig, st: WalkState, stream: nat -> int, cursor: nat, n: nat, values: seq<int>, e: WalkError, d: nat)
    requires n > 0 && Step(c, st, stream, cursor) == Failed(e, d)
    ensures After(values, Run(c, st, stream, cursor, n)) == Trace(values, st, cursor + d, Some(e))
  {
    RunFailed(c, st, stream, cursor, n, e, d);
    assert values + [] == values;
  }

  lemma AfterNothing(values: seq<int>, st: WalkState, cursor: nat, failed: Option<WalkError>)
    ensures After(values, Trace([], st, cursor, failed)) == Trace(values, st, cursor, failed)
  {
    assert values + [] == values;
  }

  // ---------------------------------------------------------------------------
  // The generator object

  /** A `continuous_prng(...)` generator: its locals, its shared draw source, and whether it has raised. */
  class ContinuousPrng {
    const config: WalkConfig
    const randomness: Randomness
    var prev: Option<int>
    var target: Option<int>
    var equalValues: int
    var finished: bool

    /** `prev` and `next_value` are set together, and `equal_values` is 0 until they are and never negative. */
    ghost predicate Valid()
      reads this
    {
      && (prev.None? <==> target.None?)
      && equalValues >= 0
      && (prev.None? ==> equalValues == 0)
    }

    /** The locals as a walk state. */
    ghost function State(): WalkState
      reads this
      requires Valid()
    {
      if prev.None? then Fresh else Walking(prev.value, target.value, equalValues)
    }

    /** `continuous_prng(v_min, v_max, max_diff, max_equal_values, randomness)`: nothing is drawn until the first `next()`. */
    constructor (config: WalkConfig, randomness: Randomness)
      ensures this.config == config && this.randomness == randomness
      ensures Valid() && State() == Fresh && !finished
    {
      this.config := config;
      this.randomness := randomness;
      prev := None;
      target := None;
      equalValues := 0;
      finished := false;
    }

    /**
     * `next(generator)`: one iteration of the loop, drawing from the shared
     * source in the order of lines 16, 17, 20 and 25. A failed draw ends the
     * generator; every later call raises `StopIteration`.
     */
    method Next() returns (r: Result<int, WalkError>)
      requires Valid()
      modifies this, randomness
      ensures Valid()
      ensures old(finished) ==>
        r == Failure(StopIteration) && finished && State() == old(State()) && randomness.drawn == old(randomness.drawn)
      ensures !old(finished) ==>
        match Step(config, old(State()), randomness.stream, old(randomness.drawn))
        case Stepped(st, out, d) =>
          r == Success(out) && State() == st && !finished && randomness.drawn == old(randomness.drawn) + d
        case Failed(e, d) =>
          r == Failure(e) && finished && State() == old(State()) && randomness.drawn == old(randomness.drawn) + d
    {
      if finished {
        return Failure(StopIteration);
      }
      var p, t, eq := prev, target, equalValues;
      if eq == 0 {
        var drawnEq := randomness.RandInt(1, config.maxEqualValues);
        if drawnEq.Failure? {
          finished := true;
          return Failure(drawnEq.error);
        }
        eq := drawnEq.value;
        var drawnTarget := randomness.RandInt(config.vMin, config.vMax);
        if drawnTarget.Failure? {
          finished := true;
          return Failure(drawnTarget.error);
        }
        t := Some(drawnTarget.value);
        if p.None? {
          var drawnPrev := randomness.RandInt(config.vMin, config.vMax);
          p := Some(drawnPrev.value);
        }
      } else if t.value == p.value {
        var (lo, hi) := JitterBounds(config, t.value);
        var drawnTarget := randomness.RandInt(lo, hi);
        if drawnTarget.Failure? {
          finished := true;
          return Failure(drawnTarget.error);
        }
        t := Some(drawnTarget.value);
      }
      var moved := Approach(p.value, t.value, config.maxDiff);
      prev, target, equalValues := Some(moved), t, eq - 1;
      r := Success(moved);
    }

    /**
     * Takes up to `n` values with `next()`, as `itertools.islice(generator, n)`
     * does (src/prng.ut.py, line 16): the values are those of `Run`, so equal
     * configurations and equal draws give equal values.
     */
    method Take(n: nat) returns (values: seq<int>, error: Option<WalkError>)
      requires Valid() && !finished
      modifies this, randomness
      ensures Valid()
      ensures Run(config, old(State()), randomness.stream, old(randomness.drawn), n) == Trace(values, State(), randomness.drawn, error)
      ensures finished == error.Some?
    {
      ghost var full := Run(config, State(), randomness.stream, randomness.drawn, n);
      values, error := [], None;
      var i := 0;
      while i < n
        invariant 0 <= i <= n && Valid() && !finished && |values| == i
        invariant full == After(values, Run(config, State(), randomness.stream, randomness.drawn, n - i))
      {
        ghost var st, k := State(), randomness.drawn;
        var r := Next();
        if r.Failure? {
          AfterFailed(config, st, randomness.stream, k, n - i, values, r.error, randomness.drawn - k);
          return values, Some(r.error);
        }
        AfterStepped(config, st, randomness.stream, k, n - i, values, State(), r.value, randomness.drawn - k);
        values := values + [r.value];
        i := i + 1;
      }
      AfterNothing(values, State(), randomness.drawn, None);
    }
  }
}
