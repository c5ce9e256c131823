/**
 * The photovoltaic side of the simulation (src/pv_generation.py): the
 * day curve `PvGenerator` and the `weather` factor generator. Python's float
 * arithmetic is taken as exact real arithmetic.
 */
module PvGeneration {
  import opened Wrappers
  import opened Time
  import opened Prng

  // ---------------------------------------------------------------------------
  // Times derived with float arithmetic

  /**
   * `t + x` and `t - x` for a float `x`: `rem_euclid` of the float sum, which
   * stays a float, so the derived time is a real second count in [0, 86400).
   */
  function ShiftReal(t: TimeOfDay, x: real): (r: real)
    ensures 0.0 <= r < SecsPerDay as real
  {
    FloatMod(t.time as real + x, SecsPerDay as real)
  }

  /** A sum that stays on the clock face is not wrapped. */
  lemma ShiftRealInRange(t: TimeOfDay, x: real)
    requires 0.0 <= t.time as real + x < SecsPerDay as real
    ensures ShiftReal(t, x) == t.time as real + x
  {
    var y := t.time as real + x;
    assert 0.0 <= y / SecsPerDay as real < 1.0;
    assert (y / SecsPerDay as real).Floor == 0;
  }

  // ---------------------------------------------------------------------------
  // The day curve

  /** The error `__init__` raises: `sunrise == sunset` makes the day length 0, a divisor. */
  datatype PvError = ZeroDivision

  /** A `PvGenerator` with the fields `__init__` computes. */
  datatype PvGenerator = PvGenerator(
    sunrise: TimeOfDay, sunset: TimeOfDay, maxPower: int,
    dayLen: int, zenith: real, dawnStart: real, duskEnd: real,
    polyFactor: real, dawnSlope: real)

  function Square(x: real): real {
    x * x
  }

  /**
   * `PvGenerator(sunrise, sunset, max_power)`: the zenith half a day length
   * after sunrise, dawn and dusk a tenth of it before sunrise and after
   * sunset, the parabola's factor and the ramp's slope. An empty day divides
   * by zero.
   */
  function NewPvGenerator(sunrise: TimeOfDay, sunset: TimeOfDay, maxPower: int): (r: Result<PvGenerator, PvError>)
    ensures r.Failure? <==> sunrise == sunset
    ensures r.Success? ==> r.value.sunrise == sunrise && r.value.sunset == sunset && r.value.maxPower == maxPower
  {
    var dayLen := sunset.time - sunrise.time;
    if dayLen == 0 then Failure(ZeroDivision)
    else
      var half := dayLen as real / 2.0;
      var dawnLen := dayLen as real / 10.0;
      Success(PvGenerator(
        sunrise, sunset, maxPower, dayLen,
        ShiftReal(sunrise, half),
        ShiftReal(sunrise, -dawnLen),
        ShiftReal(sunset, dawnLen),
        -(maxPower as real) / Square(half),
        maxPower as real / (half + dawnLen) / 3.0))
  }

  /** `get_polynomial_value`: the parabola through sunrise and sunset. */
  function Polynomial(g: PvGenerator, x: real): (r: real)
    ensures x == g.sunrise.time as real || x == g.sunset.time as real ==> r == 0.0
  {
    g.polyFactor * (x - g.sunrise.time as real) * (x - g.sunset.time as real)
  }

  /** `get_dawn_or_dusk_value`: the ramp up from dawn before the zenith, down to dusk after it. */
  function DawnOrDusk(g: PvGenerator, x: real): (r: real)
    ensures x < g.zenith && x == g.dawnStart ==> r == 0.0
    ensures x >= g.zenith && x == g.duskEnd ==> r == 0.0
  {
    if x < g.zenith then (x - g.dawnStart) * g.dawnSlope
    else -(x - g.duskEnd) * g.dawnSlope
  }

  /** `get_value` at second `x`: 0 outside dawn to dusk, otherwise the larger of parabola and ramp. */
  function ValueAt(g: PvGenerator, x: real): (r: real)
    ensures x < g.dawnStart || x > g.duskEnd ==> r == 0.0
    ensures g.dawnStart <= x <= g.duskEnd ==>
      && r >= Polynomial(g, x) && r >= DawnOrDusk(g, x)
      && (r == Polynomial(g, x) || r == DawnOrDusk(g, x))
  {
    if x < g.dawnStart || x > g.duskEnd then 0.0
    else RealMax(Polynomial(g, x), DawnOrDusk(g, x))
  }

  /** `get_value(time)` for a time of day. */
  function GetValue(g: PvGenerator, t: TimeOfDay): (r: real)
    ensures (t.time as real) < g.dawnStart || (t.time as real) > g.duskEnd ==> r == 0.0
  {
    ValueAt(g, t.time as real)
  }

  /**
   * The days the curve is meant for: sunrise before sunset, a power that is
   * not negative, and dawn and dusk on the same day, so no derived time wraps
   * around midnight.
   */
  predicate Daylight(sunrise: TimeOfDay, sunset: TimeOfDay, maxPower: int) {
    var dawnLen := (sunset.time - sunrise.time) as real / 10.0;
    && sunrise.time < sunset.time
    && maxPower >= 0
    && 0.0 <= sunrise.time as real - dawnLen
    && sunset.time as real + dawnLen < SecsPerDay as real
  }

  /** The generator built for a daylight configuration. */
  predicate BuiltFor(g: PvGenerator, sunrise: TimeOfDay, sunset: TimeOfDay, maxPower: int) {
    Daylight(sunrise, sunset, maxPower) && NewPvGenerator(sunrise, sunset, maxPower) == Success(g)
  }

  /**
   * The fields of a generator whose derived times did not wrap: a positive
   * day length, the zenith halfway between sunrise and sunset, dawn and dusk
   * a tenth of the day outside them, and the factor and slope of `__init__`.
   */
  predicate Regular(g: PvGenerator) {
    var z1 := g.sunrise.time as real;
    var d := g.dayLen as real;
    && g.dayLen > 0 && g.maxPower >= 0
    && g.dayLen == g.sunset.time - g.sunrise.time
    && g.zenith == z1 + d / 2.0
    && g.dawnStart == z1 - d / 10.0
    && g.duskEnd == g.sunset.time as real + d / 10.0
    && g.polyFactor == -(g.maxPower as real) / Square(d / 2.0)
    && g.dawnSlope == g.maxPower as real / (d / 2.0 + d / 10.0) / 3.0
  }

  /** On a daylight configuration no derived time wraps around midnight. */
  lemma Shape(g: PvGenerator, sunrise: TimeOfDay, sunset: TimeOfDay, maxPower: int)
    requires BuiltFor(g, sunrise, sunset, maxPower)
    ensures Regular(g)
  {
    var d := (sunset.time - sunrise.time) as real;
    ShiftRealInRange(sunrise, d / 2.0);
    ShiftRealInRange(sunrise, -(d / 10.0));
    ShiftRealInRange(sunset, d / 10.0);
  }

  /** Dawn and dusk are equally far from the zenith: six tenths of the day. */
  lemma Span(g: PvGenerator)
    requires Regular(g)
    ensures g.zenith - g.dawnStart == g.duskEnd - g.zenith == 0.6 * g.dayLen as real
    ensures g.dawnStart < g.sunrise.time as real < g.zenith < g.sunset.time as real < g.duskEnd
  {
  }

  /** The parabola opens downwards, and its factor times the squared half day is `-maxPower`. */
  lemma PolyFactor(g: PvGenerator)
    requires Regular(g)
    ensures g.polyFactor <= 0.0
    ensures g.polyFactor * Square(g.dayLen as real / 2.0) == -(g.maxPower as real)
  {
    var h := g.dayLen as real / 2.0;
    MulPositive(h, h);
    Quotient(-(g.maxPower as real), Square(h));
    SignOfFactor(g.polyFactor, Square(h), -(g.maxPower as real));
  }

  lemma Quotient(a: real, b: real)
    requires b > 0.0
    ensures (a / b) * b == a
  {
  }

  /** A factor whose product with a positive number is not positive is not positive itself. */
  lemma SignOfFactor(k: real, s: real, p: real)
    requires s > 0.0 && k * s == p && p <= 0.0
    ensures k <= 0.0
  {
    if k > 0.0 {
      MulPositive(k, s);
    }
  }

  lemma MulPositive(a: real, b: real)
    requires a > 0.0 && b > 0.0
    ensures a * b > 0.0
  {
  }

  lemma NonNegativeQuotient(a: real, b: real)
    requires a >= 0.0 && b > 0.0
    ensures a / b >= 0.0 && (a / b) * b == a
  {
  }

  /** Around the zenith the parabola is `maxPower` plus the (non-positive) factor times the squared distance. */
  lemma PolynomialAroundZenith(g: PvGenerator, x: real)
    requires Regular(g)
    ensures Polynomial(g, x) == g.maxPower as real + g.polyFactor * Square(x - g.zenith)
  {
    var h := g.dayLen as real / 2.0;
    var u := x - g.zenith;
    var pf := g.polyFactor;
    assert x - g.sunrise.time as real == u + h;
    assert x - g.sunset.time as real == u - h;
    Difference(pf, u, h);
    PolyFactor(g);
  }

  /** `k * (u + h) * (u - h) == k * u^2 - k * h^2`. */
  lemma Difference(k: real, u: real, h: real)
    ensures k * (u + h) * (u - h) == k * Square(u) - k * Square(h)
  {
    assert (u + h) * (u - h) == u * u - h * h;
    assert k * (u + h) * (u - h) == k * ((u + h) * (u - h));
  }

  /** A non-positive factor times a square is not positive; and the larger the square, the smaller the product. */
  lemma ScaleSquares(k: real, a: real, b: real)
    requires k <= 0.0 && Square(a) <= Square(b)
    ensures k * Square(b) <= k * Square(a) <= 0.0
  {
    assert k * Square(b) - k * Square(a) == k * (Square(b) - Square(a));
    assert Square(a) >= 0.0;
  }

  /** The parabola never exceeds `maxPower`. */
  lemma PolynomialAtMost(g: PvGenerator, x: real)
    requires Regular(g)
    ensures Polynomial(g, x) <= g.maxPower as real
  {
    PolynomialAroundZenith(g, x);
    PolyFactor(g);
    ScaleSquares(g.polyFactor, 0.0, x - g.zenith);
  }

  /** The ramp's slope is not negative, and over the dawn-to-zenith distance it climbs a third of `maxPower`. */
  lemma SlopeSpan(g: PvGenerator)
    requires Regular(g)
    ensures g.dawnSlope >= 0.0
    ensures (g.zenith - g.dawnStart) * g.dawnSlope == g.maxPower as real / 3.0
  {
    var d := g.dayLen as real;
    var span := d / 2.0 + d / 10.0;
    var m := g.maxPower as real;
    assert span > 0.0 && span == g.zenith - g.dawnStart;
    assert g.dawnSlope == (m / span) / 3.0;
    Quotient(m, span);
    NonNegativeQuotient(m, span);
  }

  /** Between dawn and dusk the ramp lies in `[0, maxPower / 3]`. */
  lemma RampBounds(g: PvGenerator, x: real)
    requires Regular(g)
    requires g.dawnStart <= x <= g.duskEnd
    ensures 0.0 <= DawnOrDusk(g, x) <= g.maxPower as real / 3.0
  {
    if x < g.zenith {
      DawnRamp(g, x);
    } else {
      DuskRamp(g, x);
    }
  }

  lemma DawnRamp(g: PvGenerator, x: real)
    requires Regular(g)
    requires g.dawnStart <= x < g.zenith
    ensures 0.0 <= DawnOrDusk(g, x) <= g.maxPower as real / 3.0
  {
    SlopeSpan(g);
    RampAlgebra(x - g.dawnStart, g.zenith - g.dawnStart, g.dawnSlope, g.maxPower as real);
  }

  lemma DuskRamp(g: PvGenerator, x: real)
    requires Regular(g)
    requires g.zenith <= x <= g.duskEnd
    ensures 0.0 <= DawnOrDusk(g, x) <= g.maxPower as real / 3.0
  {
    Span(g);
    SlopeSpan(g);
    assert DawnOrDusk(g, x) == (g.duskEnd - x) * g.dawnSlope by {
      NegateDifference(x, g.duskEnd, g.dawnSlope);
    }
    RampAlgebra(g.duskEnd - x, g.zenith - g.dawnStart, g.dawnSlope, g.maxPower as real);
  }

  /** A distance within the span, times a slope that climbs `m / 3` over the span, lies in `[0, m / 3]`. */
  lemma RampAlgebra(dist: real, span: real, slope: real, m: real)
    requires 0.0 <= dist <= span && slope >= 0.0 && span * slope == m / 3.0
    ensures 0.0 <= dist * slope <= m / 3.0
  {
    MulMono(dist, span, slope);
  }

  lemma NegateDifference(a: real, b: real, k: real)
    ensures -(a - b) * k == (b - a) * k
  {
  }

  lemma Negate(a: real, k: real)
    ensures -a * k == (-a) * k == -(a * k)
  {
  }

  lemma MulMono(a: real, b: real, k: real)
    requires 0.0 <= a <= b && k >= 0.0
    ensures 0.0 <= a * k <= b * k
  {
    assert b * k - a * k == (b - a) * k;
  }

  /** Every value lies in `[0, maxPower]` (tests/pv_generation.py, lines 56-65). */
  lemma ValueBounds(g: PvGenerator, x: real)
    requires Regular(g)
    ensures 0.0 <= ValueAt(g, x) <= g.maxPower as real
  {
    if g.dawnStart <= x <= g.duskEnd {
      RampBounds(g, x);
      PolynomialAtMost(g, x);
    }
  }

  /** At the zenith the value is exactly `maxPower` (tests/pv_generation.py, lines 40-41). */
  lemma ValueAtZenith(g: PvGenerator)
    requires Regular(g)
    ensures ValueAt(g, g.zenith) == g.maxPower as real
  {
    Span(g);
    PolynomialAroundZenith(g, g.zenith);
    assert Square(g.zenith - g.zenith) == 0.0;
    RampBounds(g, g.zenith);
  }

  /** The parabola is not positive outside sunrise to sunset, in particular at dawn and dusk. */
  lemma PolynomialOutsideDay(g: PvGenerator, x: real)
    requires Regular(g)
    requires x <= g.sunrise.time as real || x >= g.sunset.time as real
    ensures Polynomial(g, x) <= 0.0
  {
    var h := g.dayLen as real / 2.0;
    var u := x - g.zenith;
    PolynomialAroundZenith(g, x);
    PolyFactor(g);
    assert h > 0.0 && (u <= -h || u >= h);
    OutsideVertex(g.maxPower as real, g.polyFactor, h, u);
  }

  /** `m + k * u^2 <= 0` once `|u|` reaches `h`, for a non-positive `k` with `k * h^2 == -m`. */
  lemma OutsideVertex(m: real, k: real, h: real, u: real)
    requires k <= 0.0 && k * Square(h) == -m && h > 0.0 && (u <= -h || u >= h)
    ensures m + k * Square(u) <= 0.0
  {
    var a := if u < 0.0 then -u else u;
    assert 0.0 < h <= a && Square(u) == a * a;
    MulMono(h, a, h);
    MulMono(h, a, a);
    ScaleSquares(k, h, u);
  }

  /** The curve meets the zero region without a jump: the value at dawn and at dusk is 0 (lines 17-22, 32-42). */
  lemma ZeroAtDawnAndDusk(g: PvGenerator)
    requires Regular(g)
    ensures ValueAt(g, g.dawnStart) == 0.0 && ValueAt(g, g.duskEnd) == 0.0
  {
    Span(g);
    PolynomialOutsideDay(g, g.dawnStart);
    PolynomialOutsideDay(g, g.duskEnd);
    assert DawnOrDusk(g, g.dawnStart) == 0.0;
    assert DawnOrDusk(g, g.duskEnd) == 0.0;
  }

  /** The curve is symmetric about the zenith (the golden table of tests/pv_generation.py, lines 20-54). */
  lemma Symmetric(g: PvGenerator, k: real)
    requires Regular(g)
    ensures ValueAt(g, g.zenith + k) == ValueAt(g, g.zenith - k)
  {
    Span(g);
    assert Polynomial(g, g.zenith + k) == Polynomial(g, g.zenith - k) by {
      PolynomialAroundZenith(g, g.zenith + k);
      PolynomialAroundZenith(g, g.zenith - k);
      assert Square(g.zenith + k - g.zenith) == Square(g.zenith - k - g.zenith);
    }
    assert DawnOrDusk(g, g.zenith + k) == DawnOrDusk(g, g.zenith - k) by {
      RampSymmetric(g, k);
    }
  }

  /** The ramp climbs from dawn to the zenith exactly as it falls from the zenith to dusk. */
  lemma RampSymmetric(g: PvGenerator, k: real)
    requires Regular(g)
    ensures DawnOrDusk(g, g.zenith + k) == DawnOrDusk(g, g.zenith - k)
  {
    Span(g);
    var span := g.zenith - g.dawnStart;
    if k > 0.0 {
      Negate(g.zenith + k - g.duskEnd, g.dawnSlope);
      assert DawnOrDusk(g, g.zenith + k) == (span - k) * g.dawnSlope;
      assert DawnOrDusk(g, g.zenith - k) == (span - k) * g.dawnSlope;
    } else if k < 0.0 {
      Negate(g.zenith - k - g.duskEnd, g.dawnSlope);
      assert DawnOrDusk(g, g.zenith - k) == (span + k) * g.dawnSlope;
      assert DawnOrDusk(g, g.zenith + k) == (span + k) * g.dawnSlope;
    }
  }

  // ---------------------------------------------------------------------------
  // The weather factor

  /** Both walks of `weather`: values in `[0, 10000]`, steps of at most 10, a new target after at most 100 values. */
  const WeatherWalk: WalkConfig := WalkConfig(0, 10000, 10, 100)

  /** `1 - (a / 10000) * (b / 10000) * noise_factor` for the two walk values `a` and `b`. */
  function Factor(a: int, b: int, noiseFactor: real): (r: real)
    ensures noiseFactor == 0.0 || a == 0 || b == 0 ==> r == 1.0
  {
    1.0 - ((a as real / 10000.0) * (b as real / 10000.0)) * noiseFactor
  }

  /** For a noise factor in `[0, 1]` the weather factor lies in `[1 - noise_factor, 1]` (lines 45-53; tests/pv_generation.py, lines 86-90). */
  lemma FactorBounds(a: int, b: int, noiseFactor: real)
    requires 0 <= a <= 10000 && 0 <= b <= 10000 && 0.0 <= noiseFactor <= 1.0
    ensures 1.0 - noiseFactor <= Factor(a, b, noiseFactor) <= 1.0
  {
    var p := a as real / 10000.0;
    var q := b as real / 10000.0;
    MulMono(q, 1.0, p);
    MulMono(p * q, 1.0, noiseFactor);
  }

  /**
   * The factor is 1 exactly when there is no noise or one of the walks is at
   * 0: the documented "always 1 for noise 0" holds, but its converse does not.
   */
  lemma FactorIsOne(a: int, b: int, noiseFactor: real)
    ensures Factor(a, b, noiseFactor) == 1.0 <==> (noiseFactor == 0.0 || a == 0 || b == 0)
  {
    var p := a as real / 10000.0;
    var q := b as real / 10000.0;
    if Factor(a, b, noiseFactor) == 1.0 {
      assert (p * q) * noiseFactor == 0.0;
      ZeroProduct(p * q, noiseFactor);
      if p * q == 0.0 {
        ZeroProduct(p, q);
      }
    }
  }

  lemma ZeroProduct(x: real, y: real)
    requires x * y == 0.0
    ensures x == 0.0 || y == 0.0
  {
  }

  /** One `next()` of `weather`: the two walks' new states, the factor, and the position in the shared stream. */
  datatype WeatherOutcome = WeatherOutcome(first: WalkState, second: WalkState, factor: real, cursor: nat)

  /**
   * One iteration of `weather`'s loop (lines 69-71): a step of `rng1`, then a
   * step of `rng2` reading the shared stream after `rng1`'s draws.
   */
  function WeatherStep(noiseFactor: real, s1: WalkState, s2: WalkState, stream: nat -> int, cursor: nat): (w: WeatherOutcome)
    requires InRange(WeatherWalk, s1) && InRange(WeatherWalk, s2)
    ensures InRange(WeatherWalk, w.first) && InRange(WeatherWalk, w.second)
  {
    StepSucceeds(WeatherWalk, s1, stream, cursor);
    StepInRange(WeatherWalk, s1, stream, cursor);
    var o1 := Step(WeatherWalk, s1, stream, cursor);
    StepSucceeds(WeatherWalk, s2, stream, cursor + o1.draws);
    StepInRange(WeatherWalk, s2, stream, cursor + o1.draws);
    var o2 := Step(WeatherWalk, s2, stream, cursor + o1.draws);
    WeatherOutcome(o1.state, o2.state, Factor(o1.output, o2.output, noiseFactor), cursor + o1.draws + o2.draws)
  }

  /** Every weather step keeps both walks in range and, for a noise factor in `[0, 1]`, yields a factor in `[1 - noise_factor, 1]`. */
  lemma WeatherStepBounds(noiseFactor: real, s1: WalkState, s2: WalkState, stream: nat -> int, cursor: nat)
    requires InRange(WeatherWalk, s1) && InRange(WeatherWalk, s2) && 0.0 <= noiseFactor <= 1.0
    ensures var w := WeatherStep(noiseFactor, s1, s2, stream, cursor);
      && InRange(WeatherWalk, w.first) && InRange(WeatherWalk, w.second)
      && 1.0 - noiseFactor <= w.factor <= 1.0
  {
    var o1 := Step(WeatherWalk, s1, stream, cursor);
    StepInRange(WeatherWalk, s1, stream, cursor);
    StepSucceeds(WeatherWalk, s1, stream, cursor);
    var o2 := Step(WeatherWalk, s2, stream, cursor + o1.draws);
    StepInRange(WeatherWalk, s2, stream, cursor + o1.draws);
    StepSucceeds(WeatherWalk, s2, stream, cursor + o1.draws);
    FactorBounds(o1.output, o2.output, noiseFactor);
  }

  /** With no noise every weather step yields exactly 1 (lines 51-52). */
  lemma WeatherNoNoise(s1: WalkState, s2: WalkState, stream: nat -> int, cursor: nat)
    requires InRange(WeatherWalk, s1) && InRange(WeatherWalk, s2)
    ensures WeatherStep(0.0, s1, s2, stream, cursor).factor == 1.0
  {
    var o1 := Step(WeatherWalk, s1, stream, cursor);
    var o2 := Step(WeatherWalk, s2, stream, cursor + o1.draws);
    FactorIsOne(o1.output, o2.output, 0.0);
  }

  /** The `weather(noise_factor, randomness)` generator: two walks drawing from one source. */
  class Weather {
    const noiseFactor: real
    const randomness: Randomness
    const rng1: ContinuousPrng
    const rng2: ContinuousPrng

    /** Two distinct walks with the weather configuration, both on `randomness`, both in range and still running. */
    ghost predicate Valid()
      reads this, rng1, rng2
    {
      && rng1 != rng2
      && rng1.randomness == randomness && rng2.randomness == randomness
      && rng1.config == WeatherWalk && rng2.config == WeatherWalk
      && rng1.Valid() && rng2.Valid()
      && !rng1.finished && !rng2.finished
      && InRange(WeatherWalk, rng1.State()) && InRange(WeatherWalk, rng2.State())
    }

    /** `weather(noise_factor, randomness)`: two fresh walks; nothing is drawn yet. */
    constructor (noiseFactor: real, randomness: Randomness)
      ensures Valid() && fresh(rng1) && fresh(rng2)
      ensures this.noiseFactor == noiseFactor && this.randomness == randomness
      ensures rng1.State() == Fresh && rng2.State() == Fresh
    {
      this.noiseFactor := noiseFactor;
      this.randomness := randomness;
      rng1 := new ContinuousPrng(WeatherWalk, randomness);
      rng2 := new ContinuousPrng(WeatherWalk, randomness);
    }

    /** `next(weather_gen)`: one step of `rng1`, then one of `rng2`, and their factor. */
    method Next() returns (factor: real)
      requires Valid()
      modifies rng1, rng2, randomness
      ensures Valid()
      ensures var w := WeatherStep(noiseFactor, old(rng1.State()), old(rng2.State()), randomness.stream, old(randomness.drawn));
        factor == w.factor && rng1.State() == w.first && rng2.State() == w.second && randomness.drawn == w.cursor
    {
      ghost var s1, s2, k := rng1.State(), rng2.State(), randomness.drawn;
      StepSucceeds(WeatherWalk, s1, randomness.stream, k);
      StepInRange(WeatherWalk, s1, randomness.stream, k);
      var a := rng1.Next();
      ghost var k1 := randomness.drawn;
      StepSucceeds(WeatherWalk, s2, randomness.stream, k1);
      StepInRange(WeatherWalk, s2, randomness.stream, k1);
      var b := rng2.Next();
      factor := Factor(a.value, b.value, noiseFactor);
    }
  }
}
