/**
 * The receiving side (simulator.py): the parser of the meter's
 * `"<timestamp>:<value>"` messages, the record `receive` writes for each of
 * them, and the file's own copy of `PvGenerator` (lines 121-159).
 */
module Simulator {
  import opened Wrappers
  import opened PyText
  import opened Time
  import opened Prng
  import opened PvGeneration
  import Meter

  // ---------------------------------------------------------------------------
  // parse_meter_message

  /**
   * The errors `parse_meter_message` raises: a byte outside ASCII
   * (`UnicodeDecodeError`), a field count other than two when the list is
   * unpacked, and a field `int()` rejects (both `ValueError`).
   */
  datatype MessageError = NotAscii | FieldCount(count: nat) | NotAnInteger

  /**
   * `parse_meter_message(msg)` (lines 116-118): decode as ASCII, split at
   * `:`, expect exactly two fields and read both as integers; the first is
   * wrapped onto the clock face by `TimeOfDay`.
   */
  function ParseMeterMessage(msg: seq<byte>): (r: Result<(TimeOfDay, int), MessageError>)
    ensures AsciiDecode(msg).Failure? <==> r == Failure(NotAscii)
    ensures r.Success? ==> exists i :: 0 <= i < |msg| && msg[i] == ':' as int && OnlyColonAt(msg, i)
  {
    match AsciiDecode(msg)
    case Failure(_) => Failure(NotAscii)
    case Success(text) =>
      var fields := Split(text, ':');
      if |fields| != 2 then Failure(FieldCount(|fields|))
      else
        match (ParseInt(fields[0]), ParseInt(fields[1]))
        case (Success(timestamp), Success(value)) =>
          TwoFields(msg, text, fields[0], fields[1]);
          Success((FromSeconds(timestamp), value))
        case _ => Failure(NotAnInteger)
  }

  /** `msg` holds the byte of `:` at position `i` and nowhere else. */
  predicate OnlyColonAt(msg: seq<byte>, i: int) {
    forall j :: 0 <= j < |msg| && msg[j] == ':' as int ==> j == i
  }

  /** Text that splits into two fields is those fields around its only colon. */
  lemma TwoFields(msg: seq<byte>, text: string, a: string, b: string)
    requires AsciiDecode(msg) == Success(text) && Split(text, ':') == [a, b]
    ensures |a| < |msg| && msg[|a|] == ':' as int && OnlyColonAt(msg, |a|)
  {
    assert [a, b][1..] == [b];
    assert Join([a, b], ':') == a + [':'] + b;
    assert text == a + [':'] + b;
    assert ':' !in a && ':' !in b by {
      assert Split(text, ':')[0] == a && Split(text, ':')[1] == b;
    }
    forall j | 0 <= j < |msg| && msg[j] == ':' as int
      ensures j == |a|
    {
      assert text[j] == ':';
    }
  }

  /**
   * Round trip with the meter (meter.py, line 67): the bytes of the body
   * `f'{t}:{v}'` parse back to `TimeOfDay(t)` and `v`, for every integer `t`
   * and `v`; for `t` in `[0, 86400)` the time is `t` itself.
   */
  lemma ParseMeterBody(t: int, v: int)
    ensures ParseMeterMessage(Encode(Meter.MeterBody(t, v))) == Success((FromSeconds(t), v))
    ensures 0 <= t < SecsPerDay ==> ParseMeterMessage(Encode(Meter.MeterBody(t, v))) == Success((TimeOfDay(t), v))
  {
    BodyFields(t, v);
    IntToStringRoundTrip(t);
    IntToStringRoundTrip(v);
    if 0 <= t < SecsPerDay {
      FromSecondsInRange(t);
    }
  }

  /** The encoded body decodes to itself and splits into the two numbers. */
  lemma BodyFields(t: int, v: int)
    ensures AsciiDecode(Encode(Meter.MeterBody(t, v))) == Success(Meter.MeterBody(t, v))
    ensures Split(Meter.MeterBody(t, v), ':') == [IntToString(t), IntToString(v)]
  {
    var a, b := IntToString(t), IntToString(v);
    var body := Meter.MeterBody(t, v);
    assert body == a + [':'] + b;
    DecodeEncode(body);
    NoColon(t);
    NoColon(v);
    SplitAfterField(a, ':', b);
    SplitField(b, ':');
  }

  lemma NoColon(n: int)
    ensures ':' !in IntToString(n)
  {
    var s := IntToString(n);
    forall i | 0 <= i < |s|
      ensures s[i] != ':'
    {
    }
  }

  /** A message whose text has other than one colon is rejected by its field count. */
  lemma ParseRejectsFieldCount(parts: seq<string>)
    requires |parts| >= 1 && |parts| != 2
    requires forall i :: 0 <= i < |parts| ==> ':' !in parts[i]
    requires IsAscii(Join(parts, ':'))
    ensures ParseMeterMessage(Encode(Join(parts, ':'))) == Failure(FieldCount(|parts|))
  {
    DecodeEncode(Join(parts, ':'));
    SplitJoin(parts, ':');
  }

  /** Two fields of which one is not an integer literal are rejected. */
  lemma ParseRejectsNonNumeric(a: string, b: string)
    requires ':' !in a && ':' !in b && IsAscii(a + ":" + b)
    requires ParseInt(a).Failure? || ParseInt(b).Failure?
    ensures ParseMeterMessage(Encode(a + ":" + b)) == Failure(NotAnInteger)
  {
    DecodeEncode(a + ":" + b);
    SplitAfterField(a, ':', b);
    SplitField(b, ':');
  }

  // ---------------------------------------------------------------------------
  // receive

  /** One line of the output file: the time, the meter's value, the PV value and their sum. */
  datatype Record = Record(time: TimeOfDay, meter: int, pv: int, sum: int)

  /** The PV value of `receive` (line 96): the curve's value scaled by the weather factor and rounded. */
  function PvValue(value: real, factor: real): (r: int)
    ensures -0.5 <= r as real - value * factor <= 0.5
  {
    RoundHalfEven(value * factor)
  }

  /** A curve value in `[0, m]` scaled by a factor in `[0, 1]` rounds into `[0, m]`. */
  lemma PvValueBounds(value: real, factor: real, m: int)
    requires 0.0 <= value <= m as real && 0.0 <= factor <= 1.0
    ensures 0 <= PvValue(value, factor) <= m
  {
    MulMono(factor, 1.0, value);
    assert 1.0 * value == value && factor * value == value * factor;
    assert 0.0 <= value * factor <= m as real;
    RoundBetween(value * factor, 0, m);
  }

  /**
   * For a regular generator and a noise factor in `[0, 1]`, the PV value
   * `receive` computes with the next weather factor lies in `[0, max_power]`.
   */
  lemma ReceivedPvBounds(g: PvGenerator, time: TimeOfDay, noiseFactor: real, s1: WalkState, s2: WalkState, stream: nat -> int, cursor: nat)
    requires Regular(g) && 0.0 <= noiseFactor <= 1.0
    requires InRange(WeatherWalk, s1) && InRange(WeatherWalk, s2)
    ensures 0 <= PvValue(GetValue(g, time), WeatherStep(noiseFactor, s1, s2, stream, cursor).factor) <= g.maxPower
  {
    var x := GetValue(g, time);
    assert 0.0 <= x <= g.maxPower as real by {
      ValueBounds(g, time.time as real);
    }
    WeatherStepBounds(noiseFactor, s1, s2, stream, cursor);
    PvValueBounds(x, WeatherStep(noiseFactor, s1, s2, stream, cursor).factor, g.maxPower);
  }

  /** The record of one message: the parsed time and value, the PV value, their sum. */
  function MakeRecord(time: TimeOfDay, meter: int, pv: int): (r: Record)
    ensures r.sum - r.meter == r.pv && r.time == time && r.meter == meter
  {
    Record(time, meter, pv, meter + pv)
  }

  /**
   * The state `main` sets up for `receive` (lines 89-103): the generator, the
   * weather and the records written so far. The file, the broker and the
   * line format are not part of this model.
   */
  class Receiver {
    const generator: PvGenerator
    const weather: Weather
    var records: seq<Record>

    /** The weather can step, and every record's sum is meter plus PV. */
    ghost predicate Valid()
      reads this, weather, weather.rng1, weather.rng2
    {
      && weather.Valid()
      && (forall i :: 0 <= i < |records| ==> records[i].sum == records[i].meter + records[i].pv)
    }

    /** The generator and weather of `main`, before any message arrives. */
    constructor (generator: PvGenerator, noiseFactor: real, randomness: Randomness)
      ensures Valid() && records == []
      ensures this.generator == generator && weather.noiseFactor == noiseFactor && weather.randomness == randomness
      ensures weather.rng1.State() == Fresh && weather.rng2.State() == Fresh
    {
      this.generator := generator;
      weather := new Weather(noiseFactor, randomness);
      records := [];
    }

    /**
     * `receive(body)` (lines 94-103): parse the message, take the next weather
     * factor, and record the PV value and the sum. A message that does not
     * parse raises before the weather moves and nothing is written.
     */
    method Receive(body: seq<byte>) returns (r: Result<Record, MessageError>)
      requires Valid()
      modifies this, weather.rng1, weather.rng2, weather.randomness
      ensures Valid()
      ensures r.Failure? ==>
        && ParseMeterMessage(body) == Failure(r.error)
        && records == old(records)
        && weather.rng1.State() == old(weather.rng1.State()) && weather.rng2.State() == old(weather.rng2.State())
        && weather.randomness.drawn == old(weather.randomness.drawn)
      ensures r.Success? ==> ParseMeterMessage(body).Success?
      ensures r.Success? && ParseMeterMessage(body).Success? ==>
        var (time, meter) := ParseMeterMessage(body).value;
        var w := WeatherStep(weather.noiseFactor, old(weather.rng1.State()), old(weather.rng2.State()),
          weather.randomness.stream, old(weather.randomness.drawn));
        && r.value == MakeRecord(time, meter, PvValue(GetValue(generator, time), w.factor))
        && records == old(records) + [r.value]
        && weather.rng1.State() == w.first && weather.rng2.State() == w.second
        && weather.randomness.drawn == w.cursor
    {
      var parsed := ParseMeterMessage(body);
      if parsed.Failure? {
        return Failure(parsed.error);
      }
      var (time, meter) := parsed.value;
      var record := Write(time, meter);
      r := Success(record);
    }

    /** The part of `receive` after parsing: the next weather factor, the PV value, the sum, and the written record. */
    method Write(time: TimeOfDay, meter: int) returns (record: Record)
      requires Valid()
      modifies this, weather.rng1, weather.rng2, weather.randomness
      ensures Valid()
      ensures var w := WeatherStep(weather.noiseFactor, old(weather.rng1.State()), old(weather.rng2.State()),
          weather.randomness.stream, old(weather.randomness.drawn));
        && record == MakeRecord(time, meter, PvValue(GetValue(generator, time), w.factor))
        && records == old(records) + [record]
        && weather.rng1.State() == w.first && weather.rng2.State() == w.second
        && weather.randomness.drawn == w.cursor
    {
      var factor := weather.Next();
      var pv := PvValue(GetValue(generator, time), factor);
      record := MakeRecord(time, meter, pv);
      records := records + [record];
    }
  }

  // ---------------------------------------------------------------------------
  // The copy of PvGenerator in simulator.py

  /**
   * `get_dawn_or_dusk_value` as written at lines 148-153: the falling ramp is
   * `(x - dusk_end) * (-dawn_slope)`, which is the ramp of src/pv_generation.py.
   */
  function CopyDawnOrDusk(g: PvGenerator, x: real): (r: real)
    ensures r == DawnOrDusk(g, x)
  {
    if x < g.zenith then (x - g.dawnStart) * g.dawnSlope
    else
      Negate(x - g.duskEnd, g.dawnSlope);
      (x - g.duskEnd) * (-g.dawnSlope)
  }

  /**
   * `get_value` as written at lines 139-146: the second counts are compared
   * directly instead of through `TimeOfDay.__lt__`/`__gt__`, and every value
   * is the one src/pv_generation.py computes. (`__init__` needs no copy:
   * `sunrise + -dawn_len` is the same wrapped float as `sunrise - dawn_len`.)
   */
  function CopyGetValue(g: PvGenerator, time: TimeOfDay): (r: real)
    ensures r == GetValue(g, time)
  {
    var x := time.time as real;
    if x < g.dawnStart || x > g.duskEnd then 0.0
    else RealMax(Polynomial(g, x), CopyDawnOrDusk(g, x))
  }
}
