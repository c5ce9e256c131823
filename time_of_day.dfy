/**
 * The wrap-around clock of the simulator: a time of day with second
 * resolution, always normalised into [0, 86400).
 */
module Time {
  import opened Wrappers
  import opened PyText

  const SecsPerDay: int := 60 * 60 * 24

  type DaySecond = n: int | 0 <= n < SecsPerDay

  /** A time of day. Two values are equal exactly when their seconds are. */
  datatype TimeOfDay = TimeOfDay(time: DaySecond)

  // ---------------------------------------------------------------------------
  // Python's integer and float remainders

  /** Python's `a // b`: the quotient rounded toward minus infinity. */
  function PyFloorDiv(a: int, b: int): int
    requires b != 0
  {
    if b > 0 then a / b else (-a) / (-b)
  }

  /** Python's `a % b` on integers: `a - b * (a // b)`, which takes the sign of `b`. */
  function PyMod(a: int, b: int): (r: int)
    requires b != 0
    ensures b > 0 ==> 0 <= r < b
    ensures b < 0 ==> b < r <= 0
  {
    a - b * PyFloorDiv(a, b)
  }

  /** Python's `x % y` on floats with `y > 0`, taken as exact reals. */
  function FloatMod(x: real, y: real): (r: real)
    requires y > 0.0
    ensures 0.0 <= r < y
  {
    var q := (x / y).Floor as real;
    ScaleBounds(x, y, x / y, q);
    x - y * q
  }

  lemma ScaleBounds(x: real, y: real, z: real, q: real)
    requires y > 0.0 && z == x / y && q <= z < q + 1.0
    ensures 0.0 <= x - y * q < y
  {
    assert y * z == x;
    var q1 := q + 1.0;
    MulStrict(y, z, q1);
    assert y * z < y * q1;
    assert y * q1 == y * q + y;
    assert y * z - y * q == y * (z - q);
  }

  lemma MulStrict(y: real, a: real, b: real)
    requires y > 0.0 && a < b
    ensures y * a < y * b
  {
    assert y * b - y * a == y * (b - a);
  }

  function Abs(n: int): nat {
    if n < 0 then -n else n
  }

  /** A quotient and remainder in [0, |b|) are the ones Dafny's `/` and `%` compute. */
  lemma EuclideanUnique(a: int, b: int, q: int, r: int)
    requires b != 0 && a == q * b + r && 0 <= r < Abs(b)
    ensures r == a % b && q == a / b
  {
    var q0, r0 := a / b, a % b;
    var d := q - q0;
    Distribute(q, q0, b);
    assert d * b == r0 - r;
    if d != 0 {
      MulAtLeast(d, b);
    }
  }

  lemma Distribute(x: int, y: int, b: int)
    ensures (x - y) * b == x * b - y * b
  {
  }

  /** A nonzero multiple of `b` is at least as far from 0 as `b`. */
  lemma MulAtLeast(d: int, b: int)
    requires d != 0
    ensures Abs(d * b) >= Abs(b)
  {
    var e := Abs(d);
    assert e >= 1;
    assert Abs(d * b) == e * Abs(b) by {
      if d < 0 { assert d * b == -(e * b); }
      if b < 0 { assert e * b == -(e * -b); }
    }
    assert e * Abs(b) == (e - 1) * Abs(b) + Abs(b);
    assert (e - 1) * Abs(b) >= 0;
  }

  /**
   * `rem_euclid(lhs, rhs)`: the least nonnegative remainder. It is exactly
   * Dafny's Euclidean `lhs % rhs`, for divisors of either sign.
   */
  function RemEuclid(lhs: int, rhs: int): (r: int)
    requires rhs != 0
    ensures 0 <= r < Abs(rhs)
    ensures r == lhs % rhs
  {
    var r := PyMod(lhs, rhs);
    var q := PyFloorDiv(lhs, rhs);
    assert lhs == q * rhs + r;
    if r < 0 then
      assert rhs < 0;
      EuclideanUnique(lhs, rhs, q + 1, r - rhs);
      r - rhs
    else
      EuclideanUnique(lhs, rhs, q, r);
      r
  }

  // ---------------------------------------------------------------------------
  // Construction

  /** `TimeOfDay(seconds)`: any integer, wrapped onto the clock face. */
  function FromSeconds(seconds: int): (t: TimeOfDay)
    ensures (seconds - t.time) % SecsPerDay == 0
  {
    var n := RemEuclid(seconds, SecsPerDay);
    EuclideanUnique(seconds - n, SecsPerDay, seconds / SecsPerDay, 0);
    TimeOfDay(n)
  }

  /** A second count already on the clock face is kept as it is. */
  lemma FromSecondsInRange(n: int)
    requires 0 <= n < SecsPerDay
    ensures FromSeconds(n).time == n
  {
    EuclideanUnique(n, SecsPerDay, 0, n);
  }

  /** Adding a whole day does not change the time. */
  lemma {:induction false} FromSecondsPeriodic(n: int)
    ensures FromSeconds(n + SecsPerDay) == FromSeconds(n)
  {
    EuclideanUnique(n + SecsPerDay, SecsPerDay, n / SecsPerDay + 1, n % SecsPerDay);
  }

  /** `t.seconds()`: the second count, which rebuilds the same time. */
  function Seconds(t: TimeOfDay): (n: int)
    ensures 0 <= n < SecsPerDay
    ensures FromSeconds(n) == t
  {
    FromSecondsInRange(t.time);
    t.time
  }

  /**
   * `from_hms(h, m, s)` as the additive combination the method's documentation
   * and tests describe: each field wrapped into its own period, then
   * `h * 3600 + m * 60 + s`. Reading the result back with `hms()` gives the
   * wrapped fields.
   */
  function FromHms(h: int, m: int, s: int): (t: TimeOfDay)
    ensures Hms(t) == (h % 24, m % 60, s % 60)
  {
    var hh, mm, ss := RemEuclid(h, 24), RemEuclid(m, 60), RemEuclid(s, 60);
    var t := FromSeconds(hh * 3600 + mm * 60 + ss);
    FromSecondsInRange(hh * 3600 + mm * 60 + ss);
    HmsUnique(t, hh, mm, ss);
    t
  }

  /** `from_hms(h, m, s)` exactly as line 40 of the source computes it: `h * 3600 + m * 60 * s`. */
  function FromHmsAsWritten(h: int, m: int, s: int): (t: TimeOfDay)
    ensures Hms(t).2 == 0
  {
    var hh, mm, ss := RemEuclid(h, 24), RemEuclid(m, 60), RemEuclid(s, 60);
    var p := mm * ss;
    assert hh * 3600 + mm * 60 * ss == 60 * (hh * 60 + p);
    var t := FromSeconds(hh * 3600 + mm * 60 * ss);
    WrapKeepsMinutes(hh * 60 + p);
    t
  }

  /** Wrapping a whole number of minutes into the day leaves a whole number of minutes, so no seconds. */
  lemma WrapKeepsMinutes(k: int)
    ensures Hms(FromSeconds(60 * k)).2 == 0
  {
    var t := FromSeconds(60 * k);
    var q := (60 * k - t.time) / 86400;
    assert 60 * k - t.time == q * 86400;
    var (h, m, s) := Hms(t);
    assert s == 60 * (k - 1440 * q - 60 * h - m);
  }

  /**
   * As written, `from_hms(*t.hms())` gives back `t` exactly for the whole
   * hours: a time with seconds comes back without them, and one with minutes
   * but no seconds comes back without its minutes.
   */
  lemma FromHmsAsWrittenKeeps(t: TimeOfDay)
    ensures FromHmsAsWritten(Hms(t).0, Hms(t).1, Hms(t).2) == t <==> Hms(t).1 == 0 && Hms(t).2 == 0
  {
    var (h, m, s) := Hms(t);
    EuclideanUnique(h, 24, 0, h);
    EuclideanUnique(m, 60, 0, m);
    EuclideanUnique(s, 60, 0, s);
    var u := FromHmsAsWritten(h, m, s);
    if u == t {
      assert s == 0;
      assert m * 60 * s == 0;
      FromSecondsInRange(h * 3600);
    }
    if m == 0 && s == 0 {
      assert m * 60 * s == 0;
      FromSecondsInRange(h * 3600);
    }
  }

  /**
   * The formula as written multiplies minutes by seconds: `from_hms(2, 5, 8)`
   * gives 02:40:00 where the test suite expects 02:05:08 (tests/time_of_day.py,
   * line 24).
   */
  lemma FromHmsAsWrittenMisses()
    ensures FromHmsAsWritten(2, 5, 8).time == 9600
    ensures FromHms(2, 5, 8).time == 7508
  {
    FromSecondsInRange(9600);
    FromHmsIsSum(2, 5, 8);
  }

  /**
   * As written, every time with zero seconds loses its minutes: "08:30" reads
   * as 08:00, and `from_hms(m=-119)` is midnight where tests/time_of_day.py,
   * line 23, expects 00:01:00.
   */
  lemma FromHmsAsWrittenDropsMinutes(h: int, m: int)
    ensures FromHmsAsWritten(h, m, 0) == FromHms(h, 0, 0)
  {
    AsWrittenSum(h, m, 0);
    var mm := m % 60;
    assert mm * 60 * (0 % 60) == 0;
    FromHmsIsSum(h, 0, 0);
    FromSecondsInRange(h % 24 * 3600);
  }

  /**
   * As written, every time with zero minutes loses its seconds: "08:00:30"
   * reads as 08:00, and `from_hms(s=-1)` is midnight where
   * tests/time_of_day.py, line 22, expects 00:00:59.
   */
  lemma FromHmsAsWrittenDropsSeconds(h: int, s: int)
    ensures FromHmsAsWritten(h, 0, s) == FromHms(h, 0, 0)
  {
    AsWrittenSum(h, 0, s);
    var ss := s % 60;
    assert 0 % 60 == 0;
    assert 0 * 60 * ss == 0;
    FromHmsIsSum(h, 0, 0);
    FromSecondsInRange(h % 24 * 3600);
  }

  lemma AsWrittenSum(h: int, m: int, s: int)
    ensures FromHmsAsWritten(h, m, s) == FromSeconds(h % 24 * 3600 + m % 60 * 60 * (s % 60))
  {
  }

  /** The corrected `from_hms` is the sum of the wrapped fields, with no further wrap needed. */
  lemma FromHmsIsSum(h: int, m: int, s: int)
    ensures FromHms(h, m, s).time == h % 24 * 3600 + m % 60 * 60 + s % 60
  {
    FromSecondsInRange(h % 24 * 3600 + m % 60 * 60 + s % 60);
  }

  // ---------------------------------------------------------------------------
  // Reading a time back

  /**
   * `t.hms()`: `int(time / 3600)`, `int(time / 60 % 60)` (float division and
   * float remainder, then truncation) and `int(time % 60)`. The three fields
   * are in range and recombine to the second count.
   */
  function Hms(t: TimeOfDay): (r: (int, int, int))
    ensures 0 <= r.0 < 24 && 0 <= r.1 < 60 && 0 <= r.2 < 60
    ensures r.0 * 3600 + r.1 * 60 + r.2 == t.time
  {
    var x := t.time as real;
    var h := Trunc(x / 3600.0);
    var minutes := FloatMod(x / 60.0, 60.0);
    assert (x / 60.0 / 60.0).Floor == h;
    var m := Trunc(minutes);
    var s := PyMod(t.time, 60);
    assert t.time - s == 60 * PyFloorDiv(t.time, 60);
    (h, m, s)
  }

  /** The fields of `hms()` are the only in-range fields that add up to the time. */
  lemma HmsUnique(t: TimeOfDay, h: int, m: int, s: int)
    requires 0 <= h < 24 && 0 <= m < 60 && 0 <= s < 60
    requires h * 3600 + m * 60 + s == t.time
    ensures Hms(t) == (h, m, s)
  {
    var (h', m', s') := Hms(t);
    assert h' == h;
    assert m' == m;
  }

  /** `from_hms` after `hms` is the identity. */
  lemma FromHmsOfHms(t: TimeOfDay)
    ensures FromHms(Hms(t).0, Hms(t).1, Hms(t).2) == t
  {
    var (h, m, s) := Hms(t);
    EuclideanUnique(h, 24, 0, h);
    EuclideanUnique(m, 60, 0, m);
    EuclideanUnique(s, 60, 0, s);
    FromHmsIsSum(h, m, s);
  }

  /** `str(n)` with a leading zero below 10, as `__str__` pads each field. */
  function Pad2(n: nat): (r: string)
    requires n < 100
    ensures |r| == 2 && IsDigit(r[0]) && IsDigit(r[1])
    ensures DigitsValue(r) == n
  {
    if n < 10 then
      assert DigitsValue("0") == 0;
      assert ("0" + NatToString(n))[..1] == "0";
      "0" + NatToString(n)
    else NatToString(n)
  }

  /**
   * `str(t)`: `HH:MM:SS`, eight characters, each field two digits that read
   * back as the corresponding field of `hms()`.
   */
  function ToString(t: TimeOfDay): (r: string)
    ensures |r| == 8 && r[2] == ':' && r[5] == ':'
    ensures forall i :: 0 <= i < 8 && i != 2 && i != 5 ==> IsDigit(r[i])
    ensures DigitsValue(r[0..2]) == Hms(t).0
    ensures DigitsValue(r[3..5]) == Hms(t).1
    ensures DigitsValue(r[6..8]) == Hms(t).2
  {
    var (h, m, s) := Hms(t);
    var r := Pad2(h) + ":" + Pad2(m) + ":" + Pad2(s);
    assert r[0..2] == Pad2(h) && r[3..5] == Pad2(m) && r[6..8] == Pad2(s);
    r
  }

  /** A case the test suite checks for `str` (tests/time_of_day.py, line 15): -1 wraps to the last second. */
  lemma ToStringWraps()
    ensures ToString(FromSeconds(-1)) == "23:59:59"
  {
    EuclideanUnique(-1, SecsPerDay, -1, 86399);
    HmsUnique(FromSeconds(-1), 23, 59, 59);
    assert Pad2(23) == "23" && Pad2(59) == "59";
  }

  /** A case the test suite checks for `str` (tests/time_of_day.py, line 13): 250000 s is 21:26:40. */
  lemma ToStringPastOneDay()
    ensures ToString(FromSeconds(250000)) == "21:26:40"
  {
    EuclideanUnique(250000, SecsPerDay, 2, 77200);
    HmsUnique(FromSeconds(250000), 21, 26, 40);
    assert Pad2(21) == "21" && Pad2(26) == "26" && Pad2(40) == "40";
  }

  // ---------------------------------------------------------------------------
  // Arithmetic and order

  /** `t + seconds`: moves the clock forward, wrapping at midnight. */
  function Add(t: TimeOfDay, seconds: int): (r: TimeOfDay)
    ensures (t.time + seconds - r.time) % SecsPerDay == 0
  {
    var n := RemEuclid(t.time + seconds, SecsPerDay);
    FromSecondsInRange(n);
    EuclideanUnique(t.time + seconds - n, SecsPerDay, (t.time + seconds) / SecsPerDay, 0);
    FromSeconds(n)
  }

  /** `t - seconds`: moves the clock backward, wrapping at midnight. */
  function Sub(t: TimeOfDay, seconds: int): (r: TimeOfDay)
    ensures (t.time - seconds - r.time) % SecsPerDay == 0
  {
    var n := RemEuclid(t.time - seconds, SecsPerDay);
    FromSecondsInRange(n);
    EuclideanUnique(t.time - seconds - n, SecsPerDay, (t.time - seconds) / SecsPerDay, 0);
    FromSeconds(n)
  }

  /** On the clock face, a time is determined by its class modulo one day. */
  lemma SameClass(a: TimeOfDay, b: TimeOfDay, k: int)
    requires a.time - b.time == k * SecsPerDay
    ensures a == b
  {
    if k > 0 {
      MulAtLeast(k, SecsPerDay);
    } else if k < 0 {
      MulAtLeast(-k, SecsPerDay);
    }
  }

  /** Subtracting what was added gives back the original time. */
  lemma AddSub(t: TimeOfDay, k: int)
    ensures Sub(Add(t, k), k) == t
  {
    var u := Add(t, k);
    var v := Sub(u, k);
    var q1 := (t.time + k - u.time) / SecsPerDay;
    var q2 := (u.time - k - v.time) / SecsPerDay;
    assert t.time + k - u.time == q1 * SecsPerDay;
    assert u.time - k - v.time == q2 * SecsPerDay;
    SameClass(t, v, q1 + q2);
  }

  /** Adding is the same as building a time from the summed seconds. */
  lemma AddIsFromSeconds(t: TimeOfDay, k: int)
    ensures Add(t, k) == FromSeconds(t.time + k)
  {
    var a, b := Add(t, k), FromSeconds(t.time + k);
    var q1 := (t.time + k - a.time) / SecsPerDay;
    var q2 := (t.time + k - b.time) / SecsPerDay;
    assert t.time + k - a.time == q1 * SecsPerDay;
    assert t.time + k - b.time == q2 * SecsPerDay;
    SameClass(b, a, q1 - q2);
  }

  /** `a < b`: compares second counts, which orders times as the clock reads them. */
  predicate Less(a: TimeOfDay, b: TimeOfDay)
    ensures Less(a, b) <==> HmsBefore(Hms(a), Hms(b))
  {
    ClockOrder(a, b);
    Seconds(a) < Seconds(b)
  }

  /** `a > b`: compares second counts, so it is the clock order reversed. */
  predicate Greater(a: TimeOfDay, b: TimeOfDay)
    ensures Greater(a, b) <==> HmsBefore(Hms(b), Hms(a))
  {
    ClockOrder(b, a);
    Seconds(a) > Seconds(b)
  }

  /** Lexicographic order on (hours, minutes, seconds). */
  predicate HmsBefore(x: (int, int, int), y: (int, int, int)) {
    x.0 < y.0 || (x.0 == y.0 && (x.1 < y.1 || (x.1 == y.1 && x.2 < y.2)))
  }

  /** An earlier second of the day is an earlier hour, or the same hour and an earlier minute, or the same minute and an earlier second. */
  lemma ClockOrder(a: TimeOfDay, b: TimeOfDay)
    ensures a.time < b.time <==> HmsBefore(Hms(a), Hms(b))
  {
    var (h1, m1, s1) := Hms(a);
    var (h2, m2, s2) := Hms(b);
    if h1 < h2 {
      assert a.time < (h1 + 1) * 3600 <= b.time;
    } else if h1 > h2 {
      assert b.time < (h2 + 1) * 3600 <= a.time;
    } else if m1 < m2 {
      assert a.time < h1 * 3600 + (m1 + 1) * 60 <= b.time;
    } else if m1 > m2 {
      assert b.time < h2 * 3600 + (m2 + 1) * 60 <= a.time;
    }
  }

  // ---------------------------------------------------------------------------
  // Parsing

  /**
   * The fields `TimeOfDay.parse_hms(input)` hands to `from_hms`: an optional
   * `am`/`pm` suffix (case-sensitive; `pm` adds 12 hours), then up to three
   * `:`-separated fields read with `int()`; missing fields are 0 and fields
   * after the third are ignored. A field that `int()` rejects makes the whole
   * parse fail, whichever of the three it is.
   */
  function ParseClock(input: string): (r: Result<(int, int, int), ValueError>)
    ensures r.Success? <==> var f := Fields(ClockText(input)); ParseInt(f[0]).Success? && ParseInt(f[1]).Success? && ParseInt(f[2]).Success?
  {
    var fields := Fields(ClockText(input));
    Clock(ParseInt(fields[0]), ParseInt(fields[1]), ParseInt(fields[2]), IsPm(input))
  }

  /** The three parsed fields, the first failure among them if any, the hour shifted by 12 after a `pm` suffix. */
  function Clock(h: Result<int, ValueError>, m: Result<int, ValueError>, s: Result<int, ValueError>, pm: bool): (r: Result<(int, int, int), ValueError>)
    ensures r.Success? <==> h.Success? && m.Success? && s.Success?
  {
    var hour :- h;
    var minute :- m;
    var second :- s;
    Success((if pm then hour + 12 else hour, minute, second))
  }

  /**
   * `TimeOfDay.parse_hms(input)` with the additive `from_hms` (`FromHms`): it
   * fails exactly when one of the three fields is not an integer, and otherwise
   * reads each field modulo its unit.
   */
  function ParseHms(input: string): (r: Result<TimeOfDay, ValueError>)
    ensures r.Success? <==> var f := Fields(ClockText(input)); ParseInt(f[0]).Success? && ParseInt(f[1]).Success? && ParseInt(f[2]).Success?
    ensures r.Success? ==> var c := ParseClock(input).value; Hms(r.value) == (c.0 % 24, c.1 % 60, c.2 % 60)
  {
    var c :- ParseClock(input);
    Success(FromHms(c.0, c.1, c.2))
  }

  /**
   * `TimeOfDay.parse_hms(input)` as the source runs it, through the `from_hms`
   * of line 40: it fails on the same inputs, and what it returns never has
   * seconds.
   */
  function ParseHmsAsWritten(input: string): (r: Result<TimeOfDay, ValueError>)
    ensures r.Success? <==> var f := Fields(ClockText(input)); ParseInt(f[0]).Success? && ParseInt(f[1]).Success? && ParseInt(f[2]).Success?
    ensures r.Success? ==> Hms(r.value).2 == 0
  {
    var c :- ParseClock(input);
    Success(FromHmsAsWritten(c.0, c.1, c.2))
  }

  predicate HasSuffix(input: string) {
    EndsWith(input, "am") || EndsWith(input, "pm")
  }

  /** Only a `pm` suffix shifts the hour; `am` and no suffix leave it. */
  predicate IsPm(input: string) {
    HasSuffix(input) && !EndsWith(input, "am")
  }

  /** The clock part: the input, or what precedes the suffix with blanks stripped. */
  function ClockText(input: string): string {
    if HasSuffix(input) then Strip(input[..|input| - 2], StrSpace) else input
  }

  /** The `:`-separated fields, padded with `"0"` for missing minutes and seconds. */
  function Fields(text: string): (f: seq<string>)
    ensures |f| >= 3 && f[|f| - 2..] == ["0", "0"]
    ensures forall i :: 0 <= i < |f| ==> ':' !in f[i]
    ensures Join(f[..|f| - 2], ':') == text
  {
    var parts := Split(text, ':');
    assert (parts + ["0", "0"])[..|parts|] == parts;
    parts + ["0", "0"]
  }

  /** When the three fields parse, `ParseHms` returns the time they spell, the hour shifted by a `pm` suffix. */
  lemma ParseFromFields(input: string, h: int, m: int, s: int)
    requires var f := Fields(ClockText(input));
      ParseInt(f[0]) == Success(h) && ParseInt(f[1]) == Success(m) && ParseInt(f[2]) == Success(s)
    ensures ParseClock(input) == Success((if IsPm(input) then h + 12 else h, m, s))
    ensures ParseHms(input) == Success(FromHms(if IsPm(input) then h + 12 else h, m, s))
  {
    var f := Fields(ClockText(input));
    ClockOfParsed(ParseInt(f[0]), ParseInt(f[1]), ParseInt(f[2]), IsPm(input), h, m, s);
  }

  lemma ClockOfParsed(a: Result<int, ValueError>, b: Result<int, ValueError>, c: Result<int, ValueError>, pm: bool, h: int, m: int, s: int)
    requires a == Success(h) && b == Success(m) && c == Success(s)
    ensures Clock(a, b, c, pm) == Success((if pm then h + 12 else h, m, s))
  {
  }

  /** The text of a time as `str` prints it, or of a bare number, carries no suffix. */
  lemma NoSuffix(text: string)
    requires |text| > 0 && IsDigit(text[|text| - 1])
    ensures !HasSuffix(text) && ClockText(text) == text
  {
  }

  /** The fields of what `str` prints are the hours, minutes and seconds of the time. */
  lemma ClockOfToString(t: TimeOfDay)
    ensures ParseClock(ToString(t)) == Success(Hms(t))
  {
    var (h, m, s) := Hms(t);
    var text := ToString(t);
    var parts := [Pad2(h), Pad2(m), Pad2(s)];
    Join3(Pad2(h), Pad2(m), Pad2(s), ':');
    NoSuffix(text);
    SplitJoin(parts, ':');
    var f := Fields(text);
    assert f[0] == Pad2(h) && f[1] == Pad2(m) && f[2] == Pad2(s);
    PadRoundTrip(h);
    PadRoundTrip(m);
    PadRoundTrip(s);
    ParseFromFields(text, h, m, s);
  }

  /** With the additive `from_hms`, parsing what `str` prints gives back the same time. */
  lemma ParseToString(t: TimeOfDay)
    ensures ParseHms(ToString(t)) == Success(t)
  {
    ClockOfToString(t);
    FromHmsOfHms(t);
  }

  /** As written, parsing what `str` prints gives back the time exactly when it is a whole hour. */
  lemma ParseToStringAsWritten(t: TimeOfDay)
    ensures ParseHmsAsWritten(ToString(t)) == Success(t) <==> Hms(t).1 == 0 && Hms(t).2 == 0
  {
    ClockOfToString(t);
    FromHmsAsWrittenKeeps(t);
  }

  /** As written, `parse_hms("08:30:00")`, the text `str` prints for 08:30:00, gives 08:00:00. */
  lemma ParseHmsAsWrittenMisses()
    ensures ToString(FromSeconds(30600)) == "08:30:00"
    ensures ParseHmsAsWritten(ToString(FromSeconds(30600))) == Success(FromSeconds(28800))
  {
    HalfPastEight();
    ParseAsWrittenDropsMinutes(FromSeconds(30600));
  }

  /** 30600 s is 08:30:00. */
  lemma HalfPastEight()
    ensures Hms(FromSeconds(30600)) == (8, 30, 0)
    ensures ToString(FromSeconds(30600)) == "08:30:00"
  {
    FromSecondsInRange(30600);
    HmsUnique(FromSeconds(30600), 8, 30, 0);
    assert Pad2(8) == "08" && Pad2(30) == "30" && Pad2(0) == "00";
  }

  /** As written, a time printed with zero seconds parses back to the start of its hour. */
  lemma ParseAsWrittenDropsMinutes(t: TimeOfDay)
    requires Hms(t).2 == 0
    ensures ParseHmsAsWritten(ToString(t)) == Success(FromSeconds(Hms(t).0 * 3600))
  {
    var (h, m, s) := Hms(t);
    assert ParseHmsAsWritten(ToString(t)) == Success(FromHmsAsWritten(h, m, s)) by {
      ClockOfToString(t);
      AsWrittenOfClock(ToString(t));
    }
    WholeHourAsWritten(h, m);
  }

  lemma WholeHourAsWritten(h: int, m: int)
    requires 0 <= h < 24
    ensures FromHmsAsWritten(h, m, 0) == FromSeconds(h * 3600)
  {
    FromHmsAsWrittenDropsMinutes(h, m);
    EuclideanUnique(h, 24, 0, h);
    FromHmsIsSum(h, 0, 0);
    FromSecondsInRange(h * 3600);
  }

  lemma AsWrittenOfClock(input: string)
    requires ParseClock(input).Success?
    ensures var c := ParseClock(input).value; ParseHmsAsWritten(input) == Success(FromHmsAsWritten(c.0, c.1, c.2))
  {
  }

  lemma PadRoundTrip(n: nat)
    requires n < 100
    ensures ParseInt(Pad2(n)) == Success(n)
  {
    ParseDigits(Pad2(n));
  }

  lemma ParseZero()
    ensures ParseInt("0") == Success(0)
  {
    ParseDigits("0");
  }

  /** The fields of a single number are the number, then two zeros. */
  lemma OneField(d: string)
    requires |d| >= 1 && forall i :: 0 <= i < |d| ==> IsDigit(d[i])
    ensures Fields(d) == [d, "0", "0"]
  {
    DigitsHaveNoColon(d);
    SplitField(d, ':');
  }

  /** A bare hour `"<h>"` reads as `h` o'clock; minutes and seconds default to 0. */
  lemma ParseBareHour(h: nat)
    ensures ParseHms(NatToString(h)) == Success(FromHms(h, 0, 0))
  {
    var d := NatToString(h);
    NoSuffix(d);
    OneField(d);
    ParseDigits(d);
    ParseZero();
    ParseFromFields(d, h, 0, 0);
  }

  /** `"<h> am"` reads as `h` o'clock and `"<h> pm"` as `h + 12` o'clock. */
  lemma ParseHourWithSuffix(h: nat, pm: bool)
    ensures ParseHms(NatToString(h) + (if pm then " pm" else " am"))
      == Success(FromHms(if pm then h + 12 else h, 0, 0))
  {
    var d := NatToString(h);
    var input := d + (if pm then " pm" else " am");
    SuffixedClock(d, pm);
    OneField(d);
    ParseDigits(d);
    ParseZero();
    ParseFromFields(input, h, 0, 0);
  }

  /** The clock part of `"<digits> am"` or `"<digits> pm"` is the digits. */
  lemma SuffixedClock(d: string, pm: bool)
    requires |d| >= 1 && forall i :: 0 <= i < |d| ==> IsDigit(d[i])
    ensures var input := d + (if pm then " pm" else " am");
      ClockText(input) == d && (IsPm(input) <==> pm)
  {
    assert !IsSpace(d[0]) && !IsSpace(d[|d| - 1]);
    StripBlankAfter(d);
    if pm {
      assert d + " pm" == (d + " ") + "pm";
      ClockOfSuffixed(d + " ", "pm");
    } else {
      assert d + " am" == (d + " ") + "am";
      assert "am"[0] != "pm"[0];
      ClockOfSuffixed(d + " ", "am");
    }
  }

  /** The clock part of a text ending in `am` or `pm` is what precedes the suffix, stripped. */
  lemma ClockOfSuffixed(a: string, suffix: string)
    requires suffix == "am" || suffix == "pm"
    ensures ClockText(a + suffix) == Strip(a, StrSpace)
    ensures IsPm(a + suffix) <==> suffix == "pm"
  {
    AppendedSuffix(a, suffix);
    var input := a + suffix;
    assert input[|input| - 2] == suffix[0];
  }

  /** Two fields: `"<h>:<m>"` reads as `h:m:00`. */
  lemma ParseTwoFields(h: nat, m: nat)
    ensures ParseHms(NatToString(h) + ":" + NatToString(m)) == Success(FromHms(h, m, 0))
  {
    var hd, md := NatToString(h), NatToString(m);
    var text := hd + ":" + md;
    DigitsHaveNoColon(hd);
    DigitsHaveNoColon(md);
    SplitAfterField(hd, ':', md);
    SplitField(md, ':');
    assert text == hd + [':'] + md;
    NoSuffix(text);
    var f := Fields(text);
    assert f[0] == hd && f[1] == md && f[2] == "0";
    ParseDigits(hd);
    ParseDigits(md);
    ParseZero();
    ParseFromFields(text, h, m, 0);
  }

  /** Three fields or more: `"<h>:<m>:<s>:..."` reads as `h:m:s`; the rest is ignored. */
  lemma ParseExtraFields(h: nat, m: nat, s: nat, extra: seq<string>)
    requires forall i :: 0 <= i < |extra| ==> ':' !in extra[i] && |extra[i]| > 0 && IsDigit(extra[i][|extra[i]| - 1])
    ensures ParseHms(Join([NatToString(h), NatToString(m), NatToString(s)] + extra, ':')) == Success(FromHms(h, m, s))
  {
    var hd, md, sd := NatToString(h), NatToString(m), NatToString(s);
    DigitsHaveNoColon(hd);
    DigitsHaveNoColon(md);
    DigitsHaveNoColon(sd);
    var all := [hd, md, sd] + extra;
    SplitJoin(all, ':');
    var text := Join(all, ':');
    JoinEndsWithLast(all, ':');
    NoSuffix(text);
    var f := Fields(text);
    assert f[0] == hd && f[1] == md && f[2] == sd;
    ParseDigits(hd);
    ParseDigits(md);
    ParseDigits(sd);
    ParseFromFields(text, h, m, s);
  }

  lemma DigitsHaveNoColon(d: string)
    requires forall i :: 0 <= i < |d| ==> IsDigit(d[i])
    ensures ':' !in d
  {
  }

  lemma {:induction false} JoinEndsWithLast(parts: seq<string>, sep: char)
    requires |parts| >= 1 && |parts[|parts| - 1]| > 0
    ensures var j := Join(parts, sep); |j| > 0 && j[|j| - 1] == parts[|parts| - 1][|parts[|parts| - 1]| - 1]
    decreases |parts|
  {
    if |parts| > 1 {
      JoinEndsWithLast(parts[1..], sep);
    }
  }

  /** A first field that `int()` rejects makes the whole parse fail. */
  lemma ParseRejectsHour(input: string)
    requires ParseInt(Fields(ClockText(input))[0]).Failure?
    ensures ParseHms(input).Failure?
  {
  }

  /** The empty text and a bare suffix have an empty hour field, which `int()` rejects. */
  lemma ParseRejectsEmpty()
    ensures ParseHms("").Failure?
    ensures ParseHms("pm").Failure?
  {
    assert Split("", ':') == [""];
    assert "pm"[..0] == "";
    assert ClockText("pm") == "";
    ParseRejectsHour("");
    ParseRejectsHour("pm");
  }
}
