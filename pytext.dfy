/**
 * The Python built-ins the simulator's core leans on, stated exactly enough
 * for the core's contracts: `str.strip`, `str.endswith`, `str.split`, `int(str)`,
 * `str(int)`, `int(float)` (truncation), `round(float)` and the ASCII codec.
 */
module PyText {
  import opened Wrappers

  type byte = b: int | 0 <= b < 256

  /** The error `int()` raises on text that is not an integer literal (Python's `ValueError`). */
  datatype ValueError = InvalidLiteral

  /** The error `bytes.decode('ascii')` raises on a byte above 127 (Python's `UnicodeDecodeError`). */
  datatype DecodeError = NonAsciiByte

  // ---------------------------------------------------------------------------
  // Characters

  /** `c.isspace()` in Python: the characters `str.strip()` removes at the ends. */
  predicate IsSpace(c: char) {
    c == ' ' || c == '\t' || c == '\n' || c == '\r' || c == '\U{B}' || c == '\U{C}'
    || ('\U{1C}' <= c <= '\U{1F}') || IsWideSpace(c)
  }

  /** The characters above 127 for which `c.isspace()` holds. */
  predicate IsWideSpace(c: char) {
    c == '\U{85}' || c == '\U{A0}' || c == '\U{1680}'
    || ('\U{2000}' <= c <= '\U{200A}') || c == '\U{2028}' || c == '\U{2029}' || c == '\U{202F}'
    || c == '\U{205F}' || c == '\U{3000}'
  }

  /** The characters `str.strip()` removes. */
  const StrSpace: iset<char> := iset c | IsSpace(c)

  /** The characters `int()` skips around a literal (`IsIntSpace`). */
  const IntSpace: iset<char> := iset c | IsIntSpace(c)

  /**
   * The characters `int()` skips around a literal. Below 128 only the C
   * whitespace of space, tab, newline, vertical tab, form feed and carriage
   * return counts; the separators `\x1c` to `\x1f`, whitespace to
   * `str.isspace()`, are not skipped. Above 127 every `isspace()` character is.
   */
  predicate IsIntSpace(c: char) {
    c == ' ' || ('\t' <= c <= '\r') || IsWideSpace(c)
  }

  predicate IsDigit(c: char) {
    '0' <= c <= '9'
  }

  function DigitValue(c: char): (d: nat)
    ensures IsDigit(c) ==> d < 10 && ('0' as int + d) as char == c
  {
    if IsDigit(c) then c as int - '0' as int else 0
  }

  function DigitChar(d: nat): (c: char)
    requires d < 10
    ensures IsDigit(c) && DigitValue(c) == d
  {
    ('0' as int + d) as char
  }

  // ---------------------------------------------------------------------------
  // str.strip() and str.endswith()

  /** The tail of `s` after dropping the leading characters in `space`. */
  function StripLeft(s: string, space: iset<char>): (r: string)
    ensures |r| <= |s| && r == s[|s| - |r|..]
    ensures forall k :: 0 <= k < |s| - |r| ==> s[k] in space
    ensures |r| > 0 ==> r[0] !in space
  {
    if |s| > 0 && s[0] in space then StripLeft(s[1..], space) else s
  }

  /** The head of `s` before the trailing characters in `space`. */
  function StripRight(s: string, space: iset<char>): (r: string)
    ensures |r| <= |s| && r == s[..|r|]
    ensures forall k :: |r| <= k < |s| ==> s[k] in space
    ensures |r| > 0 ==> r[|r| - 1] !in space
  {
    if |s| > 0 && s[|s| - 1] in space then StripRight(s[..|s| - 1], space) else s
  }

  /**
   * Stripping the characters in `space`: a slice of `s` with none of them
   * at either end, and everything cut off before and after it in `space`. `s.strip()` is `Strip(s, StrSpace)`; `int()` strips
   * with `IntSpace`.
   */
  function Strip(s: string, space: iset<char>): (r: string)
    ensures |r| <= |s|
    ensures var i := |s| - |StripLeft(s, space)|; i + |r| <= |s| && r == s[i..i + |r|]
    ensures |r| > 0 ==> r[0] !in space && r[|r| - 1] !in space
    ensures forall k :: 0 <= k < |s| - |StripLeft(s, space)| ==> s[k] in space
    ensures forall k :: |s| - |StripLeft(s, space)| + |r| <= k < |s| ==> s[k] in space
  {
    var l := StripLeft(s, space);
    var r := StripRight(l, space);
    SliceOfSuffix(s, |s| - |l|, |r|);
    SpaceAfterSlice(s, |s| - |l|, |r|, space);
    r
  }

  lemma SpaceAfterSlice(s: string, i: nat, n: nat, space: iset<char>)
    requires i + n <= |s|
    requires forall k :: n <= k < |s[i..]| ==> s[i..][k] in space
    ensures forall k :: i + n <= k < |s| ==> s[k] in space
  {
    forall k | i + n <= k < |s|
      ensures s[k] in space
    {
      assert s[k] == s[i..][k - i];
    }
  }

  lemma SliceOfSuffix(s: string, i: nat, n: nat)
    requires i + n <= |s|
    ensures s[i..][..n] == s[i..i + n]
  {
  }

  lemma StripUnchanged(s: string, space: iset<char>)
    requires s == [] || (s[0] !in space && s[|s| - 1] !in space)
    ensures Strip(s, space) == s
  {
  }

  /** A blank after a word with no whitespace at its ends is all `strip()` removes. */
  lemma StripBlankAfter(d: string)
    requires |d| > 0 && !IsSpace(d[0]) && !IsSpace(d[|d| - 1])
    ensures Strip(d + " ", StrSpace) == d
  {
    var s := d + " ";
    assert StripLeft(s, StrSpace) == s;
    assert s[..|s| - 1] == d;
    assert StripRight(s, StrSpace) == StripRight(d, StrSpace) == d;
  }

  /** `a + suffix` ends with `suffix`, and cutting it off gives back `a`. */
  lemma AppendedSuffix(a: string, suffix: string)
    ensures var s := a + suffix;
      EndsWith(s, suffix) && s[..|s| - |suffix|] == a && s[|s| - |suffix|..] == suffix
  {
    var s := a + suffix;
    assert s[..|a|] == a;
    assert s[|a|..] == suffix;
  }

  /** `s.endswith(suffix)`. */
  predicate EndsWith(s: string, suffix: string) {
    |suffix| <= |s| && s[|s| - |suffix|..] == suffix
  }

  // ---------------------------------------------------------------------------
  // str.split(sep) with a one-character separator, and its inverse `sep.join(parts)`

  /** `sep.join(parts)`. */
  function Join(parts: seq<string>, sep: char): string
    requires |parts| >= 1
  {
    if |parts| == 1 then parts[0] else parts[0] + [sep] + Join(parts[1..], sep)
  }

  /**
   * `s.split(sep)`: always at least one field, no field contains `sep`, and
   * joining the fields with `sep` gives back `s`.
   */
  function Split(s: string, sep: char): (parts: seq<string>)
    ensures |parts| >= 1
    ensures forall i :: 0 <= i < |parts| ==> sep !in parts[i]
    ensures Join(parts, sep) == s
    decreases |s|
  {
    if |s| == 0 then [""]
    else
      var rest := Split(s[1..], sep);
      if s[0] == sep then
        assert s == [sep] + s[1..];
        [""] + rest
      else
        var parts := [[s[0]] + rest[0]] + rest[1..];
        assert parts[1..] == rest[1..];
        assert |rest| > 1 ==> rest[0] + [sep] + Join(rest[1..], sep) == Join(rest, sep);
        assert s == [s[0]] + s[1..];
        parts
  }

  /** A field without the separator splits into itself alone. */
  lemma {:induction false} SplitField(a: string, sep: char)
    requires sep !in a
    ensures Split(a, sep) == [a]
    decreases |a|
  {
    if |a| > 0 {
      assert sep !in a[1..] by {
        forall k | 0 <= k < |a[1..]| ensures a[1..][k] != sep {
          assert a[1..][k] == a[k + 1];
        }
      }
      SplitField(a[1..], sep);
      assert a == [a[0]] + a[1..];
    }
  }

  /** A separator after a separator-free field cuts exactly there. */
  lemma {:induction false} SplitAfterField(a: string, sep: char, b: string)
    requires sep !in a
    ensures Split(a + [sep] + b, sep) == [a] + Split(b, sep)
    decreases |a|
  {
    var s := a + [sep] + b;
    if |a| == 0 {
      assert s[1..] == b;
    } else {
      assert s[1..] == a[1..] + [sep] + b;
      assert sep !in a[1..] by {
        forall k | 0 <= k < |a[1..]| ensures a[1..][k] != sep {
          assert a[1..][k] == a[k + 1];
        }
      }
      SplitAfterField(a[1..], sep, b);
      assert a == [a[0]] + a[1..];
    }
  }

  lemma Join3(a: string, b: string, c: string, sep: char)
    ensures Join([a, b, c], sep) == a + [sep] + b + [sep] + c
  {
    assert [a, b, c][1..] == [b, c];
    assert [b, c][1..] == [c];
    assert Join([b, c], sep) == b + [sep] + c;
    assert Join([a, b, c], sep) == a + [sep] + (b + [sep] + c);
  }

  /** Splitting undoes joining when no field contains the separator. */
  lemma {:induction false} SplitJoin(parts: seq<string>, sep: char)
    requires |parts| >= 1
    requires forall i :: 0 <= i < |parts| ==> sep !in parts[i]
    ensures Split(Join(parts, sep), sep) == parts
    decreases |parts|
  {
    if |parts| == 1 {
      SplitField(parts[0], sep);
    } else {
      SplitJoin(parts[1..], sep);
      SplitAfterField(parts[0], sep, Join(parts[1..], sep));
      assert parts == [parts[0]] + parts[1..];
    }
  }

  // ---------------------------------------------------------------------------
  // int(text) and str(n)

  /**
   * The digits of a Python integer literal: digits, where single underscores
   * may separate two digits (`1_000`).
   */
  predicate IsDigitGroups(b: string) {
    && |b| > 0
    && IsDigit(b[0])
    && IsDigit(b[|b| - 1])
    && (forall i :: 0 <= i < |b| ==> IsDigit(b[i]) || b[i] == '_')
    && (forall i :: 0 <= i < |b| - 1 ==> b[i] != '_' || b[i + 1] != '_')
  }

  /** The value of a run of digits, underscores skipped. */
  function DigitsValue(b: string): nat
  {
    if |b| == 0 then 0
    else if b[|b| - 1] == '_' then DigitsValue(b[..|b| - 1])
    else DigitsValue(b[..|b| - 1]) * 10 + DigitValue(b[|b| - 1])
  }

  /** `int(text)` for a `str` argument, base 10: the literal between the characters `int()` skips. */
  function ParseInt(s: string): Result<int, ValueError>
  {
    ParseLiteral(Strip(s, IntSpace))
  }

  /**
   * `int()` does not skip the separators `\x1c` to `\x1f`, which `str.strip()`
   * removes: `int("\x1c5")` fails although `"\x1c5".strip()` is `"5"`.
   */
  lemma ParseKeepsSeparator(c: char, d: string)
    requires '\U{1C}' <= c <= '\U{1F}'
    requires |d| >= 1 && forall i :: 0 <= i < |d| ==> IsDigit(d[i])
    ensures Strip([c] + d, StrSpace) == d
    ensures ParseInt([c] + d) == Failure(InvalidLiteral)
  {
    SeparatorStripped(c, d);
    SeparatorKept(c, d);
  }

  lemma SeparatorStripped(c: char, d: string)
    requires '\U{1C}' <= c <= '\U{1F}'
    requires |d| >= 1 && IsDigit(d[0]) && IsDigit(d[|d| - 1])
    ensures Strip([c] + d, StrSpace) == d
  {
    assert c in StrSpace && d[0] !in StrSpace && d[|d| - 1] !in StrSpace;
    StripLeading(c, d, StrSpace);
  }

  /** One leading character to strip in front of text that needs no stripping. */
  lemma StripLeading(c: char, d: string, space: iset<char>)
    requires c in space && |d| >= 1 && d[0] !in space && d[|d| - 1] !in space
    ensures Strip([c] + d, space) == d
  {
    assert ([c] + d)[1..] == d;
    StripUnchanged(d, space);
  }

  lemma SeparatorKept(c: char, d: string)
    requires '\U{1C}' <= c <= '\U{1F}'
    requires |d| >= 1 && IsDigit(d[|d| - 1])
    ensures ParseInt([c] + d) == Failure(InvalidLiteral)
  {
    var s := [c] + d;
    assert s[0] == c && s[|s| - 1] == d[|d| - 1];
    ParseUnpadded(s);
    LiteralStartsWithDigit(s);
  }

  /** Text that starts and ends with characters `int()` does not skip is read as it stands. */
  lemma ParseUnpadded(s: string)
    requires |s| > 0 && !IsIntSpace(s[0]) && !IsIntSpace(s[|s| - 1])
    ensures ParseInt(s) == ParseLiteral(s)
  {
    StripUnchanged(s, IntSpace);
  }

  /** A literal that starts with neither a sign nor a digit is rejected. */
  lemma LiteralStartsWithDigit(t: string)
    requires |t| > 0 && !IsDigit(t[0]) && t[0] != '-' && t[0] != '+'
    ensures ParseLiteral(t) == Failure(InvalidLiteral)
  {
  }

  /** `int()` once the surrounding whitespace is gone: an optional sign, then digit groups. */
  function ParseLiteral(t: string): Result<int, ValueError>
  {
    var negative := |t| > 0 && t[0] == '-';
    var body := if |t| > 0 && (t[0] == '-' || t[0] == '+') then t[1..] else t;
    var magnitude: int := DigitsValue(body);
    if !IsDigitGroups(body) then Failure(InvalidLiteral)
    else Success(if negative then -magnitude else magnitude)
  }

  /** `str(n)` for `n >= 0`: its decimal digits, which read back as `n`. */
  function NatToString(n: nat): (r: string)
    ensures |r| >= 1
    ensures forall i :: 0 <= i < |r| ==> IsDigit(r[i])
    ensures DigitsValue(r) == n
  {
    if n < 10 then [DigitChar(n)]
    else
      var r := NatToString(n / 10) + [DigitChar(n % 10)];
      assert r[..|r| - 1] == NatToString(n / 10);
      r
  }

  /** `str(n)`: a minus sign for negative `n`, then the digits of `|n|`. */
  function IntToString(n: int): (r: string)
    ensures |r| >= 1 && (r[0] == '-' <==> n < 0)
    ensures forall i :: 0 <= i < |r| ==> IsDigit(r[i]) || (i == 0 && r[i] == '-')
  {
    if n < 0 then "-" + NatToString(-n) else NatToString(n)
  }

  /** `int()` reads a plain run of digits as its decimal value. */
  lemma ParseDigits(d: string)
    requires |d| >= 1 && forall i :: 0 <= i < |d| ==> IsDigit(d[i])
    ensures ParseInt(d) == Success(DigitsValue(d))
  {
    assert !IsIntSpace(d[0]) && !IsIntSpace(d[|d| - 1]);
    StripUnchanged(d, IntSpace);
    PlainLiteral(d);
  }

  lemma PlainLiteral(d: string)
    requires |d| >= 1 && forall i :: 0 <= i < |d| ==> IsDigit(d[i])
    ensures ParseLiteral(d) == Success(DigitsValue(d))
  {
    assert d[0] != '-' && d[0] != '+';
    DigitsAreGroups(d);
  }

  lemma DigitsAreGroups(d: string)
    requires |d| >= 1 && forall i :: 0 <= i < |d| ==> IsDigit(d[i])
    ensures IsDigitGroups(d)
  {
  }

  /** `int()` reads a minus sign followed by digits as the negated value. */
  lemma ParseNegativeDigits(d: string)
    requires |d| >= 1 && forall i :: 0 <= i < |d| ==> IsDigit(d[i])
    ensures ParseInt("-" + d) == Success(0 - DigitsValue(d))
  {
    var s := "-" + d;
    assert s[|s| - 1] == d[|d| - 1];
    assert !IsIntSpace(s[0]) && !IsIntSpace(s[|s| - 1]);
    StripUnchanged(s, IntSpace);
    NegativeLiteral(d);
  }

  lemma NegativeLiteral(d: string)
    requires |d| >= 1 && forall i :: 0 <= i < |d| ==> IsDigit(d[i])
    ensures ParseLiteral("-" + d) == Success(0 - DigitsValue(d))
  {
    var s := "-" + d;
    assert s[0] == '-' && s[1..] == d;
    DigitsAreGroups(d);
  }

  /** `int(str(n)) == n` for every integer, negative ones included. */
  lemma IntToStringRoundTrip(n: int)
    ensures ParseInt(IntToString(n)) == Success(n)
  {
    if n < 0 {
      ParseNegativeDigits(NatToString(-n));
    } else {
      ParseDigits(NatToString(n));
    }
  }

  // ---------------------------------------------------------------------------
  // int(x) and round(x) for a float, taken as an exact real

  /** `int(x)` for a float: truncation toward zero. */
  function Trunc(x: real): (r: int)
    ensures 0.0 <= x ==> r as real <= x < r as real + 1.0
    ensures x < 0.0 ==> r as real - 1.0 < x <= r as real
  {
    if x >= 0.0 then x.Floor else -((-x).Floor)
  }

  /** Truncation keeps a value on its side of any integer. */
  lemma TruncBetween(x: real, lo: int, hi: int)
    requires lo as real <= x <= hi as real
    ensures lo <= Trunc(x) <= hi
  {
  }

  /** `int(m / k)` for integers `m` and `k > 0`: the exact quotient truncated toward zero. */
  function TruncDiv(m: int, k: int): int
    requires k > 0
  {
    if m >= 0 then m / k else -((-m) / k)
  }

  /** `TruncDiv` is `int()` applied to the exact real quotient, here for the divisor 200. */
  lemma TruncDivIsTrunc(m: int)
    ensures TruncDiv(m, 200) == Trunc(m as real / 200.0)
  {
    var a := if m >= 0 then m else -m;
    var q := a / 200;
    assert q as real <= a as real / 200.0 < q as real + 1.0;
    if m < 0 {
      assert m as real / 200.0 == -(a as real / 200.0);
    }
  }

  /** `round(x)` for a float: the nearest integer, ties to the even one. */
  function RoundHalfEven(x: real): (r: int)
    ensures -0.5 <= r as real - x <= 0.5
    ensures (r as real - x == 0.5 || x - r as real == 0.5) ==> r % 2 == 0
  {
    var f := x.Floor;
    var frac := x - f as real;
    if frac < 0.5 then f
    else if frac > 0.5 then f + 1
    else if f % 2 == 0 then f
    else f + 1
  }

  /** Rounding never leaves an interval whose ends are integers. */
  lemma RoundBetween(x: real, lo: int, hi: int)
    requires lo as real <= x <= hi as real
    ensures lo <= RoundHalfEven(x) <= hi
  {
  }

  // ---------------------------------------------------------------------------
  // The ASCII codec

  predicate IsAscii(s: string) {
    forall i :: 0 <= i < |s| ==> s[i] as int < 128
  }

  /** `s.encode()` for ASCII text: one byte per character. */
  function Encode(s: string): (b: seq<byte>)
    requires IsAscii(s)
    ensures |b| == |s| && forall i :: 0 <= i < |s| ==> b[i] == s[i] as int
  {
    seq(|s|, i requires 0 <= i < |s| => s[i] as int)
  }

  /** `b.decode('ascii')`: fails on any byte above 127. */
  function AsciiDecode(b: seq<byte>): (r: Result<string, DecodeError>)
    ensures r.Success? <==> forall i :: 0 <= i < |b| ==> b[i] < 128
    ensures r.Success? ==> |r.value| == |b| && forall i :: 0 <= i < |b| ==> r.value[i] as int == b[i]
  {
    if forall i :: 0 <= i < |b| ==> b[i] < 128 then
      Success(seq(|b|, i requires 0 <= i < |b| => b[i] as char))
    else Failure(NonAsciiByte)
  }

  lemma DecodeEncode(s: string)
    requires IsAscii(s)
    ensures AsciiDecode(Encode(s)) == Success(s)
  {
    var d := AsciiDecode(Encode(s));
    assert d.Success?;
    assert d.value == s by {
      forall i | 0 <= i < |s| ensures d.value[i] == s[i] {
        assert d.value[i] as int == s[i] as int;
      }
    }
  }

  lemma IntToStringIsAscii(n: int)
    ensures IsAscii(IntToString(n))
  {
  }
}
