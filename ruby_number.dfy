/** Ruby's conversions between numbers and text, over exact reals: `String#to_f`,
    `Kernel#Float` on a string, `Integer#to_s`, `%02d`, `Float#floor` and
    `Float#truncate`. Fixed-point formatting (`%.5f` and friends) is not given a
    definition: it is a `Formatter` passed in by the caller. */
module RubyNumber {
  import opened Wrappers
  import opened RubyText

  /** `sprintf("%.<d>f", x)` as an uninterpreted function of `x` and `d`. */
  type Formatter = (real, nat) -> string

  /** Fixed-point formatting never produces a line break. */
  ghost predicate SingleLine(fmt: Formatter) {
    forall x: real, d: nat :: '\n' !in fmt(x, d)
  }

  predicate IsDigit(c: char) {
    '0' <= c <= '9'
  }

  /** The value of a decimal digit; the scanners apply it to digits only. */
  function DigitValue(c: char): (d: nat)
    ensures IsDigit(c) ==> d == c as int - '0' as int
  {
    if IsDigit(c) then c as int - '0' as int else 0
  }

  /** Length of the run of decimal digits in `s` from position `i` on. */
  function DigitRun(s: string, i: nat): (n: nat)
    requires i <= |s|
    ensures i + n <= |s|
    ensures forall k | i <= k < i + n :: IsDigit(s[k])
    ensures i + n == |s| || !IsDigit(s[i + n])
    decreases |s| - i
  {
    if i < |s| && IsDigit(s[i]) then 1 + DigitRun(s, i + 1) else 0
  }

  predicate AllDigits(s: string) {
    forall k | 0 <= k < |s| :: IsDigit(s[k])
  }

  /** The number a string of decimal digits denotes. */
  function DigitsValue(s: string): nat
    requires AllDigits(s)
  {
    if s == "" then 0 else 10 * DigitsValue(s[..|s| - 1]) + DigitValue(s[|s| - 1])
  }

  /** The number the digits at positions `i` up to `j` of `s` denote. */
  function RunValue(s: string, i: nat, j: nat): nat
    requires i <= j <= |s|
    decreases j - i
  {
    if j == i then 0 else 10 * RunValue(s, i, j - 1) + DigitValue(s[j - 1])
  }

  /** The value of the digits at positions `i` up to `j` of `s` read after a
      decimal point: `d0 d1 ...` is `d0 / 10 + d1 / 100 + ...`. */
  function FractionValue(s: string, i: nat, j: nat): (r: real)
    requires i <= j <= |s|
    ensures 0.0 <= r <= 1.0
    decreases j - i
  {
    if j == i then 0.0 else (DigitValue(s[i]) as real + FractionValue(s, i + 1, j)) / 10.0
  }

  /** How much of a string a number scanner consumed, and the value it read. */
  datatype Scan = Scan(length: nat, value: real)

  /** At position `i`: `e` or `E`, an optional sign and at least one digit;
      the length consumed (zero when there is no exponent) and the exponent read. */
  function ScanExponent(s: string, i: nat): (r: (nat, int))
    requires i <= |s|
    ensures i + r.0 <= |s|
  {
    if i + 1 < |s| && (s[i] == 'e' || s[i] == 'E') then
      var from := if s[i + 1] == '+' || s[i + 1] == '-' then i + 2 else i + 1;
      var n := DigitRun(s, from);
      if n == 0 then (0, 0)
      else
        var e: int := RunValue(s, from, from + n);
        (from + n - i, if s[i + 1] == '-' then -e else e)
    else (0, 0)
  }

  /** At position `i`: a point followed by at least one digit; the length
      consumed (zero when there is no fraction) and the fraction's value. */
  function ScanFraction(s: string, i: nat): (r: (nat, real))
    requires i <= |s|
    ensures i + r.0 <= |s| && r.1 >= 0.0
  {
    if i + 1 < |s| && s[i] == '.' && IsDigit(s[i + 1]) then
      var n := DigitRun(s, i + 1);
      (1 + n, FractionValue(s, i + 1, i + 1 + n))
    else (0, 0.0)
  }

  /** `m` times ten to the power `e`. */
  function Scale(m: real, e: int): (r: real)
    requires m >= 0.0
    ensures r >= 0.0
    decreases if e >= 0 then e else -e
  {
    if e == 0 then m else if e > 0 then 10.0 * Scale(m, e - 1) else Scale(m, e + 1) / 10.0
  }

  /** Digits, optionally a point followed by digits, optionally an exponent,
      as long as possible, read from the start of `u`. */
  function Unsigned(u: string): (r: Scan)
    ensures r.length <= |u|
    ensures r.length == 0 <==> u == [] || !IsDigit(u[0])
    ensures r.value >= 0.0
  {
    var n := DigitRun(u, 0);
    if n == 0 then Scan(0, 0.0)
    else
      var fraction := ScanFraction(u, n);
      var exponent := ScanExponent(u, n + fraction.0);
      Scan(n + fraction.0 + exponent.0, Scale(RunValue(u, 0, n) as real + fraction.1, exponent.1))
  }

  /** The unsigned number at position `i`, which depends on `s[i..]` alone. */
  function ScanUnsigned(s: string, i: nat): (r: Scan)
    requires i <= |s|
    ensures i + r.length <= |s|
    ensures r.length == 0 <==> i == |s| || !IsDigit(s[i])
    ensures r.value >= 0.0
  {
    Unsigned(s[i..])
  }

  /** At position `i`: an optional sign followed by an unsigned number. */
  function ScanNumber(s: string, i: nat): (r: Scan)
    requires i <= |s|
    ensures i + r.length <= |s|
  {
    var signLength := if i < |s| && (s[i] == '+' || s[i] == '-') then 1 else 0;
    var m := ScanUnsigned(s, i + signLength);
    if m.length == 0 then Scan(0, 0.0)
    else Scan(signLength + m.length, if signLength == 1 && s[i] == '-' then -m.value else m.value)
  }

  /** Length of the run of white space in `s` from position `i` on. */
  function LeadingSpace(s: string, i: nat): (n: nat)
    requires i <= |s|
    ensures i + n <= |s|
    decreases |s| - i
  {
    if i < |s| && IsSpace(s[i]) then 1 + LeadingSpace(s, i + 1) else 0
  }

  /** `to_f` reads in two phases: it skips white space, then scans a number. */
  datatype Phase = Blank | Number

  /** What `to_f` reads from position `i` of `s` on, in the given phase. */
  function ReadFrom(s: string, i: nat, phase: Phase): real
    requires i <= |s|
    decreases |s| - i, if phase.Blank? then 1 else 0
  {
    match phase
    case Blank => if i < |s| && IsSpace(s[i]) then ReadFrom(s, i + 1, Blank) else ReadFrom(s, i, Number)
    case Number => ScanNumber(s, i).value
  }

  /** `String#to_f`: the number at the start of the string after white space,
      and 0.0 when there is none. It never fails. */
  function ToF(s: string): real {
    ReadFrom(s, 0, Blank)
  }

  /** Skipping white space is stepping over the run `LeadingSpace` measures. */
  lemma {:induction false} ReadFromBlank(s: string, i: nat)
    requires i <= |s|
    ensures ReadFrom(s, i, Blank) == ReadFrom(s, i + LeadingSpace(s, i), Number)
    decreases |s| - i
  {
    if i < |s| && IsSpace(s[i]) {
      ReadFromBlank(s, i + 1);
      assert i + LeadingSpace(s, i) == i + 1 + LeadingSpace(s, i + 1);
    }
  }

  /** `to_f` of every element, in order. */
  function Values(ts: seq<string>): (vs: seq<real>)
    ensures |vs| == |ts|
  {
    seq(|ts|, k requires 0 <= k < |ts| => ToF(ts[k]))
  }

  /** `Kernel#Float(s)` for a string: the whole string, white space around it
      aside, must be a number; otherwise Ruby raises (`None`). */
  function StrictFloat(s: string): Option<real> {
    var p := LeadingSpace(s, 0);
    var sc := ScanNumber(s, p);
    if sc.length > 0 && p + sc.length + LeadingSpace(s, p + sc.length) == |s| then Some(sc.value) else None
  }

  /** Where `Float()` accepts a string, `to_f` reads the same value from it. */
  lemma StrictFloatAgrees(s: string)
    ensures StrictFloat(s).Some? ==> StrictFloat(s).value == ToF(s)
  {
    ReadFromBlank(s, 0);
  }

  /** Scanning `[c] + s` from one position further on reads what scanning
      `s` reads. */
  lemma ScanUnsignedShift(c: char, s: string, i: nat)
    requires i <= |s|
    ensures ScanUnsigned([c] + s, i + 1) == ScanUnsigned(s, i)
  {
    assert ([c] + s)[i + 1..] == s[i..];
  }

  /** A number read from the start of a string that begins with a digit. */
  lemma ToFDigitStart(s: string)
    requires s != "" && IsDigit(s[0])
    ensures ToF(s) == ScanUnsigned(s, 0).value
  {
    assert ReadFrom(s, 0, Blank) == ReadFrom(s, 0, Number);
  }

  /** After a minus sign, `to_f` reads the unsigned number that follows, negated. */
  lemma ToFMinusStart(s: string)
    requires s != "" && IsDigit(s[0])
    ensures ToF("-" + s) == -ScanUnsigned(s, 0).value
  {
    var t := ['-'] + s;
    assert "-" + s == t && t[0] == '-';
    assert ReadFrom(t, 0, Blank) == ReadFrom(t, 0, Number);
    ScanUnsignedShift('-', s, 0);
  }

  /** A minus sign in front of a number negates what `to_f` reads. */
  lemma ToFNegate(s: string)
    requires s != "" && IsDigit(s[0])
    ensures ToF("-" + s) == -ToF(s)
  {
    ToFMinusStart(s);
    ToFDigitStart(s);
  }

  // ---------------------------------------------------------------------
  // Integers as text

  function DigitChar(d: nat): (c: char)
    requires d < 10
    ensures IsDigit(c) && DigitValue(c) == d
  {
    ('0' as int + d) as char
  }

  /** `Integer#to_s` for a natural number. */
  function NatToString(n: nat): (s: string)
    ensures s != "" && AllDigits(s)
  {
    if n < 10 then [DigitChar(n)] else NatToString(n / 10) + [DigitChar(n % 10)]
  }

  /** `Integer#to_s`. */
  function IntToString(n: int): string {
    if n < 0 then "-" + NatToString(-n) else NatToString(n)
  }

  /** Reading back the digits that `Integer#to_s` writes gives the number again. */
  lemma {:induction false} NatToStringRoundTrip(n: nat)
    ensures DigitsValue(NatToString(n)) == n
  {
    var s := NatToString(n);
    if n >= 10 {
      NatToStringRoundTrip(n / 10);
      assert s[..|s| - 1] == NatToString(n / 10);
    }
  }

  /** The digits up to position `j` have the value of that prefix. */
  lemma {:induction false} RunValuePrefix(s: string, j: nat)
    requires j <= |s| && AllDigits(s)
    ensures AllDigits(s[..j]) && RunValue(s, 0, j) == DigitsValue(s[..j])
  {
    if j > 0 {
      var p := s[..j];
      assert p[..j - 1] == s[..j - 1] && p[j - 1] == s[j - 1];
      RunValuePrefix(s, j - 1);
    }
  }

  /** All the digits of a string of digits are one run. */
  lemma {:induction false} DigitRunAll(s: string, i: nat)
    requires AllDigits(s) && i <= |s|
    ensures DigitRun(s, i) == |s| - i
    decreases |s| - i
  {
    if i < |s| {
      DigitRunAll(s, i + 1);
    }
  }

  /** `to_f` of a decimal integer's text is that integer. */
  lemma ToFOfIntToString(n: int)
    ensures ToF(IntToString(n)) == n as real
  {
    var s := NatToString(if n < 0 then -n else n);
    NatToStringRoundTrip(if n < 0 then -n else n);
    assert ToF(s) == DigitsValue(s) as real by {
      ToFDigitStart(s);
      assert s[0..] == s;
      DigitRunAll(s, 0);
      RunValuePrefix(s, |s|);
      assert s[..|s|] == s;
    }
    if n < 0 {
      ToFNegate(s);
    }
  }

  /** `sprintf("%02d", n)`: at least two characters, padded with a zero. */
  function Pad2(n: int): (s: string)
    ensures |s| >= 2
    ensures n < 0 ==> s[0] == '-'
    ensures n >= 0 ==>  && AllDigits(s) && DigitsValue(s) == n
  {
    if n < 0 then "-" + NatToString(-n)
    else
      NatToStringRoundTrip(n);
      var d := NatToString(n);
      if n < 10 then
        assert (['0'] + d)[..1] == ['0'];
        assert (['0'] + d)[1..] == d;
        PadValue(d);
        ['0'] + d
      else
        assert |d| >= 2;
        d
  }

  lemma {:induction false} PadValue(d: string)
    requires AllDigits(d)
    ensures AllDigits(['0'] + d) && DigitsValue(['0'] + d) == DigitsValue(d)
    decreases |d|
  {
    var p := ['0'] + d;
    if d != "" {
      assert p[..|p| - 1] == ['0'] + d[..|d| - 1];
      PadValue(d[..|d| - 1]);
    }
  }

  // ---------------------------------------------------------------------
  // Rounding

  /** `Float#truncate`: towards zero. */
  function Truncate(x: real): (n: int)
    ensures x >= 0.0 ==> 0 <= n && n as real <= x < n as real + 1.0
    ensures x < 0.0 ==> n <= 0 && n as real - 1.0 < x <= n as real
  {
    if x >= 0.0 then x.Floor else -((-x).Floor)
  }

  function Abs(x: real): (r: real)
    ensures r >= 0.0 && (r == x || r == -x)
  {
    if x < 0.0 then -x else x
  }

  /** `x % 1` on a Float, Ruby's floored remainder: the fractional part. */
  function Frac(x: real): (f: real)
    ensures 0.0 <= f < 1.0
    ensures (x - f).Floor as real == x - f
  {
    x - x.Floor as real
  }
}
