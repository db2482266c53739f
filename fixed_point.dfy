/**
 * The fixed-point reading and writing of temperatures: `parseNumber` turns
 * "[-]D.D" or "[-]DD.D" into a signed count of tenths by fixed indexing and
 * ASCII arithmetic, and the result formatter writes tenths back as "[-]N.D".
 */
module FixedPoint {
  import opened Bytes

  /** The value with one leading '-' removed. */
  function Unsigned(s: seq<Byte>): (t: seq<Byte>)
    requires |s| > 0
    ensures s[0] == MINUS ==> [MINUS] + t == s
    ensures s[0] != MINUS ==> t == s
  {
    if s[0] == MINUS then s[1..] else s
  }

  /**
   * What `parseNumber` needs of its argument for none of its fixed indexes to
   * fall outside it: a first byte, then (after the sign) index 1, and index 2
   * or index 3 depending on whether index 1 holds the '.'.
   */
  predicate ParseSafe(s: seq<Byte>) {
    |s| > 0 &&
    var t := Unsigned(s);
    |t| >= 2 && (if t[1] == DOT then |t| >= 3 else |t| >= 4)
  }

  /** A well-formed value: an optional '-', one or two digits, '.', one digit. */
  predicate ValueShape(s: seq<Byte>) {
    |s| > 0 &&
    var t := Unsigned(s);
    || (|t| == 3 && IsDigit(t[0]) && t[1] == DOT && IsDigit(t[2]))
    || (|t| == 4 && IsDigit(t[0]) && IsDigit(t[1]) && t[2] == DOT && IsDigit(t[3]))
  }

  /** Place value of a digit string, most significant digit first. */
  function DigitsValue(ds: seq<Byte>): int {
    if ds == [] then 0 else DigitsValue(ds[..|ds| - 1]) * 10 + (ds[|ds| - 1] - ZERO)
  }

  lemma ShortDigitsValue(ds: seq<Byte>)
    ensures |ds| == 1 ==> DigitsValue(ds) == ds[0] - ZERO
    ensures |ds| == 2 ==> DigitsValue(ds) == (ds[0] - ZERO) * 10 + (ds[1] - ZERO)
  {
    if |ds| == 2 {
      assert ds[..1] == [ds[0]];
      assert [ds[0]][..0] == [];
    } else if |ds| == 1 {
      assert ds[..0] == [];
    }
  }

  /** The number of tenths a well-formed value denotes, by place value. */
  function DecimalTenths(s: seq<Byte>): int
    requires ValueShape(s)
  {
    var t := Unsigned(s);
    var magnitude := DigitsValue(t[..|t| - 2]) * 10 + (t[|t| - 1] - ZERO);
    if s[0] == MINUS then -magnitude else magnitude
  }

  /**
   * `parseNumber`: strips a leading '-', then reads "a.b" as 10a+b or "ab.c"
   * as 100a+10b+c with each byte taken minus '0', and negates if there was a
   * '-'. Any bytes are accepted; only well-formed values mean what they say.
   */
  function ParseNumber(temperature: seq<Byte>): (val: int)
    requires ParseSafe(temperature)
    ensures ValueShape(temperature) ==> val == DecimalTenths(temperature)
    ensures ValueShape(temperature) ==> -999 <= val <= 999
  {
    var negative := temperature[0] == MINUS;
    var t := if negative then temperature[1..] else temperature;
    ShortDigitsValue(t[..|t| - 2]);
    var v :=
      if t[1] == DOT then t[2] + t[0] * 10 - ZERO * 11
      else t[3] + t[1] * 10 + t[0] * 100 - ZERO * 111;
    if negative then -v else v
  }

  /** Decimal digits of `n`, without leading zeros ("0" for zero). */
  function Digits(n: nat): (ds: seq<Byte>)
    ensures |ds| >= 1 && forall i :: 0 <= i < |ds| ==> IsDigit(ds[i])
    ensures n >= 10 ==> ds[0] != ZERO
    ensures DigitsValue(ds) == n
    ensures n < 10 <==> |ds| == 1
  {
    if n < 10 then [ZERO + n] else Digits(n / 10) + [ZERO + n % 10]
  }

  /**
   * `strconv.FormatFloat(float64(v)/10, 'f', 1, 64)` for an integer count of
   * tenths `v`: sign, whole part, '.', one digit.
   */
  function FormatTenths(v: int): seq<Byte> {
    var m := if v < 0 then -v else v;
    (if v < 0 then [MINUS] else []) + Digits(m / 10) + [DOT, ZERO + m % 10]
  }

  /** Any count of tenths is written as digits, '.', one digit, with a '-' exactly when negative. */
  lemma FormatTenthsShape(v: int)
    ensures var text := FormatTenths(v);
      && |text| >= 3 && text[|text| - 2] == DOT && IsDigit(text[|text| - 1])
      && (text[0] == MINUS <==> v < 0)
      && (v >= 0 ==> IsDigit(text[0]))
      && forall i :: 0 < i < |text| - 2 ==> IsDigit(text[i])
  {
    var m := if v < 0 then -v else v;
    var d := Digits(m / 10);
    var text := FormatTenths(v);
    if v < 0 {
      assert text == [MINUS] + d + [DOT, ZERO + m % 10];
      assert forall i :: 0 < i < |text| - 2 ==> text[i] == d[i - 1];
    } else {
      assert text == d + [DOT, ZERO + m % 10];
      assert forall i :: 0 <= i < |text| - 2 ==> text[i] == d[i];
      assert text[0] == d[0] && d[0] != MINUS;
    }
  }

  /** One or two decimal digits, spelled out. */
  lemma ShortDigits(n: nat)
    requires n < 100
    ensures n < 10 ==> Digits(n) == [ZERO + n]
    ensures n >= 10 ==> Digits(n) == [ZERO + n / 10, ZERO + n % 10]
  {
  }

  /** Formatting a temperature in range, then parsing it, gives it back. */
  lemma FormatThenParse(v: int)
    requires -999 <= v <= 999
    ensures ValueShape(FormatTenths(v)) && ParseSafe(FormatTenths(v))
    ensures ParseNumber(FormatTenths(v)) == v
  {
    var m: nat := if v < 0 then -v else v;
    var f := FormatTenths(v);
    var t := Digits(m / 10) + [DOT, ZERO + m % 10];
    MagnitudeText(m, t);
    assert Unsigned(f) == t && (f[0] == MINUS <==> v < 0) by {
      if v >= 0 {
        assert f == t && f[0] == t[0];
      }
    }
    SignedValue(f, t, m);
  }

  /** The magnitude part a temperature in range is written as: one or two digits, '.', a digit. */
  lemma MagnitudeText(m: nat, t: seq<Byte>)
    requires m <= 999 && t == Digits(m / 10) + [DOT, ZERO + m % 10]
    ensures MagnitudeShape(t, m)
  {
    assert t[..|t| - 2] == Digits(m / 10);
    ShortDigits(m / 10);
  }

  /** One or two digits, '.', a digit, denoting `m` tenths. */
  predicate MagnitudeShape(t: seq<Byte>, m: nat) {
    && (|t| == 3 || |t| == 4) && IsDigit(t[0]) && (|t| == 4 ==> IsDigit(t[1]))
    && t[|t| - 2] == DOT && IsDigit(t[|t| - 1])
    && DigitsValue(t[..|t| - 2]) * 10 + (t[|t| - 1] - ZERO) == m
  }

  /** A value whose unsigned part is a magnitude text is well formed and denotes that magnitude, signed. */
  lemma SignedValue(s: seq<Byte>, t: seq<Byte>, m: nat)
    requires |s| > 0 && Unsigned(s) == t && MagnitudeShape(t, m)
    ensures ValueShape(s) && ParseSafe(s)
    ensures DecimalTenths(s) == if s[0] == MINUS then -(m as int) else m
  {
  }

  /** A well-formed value is canonical when it has no leading zero and is not "-0.0". */
  predicate Canonical(s: seq<Byte>)
    requires ValueShape(s)
  {
    var t := Unsigned(s);
    (|t| == 4 ==> t[0] != ZERO) && (s[0] == MINUS ==> DecimalTenths(s) != 0)
  }

  /** Parsing a canonical value, then formatting it, gives the same bytes back. */
  lemma ParseThenFormat(s: seq<Byte>)
    requires ValueShape(s) && Canonical(s)
    ensures ParseSafe(s) && FormatTenths(ParseNumber(s)) == s
  {
    var t := Unsigned(s);
    var v := ParseNumber(s);
    var m := if v < 0 then -v else v;
    assert FormatTenths(v) == (if v < 0 then [MINUS] else []) + Digits(m / 10) + [DOT, ZERO + m % 10];
    UnsignedFormat(t, m);
    assert v < 0 <==> s[0] == MINUS;
  }

  /** The unsigned part of a canonical value is what formatting its magnitude writes. */
  lemma UnsignedFormat(t: seq<Byte>, m: nat)
    requires (|t| == 3 && IsDigit(t[0]) && t[1] == DOT && IsDigit(t[2]))
          || (|t| == 4 && IsDigit(t[0]) && t[0] != ZERO && IsDigit(t[1]) && t[2] == DOT && IsDigit(t[3]))
    requires m == DigitsValue(t[..|t| - 2]) * 10 + (t[|t| - 1] - ZERO)
    ensures Digits(m / 10) + [DOT, ZERO + m % 10] == t
  {
    ShortDigitsValue(t[..|t| - 2]);
    var last := t[|t| - 1] - ZERO;
    var whole := DigitsValue(t[..|t| - 2]);
    assert m / 10 == whole && m % 10 == last;
    ShortDigits(whole);
    if |t| == 4 {
      assert whole / 10 == t[0] - ZERO && whole % 10 == t[1] - ZERO;
    }
  }
}
