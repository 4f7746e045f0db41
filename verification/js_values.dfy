/**
 * The few JavaScript value operations the list browser relies on:
 * `String.prototype.trim`, `Number(string)` and `String(number)`.
 *
 * A JavaScript number is modelled as either NaN or an exact integer. Only
 * blank text and optionally signed decimal digits read as numbers; every
 * other spelling `Number` accepts (a decimal point, an exponent, a `0x`,
 * `0b` or `0o` prefix, `Infinity`) reads as NaN here, including those that
 * denote integers such as "2.0" or "0x10". Doubles are not modelled.
 */
module JsValues {

  /** A JavaScript number restricted to the values pagination can produce. */
  datatype JsNumber = NaN | Int(value: int)

  /** `x - 1` and `x + 1` in JavaScript: NaN absorbs arithmetic. */
  function Add(x: JsNumber, d: int): (r: JsNumber)
    ensures r.NaN? <==> x.NaN?
    ensures x.Int? ==> r.value - x.value == d
  {
    match x
    case NaN => NaN
    case Int(v) => Int(v + d)
  }

  /** The characters `trim` and `Number` strip: WhiteSpace and LineTerminator of ECMAScript. */
  predicate IsWhitespace(c: char) {
    || c == ' ' || c == '\t' || c == '\n' || c == '\r'
    || c == '\U{000B}' || c == '\U{000C}' || c == '\U{00A0}' || c == '\U{1680}'
    || ('\U{2000}' <= c <= '\U{200A}')
    || c == '\U{2028}' || c == '\U{2029}' || c == '\U{202F}' || c == '\U{205F}'
    || c == '\U{3000}' || c == '\U{FEFF}'
  }

  predicate AllWhitespace(s: string) {
    forall i :: 0 <= i < |s| ==> IsWhitespace(s[i])
  }

  /** No whitespace at either end. */
  predicate IsTrimmed(s: string) {
    s == [] || (!IsWhitespace(s[0]) && !IsWhitespace(s[|s| - 1]))
  }

  /** Drops leading whitespace (see `TrimStartSpec`). */
  function TrimStart(s: string): string {
    if |s| > 0 && IsWhitespace(s[0]) then TrimStart(s[1..]) else s
  }

  /** Drops trailing whitespace (see `TrimEndSpec`). */
  function TrimEnd(s: string): string {
    if |s| > 0 && IsWhitespace(s[|s| - 1]) then TrimEnd(s[..|s| - 1]) else s
  }

  /** `TrimStart` keeps the longest suffix that does not start with whitespace, dropping only whitespace. */
  lemma {:induction false} TrimStartSpec(s: string)
    ensures |TrimStart(s)| <= |s| && TrimStart(s) == s[|s| - |TrimStart(s)|..]
    ensures AllWhitespace(s[..|s| - |TrimStart(s)|])
    ensures TrimStart(s) != [] ==> !IsWhitespace(TrimStart(s)[0])
  {
    if |s| > 0 && IsWhitespace(s[0]) {
      TrimStartSpec(s[1..]);
      var k := |s| - |TrimStart(s)|;
      assert s[..k] == [s[0]] + s[1..][..k - 1];
    }
  }

  /** `TrimEnd` keeps the longest prefix that does not end with whitespace, dropping only whitespace. */
  lemma {:induction false} TrimEndSpec(s: string)
    ensures |TrimEnd(s)| <= |s| && TrimEnd(s) == s[..|TrimEnd(s)|]
    ensures AllWhitespace(s[|TrimEnd(s)|..])
    ensures TrimEnd(s) != [] ==> !IsWhitespace(TrimEnd(s)[|TrimEnd(s)| - 1])
  {
    if |s| > 0 && IsWhitespace(s[|s| - 1]) {
      var p := s[..|s| - 1];
      TrimEndSpec(p);
      var k := |TrimEnd(s)|;
      assert s[k..] == p[k..] + [s[|s| - 1]];
    }
  }

  /** `s.trim()`: whitespace removed from both ends and nowhere else (see `TrimSpec`). */
  function Trim(s: string): string {
    TrimEnd(TrimStart(s))
  }

  /**
   * The trimmed text is the part of `s` between a leading and a trailing run
   * of whitespace; it has no whitespace at either end, and is empty exactly
   * for blank text.
   */
  lemma TrimSpec(s: string)
    ensures var i := |s| - |TrimStart(s)|;
            && 0 <= i <= i + |Trim(s)| <= |s|
            && Trim(s) == s[i..i + |Trim(s)|]
            && AllWhitespace(s[..i])
            && AllWhitespace(s[i + |Trim(s)|..])
    ensures IsTrimmed(Trim(s))
    ensures |Trim(s)| <= |s|
    ensures Trim(s) == [] <==> AllWhitespace(s)
  {
    var l := TrimStart(s);
    var r := TrimEnd(l);
    TrimStartSpec(s);
    TrimEndSpec(l);
    var i := |s| - |l|;
    assert l == s[i..];
    assert r == s[i..i + |r|];
    assert s[i + |r|..] == l[|r|..];
    if r == [] {
      assert AllWhitespace(l[0..]);
      assert l == [];
      assert s[..|s|] == s;
    } else {
      assert !IsWhitespace(s[|s| - |l|]);
      assert r[0] == l[0];
    }
  }

  lemma TrimOfTrimmed(s: string)
    requires IsTrimmed(s)
    ensures Trim(s) == s
  {
  }

  /** Trimming twice is trimming once, so an input trimmed on entry is unchanged by a later `trim()`. */
  lemma TrimIdempotent(s: string)
    ensures Trim(Trim(s)) == Trim(s)
  {
    TrimSpec(s);
    TrimOfTrimmed(Trim(s));
  }

  /** The UTF-16 code units `c` occupies: two for a character beyond the Basic Multilingual Plane. */
  function Utf16Units(c: char): nat {
    if c as int > 0xFFFF then 2 else 1
  }

  /** `s.length` in JavaScript, which counts UTF-16 code units rather than characters. */
  function Utf16Length(s: string): nat {
    if s == [] then 0 else Utf16Units(s[0]) + Utf16Length(s[1..])
  }

  /** Every character takes one or two code units. */
  lemma {:induction false} Utf16LengthBounds(s: string)
    ensures |s| <= Utf16Length(s) <= 2 * |s|
  {
    if s != [] {
      Utf16LengthBounds(s[1..]);
    }
  }

  /** The code units of a concatenation are those of its parts. */
  lemma {:induction false} Utf16LengthAppend(a: string, b: string)
    ensures Utf16Length(a + b) == Utf16Length(a) + Utf16Length(b)
  {
    if a == [] {
      assert a + b == b;
    } else {
      assert (a + b)[1..] == a[1..] + b;
      Utf16LengthAppend(a[1..], b);
    }
  }

  /** Trimming never lengthens text as JavaScript measures it. */
  lemma Utf16LengthTrim(s: string)
    ensures Utf16Length(Trim(s)) <= Utf16Length(s)
  {
    TrimSpec(s);
    var t := Trim(s);
    var i := |s| - |TrimStart(s)|;
    assert s == s[..i] + t + s[i + |t|..];
    Utf16LengthAppend(s[..i] + t, s[i + |t|..]);
    Utf16LengthAppend(s[..i], t);
  }

  predicate IsDigit(c: char) {
    '0' <= c <= '9'
  }

  predicate AllDigits(s: string) {
    forall i :: 0 <= i < |s| ==> IsDigit(s[i])
  }

  function DigitValue(c: char): (d: nat)
    requires IsDigit(c)
    ensures d < 10
  {
    c as int - '0' as int
  }

  function DigitChar(d: nat): (c: char)
    requires d < 10
    ensures IsDigit(c) && DigitValue(c) == d
  {
    ('0' as int + d) as char
  }

  /** The value of a string of decimal digits, most significant first. */
  function DecimalValue(s: string): nat
    requires AllDigits(s)
  {
    if s == [] then 0 else DecimalValue(s[..|s| - 1]) * 10 + DigitValue(s[|s| - 1])
  }

  /** The shortest decimal spelling of `n`, as `String(n)` writes it (see `DecimalStringSpec`). */
  function DecimalString(n: nat): string {
    if n < 10 then [DigitChar(n)] else DecimalString(n / 10) + [DigitChar(n % 10)]
  }

  /** The decimal spelling is a non-empty run of digits without a leading zero that reads back as `n`. */
  lemma {:induction false} DecimalStringSpec(n: nat)
    ensures DecimalString(n) != [] && AllDigits(DecimalString(n))
    ensures DecimalValue(DecimalString(n)) == n
    ensures |DecimalString(n)| > 1 ==> DecimalString(n)[0] != '0'
  {
    if n >= 10 {
      DecimalStringSpec(n / 10);
      var prefix := DecimalString(n / 10);
      var s := prefix + [DigitChar(n % 10)];
      assert s[..|s| - 1] == prefix;
      if |prefix| == 1 {
        assert prefix[0] != '0';
      }
    }
  }

  /**
   * `Number(s)` for the strings this model covers: surrounding whitespace is
   * ignored, an empty remainder is 0, an optionally signed run of decimal
   * digits is that integer, and anything else is NaN.
   */
  function ParseNumber(s: string): JsNumber {
    var t := Trim(s);
    if t == [] then Int(0)
    else if |t| > 1 && t[0] == '-' && AllDigits(t[1..]) then Int(-(DecimalValue(t[1..]) as int))
    else if |t| > 1 && t[0] == '+' && AllDigits(t[1..]) then Int(DecimalValue(t[1..]))
    else if AllDigits(t) then Int(DecimalValue(t))
    else NaN
  }

  /** Blank text reads as 0. */
  lemma ParseBlank(s: string)
    requires AllWhitespace(s)
    ensures ParseNumber(s) == Int(0)
  {
    TrimSpec(s);
  }

  /** A plain run of decimal digits reads as its decimal value, leading zeros included. */
  lemma ParseDigits(s: string)
    requires s != [] && AllDigits(s)
    ensures ParseNumber(s) == Int(DecimalValue(s))
  {
    assert !IsWhitespace(s[0]) && !IsWhitespace(s[|s| - 1]);
    TrimOfTrimmed(s);
    assert !(s[0] == '-' || s[0] == '+');
  }

  /** `String(x)`: "NaN", or the decimal spelling with a leading minus for negatives. */
  function NumberToString(x: JsNumber): string {
    match x
    case NaN => "NaN"
    case Int(v) => if v < 0 then "-" + DecimalString(-v) else DecimalString(v)
  }

  /** `String(x)` is never empty, so a page written to the address bar is never the empty parameter. */
  lemma NumberToStringNonEmpty(x: JsNumber)
    ensures NumberToString(x) != ""
  {
    if x.Int? {
      DecimalStringSpec(if x.value < 0 then -x.value else x.value);
    }
  }

  /**
   * The three spellings of `String(x)`: a plain run of digits exactly for a
   * non-negative integer, a minus sign before such a run for a negative one,
   * and "NaN" otherwise.
   */
  lemma NumberToStringSpelling(x: JsNumber)
    ensures AllDigits(NumberToString(x)) <==> x.Int? && x.value >= 0
    ensures x.Int? && x.value < 0 ==>
      var s := NumberToString(x);
      |s| > 1 && s[0] == '-' && AllDigits(s[1..]) && ParseNumber(s[1..]) == Int(-x.value)
    ensures x.NaN? ==> NumberToString(x) == "NaN"
  {
    if x.Int? {
      var n := if x.value < 0 then -x.value else x.value;
      DecimalStringSpec(n);
      if x.value < 0 {
        var s := NumberToString(x);
        assert s[1..] == DecimalString(n);
        assert !IsDigit(s[0]);
        ParseDigits(s[1..]);
      }
    } else {
      assert !IsDigit(NumberToString(x)[0]);
    }
  }

  /** Writing a number into the address bar and reading it back yields the same number. */
  lemma ParseNumberToString(x: JsNumber)
    ensures ParseNumber(NumberToString(x)) == x
  {
    match x
    case NaN =>
      var s := NumberToString(x);
      TrimOfTrimmed(s);
      assert !IsDigit(s[0]);
    case Int(v) =>
      if v < 0 {
        ParseNegative(-v);
      } else {
        ParseDecimalString(v);
      }
  }

  /** The decimal spelling of `n` reads back as `n`. */
  lemma ParseDecimalString(n: nat)
    ensures ParseNumber(DecimalString(n)) == Int(n)
  {
    DecimalStringSpec(n);
    ParseDigits(DecimalString(n));
  }

  /** A minus sign before the decimal spelling of a positive `n` reads back as `-n`. */
  lemma ParseNegative(n: nat)
    requires n > 0
    ensures ParseNumber("-" + DecimalString(n)) == Int(-(n as int))
  {
    var d := DecimalString(n);
    var s := "-" + d;
    DecimalStringSpec(n);
    assert s[1..] == d;
    assert s[|s| - 1] == d[|d| - 1];
    assert IsDigit(d[|d| - 1]);
    TrimOfTrimmed(s);
  }
}
