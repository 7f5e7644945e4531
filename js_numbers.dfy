/**
 * JavaScript numbers as far as the ingestion code observes them: a finite
 * value, an infinity or NaN; their truthiness; `x || 0`; and the two string
 * conversions the code uses, `parseFloat` (longest numeric prefix) and
 * `Number` (the whole string must be numeric), after ECMA-262 sections
 * 7.1.4.1 (StringToNumber) and 19.2.4 (parseFloat). Values are exact
 * reals: double rounding and overflow to infinity are not modelled.
 */
module JsNumbers {

  import opened Wrappers
  import opened JsStrings

  datatype Number = Finite(value: real) | Infinite(negative: bool) | NaN

  /** `Boolean(n)`: false exactly for 0, -0 and NaN. */
  predicate Truthy(n: Number) {
    match n
    case Finite(v) => v != 0.0
    case Infinite(_) => true
    case NaN => false
  }

  /** `n || 0`. */
  function OrZero(n: Number): (r: Number)
    ensures !r.NaN?
    ensures Truthy(n) ==> r == n
    ensures !Truthy(n) ==> r == Finite(0.0)
  {
    if Truthy(n) then n else Finite(0.0)
  }

  function Pow10(e: nat): (r: real)
    ensures r >= 1.0
  {
    if e == 0 then 1.0 else 10.0 * Pow10(e - 1)
  }

  /** m * 10^e for a signed exponent e. */
  function Scale(m: real, e: int): real {
    if e >= 0 then m * Pow10(e) else m / Pow10(-e)
  }

  /** The number of leading decimal digits of s. */
  function LeadingDigits(s: string): (k: nat)
    ensures k <= |s| && AllDigits(s[..k])
    ensures k < |s| ==> !IsDigit(s[k])
  {
    if s != [] && IsDigit(s[0]) then
      var k := 1 + LeadingDigits(s[1..]);
      assert s[..k] == [s[0]] + s[1..][..k - 1];
      k
    else 0
  }

  /** A numeric lexeme: its value and how many characters it spans. */
  datatype Lexeme = Lexeme(value: Number, length: nat)

  /** An ExponentPart at the start of s: `e` or `E`, an optional sign, at
      least one digit. The result holds the exponent and the characters used. */
  function ScanExponent(s: string): (r: Option<(int, nat)>)
    ensures r.Some? ==> 2 <= r.value.1 <= |s|
  {
    if |s| >= 2 && (s[0] == 'e' || s[0] == 'E') then
      var m := if s[1] == '+' || s[1] == '-' then 2 else 1;
      var rest := s[m..];
      var d := LeadingDigits(rest);
      if d == 0 then None
      else
        var e: int := DecimalValue(rest[..d]);
        Some((if s[1] == '-' then -e else e, m + d))
    else None
  }

  /** The value of the digits after a decimal point. */
  function Fraction(ds: string): real
    requires AllDigits(ds)
  {
    DecimalValue(ds) as real / Pow10(|ds|)
  }

  /** Digits, an optional point and an optional fraction at the start of s,
      with at least one digit in all: their value and the characters used. */
  function ScanMantissa(s: string): (r: Option<(real, nat)>)
    ensures r.Some? ==> 0 < r.value.1 <= |s|
    ensures r.None? <==> !(s != [] && IsDigit(s[0])) && !(|s| >= 2 && s[0] == '.' && IsDigit(s[1]))
  {
    var a := LeadingDigits(s);
    var whole := DecimalValue(s[..a]) as real;
    if a < |s| && s[a] == '.' then
      var rest := s[a + 1..];
      var b := LeadingDigits(rest);
      if a + b == 0 then None
      else Some((whole + Fraction(rest[..b]), a + 1 + b))
    else if a == 0 then None
    else Some((whole, a))
  }

  /** A StrUnsignedDecimalLiteral at the start of s: `Infinity`, or a
      mantissa with an optional exponent. */
  function ScanUnsigned(s: string): (r: Option<Lexeme>)
    ensures r.Some? ==> 0 < r.value.length <= |s| && !r.value.value.NaN?
    ensures r.None? <==> ScanMantissa(s).None? && !StartsWith(s, "Infinity")
  {
    if StartsWith(s, "Infinity") then Some(Lexeme(Infinite(false), 8))
    else
      match ScanMantissa(s)
      case None => None
      case Some((mantissa, k)) =>
        match ScanExponent(s[k..])
        case None => Some(Lexeme(Finite(mantissa), k))
        case Some((e, len)) => Some(Lexeme(Finite(Scale(mantissa, e)), k + len))
  }

  function Negate(n: Number): Number {
    match n
    case Finite(v) => Finite(-v)
    case Infinite(negative) => Infinite(!negative)
    case NaN => NaN
  }

  /** The longest prefix of s that is a StrDecimalLiteral: an optional sign
      followed by a StrUnsignedDecimalLiteral. */
  function ScanDecimal(s: string): (r: Option<Lexeme>)
    ensures r.Some? ==> 0 < r.value.length <= |s| && !r.value.value.NaN?
    ensures r.None? <==> !StartsNumeric(s)
  {
    var i := if |s| > 0 && (s[0] == '+' || s[0] == '-') then 1 else 0;
    var u := s[i..];
    assert u != [] ==> u[0] == s[i];
    assert |u| >= 2 ==> u[1] == s[i + 1];
    match ScanUnsigned(s[i..])
    case None => None
    case Some(Lexeme(value, length)) =>
      Some(Lexeme(if i == 1 && s[0] == '-' then Negate(value) else value, i + length))
  }

  /** `parseFloat(s)`: leading white space skipped, then the longest decimal
      prefix; NaN when there is none. */
  function ParseFloat(s: string): (r: Number)
    ensures r.NaN? <==> !StartsNumeric(TrimStart(s))
  {
    match ScanDecimal(TrimStart(s))
    case None => NaN
    case Some(lexeme) => lexeme.value
  }

  predicate IsBaseDigit(c: char, base: nat) {
    if base == 16 then IsDigit(c) || ('a' <= c <= 'f') || ('A' <= c <= 'F')
    else '0' <= c && (c as int) < ('0' as int) + base
  }

  function BaseDigitValue(c: char): nat {
    if IsDigit(c) then DigitValue(c)
    else if 'a' <= c <= 'f' then c as int - 'a' as int + 10
    else if 'A' <= c <= 'F' then c as int - 'A' as int + 10
    else 0
  }

  function BaseValue(ds: string, base: nat): nat {
    if ds == [] then 0
    else BaseValue(ds[..|ds| - 1], base) * base + BaseDigitValue(ds[|ds| - 1])
  }

  /** A NonDecimalIntegerLiteral (`0x…`, `0o…`, `0b…`, upper or lower case,
      no sign) spanning all of s. */
  function NonDecimalValue(s: string): Option<nat> {
    if |s| >= 3 && s[0] == '0' then
      var base :=
        if s[1] == 'x' || s[1] == 'X' then 16
        else if s[1] == 'o' || s[1] == 'O' then 8
        else if s[1] == 'b' || s[1] == 'B' then 2
        else 0;
      if base != 0 && forall i :: 2 <= i < |s| ==> IsBaseDigit(s[i], base)
      then Some(BaseValue(s[2..], base))
      else None
    else None
  }

  /** `Number(s)`: surrounding white space ignored, the empty string is 0,
      otherwise the whole rest must be one numeric literal, else NaN. */
  function StringToNumber(s: string): (r: Number)
    ensures Trim(s) == [] ==> r == Finite(0.0)
    ensures Trim(s) != [] && !StartsNumeric(Trim(s)) ==> r.NaN?
    ensures (&& Trim(s) != [] && ScanDecimal(Trim(s)).Some?
             && ScanDecimal(Trim(s)).value.length < |Trim(s)|
             && !(Trim(s)[0] == '0' && |Trim(s)| >= 3)) ==> r.NaN?
  {
    var t := Trim(s);
    if t == [] then Finite(0.0)
    else
      var lexeme := ScanDecimal(t);
      if lexeme.Some? && lexeme.value.length == |t| then lexeme.value.value
      else
        match NonDecimalValue(t)
        case Some(v) => Finite(v as real)
        case None => NaN
  }

  /** Where a decimal literal can start: an optional sign, then a digit, a
      point followed by a digit, or `Infinity`. */
  predicate StartsNumeric(t: string) {
    var i := if |t| > 0 && (t[0] == '+' || t[0] == '-') then 1 else 0;
    || (i < |t| && IsDigit(t[i]))
    || (i + 1 < |t| && t[i] == '.' && IsDigit(t[i + 1]))
    || StartsWith(t[i..], "Infinity")
  }

  /** A string that starts with a lower-case letter, such as `"undefined"`,
      parses to NaN. */
  lemma LetterStartIsNaN(s: string)
    requires s != [] && 'a' <= s[0] <= 'z'
    ensures ParseFloat(s).NaN?
  {
    LetterStartNotNumeric(s);
  }

  lemma LetterStartNotNumeric(s: string)
    requires s != [] && 'a' <= s[0] <= 'z'
    ensures !StartsNumeric(TrimStart(s))
  {
    assert !IsWhitespace(s[0]);
    assert TrimStart(s) == s;
  }

  /** A plain string of decimal digits converts to its value under both
      `parseFloat` and `Number`. */
  lemma DigitStringValue(ds: string)
    requires ds != [] && AllDigits(ds)
    ensures ParseFloat(ds) == Finite(DecimalValue(ds) as real)
    ensures StringToNumber(ds) == Finite(DecimalValue(ds) as real)
  {
    ParseFloatOfDigitString(ds);
    NumberOfDigitString(ds);
  }

  lemma ParseFloatOfDigitString(ds: string)
    requires ds != [] && AllDigits(ds)
    ensures ParseFloat(ds) == Finite(DecimalValue(ds) as real)
  {
    DigitsUntrimmed(ds);
    ScanDigitString(ds);
  }

  lemma NumberOfDigitString(ds: string)
    requires ds != [] && AllDigits(ds)
    ensures StringToNumber(ds) == Finite(DecimalValue(ds) as real)
  {
    DigitsUntrimmed(ds);
    ScanDigitString(ds);
  }

  /** Digits are not white space, so trimming leaves a digit string alone. */
  lemma DigitsUntrimmed(ds: string)
    requires ds != [] && AllDigits(ds)
    ensures TrimStart(ds) == ds && Trim(ds) == ds
  {
    var first, last := ds[0], ds[|ds| - 1];
    assert IsDigit(first) && IsDigit(last);
    TrimStartKeeps(ds);
    assert IsTrimmed(ds);
  }

  lemma ScanDigitString(ds: string)
    requires ds != [] && AllDigits(ds)
    ensures ScanDecimal(ds) == Some(Lexeme(Finite(DecimalValue(ds) as real), |ds|))
  {
    assert IsDigit(ds[0]);
    assert ds[0..] == ds;
    UnsignedOfDigitString(ds);
  }

  lemma UnsignedOfDigitString(ds: string)
    requires ds != [] && AllDigits(ds)
    ensures ScanUnsigned(ds) == Some(Lexeme(Finite(DecimalValue(ds) as real), |ds|))
  {
    NotInfinity(ds);
    MantissaOfDigitString(ds);
    assert ds[|ds|..] == [];
  }

  lemma NotInfinity(ds: string)
    requires ds != [] && IsDigit(ds[0])
    ensures !StartsWith(ds, "Infinity")
  {
    if |ds| >= 8 {
      assert ds[..8][0] == ds[0];
    }
  }

  lemma MantissaOfDigitString(ds: string)
    requires ds != [] && AllDigits(ds)
    ensures ScanMantissa(ds) == Some((DecimalValue(ds) as real, |ds|))
  {
    LeadingDigitsOfDigits(ds);
    assert ds[..|ds|] == ds;
  }

  lemma {:induction false} LeadingDigitsOfDigits(ds: string)
    requires AllDigits(ds)
    ensures LeadingDigits(ds) == |ds|
  {
    if ds != [] {
      LeadingDigitsOfDigits(ds[1..]);
    }
  }
}
