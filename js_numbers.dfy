/** JavaScript's reading of strings as numbers: `parseFloat(s)` (the
    longest numeric prefix after leading white space) and `Number(s)` (the
    whole trimmed string, the empty string being 0). Values are exact
    reals; floating-point rounding and overflow are not modelled. */
module JsNumbers {

  import opened JsStrings

  datatype JsNumber = NaN | Finite(value: real) | Infinite(negative: bool)
  {
    /** `this < x`; false for NaN. */
    predicate Below(x: real) {
      match this
      case NaN => false
      case Finite(v) => v < x
      case Infinite(neg) => neg
    }

    /** `this > x`; false for NaN. */
    predicate Above(x: real) {
      match this
      case NaN => false
      case Finite(v) => v > x
      case Infinite(neg) => !neg
    }

    function Negate(): JsNumber {
      match this
      case NaN => NaN
      case Finite(v) => Finite(-v)
      case Infinite(neg) => Infinite(!neg)
    }

    /** `this - 1` */
    function Decrement(): JsNumber {
      match this
      case Finite(v) => Finite(v - 1.0)
      case _ => this
    }
  }

  /** A number read from the front of a string, and how many characters it took. */
  datatype Scan = Scan(number: JsNumber, length: nat)

  /** A decimal exponent read from the front of a string, and its length. */
  datatype Exponent = Exponent(value: int, length: nat)

  function Pow10(n: nat): (p: nat)
    ensures p >= 1
  {
    if n == 0 then 1 else 10 * Pow10(n - 1)
  }

  /** `m` times ten to the power `e`. */
  function Scale(m: real, e: int): real {
    if e >= 0 then m * Pow10(e) as real else m / Pow10(-e) as real
  }

  /** Length of the run of decimal digits at the front of `s`. */
  function DigitRun(s: string): (n: nat)
    ensures n <= |s| && AllDigits(s[..n])
    ensures n < |s| ==> !IsDigit(s[n])
  {
    if s != "" && IsDigit(s[0]) then
      var n := 1 + DigitRun(s[1..]);
      assert s[..n] == [s[0]] + s[1..][..n - 1];
      n
    else 0
  }

  lemma DigitRunAll(s: string)
    requires AllDigits(s)
    ensures DigitRun(s) == |s|
  {
  }

  /** An ExponentPart (`e`/`E`, optional sign, digits) at the front of `s`;
      length 0 when there is none. */
  function ExponentPrefix(s: string): (r: Exponent)
    ensures r.length <= |s|
    ensures r.length == 0 ==> r.value == 0
  {
    if |s| >= 2 && (s[0] == 'e' || s[0] == 'E') then
      var start := if s[1] == '+' || s[1] == '-' then 2 else 1;
      var k := DigitRun(s[start..]);
      if k == 0 then Exponent(0, 0)
      else
        var v: int := DigitsValue(s[start..][..k]);
        Exponent(if s[1] == '-' then -v else v, start + k)
    else Exponent(0, 0)
  }

  /** The number `mantissa`, whose digits end at position `m` of `s`,
      scaled by the exponent that may follow it there. */
  function WithExponent(s: string, mantissa: real, m: nat): (r: Scan)
    requires m <= |s|
    ensures m <= r.length <= |s| && r.number.Finite?
  {
    var e := ExponentPrefix(s[m..]);
    Scan(Finite(Scale(mantissa, e.value)), m + e.length)
  }

  /** The longest prefix of `s` that is an unsigned decimal literal
      (`Infinity`, `12`, `12.`, `12.5`, `.5`, each but the first with an
      optional exponent), with its value; NaN and length 0 when there is
      none. */
  function UnsignedPrefix(s: string): (r: Scan)
    ensures r.length <= |s|
    ensures r.length == 0 <==> r.number.NaN?
  {
    if |s| >= 8 && s[..8] == "Infinity" then Scan(Infinite(false), 8)
    else DecimalPrefix(s)
  }

  /** Digits, then optionally a point and more digits, then optionally an exponent. */
  function DecimalPrefix(s: string): (r: Scan)
    ensures r.length <= |s|
    ensures r.length == 0 <==> r.number.NaN?
  {
    var i := DigitRun(s);
    var whole := DigitsValue(s[..i]) as real;
    if i < |s| && s[i] == '.' then
      var f := DigitRun(s[i + 1..]);
      if i == 0 && f == 0 then Scan(NaN, 0)
      else
        var frac := s[i + 1..][..f];
        WithExponent(s, whole + DigitsValue(frac) as real / Pow10(f) as real, i + 1 + f)
    else if i == 0 then Scan(NaN, 0)
    else WithExponent(s, whole, i)
  }

  /** An optional sign followed by an unsigned decimal literal. */
  function SignedPrefix(s: string): (r: Scan)
    ensures r.length <= |s|
    ensures r.length == 0 <==> r.number.NaN?
  {
    if s != "" && (s[0] == '+' || s[0] == '-') then
      var u := UnsignedPrefix(s[1..]);
      if u.length == 0 then Scan(NaN, 0)
      else Scan(if s[0] == '-' then u.number.Negate() else u.number, u.length + 1)
    else UnsignedPrefix(s)
  }

  /** `parseFloat(s)` */
  function ParseFloat(s: string): JsNumber {
    SignedPrefix(TrimStart(s)).number
  }

  /** `Number(s)` for a string: blank is 0, otherwise the trimmed string
      must be a decimal literal as a whole. */
  function ToNumber(s: string): JsNumber {
    var t := Trim(s);
    if t == "" then Finite(0.0)
    else
      var p := SignedPrefix(t);
      if p.length == |t| then p.number else NaN
  }

  /** Nothing follows the end of the string, so no exponent scales it. */
  lemma WithoutExponent(s: string, v: real)
    ensures WithExponent(s, v, |s|) == Scan(Finite(v), |s|)
  {
    assert s[|s|..] == "";
    assert Pow10(0) == 1;
  }

  lemma DecimalDigits(s: string)
    requires s != "" && AllDigits(s)
    ensures DecimalPrefix(s) == WithExponent(s, DigitsValue(s) as real, |s|)
  {
    DigitRunAll(s);
    assert s[..|s|] == s;
  }

  /** A non-empty digit string reads as its value, whole. */
  lemma UnsignedDigits(s: string)
    requires s != "" && AllDigits(s)
    ensures UnsignedPrefix(s) == Scan(Finite(DigitsValue(s) as real), |s|)
  {
    assert |s| >= 8 ==> s[..8][0] == s[0] && s[..8] != "Infinity";
    DecimalDigits(s);
    WithoutExponent(s, DigitsValue(s) as real);
  }

  /** Both readers take a plain digit string at its value. */
  lemma DigitsAsNumber(s: string)
    requires s != "" && AllDigits(s)
    ensures ParseFloat(s) == Finite(DigitsValue(s) as real)
    ensures ToNumber(s) == Finite(DigitsValue(s) as real)
  {
    TrimDigits(s);
    UnsignedDigits(s);
  }

  /** `parseFloat(String(n))` is `n`. */
  lemma ParseFloatOfNat(n: nat)
    ensures ParseFloat(NatToString(n)) == Finite(n as real)
  {
    DigitsAsNumber(NatToString(n));
    NatToStringRoundTrip(n);
  }

  /** `parseFloat("-" + String(n))` is `-n`. */
  lemma ParseFloatOfNegated(n: nat)
    ensures ParseFloat("-" + NatToString(n)) == Finite(-(n as real))
  {
    var s := "-" + NatToString(n);
    assert TrimStart(s) == s;
    assert s[1..] == NatToString(n);
    UnsignedDigits(NatToString(n));
    NatToStringRoundTrip(n);
  }

  /** `Number` of a zero-padded rendering of `n` is `n`. */
  lemma ToNumberOfPadded(n: nat, width: nat)
    ensures ToNumber(PadStart(NatToString(n), width)) == Finite(n as real)
  {
    PaddedValue(n, width);
    DigitsAsNumber(PadStart(NatToString(n), width));
  }

  /** A run of digits stops at the first character that is not a digit. */
  lemma {:induction false} DigitRunOf(a: string, rest: string)
    requires AllDigits(a) && (rest == "" || !IsDigit(rest[0]))
    ensures DigitRun(a + rest) == |a|
  {
    if a == "" {
      assert a + rest == rest;
    } else {
      assert (a + rest)[1..] == a[1..] + rest;
      DigitRunOf(a[1..], rest);
    }
  }

  /** The value of the decimal numeral `a.b`. */
  function DecimalValue(a: string, b: string): real
    requires AllDigits(a) && AllDigits(b)
  {
    DigitsValue(a) as real + DigitsValue(b) as real / Pow10(|b|) as real
  }

  /** `a.b`, where either side may be empty but not both, is read whole at
      its decimal value. */
  lemma DecimalFraction(a: string, b: string)
    requires AllDigits(a) && AllDigits(b) && a + b != ""
    ensures UnsignedPrefix(a + "." + b) == Scan(Finite(DecimalValue(a, b)), |a| + 1 + |b|)
  {
    var s := a + "." + b;
    assert UnsignedPrefix(s) == DecimalPrefix(s) by {
      assert s[0] == (if a == "" then '.' else a[0]);
      assert |s| >= 8 ==> s[..8][0] == s[0] && s[..8] != "Infinity";
    }
    assert DigitRun(s) == |a| by {
      assert s == a + ("." + b);
      DigitRunOf(a, "." + b);
    }
    assert s[..|a|] == a && s[|a|] == '.' && s[|a| + 1..] == b;
    assert DigitRun(b) == |b| && b[..|b|] == b by {
      DigitRunAll(b);
    }
    assert WithExponent(s, DecimalValue(a, b), |s|) == Scan(Finite(DecimalValue(a, b)), |s|) by {
      WithoutExponent(s, DecimalValue(a, b));
    }
  }

  /** Both readers take `a.b` at its decimal value. */
  lemma DecimalReading(a: string, b: string)
    requires AllDigits(a) && AllDigits(b) && a + b != ""
    ensures ParseFloat(a + "." + b) == Finite(DecimalValue(a, b))
    ensures ToNumber(a + "." + b) == Finite(DecimalValue(a, b))
  {
    var s := a + "." + b;
    assert TrimStart(s) == s && Trim(s) == s by {
      assert s[0] == (if a == "" then '.' else a[0]);
      assert s[|s| - 1] == (if b == "" then '.' else b[|b| - 1]);
      TrimUnspaced(s);
    }
    assert SignedPrefix(s) == UnsignedPrefix(s) by {
      assert s[0] == (if a == "" then '.' else a[0]);
    }
    DecimalFraction(a, b);
  }

  /** Both readers take `-a.b` at the negated decimal value. */
  lemma NegatedDecimalReading(a: string, b: string)
    requires AllDigits(a) && AllDigits(b) && a + b != ""
    ensures ParseFloat("-" + a + "." + b) == Finite(-DecimalValue(a, b))
    ensures ToNumber("-" + a + "." + b) == Finite(-DecimalValue(a, b))
  {
    NegatedUnspaced(a, b);
    NegatedPrefix(a, b);
  }

  /** `-a.b` has no white space to trim. */
  lemma NegatedUnspaced(a: string, b: string)
    requires AllDigits(b)
    ensures var n := "-" + a + "." + b; TrimStart(n) == n && Trim(n) == n
  {
    var n := "-" + a + "." + b;
    assert n[|n| - 1] == (if b == "" then '.' else b[|b| - 1]);
    TrimUnspaced(n);
  }

  /** `-a.b` is taken whole, at the negated value of `a.b`. */
  lemma NegatedPrefix(a: string, b: string)
    requires AllDigits(a) && AllDigits(b) && a + b != ""
    ensures var n := "-" + a + "." + b; SignedPrefix(n) == Scan(Finite(-DecimalValue(a, b)), |n|)
  {
    var n := "-" + a + "." + b;
    assert n[1..] == a + "." + b;
    DecimalFraction(a, b);
  }

  /** Both readers skip leading white space. */
  lemma LeadingSpace(w: string, s: string)
    requires AllSpace(w)
    ensures ParseFloat(w + s) == ParseFloat(s)
    ensures ToNumber(w + s) == ToNumber(s)
  {
    TrimStartSpace(w, s);
  }
}
