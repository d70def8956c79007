/**
 JavaScript's `parseFloat` on a string, as far as the position filter
 needs it: leading white space is skipped, then the longest prefix that
 is a decimal literal (an optional sign, then `Infinity` or digits with an
 optional fraction and an optional exponent) is read and the rest is
 ignored; with no such prefix the result is NaN. Values are exact reals:
 the rounding to binary64 is not modelled.
 */
module JsNumber {
  import opened Wrappers
  import opened Numerals

  /** A JavaScript number: NaN, a signed infinity, or a finite value (`-0` and `0` are one value here, as `===` sees them). */
  datatype Number = NaN | Infinity(negative: bool) | Finite(value: real)

  /** The literal found at the start of the text. */
  datatype Literal =
    | InfinityLiteral(negative: bool)
    | DecimalLiteral(negative: bool, intDigits: string, fracDigits: string, exponent: int)

  /** The white space and line terminators `parseFloat` skips at the start. */
  predicate IsJsWhitespace(c: char) {
    var n := c as int;
    (0x09 <= n <= 0x0D) || n == 0x20 || n == 0xA0 || n == 0x1680 || (0x2000 <= n <= 0x200A)
    || n == 0x2028 || n == 0x2029 || n == 0x202F || n == 0x205F || n == 0x3000 || n == 0xFEFF
  }

  /** The text with its leading white space removed. */
  function TrimStart(s: string): (t: string)
    ensures |t| <= |s| && t == s[|s| - |t|..]
    ensures forall i :: 0 <= i < |s| - |t| ==> IsJsWhitespace(s[i])
    ensures |t| == 0 || !IsJsWhitespace(t[0])
  {
    if |s| > 0 && IsJsWhitespace(s[0]) then TrimStart(s[1..]) else s
  }

  /** The longest run of decimal digits at the start of the text. */
  function LeadingDigits(s: string): (d: string)
    ensures |d| <= |s| && d == s[..|d|]
    ensures forall i :: 0 <= i < |d| ==> IsDigit(d[i])
    ensures |d| == |s| || !IsDigit(s[|d|])
  {
    if |s| > 0 && IsDigit(s[0]) then [s[0]] + LeadingDigits(s[1..]) else ""
  }

  /** The exponent an `e` or `E` part at the start of the text denotes; 0 when there is none. */
  function ExponentPart(r: string): int {
    if |r| >= 2 && (r[0] == 'e' || r[0] == 'E') then
      var signed := r[1] == '+' || r[1] == '-';
      var digits := LeadingDigits(if signed then r[2..] else r[1..]);
      if |digits| == 0 then 0
      else if r[1] == '-' then -(DecimalValue(digits) as int)
      else DecimalValue(digits)
    else 0
  }

  /** The sign at the start of the unsigned part, and what follows it. */
  function SplitSign(t: string): (bool, string) {
    if |t| > 0 && t[0] == '-' then (true, t[1..])
    else if |t| > 0 && t[0] == '+' then (false, t[1..])
    else (false, t)
  }

  /** The digit parts of a decimal literal are digits. */
  predicate WellFormed(l: Literal) {
    l.DecimalLiteral? ==>
      && (forall i :: 0 <= i < |l.intDigits| ==> IsDigit(l.intDigits[i]))
      && (forall i :: 0 <= i < |l.fracDigits| ==> IsDigit(l.fracDigits[i]))
  }

  /** The longest decimal-literal prefix after the leading white space, if any. */
  function ScanLiteral(s: string): (r: Option<Literal>)
    ensures r.Some? ==> WellFormed(r.value)
  {
    var (negative, u) := SplitSign(TrimStart(s));
    ScanUnsigned(negative, u)
  }

  /** The literal at the start of the text after the sign: `Infinity`, or a decimal literal. */
  function ScanUnsigned(negative: bool, u: string): (r: Option<Literal>)
    ensures r.Some? ==> WellFormed(r.value)
  {
    if "Infinity" <= u then Some(InfinityLiteral(negative)) else ScanDecimal(negative, u)
  }

  /** Digits, an optional fraction and an optional exponent; at least one digit is needed. */
  function ScanDecimal(negative: bool, u: string): (r: Option<Literal>)
    ensures r.Some? ==> r.value.DecimalLiteral? && WellFormed(r.value)
  {
    var intDigits := LeadingDigits(u);
    var (fracDigits, afterFrac) := FractionPart(u[|intDigits|..]);
    if |intDigits| + |fracDigits| == 0 then None
    else Some(DecimalLiteral(negative, intDigits, fracDigits, ExponentPart(afterFrac)))
  }

  /** The digits of a `.` fraction at the start of the text, and what follows them. */
  function FractionPart(r: string): (fr: (string, string))
    ensures forall i :: 0 <= i < |fr.0| ==> IsDigit(fr.0[i])
  {
    if |r| > 0 && r[0] == '.' then
      var f := LeadingDigits(r[1..]);
      (f, r[1 + |f|..])
    else ("", r)
  }

  /** 10 to an integer power, as an exact real. */
  function Pow10(k: int): (p: real)
    ensures p > 0.0
    decreases if k < 0 then -k else k
  {
    if k == 0 then 1.0
    else if k > 0 then 10.0 * Pow10(k - 1)
    else Pow10(k + 1) / 10.0
  }

  /** The digits of a decimal literal, integer part then fraction. */
  function Mantissa(intDigits: string, fracDigits: string): nat
    requires forall i :: 0 <= i < |intDigits| ==> IsDigit(intDigits[i])
    requires forall i :: 0 <= i < |fracDigits| ==> IsDigit(fracDigits[i])
  {
    var ds := intDigits + fracDigits;
    assert forall i :: 0 <= i < |ds| ==> IsDigit(ds[i]);
    DecimalValue(ds)
  }

  /** The value a scanned literal denotes (exactly). */
  function LiteralValue(l: Literal): Number
    requires WellFormed(l)
  {
    match l
    case InfinityLiteral(negative) => Infinity(negative)
    case DecimalLiteral(negative, intDigits, fracDigits, exponent) =>
      var v := Mantissa(intDigits, fracDigits) as real * Pow10(exponent - |fracDigits|);
      Finite(if negative then -v else v)
  }

  /**
   `parseFloat(s)`: NaN exactly when no literal starts the text, an infinity
   exactly when `Infinity` does, otherwise the literal's finite value.
   */
  function ParseFloat(s: string): (n: Number)
    ensures n.NaN? <==> ScanLiteral(s).None?
    ensures n.Infinity? <==> ScanLiteral(s).Some? && ScanLiteral(s).value.InfinityLiteral?
    ensures n.Infinity? ==> n.negative == ScanLiteral(s).value.negative
  {
    match ScanLiteral(s)
    case None => NaN
    case Some(l) => LiteralValue(l)
  }

  /** Every digit of the text is `0`. */
  predicate AllZeros(ds: string) {
    forall i :: 0 <= i < |ds| ==> ds[i] == '0'
  }

  /** A digit string denotes zero exactly when all its digits are `0`. */
  lemma {:induction false} DecimalValueZero(ds: string)
    requires forall i :: 0 <= i < |ds| ==> IsDigit(ds[i])
    ensures DecimalValue(ds) == 0 <==> AllZeros(ds)
  {
    if |ds| > 0 {
      var init := ds[..|ds| - 1];
      DecimalValueZero(init);
      assert AllZeros(ds) <==> AllZeros(init) && ds[|ds| - 1] == '0' by {
        if AllZeros(init) && ds[|ds| - 1] == '0' {
          forall i | 0 <= i < |ds| ensures ds[i] == '0' {
            if i < |ds| - 1 { assert ds[i] == init[i]; }
          }
        }
      }
    }
  }

  /**
   `parseFloat(s) === 0` holds exactly when the text starts (after white
   space) with a decimal literal all of whose digits are `0`, whatever its
   sign and exponent.
   */
  lemma ParseFloatZero(s: string)
    ensures ParseFloat(s) == Finite(0.0)
        <==> ScanLiteral(s).Some? && ScanLiteral(s).value.DecimalLiteral?
             && AllZeros(ScanLiteral(s).value.intDigits + ScanLiteral(s).value.fracDigits)
  {
    if ScanLiteral(s).Some? {
      LiteralZero(ScanLiteral(s).value);
    }
  }

  /** A literal denotes zero exactly when it is a decimal literal whose digits are all `0`. */
  lemma LiteralZero(l: Literal)
    requires WellFormed(l)
    ensures LiteralValue(l) == Finite(0.0) <==> l.DecimalLiteral? && AllZeros(l.intDigits + l.fracDigits)
  {
    if l.DecimalLiteral? {
      var ds := l.intDigits + l.fracDigits;
      assert forall i :: 0 <= i < |ds| ==> IsDigit(ds[i]);
      DecimalValueZero(ds);
      ProductZero(Mantissa(l.intDigits, l.fracDigits) as real, Pow10(l.exponent - |l.fracDigits|));
    }
  }

  lemma ProductZero(m: real, p: real)
    requires p > 0.0 && m >= 0.0
    ensures m * p == 0.0 <==> m == 0.0
    ensures -(m * p) == 0.0 <==> m == 0.0
  {
  }

  /** Reading back the decimal rendering of a natural number gives that number. */
  lemma ParseDecimalString(n: nat)
    ensures ParseFloat(DecimalString(n)) == Finite(n as real)
  {
    var s := DecimalString(n);
    NoPrefixSkipped(s);
    ScanWholeDigits(s, false, s);
    WholeLiteralValue(false, s);
  }

  /** A text starting with a digit has no white space or sign to skip. */
  lemma NoPrefixSkipped(s: string)
    requires |s| > 0 && IsDigit(s[0])
    ensures SplitSign(TrimStart(s)) == (false, s)
  {
    assert 0x30 <= s[0] as int <= 0x39;
    assert !IsJsWhitespace(s[0]);
    assert TrimStart(s) == s;
  }

  /** A text of digits only is its own leading run of digits. */
  lemma {:induction false} LeadingDigitsAll(s: string)
    requires forall i :: 0 <= i < |s| ==> IsDigit(s[i])
    ensures LeadingDigits(s) == s
  {
    if |s| > 0 {
      LeadingDigitsAll(s[1..]);
    }
  }

  /** `k` zero digits. */
  function Zeros(k: nat): (zs: string)
    ensures |zs| == k
    ensures forall i :: 0 <= i < k ==> zs[i] == '0'
  {
    if k == 0 then "" else "0" + Zeros(k - 1)
  }

  /** `parseFloat` of `0.` followed by zeros (how the exchange writes a flat amount) is zero. */
  lemma ParseZeroFraction(k: nat)
    ensures ParseFloat("0." + Zeros(k)) == Finite(0.0)
  {
    var zs := Zeros(k);
    assert "0." + zs == "0" + "." + zs;
    assert AllZeros("0" + zs) by {
      var ds := "0" + zs;
      forall i | 0 <= i < |ds| ensures ds[i] == '0' {
        if i > 0 { assert ds[i] == zs[i - 1]; }
      }
    }
    ParseZeroDigits("0", zs);
  }

  /** Digits, a point and digits, all of them `0`, parse to zero. */
  lemma ParseZeroDigits(ds: string, fs: string)
    requires |ds| > 0 && forall i :: 0 <= i < |ds| ==> IsDigit(ds[i])
    requires forall i :: 0 <= i < |fs| ==> IsDigit(fs[i])
    requires AllZeros(ds + fs)
    ensures ParseFloat(ds + "." + fs) == Finite(0.0)
  {
    var t := ds + "." + fs;
    NoPrefixSkipped(t);
    ScanFraction(false, ds, fs);
    LiteralZero(DecimalLiteral(false, ds, fs, 0));
  }

  /** `parseFloat` of a minus sign and the decimal rendering of `n` is `-n`. */
  lemma ParseNegativeDecimalString(n: nat)
    ensures ParseFloat("-" + DecimalString(n)) == Finite(-(n as real))
  {
    ParseNegativeDigits(DecimalString(n));
  }

  /** `parseFloat` of a minus sign and digits is minus their value. */
  lemma ParseNegativeDigits(ds: string)
    requires |ds| > 0 && forall i :: 0 <= i < |ds| ==> IsDigit(ds[i])
    ensures ParseFloat("-" + ds) == Finite(-(DecimalValue(ds) as real))
  {
    ScanNegativeDigits(ds);
    WholeLiteralValue(true, ds);
  }

  lemma ScanNegativeDigits(s: string)
    requires |s| > 0 && forall i :: 0 <= i < |s| ==> IsDigit(s[i])
    ensures ScanLiteral("-" + s) == Some(DecimalLiteral(true, s, "", 0))
  {
    MinusSign(s);
    ScanWhole(true, s);
  }

  /** After the white space and the sign, the text is `u`. */
  lemma MinusSign(s: string)
    requires |s| > 0
    ensures SplitSign(TrimStart("-" + s)) == (true, s)
  {
    var t := "-" + s;
    assert t[0] == '-' && !IsJsWhitespace('-');
    assert TrimStart(t) == t;
    assert t[1..] == s;
  }

  /** A sign followed only by digits scans as a whole-number literal. */
  lemma ScanWholeDigits(s: string, negative: bool, u: string)
    requires SplitSign(TrimStart(s)) == (negative, u)
    requires |u| > 0 && forall i :: 0 <= i < |u| ==> IsDigit(u[i])
    ensures ScanLiteral(s) == Some(DecimalLiteral(negative, u, "", 0))
  {
    ScanWhole(negative, u);
  }

  /** The longest run of digits stops where the digits do. */
  lemma {:induction false} LeadingDigitsBefore(ds: string, rest: string)
    requires forall i :: 0 <= i < |ds| ==> IsDigit(ds[i])
    requires |rest| == 0 || !IsDigit(rest[0])
    ensures LeadingDigits(ds + rest) == ds
  {
    if |ds| == 0 {
      assert ds + rest == rest;
    } else {
      assert (ds + rest)[0] == ds[0];
      assert (ds + rest)[1..] == ds[1..] + rest;
      LeadingDigitsBefore(ds[1..], rest);
    }
  }

  /** Digits alone scan as a whole-number literal with no exponent. */
  lemma ScanWhole(negative: bool, ds: string)
    requires |ds| > 0 && forall i :: 0 <= i < |ds| ==> IsDigit(ds[i])
    ensures ScanUnsigned(negative, ds) == Some(DecimalLiteral(negative, ds, "", 0))
  {
    LeadingDigitsAll(ds);
    assert !("Infinity" <= ds) by {
      assert IsDigit(ds[0]);
    }
    assert ds[|ds|..] == "";
  }

  /** Digits, a point and digits scan as a literal with that fraction and no exponent. */
  lemma ScanFraction(negative: bool, ds: string, fs: string)
    requires |ds| > 0 && forall i :: 0 <= i < |ds| ==> IsDigit(ds[i])
    requires forall i :: 0 <= i < |fs| ==> IsDigit(fs[i])
    ensures ScanUnsigned(negative, ds + "." + fs) == Some(DecimalLiteral(negative, ds, fs, 0))
  {
    var u := ds + "." + fs;
    var r := "." + fs;
    assert u == ds + r;
    LeadingDigitsBefore(ds, r);
    assert u[|ds|..] == r;
    assert r[1..] == fs;
    LeadingDigitsAll(fs);
    assert r[1 + |fs|..] == "";
    assert FractionPart(r) == (fs, "");
    assert !("Infinity" <= u) by {
      assert u[0] == ds[0] && IsDigit(u[0]);
    }
  }

  /** A literal of whole digits with no fraction or exponent denotes their value, signed. */
  lemma WholeLiteralValue(negative: bool, s: string)
    requires forall i :: 0 <= i < |s| ==> IsDigit(s[i])
    ensures LiteralValue(DecimalLiteral(negative, s, "", 0))
            == Finite(if negative then -(DecimalValue(s) as real) else DecimalValue(s) as real)
  {
    assert s + "" == s;
    assert Pow10(0) == 1.0;
  }
}
