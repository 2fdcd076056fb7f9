/**
 * The test `!isNaN(Number(value))`: `Number` applied to a string yields NaN
 * exactly when the trimmed string is not a StringNumericLiteral of the
 * ECMAScript grammar for ToNumber applied to strings.  The empty string
 * converts to 0, so it counts as numeric.
 */
module JsNumber {
  import opened Strings

  predicate IsDigit(c: char) { '0' <= c <= '9' }

  predicate AllDigits(s: string) {
    forall i :: 0 <= i < |s| ==> IsDigit(s[i])
  }

  predicate AllIn(s: string, alphabet: string) {
    forall i :: 0 <= i < |s| ==> s[i] in alphabet
  }

  /** SignedInteger: an optional sign followed by one or more digits. */
  predicate SignedInteger(s: string) {
    if |s| > 0 && (s[0] == '+' || s[0] == '-') then |s| > 1 && AllDigits(s[1..])
    else |s| > 0 && AllDigits(s)
  }

  /** The digits-and-point part: `1`, `1.`, `1.5` or `.5`, never `.` alone. */
  predicate Mantissa(m: string) {
    var dot := IndexOf(m, ".");
    if dot < 0 then |m| > 0 && AllDigits(m)
    else AllDigits(m[..dot]) && AllDigits(m[dot + 1..]) && |m| > 1
  }

  /** The offset of the exponent indicator `e` or `E`, or `|s|` when there is none. */
  function ExponentStart(s: string): (n: nat)
    ensures n <= |s|
    ensures forall i :: 0 <= i < n ==> s[i] != 'e' && s[i] != 'E'
    ensures n < |s| ==> s[n] == 'e' || s[n] == 'E'
  {
    if s == [] || s[0] == 'e' || s[0] == 'E' then 0 else 1 + ExponentStart(s[1..])
  }

  /** StrUnsignedDecimalLiteral: `Infinity`, or a mantissa with an optional exponent. */
  predicate UnsignedDecimal(s: string) {
    || s == "Infinity"
    || (var e := ExponentStart(s);
        Mantissa(s[..e]) && (e == |s| || SignedInteger(s[e + 1..])))
  }

  /** NonDecimalIntegerLiteral: `0x`/`0o`/`0b` (either case) and at least one digit; no sign. */
  predicate NonDecimalInteger(s: string) {
    |s| > 2 && s[0] == '0' &&
    (|| (s[1] in "xX" && AllIn(s[2..], "0123456789abcdefABCDEF"))
     || (s[1] in "oO" && AllIn(s[2..], "01234567"))
     || (s[1] in "bB" && AllIn(s[2..], "01")))
  }

  /** StringNumericLiteral, for text without surrounding white space. */
  predicate NumericLiteral(t: string) {
    || t == []
    || UnsignedDecimal(t)
    || (|t| > 0 && (t[0] == '+' || t[0] == '-') && UnsignedDecimal(t[1..]))
    || NonDecimalInteger(t)
  }

  /** `!isNaN(Number(s))`. */
  predicate IsNumeric(s: string) {
    NumericLiteral(Trim(s))
  }

  /** `Number("")` is 0, so empty text counts as numeric. */
  lemma EmptyIsNumeric()
    ensures IsNumeric("")
  {
  }

  /** A run of digits around one point, with a digit on at least one side,
      is a mantissa. */
  lemma MantissaWithPoint(i: string, f: string)
    requires AllDigits(i) && AllDigits(f) && |i| + |f| > 0
    ensures Mantissa(i + "." + f)
  {
    var m := i + "." + f;
    assert IsAt(m, ".", |i|) by { assert m[|i|..|i| + 1] == "."; }
    forall k | 0 <= k < |i| ensures !IsAt(m, ".", k) {
      assert m[k..k + 1] == [i[k]];
    }
    assert IndexOf(m, ".") == |i|;
    assert m[..|i|] == i && m[|i| + 1..] == f;
  }

  /** The exponent starts at the first `e` when the text before it has none. */
  lemma ExponentAfter(m: string, x: string)
    requires forall k :: 0 <= k < |m| ==> m[k] != 'e' && m[k] != 'E'
    ensures ExponentStart(m + "e" + x) == |m|
  {
    var u := m + "e" + x;
    assert u[|m|] == 'e';
    forall k | 0 <= k < |m| ensures u[k] != 'e' && u[k] != 'E' {
      assert u[k] == m[k];
    }
  }

  /** `digits.digits e [+-]digits` is an unsigned decimal literal. */
  lemma UnsignedWithExponent(i: string, f: string, x: string)
    requires AllDigits(i) && AllDigits(f) && |i| + |f| > 0 && SignedInteger(x)
    ensures UnsignedDecimal(i + "." + f + "e" + x)
  {
    var m := i + "." + f;
    MantissaWithPoint(i, f);
    forall k | 0 <= k < |m| ensures m[k] != 'e' && m[k] != 'E' {
      if k < |i| { assert m[k] == i[k]; } else if k > |i| { assert m[k] == f[k - |i| - 1]; }
    }
    ExponentAfter(m, x);
    var u := m + "e" + x;
    assert u[..|m|] == m && u[|m| + 1..] == x;
  }

  /** An unsigned decimal ending in a digit stays numeric behind an
      optional sign. */
  lemma SignedDecimalIsNumeric(sign: string, u: string)
    requires sign == "" || sign == "+" || sign == "-"
    requires UnsignedDecimal(u) && |u| > 0 && IsDigit(u[|u| - 1]) && !IsSpace(u[0])
    ensures IsNumeric(sign + u)
  {
    var s := sign + u;
    assert s[|s| - 1] == u[|u| - 1];
    TrimUnspaced(s);
    if sign != "" {
      assert s[1..] == u;
    }
  }

  /** Every signed or unsigned decimal with a fraction and an exponent,
      `[+-]digits.digits e [+-]digits` with a digit in the mantissa, is numeric. */
  lemma DecimalWithExponentIsNumeric(sign: string, i: string, f: string, x: string)
    requires sign == "" || sign == "+" || sign == "-"
    requires AllDigits(i) && AllDigits(f) && |i| + |f| > 0 && SignedInteger(x)
    ensures IsNumeric(sign + (i + "." + f + "e" + x))
  {
    var u := i + "." + f + "e" + x;
    UnsignedWithExponent(i, f, x);
    assert u[|u| - 1] == x[|x| - 1];
    assert IsDigit(x[|x| - 1]) by {
      if x[0] == '+' || x[0] == '-' { assert x[|x| - 1] == x[1..][|x| - 2]; }
    }
    assert u[0] == '.' || IsDigit(u[0]);
    SignedDecimalIsNumeric(sign, u);
  }

  /** Every `0x` literal with at least one hexadecimal digit is numeric. */
  lemma HexIsNumeric(h: string)
    requires h != [] && AllIn(h, "0123456789abcdefABCDEF")
    ensures IsNumeric("0x" + h)
  {
    var s := "0x" + h;
    assert s[|s| - 1] == h[|h| - 1];
    assert s[2..] == h;
    TrimUnspaced(s);
  }

  /** Text that starts with neither a digit nor a point is no mantissa. */
  lemma NotMantissa(m: string)
    requires |m| > 0 && !IsDigit(m[0]) && m[0] != '.'
    ensures !Mantissa(m)
  {
    var dot := IndexOf(m, ".");
    if dot > 0 {
      assert m[..dot][0] == m[0];
    }
  }

  /** The text JavaScript prints for NaN is not numeric. */
  lemma NaNTextIsNotNumeric()
    ensures !IsNumeric("NaN")
  {
    var t := "NaN";
    TrimUnspaced(t);
    var e := ExponentStart(t);
    assert e > 0;
    NotMantissa(t[..e]);
    assert t != "Infinity" by { assert |t| != |"Infinity"|; }
  }
}
