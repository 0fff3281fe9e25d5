/**
 * The two number/string conversions the service relies on: `parseInt(s, 10)`,
 * which reads the `page` and `limit` query parameters, and `Number.prototype.toString`
 * on integers, which Mongoose uses to cast a numeric body field to a string.
 */
module JsNumber {
  import opened Results
  import opened JsText

  const Minus: CodeUnit := 0x2D
  const Plus: CodeUnit := 0x2B
  const Zero: CodeUnit := 0x30

  predicate IsDigit(c: CodeUnit) {
    Zero <= c <= 0x39
  }

  predicate AllDigits(s: JsString) {
    forall i :: 0 <= i < |s| ==> IsDigit(s[i])
  }

  /** The longest prefix of `s` made of decimal digits. */
  function DigitPrefix(s: JsString): (z: JsString)
    ensures |z| <= |s| && z == s[..|z|]
    ensures AllDigits(z)
    ensures |z| == |s| || !IsDigit(s[|z|])
  {
    if |s| > 0 && IsDigit(s[0]) then [s[0]] + DigitPrefix(s[1..]) else []
  }

  /** The number a string of decimal digits denotes, most significant digit first. */
  function DigitsValue(z: JsString): nat
    requires AllDigits(z)
  {
    if z == [] then 0 else DigitsValue(z[..|z| - 1]) * 10 + (z[|z| - 1] - Zero) as int
  }

  /** The decimal digits of `n`, without leading zeros. */
  function Digits(n: nat): (z: JsString)
    ensures |z| >= 1 && AllDigits(z)
    ensures |z| > 1 ==> z[0] != Zero
  {
    if n < 10 then [(Zero as int + n) as CodeUnit]
    else Digits(n / 10) + [(Zero as int + n % 10) as CodeUnit]
  }

  /** `Number.prototype.toString()` of an integer whose decimal form has no exponent. */
  function IntegerToString(n: int): JsString {
    if n < 0 then [Minus] + Digits(-n) else Digits(n)
  }

  /** `parseInt(s, 10)`: skip leading whitespace, take one optional sign, then the
      longest run of decimal digits; no digits at all gives NaN (`None`). The value
      `-0` is the integer 0 here. */
  function ParseInt(s: JsString): Option<int> {
    var t := TrimStart(s);
    var negative := |t| > 0 && t[0] == Minus;
    var unsigned := if |t| > 0 && (t[0] == Minus || t[0] == Plus) then t[1..] else t;
    var z := DigitPrefix(unsigned);
    if z == [] then None
    else
      var magnitude: int := DigitsValue(z);
      Some(if negative then -magnitude else magnitude)
  }

  lemma {:induction false} DigitsValueOfDigits(n: nat)
    ensures DigitsValue(Digits(n)) == n
  {
    var z := Digits(n);
    if n >= 10 {
      assert z[..|z| - 1] == Digits(n / 10);
      DigitsValueOfDigits(n / 10);
    }
  }

  lemma {:induction false} DigitPrefixStops(z: JsString, rest: JsString)
    requires AllDigits(z)
    requires rest == [] || !IsDigit(rest[0])
    ensures DigitPrefix(z + rest) == z
  {
    if z != [] {
      assert (z + rest)[1..] == z[1..] + rest;
      DigitPrefixStops(z[1..], rest);
    }
  }

  /** `parseInt` reads back what `toString` wrote, and stops at the first code unit
      that cannot continue the number (so `"12abc"` and `"1.5"` read as 12 and 1). */
  lemma ParseIntReadsInteger(n: int, rest: JsString)
    requires rest == [] || !IsDigit(rest[0])
    ensures ParseInt(IntegerToString(n) + rest) == Some(n)
  {
    var m := if n < 0 then -n else n;
    var z := Digits(m);
    DigitsValueOfDigits(m);
    DigitPrefixStops(z, rest);
    if n < 0 {
      ParseIntSigned(z, rest);
    } else {
      ParseIntUnsigned(z, rest);
    }
  }

  /** A string that does not start with whitespace is its own `TrimStart`. */
  lemma NoLeadingSpace(s: JsString)
    requires |s| > 0 && !IsWhitespace(s[0])
    ensures TrimStart(s) == s
  {
    TrimStartAt(s, 0);
    assert s[0..] == s;
  }

  lemma ParseIntUnsigned(z: JsString, rest: JsString)
    requires z != [] && AllDigits(z) && DigitPrefix(z + rest) == z
    ensures ParseInt(z + rest) == Some(DigitsValue(z))
  {
    var s := z + rest;
    assert s[0] == z[0] && IsDigit(z[0]);
    assert s[0] != Minus && s[0] != Plus;
    NoLeadingSpace(s);
  }

  lemma ParseIntSigned(z: JsString, rest: JsString)
    requires z != [] && AllDigits(z) && DigitPrefix(z + rest) == z
    ensures ParseInt([Minus] + z + rest) == Some(0 - DigitsValue(z) as int)
  {
    var s := [Minus] + z + rest;
    assert s[0] == Minus;
    NoLeadingSpace(s);
    assert DigitPrefix(s[1..]) == z by {
      assert s[1..] == z + rest;
    }
  }

  /** `parseInt` on any input with digits right after the leading whitespace and an
      optional sign: the value of the longest digit run, negated after a minus sign. */
  lemma ParseIntReadsDigits(w: JsString, sign: JsString, z: JsString, rest: JsString)
    requires AllWhitespace(w)
    requires sign == [] || sign == [Minus] || sign == [Plus]
    requires z != [] && AllDigits(z)
    requires rest == [] || !IsDigit(rest[0])
    ensures ParseInt(w + sign + z + rest) ==
            Some(if sign == [Minus] then 0 - DigitsValue(z) as int else DigitsValue(z))
  {
    DigitPrefixStops(z, rest);
    var t := sign + z + rest;
    assert t[0] == if sign != [] then sign[0] else z[0];
    ParseIntAfterSpace(w, t);
    ConcatAssociates(w + sign, z, rest);
    ConcatAssociates(w, sign, z + rest);
    ConcatAssociates(sign, z, rest);
    assert w + sign + z + rest == w + t;
    if sign == [] {
      assert t == z + rest;
      ParseIntUnsigned(z, rest);
    } else if sign == [Minus] {
      ParseIntSigned(z, rest);
    } else {
      ParseIntPlus(z, rest);
    }
  }

  lemma ConcatAssociates(a: JsString, b: JsString, c: JsString)
    ensures a + b + c == a + (b + c)
  {
  }

  /** Leading whitespace does not change what `parseInt` reads. */
  lemma ParseIntAfterSpace(w: JsString, t: JsString)
    requires AllWhitespace(w)
    requires |t| > 0 && !IsWhitespace(t[0])
    ensures ParseInt(w + t) == ParseInt(t)
  {
    var s := w + t;
    forall k | 0 <= k < |w| ensures IsWhitespace(s[k]) { assert s[k] == w[k]; }
    assert s[|w|] == t[0];
    TrimStartAt(s, |w|);
    assert s[|w|..] == t;
    NoLeadingSpace(t);
  }

  lemma ParseIntPlus(z: JsString, rest: JsString)
    requires z != [] && AllDigits(z) && DigitPrefix(z + rest) == z
    ensures ParseInt([Plus] + z + rest) == Some(DigitsValue(z))
  {
    var s := [Plus] + z + rest;
    assert s[0] == Plus;
    NoLeadingSpace(s);
    assert DigitPrefix(s[1..]) == z by {
      assert s[1..] == z + rest;
    }
  }

  /** Without a digit after the optional whitespace and sign, `parseInt` gives NaN. */
  lemma ParseIntNaN(w: JsString, sign: JsString, rest: JsString)
    requires AllWhitespace(w)
    requires sign == [] || sign == [Minus] || sign == [Plus]
    requires rest == [] || (!IsDigit(rest[0]) && (sign == [] ==> !IsWhitespace(rest[0]) && rest[0] != Minus && rest[0] != Plus))
    ensures ParseInt(w + sign + rest) == None
  {
    var s := w + sign + rest;
    forall k | 0 <= k < |w| ensures IsWhitespace(s[k]) { assert s[k] == w[k]; }
    if sign != [] {
      assert s[|w|] == sign[0];
    }
    TrimStartAt(s, |w|);
    assert s[|w|..] == sign + rest;
    if sign != [] {
      assert (sign + rest)[1..] == rest;
    }
  }
}
