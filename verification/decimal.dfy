/** Python's `float(text)` over plain decimal text, as an exact rational
    value.  Binary floating point, exponents, `inf`, `nan` and digit-group
    underscores are outside this model. */
module Decimal {
  import opened Wrappers
  import opened PyText

  predicate AllDigits(s: string) {
    forall k :: 0 <= k < |s| ==> IsDigit(s[k])
  }

  function DigitValue(c: char): nat
    requires IsDigit(c)
  {
    c as int - '0' as int
  }

  /** The value of a string of decimal digits (0 for the empty string). */
  function DigitsValue(ds: string): nat
    requires AllDigits(ds)
    decreases |ds|
  {
    if |ds| == 0 then 0
    else 10 * DigitsValue(ds[..|ds| - 1]) + DigitValue(ds[|ds| - 1])
  }

  function Pow10(n: nat): (r: nat)
    ensures r >= 1
  {
    if n == 0 then 1 else 10 * Pow10(n - 1)
  }

  /** The digits of `n` in decimal, without leading zeros ("0" for zero). */
  function NatDigits(n: nat): (ds: string)
    ensures |ds| > 0 && AllDigits(ds)
    decreases n
  {
    var last := ['0' + (n % 10) as char];
    if n < 10 then last else NatDigits(n / 10) + last
  }

  /** Reading back the digits of `n` gives `n`. */
  lemma {:induction false} NatDigitsRoundTrip(n: nat)
    ensures DigitsValue(NatDigits(n)) == n
    decreases n
  {
    var ds := NatDigits(n);
    if n >= 10 {
      NatDigitsRoundTrip(n / 10);
      assert ds[..|ds| - 1] == NatDigits(n / 10);
    }
  }

  /** Text `float` accepts once every character is a digit or a dot: at
      least one character, at most one dot, and not the lone dot. */
  predicate IsUnsignedDecimal(t: string) {
    && |t| > 0
    && (forall k :: 0 <= k < |t| ==> IsDigitOrDot(t[k]))
    && AtMostOneDot(t)
    && t != "."
  }

  predicate AtMostOneDot(t: string) {
    forall a, b :: 0 <= a < b < |t| && t[a] == '.' ==> t[b] != '.'
  }

  /** `float(t)` for a text of digits with at most one dot: `12`, `12.`,
      `.5`, `12.50`. */
  function UnsignedDecimal(t: string): (r: Option<real>)
    ensures r.Some? ==> r.value >= 0.0
  {
    var d := RunEnd(t, 0, IsDigit);
    if d == |t| then
      if d > 0 then Some(DigitsValue(t) as real) else None
    else if t[d] != '.' then None
    else if RunEnd(t, d + 1, IsDigit) != |t| || |t| == 1 then None
    else
      var frac := t[d + 1..];
      Some(DigitsValue(t[..d]) as real + DigitsValue(frac) as real / Pow10(|frac|) as real)
  }

  /** On digits-and-dots text, `UnsignedDecimal` succeeds exactly on the
      texts `float` accepts. */
  lemma UnsignedDecimalAccepts(t: string)
    requires forall k :: 0 <= k < |t| ==> IsDigitOrDot(t[k])
    ensures UnsignedDecimal(t).Some? <==> IsUnsignedDecimal(t)
  {
    var d := RunEnd(t, 0, IsDigit);
    if d < |t| {
      assert t[d] == '.';
      var e := RunEnd(t, d + 1, IsDigit);
      if e != |t| {
        assert t[e] == '.';
        assert !AtMostOneDot(t);
      }
    }
  }

  lemma StripNoSpace(s: string)
    requires NoSpace(s)
    ensures Strip(s) == s
  {
    StripStripped(s);
  }

  /** `float(s)` for decimal text: surrounding whitespace and one sign are
      allowed; anything else that is not a plain decimal is refused. */
  function ParseFloat(s: string): (r: Option<real>)
    ensures (forall k :: 0 <= k < |s| ==> IsDigitOrDot(s[k])) ==>
      (r.Some? <==> IsUnsignedDecimal(s))
    ensures '-' !in s && r.Some? ==> r.value >= 0.0
  {
    if (forall k :: 0 <= k < |s| ==> IsDigitOrDot(s[k])) then
      StripNoSpace(s);
      UnsignedDecimalAccepts(s);
      UnsignedDecimal(s)
    else
      var t := Strip(s);
      if |t| > 0 && t[0] == '-' then
        assert t[0] in s;
        match UnsignedDecimal(t[1..])
        case Some(v) => Some(-v)
        case None => None
      else if |t| > 0 && t[0] == '+' then UnsignedDecimal(t[1..])
      else UnsignedDecimal(t)
  }

  /** The decimal text of a whole number parses back to that number. */
  lemma ParseNatDigits(n: nat)
    ensures ParseFloat(NatDigits(n)) == Some(n as real)
  {
    var ds := NatDigits(n);
    NatDigitsRoundTrip(n);
    assert RunEnd(ds, 0, IsDigit) == |ds|;
  }
}
