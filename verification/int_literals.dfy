/**
 Python's `int(text)` for base-10 literals, and its inverse `str(n)`.

 `int()` strips surrounding whitespace and then accepts an optional sign
 followed by at least one ASCII digit; leading zeros are allowed. Anything
 else raises `ValueError`, which the model reports as `InvalidLiteral`
 carrying the argument.
 */
module IntLiterals {
  import opened Outcomes
  import opened Strings

  predicate IsDigit(ch: char) {
    '0' <= ch <= '9'
  }

  predicate AllDigits(s: string) {
    forall i :: 0 <= i < |s| ==> IsDigit(s[i])
  }

  /** The decimal value of a digit string, most significant digit first. */
  function DigitsValue(ds: string): nat
    requires AllDigits(ds)
    decreases |ds|
  {
    if |ds| == 0 then 0
    else 10 * DigitsValue(ds[..|ds| - 1]) + (ds[|ds| - 1] as int - '0' as int)
  }

  predicate IsSign(ch: char) {
    ch == '+' || ch == '-'
  }

  /** The digits of a literal, after its optional sign. */
  function Magnitude(t: string): string {
    if |t| > 0 && IsSign(t[0]) then t[1..] else t
  }

  /** An already-stripped integer literal: an optional sign and one or more digits. */
  predicate IsIntLiteral(t: string) {
    |Magnitude(t)| > 0 && AllDigits(Magnitude(t))
  }

  /** The value of an already-stripped literal, if it is one. */
  function LiteralValue(t: string): (v: Option<int>)
    ensures v.Some? <==> IsIntLiteral(t)
    ensures v.Some? && v.value < 0 ==> t[0] == '-'
  {
    if !IsIntLiteral(t) then None
    else if t[0] == '-' then Some(-(DigitsValue(t[1..]) as int))
    else Some(DigitsValue(Magnitude(t)))
  }

  /** `int(token)` in base 10. */
  function ParseInt(token: string): (r: Result<int>)
    ensures r.Ok? <==> IsIntLiteral(Strip(token))
    ensures r.Err? ==> r.error == InvalidLiteral(token)
    ensures r.Ok? ==> (r.value < 0 ==> Strip(token)[0] == '-')
  {
    match LiteralValue(Strip(token))
    case Some(v) => Ok(v)
    case None => Err(InvalidLiteral(token))
  }

  function DigitChar(d: nat): (ch: char)
    requires d < 10
    ensures IsDigit(ch)
  {
    ('0' as int + d) as char
  }

  /** `str(n)` for a natural number: its decimal digits without leading zeros. */
  function NatToDigits(n: nat): (ds: string)
    ensures |ds| > 0 && AllDigits(ds)
    decreases n
  {
    if n < 10 then [DigitChar(n)] else NatToDigits(n / 10) + [DigitChar(n % 10)]
  }

  /** `str(n)`: the decimal literal of `n`, with a `-` when it is negative. */
  function IntToString(n: int): string {
    if n < 0 then "-" + NatToDigits(-n) else NatToDigits(n)
  }

  /** A literal is made of digits and a minus sign only, so it is its own strip. */
  lemma IntToStringChars(n: int)
    ensures forall i :: 0 <= i < |IntToString(n)| ==> IsDigit(IntToString(n)[i]) || IntToString(n)[i] == '-'
    ensures Strip(IntToString(n)) == IntToString(n)
  {
    var s := IntToString(n);
    assert !IsSpace(s[0]) && !IsSpace(s[|s| - 1]);
    StripUnpadded(s);
  }

  /** Reading back the digits of `n` gives `n`. */
  lemma {:induction false} DigitsRoundTrip(n: nat)
    ensures DigitsValue(NatToDigits(n)) == n
    decreases n
  {
    if n >= 10 {
      var ds := NatToDigits(n);
      assert ds[..|ds| - 1] == NatToDigits(n / 10);
      DigitsRoundTrip(n / 10);
    }
  }

  /** A digit is never whitespace, so a digit string is its own strip. */
  lemma DigitsUnpadded(ds: string)
    requires |ds| > 0 && AllDigits(ds)
    ensures Strip(ds) == ds
  {
    assert !IsSpace(ds[0]) && !IsSpace(ds[|ds| - 1]);
    StripUnpadded(ds);
  }

  /** Nor is a minus sign, so a negated digit string is its own strip too. */
  lemma NegatedDigitsUnpadded(ds: string)
    requires |ds| > 0 && AllDigits(ds)
    ensures Strip("-" + ds) == "-" + ds
  {
    var s := "-" + ds;
    assert s[|s| - 1] == ds[|ds| - 1];
    StripUnpadded(s);
  }

  /** Nor is a plus sign, so a plus-signed digit string is its own strip as well. */
  lemma PlusUnpadded(ds: string)
    requires |ds| > 0 && AllDigits(ds)
    ensures Strip("+" + ds) == "+" + ds
  {
    var s := "+" + ds;
    assert s[|s| - 1] == ds[|ds| - 1];
    StripUnpadded(s);
  }

  /** The value of a stripped digit string. */
  lemma DigitsLiteralValue(ds: string)
    requires |ds| > 0 && AllDigits(ds)
    ensures LiteralValue(ds) == Some(DigitsValue(ds) as int)
  {
    assert Magnitude(ds) == ds;
  }

  /** The value of a stripped digit string after a minus sign. */
  lemma NegatedLiteralValue(ds: string)
    requires |ds| > 0 && AllDigits(ds)
    ensures LiteralValue("-" + ds) == Some(-(DigitsValue(ds) as int))
  {
    assert ("-" + ds)[1..] == ds;
  }

  /** A plus sign in front of a digit string leaves its value unchanged. */
  lemma PlusLiteralValue(ds: string)
    requires |ds| > 0 && AllDigits(ds)
    ensures LiteralValue("+" + ds) == Some(DigitsValue(ds) as int)
  {
    assert ("+" + ds)[1..] == ds;
  }

  /** A digit string reads back as its value. */
  lemma ParseDigits(ds: string)
    requires |ds| > 0 && AllDigits(ds)
    ensures ParseInt(ds) == Ok(DigitsValue(ds) as int)
  {
    DigitsUnpadded(ds);
    DigitsLiteralValue(ds);
  }

  /** A minus sign followed by a digit string reads back as the negated value. */
  lemma ParseNegatedDigits(ds: string)
    requires |ds| > 0 && AllDigits(ds)
    ensures ParseInt("-" + ds) == Ok(-(DigitsValue(ds) as int))
  {
    NegatedDigitsUnpadded(ds);
    NegatedLiteralValue(ds);
  }

  /** A plus sign followed by a digit string reads back as the value of the digits. */
  lemma ParsePlusDigits(ds: string)
    requires |ds| > 0 && AllDigits(ds)
    ensures ParseInt("+" + ds) == Ok(DigitsValue(ds) as int)
  {
    PlusUnpadded(ds);
    PlusLiteralValue(ds);
  }

  /** `int('+' + str(n)) == n` for every natural number `n`. */
  lemma PlusRoundTrip(n: nat)
    ensures ParseInt("+" + IntToString(n)) == Ok(n)
  {
    DigitsRoundTrip(n);
    ParsePlusDigits(NatToDigits(n));
  }

  /** The literal of a natural number reads back as that number. */
  lemma NaturalRoundTrip(m: nat)
    ensures ParseInt(IntToString(m)) == Ok(m)
  {
    DigitsRoundTrip(m);
    ParseDigits(NatToDigits(m));
  }

  /** The literal of a negative number reads back as that number. */
  lemma NegativeRoundTrip(m: nat)
    requires m > 0
    ensures ParseInt(IntToString(-(m as int))) == Ok(-(m as int))
  {
    assert IntToString(-(m as int)) == "-" + NatToDigits(m);
    DigitsRoundTrip(m);
    ParseNegatedDigits(NatToDigits(m));
  }

  /** `int(str(n)) == n` for every integer `n`. */
  lemma ParseIntToString(n: int)
    ensures ParseInt(IntToString(n)) == Ok(n)
  {
    if n < 0 {
      NegativeRoundTrip(-n);
    } else {
      NaturalRoundTrip(n);
    }
  }

  /** A literal never contains a comma, so a list of them splits back apart. */
  lemma IntToStringHasNoComma(n: int)
    ensures ',' !in IntToString(n)
  {
    var ds := NatToDigits(if n < 0 then -n else n);
    assert forall i :: 0 <= i < |ds| ==> ds[i] != ',';
  }
}
