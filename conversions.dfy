/** Conversions used by the argument accessors: the lenient integer parse
    (the `atoi`-style policy that yields 0 for anything that is not a
    number) and the boolean reading of a stored argument value. */
module Conversions {

  predicate IsDigit(c: char) {
    '0' <= c <= '9'
  }

  predicate AllDigits(s: string) {
    forall i :: 0 <= i < |s| ==> IsDigit(s[i])
  }

  function DigitValue(c: char): (d: nat)
    requires IsDigit(c)
    ensures d < 10
  {
    (c as int) - ('0' as int)
  }

  function DigitChar(d: nat): (c: char)
    requires d < 10
    ensures IsDigit(c) && DigitValue(c) == d
  {
    (('0' as int) + d) as char
  }

  /** The longest prefix of `s` made of decimal digits. */
  function LeadingDigits(s: string): (ds: string)
    ensures AllDigits(ds)
    ensures |ds| <= |s| && ds == s[..|ds|]
    ensures |ds| < |s| ==> !IsDigit(s[|ds|])
    ensures AllDigits(s) ==> ds == s
  {
    if s == [] || !IsDigit(s[0]) then [] else [s[0]] + LeadingDigits(s[1..])
  }

  /** The value of a string of decimal digits, most significant first. */
  function DecimalValue(ds: string): nat
    requires AllDigits(ds)
  {
    if ds == [] then 0
    else DecimalValue(ds[..|ds| - 1]) * 10 + DigitValue(ds[|ds| - 1])
  }

  /** The decimal spelling of a natural number, without leading zeros. */
  function NatToDecimal(n: nat): (s: string)
    ensures |s| >= 1 && AllDigits(s)
    ensures |s| > 1 ==> s[0] != '0'
  {
    if n < 10 then [DigitChar(n)] else NatToDecimal(n / 10) + [DigitChar(n % 10)]
  }

  /** Lenient integer parse: an optional sign, then the longest run of
      decimal digits; a value with no leading digits reads as 0. */
  function ParseIntOrZero(s: string): (r: int)
    ensures (s == [] || (!IsDigit(s[0]) && s[0] != '-' && s[0] != '+')) ==> r == 0
    ensures AllDigits(s) ==> r == DecimalValue(s)
  {
    if |s| > 0 && s[0] == '-' then -(DecimalValue(LeadingDigits(s[1..])) as int)
    else if |s| > 0 && s[0] == '+' then DecimalValue(LeadingDigits(s[1..]))
    else DecimalValue(LeadingDigits(s))
  }

  /** The boolean reading of a stored value: an empty value means true,
      any other value is true exactly when its integer parse is nonzero. */
  predicate InterpretBool(s: string) {
    s == [] || ParseIntOrZero(s) != 0
  }

  /** The value the parser stores for a boolean it derives itself. */
  function BoolText(b: bool): (s: string)
    ensures s == "1" || s == "0"
  {
    if b then "1" else "0"
  }

  lemma {:induction false} DecimalValueOfNatToDecimal(n: nat)
    ensures DecimalValue(NatToDecimal(n)) == n
  {
    var s := NatToDecimal(n);
    if n < 10 {
      assert s[..0] == [];
    } else {
      DecimalValueOfNatToDecimal(n / 10);
      assert s[..|s| - 1] == NatToDecimal(n / 10);
    }
  }

  /** Reading back the decimal spelling of a number gives the number. */
  lemma {:induction false} ParseNatToDecimal(n: nat)
    ensures ParseIntOrZero(NatToDecimal(n)) == n
  {
    DecimalValueOfNatToDecimal(n);
  }

  /** A number written in decimal is true exactly when it is nonzero. */
  lemma {:induction false} InterpretBoolOfNumber(n: nat)
    ensures InterpretBool(NatToDecimal(n)) <==> n != 0
  {
    ParseNatToDecimal(n);
  }

  /** The derived values "1" and "0" read back as the boolean they encode. */
  lemma InterpretBoolText(b: bool)
    ensures InterpretBool(BoolText(b)) == b
  {
    if b {
      ParseNatToDecimal(1);
      assert NatToDecimal(1) == "1";
    } else {
      ParseNatToDecimal(0);
      assert NatToDecimal(0) == "0";
    }
  }
}
