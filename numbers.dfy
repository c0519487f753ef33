/** Reading a measured value: `np.float32(s)`, which accepts what Python's
    `float(s)` accepts. The value is kept exact; rounding to 32 bits is not
    modelled. */
module Numbers {
  import opened Wrappers
  import opened Text

  datatype Num = NaN | Inf(negative: bool) | Finite(value: real)

  /** Python's `digitpart`: `digit (["_"] digit)*`. */
  predicate IsDigitPart(s: string)
    decreases |s|
  {
    |s| > 0 && IsDigit(s[0]) &&
    (|s| == 1 || IsDigitPart(s[1..]) || (s[1] == '_' && |s| > 2 && IsDigitPart(s[2..])))
  }

  /** The digits of `s`, in order (for a `digitpart`: without its underscores). */
  function OnlyDigits(s: string): (r: string)
    ensures AllDigits(r)
    ensures AllDigits(s) ==> r == s
  {
    if s == [] then []
    else (if IsDigit(s[0]) then [s[0]] else []) + OnlyDigits(s[1..])
  }

  /** The first position of a character of `cs` in `s`, or `|s|`. */
  function FirstOf(s: string, cs: set<char>): (n: nat)
    ensures n <= |s|
    ensures forall i :: 0 <= i < n ==> s[i] !in cs
    ensures n < |s| ==> s[n] in cs
  {
    if s == [] || s[0] in cs then 0 else 1 + FirstOf(s[1..], cs)
  }

  function AsciiLower(s: string): string {
    if s == [] then []
    else [if 'A' <= s[0] <= 'Z' then (s[0] as int + 32) as char else s[0]] + AsciiLower(s[1..])
  }

  /** `x * 10^e`. */
  function Scale(x: real, e: int): real {
    if e >= 0 then x * Pow10(e) as real else x / Pow10(-e) as real
  }

  /** The digits of a `digitpart` as a number. */
  function PartValue(s: string): nat {
    DigitsValue(OnlyDigits(s))
  }

  /** The exponent after `e` or `E`: an optional sign, then a `digitpart`. */
  function Exponent(s: string): Option<int> {
    var neg := |s| > 0 && s[0] == '-';
    var digits := if |s| > 0 && (s[0] == '+' || s[0] == '-') then s[1..] else s;
    var v: int := PartValue(digits);
    if IsDigitPart(digits) then Some(if neg then -v else v) else None
  }

  /** The part before the exponent: `[digitpart] "." digitpart | digitpart ["."]`. */
  function Mantissa(s: string): Option<real> {
    var dot := FirstOf(s, {'.'});
    if dot == |s| then Digits(s, "") else Digits(s[..dot], s[dot + 1..])
  }

  /** The number with integer part `whole` and `width` decimals `fraction`. */
  function DecimalValue(whole: nat, fraction: nat, width: nat): real {
    whole as real + fraction as real / Pow10(width) as real
  }

  /** The digits before and after the point, read as one number. */
  function Digits(whole: string, fraction: string): Option<real> {
    if (whole == "" || IsDigitPart(whole)) && (fraction == "" || IsDigitPart(fraction)) && (whole != "" || fraction != "") then
      Some(DecimalValue(PartValue(whole), PartValue(fraction), |OnlyDigits(fraction)|))
    else None
  }

  /** Python's `floatnumber`: a mantissa, then an optional exponent. */
  function Decimal(s: string): Option<real> {
    var e := FirstOf(s, {'e', 'E'});
    var exp :- if e == |s| then Some(0) else Exponent(s[e + 1..]);
    var m :- Mantissa(s[..e]);
    Some(Scale(m, exp))
  }

  /** `float(s)` on a text without surrounding whitespace: an optional sign,
      then `nan`, `inf`, `infinity` (in any case) or a decimal number. */
  function ParseFloat(s: string): Option<Num> {
    var neg := |s| > 0 && s[0] == '-';
    var body := if |s| > 0 && (s[0] == '+' || s[0] == '-') then s[1..] else s;
    var word := AsciiLower(body);
    if word == "nan" then Some(NaN)
    else if word == "inf" || word == "infinity" then Some(Inf(neg))
    else
      var x :- Decimal(body);
      Some(Finite(if neg then -x else x))
  }

  lemma {:induction false} DigitsArePart(s: string)
    requires IsDigitString(s)
    ensures IsDigitPart(s) && PartValue(s) == DigitsValue(s) && OnlyDigits(s) == s
  {
    if |s| > 1 {
      DigitsArePart(s[1..]);
    }
  }

  lemma NoExponent(a: string, b: string)
    requires IsDigitString(a) && IsDigitString(b)
    ensures FirstOf(a + "." + b, {'e', 'E'}) == |a + "." + b|
  {
    var s := a + "." + b;
    forall i | 0 <= i < |s| ensures s[i] !in {'e', 'E'} {
      if i < |a| { assert s[i] == a[i]; }
      else if i > |a| { assert s[i] == b[i - |a| - 1]; }
    }
  }

  lemma FirstDot(a: string, b: string)
    requires AllDigits(a)
    ensures FirstOf(a + "." + b, {'.'}) == |a|
  {
    assert (a + "." + b)[|a|] == '.';
  }

  lemma DigitsOf(a: string, b: string)
    requires IsDigitString(a) && IsDigitString(b)
    ensures Digits(a, b) == Some(DecimalValue(DigitsValue(a), DigitsValue(b), |b|))
  {
    DigitsArePart(a);
    DigitsArePart(b);
  }

  lemma MantissaOf(a: string, b: string)
    requires IsDigitString(a) && IsDigitString(b)
    ensures Mantissa(a + "." + b) == Some(DecimalValue(DigitsValue(a), DigitsValue(b), |b|))
  {
    var s := a + "." + b;
    FirstDot(a, b);
    assert s[..|a|] == a;
    assert s[|a| + 1..] == b;
    DigitsOf(a, b);
  }

  lemma DecimalOf(a: string, b: string)
    requires IsDigitString(a) && IsDigitString(b)
    ensures Decimal(a + "." + b) == Some(DecimalValue(DigitsValue(a), DigitsValue(b), |b|))
  {
    var s := a + "." + b;
    NoExponent(a, b);
    assert s[..|s|] == s;
    MantissaOf(a, b);
    ScaleZero(DecimalValue(DigitsValue(a), DigitsValue(b), |b|));
  }

  lemma ScaleZero(x: real)
    ensures Scale(x, 0) == x
  {
    assert Pow10(0) == 1;
  }

  /** A text that starts with a digit is no special word. */
  lemma NoWord(s: string)
    requires |s| > 0 && IsDigit(s[0])
    ensures AsciiLower(s) != "nan" && AsciiLower(s) != "inf" && AsciiLower(s) != "infinity"
  {
    assert AsciiLower(s)[0] == s[0];
  }

  /** A decimal `a.b` of plain digits denotes `a + b / 10^|b|`. */
  lemma ParseDecimal(a: string, b: string)
    requires IsDigitString(a) && IsDigitString(b)
    ensures ParseFloat(a + "." + b)
      == Some(Finite(DecimalValue(DigitsValue(a), DigitsValue(b), |b|)))
  {
    var s := a + "." + b;
    assert s[0] == a[0];
    NoWord(s);
    DecimalOf(a, b);
  }

  lemma ParseNaN()
    ensures ParseFloat("NaN") == Some(NaN)
  {
    assert AsciiLower("NaN") == "nan";
  }
}
