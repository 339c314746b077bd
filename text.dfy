/** Characters, ASCII case folding and decimal rendering of numbers. */
module Text {

  predicate IsDigit(c: char) { '0' <= c <= '9' }

  predicate AllDigits(s: string) { forall i | 0 <= i < |s| :: IsDigit(s[i]) }

  predicate AllSpaces(s: string) { forall i | 0 <= i < |s| :: s[i] == ' ' }

  predicate IsLowerLetter(c: char) { 'a' <= c <= 'z' }

  /** ASCII lower-casing, as `toLowerCase` does on the ASCII letters. */
  function LowerChar(c: char): char {
    if 'A' <= c <= 'Z' then (c as int + 32) as char else c
  }

  /** Lower-casing changes only upper-case letters, into lower-case ones: a character whose
      lower-case form is not a lower-case letter is left as it is. */
  lemma LowerCharKeepsNonLetter(c: char)
    ensures !IsLowerLetter(LowerChar(c)) ==> LowerChar(c) == c
  {
  }

  function Lower(s: string): (r: string)
    ensures |r| == |s|
    ensures forall i | 0 <= i < |s| :: r[i] == LowerChar(s[i])
  {
    if s == [] then [] else [LowerChar(s[0])] + Lower(s[1..])
  }

  /** Lower-casing leaves a string unchanged exactly when it holds no upper-case ASCII letter,
      so lower-casing twice is lower-casing once. */
  lemma LowerIdempotent(s: string)
    ensures Lower(Lower(s)) == Lower(s)
  {
    assert forall i | 0 <= i < |s| :: LowerChar(LowerChar(s[i])) == LowerChar(s[i]);
  }

  /** Lower-casing leaves a character where it is when the character is not an upper-case
      letter, or when its lower-case form is not a lower-case letter. */
  lemma LowerKeepsAt(s: string, k: nat)
    requires k < |s| && (!('A' <= s[k] <= 'Z') || !IsLowerLetter(Lower(s)[k]))
    ensures Lower(s)[k] == s[k]
  {
    LowerCharKeepsNonLetter(s[k]);
  }

  /** A word of lower-case letters is its own lower-case form. */
  lemma LowerOfLowerCaseWord(a: string)
    requires forall i | 0 <= i < |a| :: IsLowerLetter(a[i])
    ensures Lower(a) == a
  {
    assert forall i | 0 <= i < |a| :: Lower(a)[i] == a[i];
  }

  /** The lower-case form of a suffix of the lower-case form is that of the suffix. */
  lemma {:induction false} LowerOfLowerSuffix(s: string, j: nat)
    requires j <= |s|
    ensures Lower(Lower(s)[j..]) == Lower(s[j..])
  {
    var l, t := Lower(s)[j..], s[j..];
    forall k | 0 <= k < |l|
      ensures Lower(l)[k] == Lower(t)[k]
    {
      assert l[k] == LowerChar(s[j + k]) && t[k] == s[j + k];
    }
  }

  /** Lower-casing distributes over concatenation. */
  lemma {:induction false} LowerAppend(s: string, t: string)
    ensures Lower(s + t) == Lower(s) + Lower(t)
  {
    assert forall k | 0 <= k < |s + t| :: Lower(s + t)[k] == LowerChar((s + t)[k]);
  }

  /** `n` spaces. */
  function Spaces(n: nat): (r: string)
    ensures |r| == n && AllSpaces(r)
  {
    seq(n, _ => ' ')
  }

  function DigitValue(c: char): nat
    requires IsDigit(c)
  {
    c as int - '0' as int
  }

  function DigitChar(d: nat): (c: char)
    requires d < 10
    ensures IsDigit(c) && DigitValue(c) == d
  {
    ('0' as int + d) as char
  }

  /** The value of a run of decimal digits, most significant digit first. */
  function DigitsValue(s: string): nat
    requires AllDigits(s)
  {
    if s == [] then 0 else 10 * DigitsValue(s[..|s| - 1]) + DigitValue(s[|s| - 1])
  }

  function Pow10(n: nat): (r: nat)
    ensures r >= 1
  {
    if n == 0 then 1 else 10 * Pow10(n - 1)
  }

  lemma {:induction false} Pow10Add(a: nat, b: nat)
    ensures Pow10(a + b) == Pow10(a) * Pow10(b)
  {
    if b > 0 {
      Pow10Add(a, b - 1);
    }
  }

  /** Decimal rendering of a natural number: digits only, never empty, and a leading
      zero only for zero itself. */
  function NatToString(n: nat): (r: string)
    ensures |r| > 0 && AllDigits(r)
    ensures r[0] == '0' <==> n == 0
  {
    if n < 10 then [DigitChar(n)] else NatToString(n / 10) + [DigitChar(n % 10)]
  }

  /** Reading back the rendered digits gives the number. */
  lemma {:induction false} NatToStringValue(n: nat)
    ensures DigitsValue(NatToString(n)) == n
  {
    if n >= 10 {
      var s := NatToString(n / 10);
      NatToStringValue(n / 10);
      assert NatToString(n) == s + [DigitChar(n % 10)];
      assert (s + [DigitChar(n % 10)])[..|s|] == s;
    }
  }

  /** A natural number below 10^d takes at most d digits. */
  lemma {:induction false} NatToStringLength(n: nat, d: nat)
    requires 0 < d && n < Pow10(d)
    ensures |NatToString(n)| <= d
  {
    if n >= 10 {
      assert d != 1;
      assert n / 10 < Pow10(d - 1);
      NatToStringLength(n / 10, d - 1);
    }
  }

  /** JavaScript prints an integer in full below 10^21 and in exponent form from there on. */
  const ExponentFrom: nat := 1_000_000_000_000_000_000_000

  predicate PrintsPlain(k: int) {
    -(ExponentFrom as int) < k < ExponentFrom
  }

  /** `s` without its trailing zeros: a prefix of `s`, which keeps a first character that is
      not '0'. */
  function DropTrailingZeros(s: string): (r: string)
    ensures |r| <= |s| && r == s[..|r|]
    ensures 0 < |s| && s[0] != '0' ==> 0 < |r|
  {
    if 0 < |s| && s[|s| - 1] == '0' then DropTrailingZeros(s[..|s| - 1]) else s
  }

  /** `${m}` for an integer of 10^21 or more: the leading digit, the further significant digits
      (at most 16) after a '.', then `e+` and the position of the leading digit. */
  function ExponentText(m: nat): string
    requires m >= ExponentFrom
  {
    var d := NatToString(m);
    var significant := DropTrailingZeros(d[..if |d| < 17 then |d| else 17]);
    [d[0]] + (if |significant| > 1 then "." + significant[1..] else "") + "e+" + NatToString(|d| - 1)
  }

  function NatText(m: nat): string {
    if m < ExponentFrom then NatToString(m) else ExponentText(m)
  }

  /** `${k}` for an integer-valued number: an optional minus sign and the digits, or the
      exponent form from 10^21 on. */
  function IntToString(k: int): string {
    if k < 0 then "-" + NatText(-k) else NatText(k)
  }

  /** The exponent form, and only it, holds a '+': so the integers printed in full are exactly
      those without one. */
  lemma IntToStringExponent(k: int)
    ensures '+' in IntToString(k) <==> !PrintsPlain(k)
  {
    var m := if k < 0 then -k else k;
    if m < ExponentFrom {
      var d := NatToString(m);
      assert forall i | 0 <= i < |d| :: d[i] != '+';
      assert IntToString(k) == (if k < 0 then "-" else "") + d;
    } else {
      var t := ExponentText(m);
      assert t[|t| - |NatToString(|NatToString(m)| - 1)| - 1] == '+';
      assert IntToString(k) == (if k < 0 then "-" else "") + t;
    }
  }

  lemma ExponentFromIsPow10()
    ensures Pow10(21) == ExponentFrom
  {
    assert Pow10(7) == 10_000_000;
    Pow10Add(7, 7);
    Pow10Add(14, 7);
  }

  /** An integer printed in full takes at most 22 characters: a sign and 21 digits. */
  lemma IntToStringLength(k: int)
    requires PrintsPlain(k)
    ensures |IntToString(k)| <= 22
  {
    ExponentFromIsPow10();
    NatToStringLength(if k < 0 then -k else k, 21);
  }

  /** The exponent form is made of digits, '.', 'e' and '+', and starts with the leading digit. */
  lemma ExponentTextChars(m: nat)
    requires m >= ExponentFrom
    ensures var t := ExponentText(m); 0 < |t| && IsDigit(t[0]) && t[0] != '0'
    ensures forall i | 0 <= i < |ExponentText(m)| ::
      IsDigit(ExponentText(m)[i]) || ExponentText(m)[i] in ".e+"
  {
    var d := NatToString(m);
    var f := d[..if |d| < 17 then |d| else 17];
    var significant := DropTrailingZeros(f);
    assert AllDigits(significant) by {
      assert forall i | 0 <= i < |significant| :: significant[i] == d[i];
    }
    var e := NatToString(|d| - 1);
    var t := ExponentText(m);
    var mantissa := if |significant| > 1 then "." + significant[1..] else "";
    assert forall i | 0 <= i < |mantissa| :: IsDigit(mantissa[i]) || mantissa[i] == '.';
    assert t == [d[0]] + mantissa + "e+" + e;
    forall i | 0 <= i < |t|
      ensures IsDigit(t[i]) || t[i] in ".e+"
    {
      if i == 0 {
      } else if i < 1 + |mantissa| {
        assert t[i] == mantissa[i - 1];
      } else if i < 3 + |mantissa| {
      } else {
        assert t[i] == e[i - 3 - |mantissa|];
      }
    }
  }

  /** Rendering a negative integer puts a '-' before the rendering of its magnitude. */
  lemma IntToStringNegated(k: int)
    requires k > 0
    ensures IntToString(-k) == "-" + IntToString(k)
  {
  }

  /** The rendering never shows a leading zero for a non-zero value. */
  lemma IntToStringShape(k: int)
    ensures |IntToString(k)| > 0
    ensures k < 0 <==> IntToString(k)[0] == '-'
    ensures k != 0 ==> IntToString(k)[0] != '0'
    ensures k == 0 <==> IntToString(k) == "0"
  {
    if k == 0 {
      assert NatToString(0) == "0";
    }
    var m := if k < 0 then -k else k;
    if m >= ExponentFrom {
      ExponentTextChars(m);
    }
  }

  /** Up to `n` fractional digits of `f`, a value in [0, 1), stopping once it is exhausted. */
  function Fraction(f: real, n: nat): (r: string)
    requires 0.0 <= f < 1.0
    ensures |r| <= n && AllDigits(r)
    decreases n
  {
    if n == 0 || f == 0.0 then ""
    else
      var d := (f * 10.0).Floor;
      [DigitChar(d)] + Fraction(f * 10.0 - d as real, n - 1)
  }

  /** `${x}` for a finite number: an integer value exactly as IntToString renders it; any other
      value as sign, integer part, '.' and at most 20 fractional digits. */
  function NumberText(x: real): string {
    if x == x.Floor as real then IntToString(x.Floor)
    else
      var a := if x < 0.0 then -x else x;
      (if x < 0.0 then "-" else "") + NatToString(a.Floor) + "." + Fraction(a - a.Floor as real, 20)
  }
}
