/** What `format` prints, `parse` reads back: the value rounded to whole units of the unit
    the formatter chose. */
module RoundTrip {
  import opened Values
  import opened Text
  import opened Units
  import opened Grammar
  import opened DurationParse
  import opened DurationFormat

  /** A rendered integer, `n` spaces and a lower-case spelling of `u` parse to that integer
      times the size of `u`. */
  lemma ParseCountAndSpelling(v: Variant, k: int, n: nat, a: string, u: Unit)
    requires Valid(v) && Lower(a) == a && a in UnitMap(v) && UnitMap(v)[a] == Size(v, u)
    requires PrintsPlain(k) && |IntToString(k)| + n + |a| <= 100
    ensures Parse(v, IntToString(k) + Spaces(n) + a) == Return(Finite(Scaled(k as real, Size(v, u))))
  {
    IntLiteral(k);
    ParseLiteralAndUnit(v, IntToString(k), n, a);
  }

  /** Parsing the short form of a value of at least one second gives the printed count times
      the chosen unit's size. */
  lemma ShortFormRoundTrip(v: Variant, x: real, u: Unit)
    requires Valid(v) && Bucket(v, x) == Some(u) && PrintsPlain(Round(x / Size(v, u)))
    ensures Parse(v, FmtShort(v, x)) == Return(Finite(Scaled(Round(x / Size(v, u)) as real, Size(v, u))))
  {
    var k := Round(x / Size(v, u));
    FormsPassLengthGuard(v, x, u);
    ShortFormSpelling(v, x, u);
    ParseAbbreviated(v, FmtShort(v, x), k, 0, u);
  }

  /** The short form is the count and the abbreviation, with no space between. */
  lemma ShortFormSpelling(v: Variant, x: real, u: Unit)
    requires Ordered(v) && Bucket(v, x) == Some(u)
    ensures FmtShort(v, x) == IntToString(Round(x / Size(v, u))) + Spaces(0) + Abbrev(u)
  {
    assert Spaces(0) == "";
  }

  /** Parsing the long form, singular or plural, gives the same value. */
  lemma LongFormRoundTrip(v: Variant, x: real, u: Unit)
    requires Valid(v) && Bucket(v, x) == Some(u) && PrintsPlain(Round(x / Size(v, u)))
    ensures Parse(v, FmtLong(v, x)) == Return(Finite(Scaled(Round(x / Size(v, u)) as real, Size(v, u))))
  {
    var k := Round(x / Size(v, u));
    FormsPassLengthGuard(v, x, u);
    NameIsLowerCase(u);
    if IsPlural(Abs(x), Size(v, u)) {
      PluralNameInTable(v, u);
      LongFormSpelling(v, x, u);
      ParseCountAndSpelling(v, k, 1, Name(u) + "s", u);
    } else {
      NameInTable(v, u);
      LongFormSpelling(v, x, u);
      ParseCountAndSpelling(v, k, 1, Name(u), u);
    }
  }

  /** The long form is the count, one space and the name, with an 's' when plural. */
  lemma LongFormSpelling(v: Variant, x: real, u: Unit)
    requires Ordered(v) && Bucket(v, x) == Some(u)
    ensures IsPlural(Abs(x), Size(v, u)) ==>
      FmtLong(v, x) == IntToString(Round(x / Size(v, u))) + Spaces(1) + (Name(u) + "s")
    ensures !IsPlural(Abs(x), Size(v, u)) ==>
      FmtLong(v, x) == IntToString(Round(x / Size(v, u))) + Spaces(1) + Name(u)
  {
    assert Spaces(1) == " ";
  }

  /** A count printed in full keeps both forms within the length guard of `parse`: at most
      22 characters of count, a space and a name of at most 12 letters. */
  lemma FormsPassLengthGuard(v: Variant, x: real, u: Unit)
    requires Ordered(v) && Bucket(v, x) == Some(u) && PrintsPlain(Round(x / Size(v, u)))
    ensures LengthOk(FmtShort(v, x)) && |FmtShort(v, x)| <= 24
    ensures LengthOk(FmtLong(v, x)) && |FmtLong(v, x)| <= 35
  {
    IntToStringLength(Round(x / Size(v, u)));
    IntToStringShape(Round(x / Size(v, u)));
    assert |Abbrev(u)| <= 2 && |Name(u)| <= 11 by {
      match u
      case Year => case Month => case Week => case Day =>
      case Hour => case Minute => case Second => case Millisecond =>
    }
  }

  /** Below one second, an integer printed in full keeps both forms within the length guard. */
  lemma SubSecondFormsPassLengthGuard(v: Variant, x: real, k: int)
    requires Ordered(v) && Bucket(v, x) == None && SubSecondText(v, x) == IntToString(k)
    requires PrintsPlain(k)
    ensures LengthOk(FmtShort(v, x)) && |FmtShort(v, x)| <= 24
    ensures LengthOk(FmtLong(v, x)) && |FmtLong(v, x)| <= 25
  {
    IntToStringLength(k);
    SubSecondSpelling(v, x);
  }

  /** From 10^21 units on, the count is printed in exponent form, which the regular
      expression rejects: both forms then read back as NaN. */
  lemma ExponentFormReadsNaN(v: Variant, x: real, u: Unit)
    requires Valid(v) && Bucket(v, x) == Some(u) && !PrintsPlain(Round(x / Size(v, u)))
    ensures |FmtShort(v, x)| <= 100 ==> Parse(v, FmtShort(v, x)) == Return(NaN)
    ensures |FmtLong(v, x)| <= 100 ==> Parse(v, FmtLong(v, x)) == Return(NaN)
  {
    var c := IntToString(Round(x / Size(v, u)));
    IntToStringExponent(Round(x / Size(v, u)));
    var q :| 0 <= q < |c| && c[q] == '+';
    ShortFormSpelling(v, x, u);
    LongFormSpelling(v, x, u);
    assert FmtShort(v, x)[q] == '+' && FmtLong(v, x)[q] == '+';
    PlusNeverMatches(FmtShort(v, x), q);
    PlusNeverMatches(FmtLong(v, x), q);
    ParseOutcomes(v, FmtShort(v, x));
    ParseOutcomes(v, FmtLong(v, x));
  }

  /** The value read back is within half a unit of the value formatted. */
  lemma RoundTripError(x: real, n: real)
    requires 0.0 < n
    ensures Abs(Scaled(Round(x / n) as real, n) - x) <= n / 2.0
  {
    var y := x / n;
    var k := Round(y) as real;
    assert x == y * n;
    assert Scaled(k, n) - x == (k - y) * n;
    WithinHalf(k - y, n);
  }

  /** |d| <= 1/2 scales to |d * n| <= n / 2. */
  lemma WithinHalf(d: real, n: real)
    requires 0.0 < n && -0.5 <= d <= 0.5
    ensures Abs(d * n) <= n / 2.0
  {
    ScaleCompare(0.5, d, n);
    ScaleCompare(d, -0.5, n);
  }

  /** Below one second in the second variant, both forms read back as the rounded number of
      milliseconds. */
  lemma RoundedMillisRoundTrip(v: Variant, x: real)
    requires Valid(v) && Bucket(v, x) == None && v.subSecond == RoundedMillis
    requires PrintsPlain(Round(x * 1000.0))
    ensures Parse(v, FmtShort(v, x)) == Return(Finite(Scaled(Round(x * 1000.0) as real, Size(v, Millisecond))))
    ensures Parse(v, FmtLong(v, x)) == Return(Finite(Scaled(Round(x * 1000.0) as real, Size(v, Millisecond))))
  {
    SubSecondShortForm(v, x, Round(x * 1000.0));
    SubSecondLongForm(v, x, Round(x * 1000.0));
  }

  /** Below one second in the millisecond variant, an integer value reads back exactly. */
  lemma RawBaseRoundTrip(v: Variant, x: real)
    requires Valid(v) && Bucket(v, x) == None && v.subSecond == RawBase && x == x.Floor as real
    requires PrintsPlain(x.Floor)
    ensures Parse(v, FmtShort(v, x)) == Return(Finite(Scaled(x, Size(v, Millisecond))))
    ensures Parse(v, FmtLong(v, x)) == Return(Finite(Scaled(x, Size(v, Millisecond))))
  {
    SubSecondShortForm(v, x, x.Floor);
    SubSecondLongForm(v, x, x.Floor);
  }

  /** The short sub-second form is the rendered count followed by "ms". */
  lemma SubSecondShortForm(v: Variant, x: real, k: int)
    requires Valid(v) && Bucket(v, x) == None && SubSecondText(v, x) == IntToString(k)
    requires PrintsPlain(k)
    ensures Parse(v, FmtShort(v, x)) == Return(Finite(Scaled(k as real, Size(v, Millisecond))))
  {
    SubSecondFormsPassLengthGuard(v, x, k);
    SubSecondSpelling(v, x);
    ParseAbbreviated(v, FmtShort(v, x), k, 0, Millisecond);
  }

  /** The long sub-second form is the rendered count followed by " ms". */
  lemma SubSecondLongForm(v: Variant, x: real, k: int)
    requires Valid(v) && Bucket(v, x) == None && SubSecondText(v, x) == IntToString(k)
    requires PrintsPlain(k)
    ensures Parse(v, FmtLong(v, x)) == Return(Finite(Scaled(k as real, Size(v, Millisecond))))
  {
    SubSecondFormsPassLengthGuard(v, x, k);
    SubSecondSpelling(v, x);
    ParseAbbreviated(v, FmtLong(v, x), k, 1, Millisecond);
  }

  /** A rendered integer, `n` spaces and the abbreviation of `u` parse to that integer times
      the size of `u`. */
  lemma ParseAbbreviated(v: Variant, s: string, k: int, n: nat, u: Unit)
    requires Valid(v) && PrintsPlain(k) && s == IntToString(k) + Spaces(n) + Abbrev(u) && |s| <= 100
    ensures Parse(v, s) == Return(Finite(Scaled(k as real, Size(v, u))))
  {
    AbbrevIsLowerCase(u);
    AbbrevInTable(v, u);
    ParseCountAndSpelling(v, k, n, Abbrev(u), u);
  }

  /** Below one second the short form is the sub-second text and "ms", the long form the text,
      one space and "ms". */
  lemma SubSecondSpelling(v: Variant, x: real)
    requires Ordered(v) && Bucket(v, x) == None
    ensures FmtShort(v, x) == SubSecondText(v, x) + Spaces(0) + Abbrev(Millisecond)
    ensures FmtLong(v, x) == SubSecondText(v, x) + Spaces(1) + Abbrev(Millisecond)
  {
    assert Spaces(0) == "" && Spaces(1) == " ";
  }
}
