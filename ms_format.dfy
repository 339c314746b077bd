/** `format` of the millisecond variant: DurationFormat with the sizes in milliseconds, and
    values below one second printed as they are. */
module MsFormat {
  import opened Values
  import opened Text
  import opened Units
  import DurationParse
  import DurationFormat
  import RoundTrip
  import MsParse

  /** `format(ms, options)`: NaN and the infinities throw; a finite value is rendered, in the
      long form exactly when `options.long` is true. */
  function Format(x: Number, options: Option<Options>): (r: Outcome<string>)
    ensures r.Throw? <==> !x.Finite?
    ensures r.Throw? ==> r.error == NotFiniteNumber
    ensures r.Return? ==> (' ' in r.value <==> IsLong(options))
  {
    VariantsValid();
    if x.Finite? then
      DurationFormat.SpaceOnlyInLongForm(Millis, x.value);
      DurationFormat.FormatOptions(Millis, x.value, options);
      DurationFormat.Format(Millis, x, options)
    else
      DurationFormat.Format(Millis, x, options)
  }

  /** Formatting and parsing back a value of at least one second gives the value rounded to
      whole units of the unit chosen, which is within half a unit of it. */
  lemma FormatThenParse(x: real, options: Option<Options>, u: Unit)
    requires DurationFormat.Bucket(Millis, x) == Some(u)
    requires PrintsPlain(DurationFormat.Round(x / Size(Millis, u)))
    ensures var y := DurationParse.Scaled(DurationFormat.Round(x / Size(Millis, u)) as real, Size(Millis, u));
      && MsParse.Parse(Format(Finite(x), options).value) == Return(Finite(y))
      && DurationFormat.Abs(y - x) <= Size(Millis, u) / 2.0
  {
    VariantsValid();
    DurationFormat.FormatOptions(Millis, x, options);
    if IsLong(options) {
      RoundTrip.LongFormRoundTrip(Millis, x, u);
    } else {
      RoundTrip.ShortFormRoundTrip(Millis, x, u);
    }
    DurationFormat.SizeAtLeastSecond(Millis, u);
    RoundTrip.RoundTripError(x, Size(Millis, u));
  }

  /** A count of 10^21 units or more is printed in exponent form, which parses to NaN. */
  lemma ExponentFormThenParse(x: real, options: Option<Options>, u: Unit)
    requires DurationFormat.Bucket(Millis, x) == Some(u)
    requires !PrintsPlain(DurationFormat.Round(x / Size(Millis, u)))
    requires |Format(Finite(x), options).value| <= 100
    ensures MsParse.Parse(Format(Finite(x), options).value) == Return(NaN)
  {
    VariantsValid();
    DurationFormat.FormatOptions(Millis, x, options);
    RoundTrip.ExponentFormReadsNaN(Millis, x, u);
  }

  /** Below one second, a whole number of milliseconds formats and parses back to itself. */
  lemma SubSecondFormatThenParse(x: real, options: Option<Options>)
    requires DurationFormat.Abs(x) < 1000.0 && x == x.Floor as real
    ensures MsParse.Parse(Format(Finite(x), options).value) == Return(Finite(x))
  {
    VariantsValid();
    DurationFormat.BucketBelowSecond(Millis, x);
    DurationFormat.FormatOptions(Millis, x, options);
    assert PrintsPlain(x.Floor) && DurationFormat.SubSecondText(Millis, x) == IntToString(x.Floor);
    if IsLong(options) {
      RoundTrip.SubSecondLongForm(Millis, x, x.Floor);
    } else {
      RoundTrip.SubSecondShortForm(Millis, x, x.Floor);
    }
  }

  // ---------------------------------------------------------------------------------------
  // Examples

  /** 60000 milliseconds is "1m", or "1 minute" in the long form. */
  lemma MinuteExample()
    ensures Format(Finite(60000.0), None) == Return("1m")
    ensures Format(Finite(60000.0), Some(Options(Some(true)))) == Return("1 minute")
  {
    assert Ordered(Millis);
    assert DurationFormat.Bucket(Millis, 60000.0) == Some(Minute);
    assert DurationFormat.Round(60000.0 / Size(Millis, Minute)) == 1;
    assert IntToString(1) == "1";
    assert !DurationFormat.IsPlural(60000.0, 60000.0);
    assert DurationFormat.FmtShort(Millis, 60000.0) == "1m";
    assert DurationFormat.FmtLong(Millis, 60000.0) == "1 minute";
  }

  /** 500 milliseconds is printed as it is: "500ms", or "500 ms" in the long form. */
  lemma SubSecondExample()
    ensures Format(Finite(500.0), None) == Return("500ms")
    ensures Format(Finite(500.0), Some(Options(Some(true)))) == Return("500 ms")
  {
    assert Ordered(Millis);
    assert DurationFormat.Bucket(Millis, 500.0) == None;
    assert NumberText(500.0) == IntToString(500) == "500";
    assert DurationFormat.FmtShort(Millis, 500.0) == "500ms";
    assert DurationFormat.FmtLong(Millis, 500.0) == "500 ms";
  }

  /** Two days in the long form is plural: "2 days". */
  lemma PluralExample()
    ensures Format(Finite(172800000.0), Some(Options(Some(true)))) == Return("2 days")
  {
    assert Ordered(Millis);
    assert DurationFormat.Bucket(Millis, 172800000.0) == Some(Day);
    assert DurationFormat.Round(172800000.0 / Size(Millis, Day)) == 2;
    assert IntToString(2) == "2";
    assert DurationFormat.IsPlural(172800000.0, 86400000.0);
    assert DurationFormat.FmtLong(Millis, 172800000.0) == "2 days";
  }

  /** Minus one and a half days: `Math.round` takes -1.5 up to -1 while the plural test sees
      the magnitude 1.5, so the long form is "-1 days". */
  lemma NegativeHalfExample()
    ensures Format(Finite(-129600000.0), Some(Options(Some(true)))) == Return("-1 days")
  {
    assert Ordered(Millis);
    assert DurationFormat.Bucket(Millis, -129600000.0) == Some(Day);
    assert DurationFormat.Round(-129600000.0 / Size(Millis, Day)) == -1;
    assert IntToString(-1) == "-1";
    assert DurationFormat.IsPlural(DurationFormat.Abs(-129600000.0), 86400000.0);
    assert DurationFormat.FmtLong(Millis, -129600000.0) == "-1 days";
  }
}
