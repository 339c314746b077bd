/** `format` of the second variant: DurationFormat with the sizes in seconds, and values below
    one second printed as a rounded number of milliseconds. */
module SecondsFormat {
  import opened Values
  import opened Text
  import opened Units
  import DurationParse
  import DurationFormat
  import RoundTrip
  import SecondsParse

  /** `format(s, options)` in seconds: NaN and the infinities throw; a finite value is
      rendered, in the long form exactly when `options.long` is true. */
  function Format(x: Number, options: Option<Options>): (r: Outcome<string>)
    ensures r.Throw? <==> !x.Finite?
    ensures r.Throw? ==> r.error == NotFiniteNumber
    ensures r.Return? ==> (' ' in r.value <==> IsLong(options))
  {
    VariantsValid();
    if x.Finite? then
      DurationFormat.SpaceOnlyInLongForm(Seconds, x.value);
      DurationFormat.FormatOptions(Seconds, x.value, options);
      DurationFormat.Format(Seconds, x, options)
    else
      DurationFormat.Format(Seconds, x, options)
  }

  /** Formatting and parsing back a value of at least one second gives the value rounded to
      whole units of the unit chosen, which is within half a unit of it. */
  lemma FormatThenParse(x: real, options: Option<Options>, u: Unit)
    requires DurationFormat.Bucket(Seconds, x) == Some(u)
    requires PrintsPlain(DurationFormat.Round(x / Size(Seconds, u)))
    ensures var y := DurationParse.Scaled(DurationFormat.Round(x / Size(Seconds, u)) as real, Size(Seconds, u));
      && SecondsParse.Parse(Format(Finite(x), options).value) == Return(Finite(y))
      && DurationFormat.Abs(y - x) <= Size(Seconds, u) / 2.0
  {
    VariantsValid();
    DurationFormat.FormatOptions(Seconds, x, options);
    if IsLong(options) {
      RoundTrip.LongFormRoundTrip(Seconds, x, u);
    } else {
      RoundTrip.ShortFormRoundTrip(Seconds, x, u);
    }
    DurationFormat.SizeAtLeastSecond(Seconds, u);
    RoundTrip.RoundTripError(x, Size(Seconds, u));
  }

  /** A count of 10^21 units or more is printed in exponent form, which parses to NaN. */
  lemma ExponentFormThenParse(x: real, options: Option<Options>, u: Unit)
    requires DurationFormat.Bucket(Seconds, x) == Some(u)
    requires !PrintsPlain(DurationFormat.Round(x / Size(Seconds, u)))
    requires |Format(Finite(x), options).value| <= 100
    ensures SecondsParse.Parse(Format(Finite(x), options).value) == Return(NaN)
  {
    VariantsValid();
    DurationFormat.FormatOptions(Seconds, x, options);
    RoundTrip.ExponentFormReadsNaN(Seconds, x, u);
  }

  /** Below one second, formatting and parsing back gives the value rounded to whole
      milliseconds. */
  lemma SubSecondFormatThenParse(x: real, options: Option<Options>)
    requires DurationFormat.Abs(x) < 1.0
    ensures SecondsParse.Parse(Format(Finite(x), options).value)
      == Return(Finite(DurationParse.Scaled(DurationFormat.Round(x * 1000.0) as real, 0.001)))
  {
    VariantsValid();
    DurationFormat.BucketBelowSecond(Seconds, x);
    DurationFormat.FormatOptions(Seconds, x, options);
    if IsLong(options) {
      RoundTrip.SubSecondLongForm(Seconds, x, DurationFormat.Round(x * 1000.0));
    } else {
      RoundTrip.SubSecondShortForm(Seconds, x, DurationFormat.Round(x * 1000.0));
    }
  }

  // ---------------------------------------------------------------------------------------
  // Examples

  /** 60 seconds is "1m", or "1 minute" in the long form. */
  lemma MinuteExample()
    ensures Format(Finite(60.0), None) == Return("1m")
    ensures Format(Finite(60.0), Some(Options(Some(true)))) == Return("1 minute")
  {
    assert Ordered(Seconds);
    assert DurationFormat.Bucket(Seconds, 60.0) == Some(Minute);
    assert DurationFormat.Round(60.0 / Size(Seconds, Minute)) == 1;
    assert IntToString(1) == "1";
    assert !DurationFormat.IsPlural(60.0, 60.0);
    assert DurationFormat.FmtShort(Seconds, 60.0) == "1m";
    assert DurationFormat.FmtLong(Seconds, 60.0) == "1 minute";
  }

  /** A tenth of a second is "100ms". */
  lemma TenthExample()
    ensures Format(Finite(0.1), None) == Return("100ms")
  {
    assert Ordered(Seconds);
    assert DurationFormat.Bucket(Seconds, 0.1) == None;
    assert DurationFormat.Round(0.1 * 1000.0) == 100;
    assert IntToString(100) == "100";
    assert DurationFormat.FmtShort(Seconds, 0.1) == "100ms";
  }
}
