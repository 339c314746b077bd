/** `parse` and `parseStrict` of the second variant: DurationParse with the sizes in seconds
    and the default unit 's'. */
module SecondsParse {
  import opened Values
  import opened Text
  import opened Units
  import opened Grammar
  import DurationParse

  /** `parse(str)` in seconds: a hard error exactly for the bad lengths, NaN exactly when the
      regular expression does not match, and never the unknown-unit error. */
  function Parse(s: string): (r: Outcome<Number>)
    ensures r.Throw? <==> !DurationParse.LengthOk(s)
    ensures r.Throw? ==> r.error == InvalidLength
    ensures r == Return(NaN) <==> DurationParse.LengthOk(s) && !Matches(s)
  {
    VariantsValid();
    DurationParse.ParseOutcomes(Seconds, s);
    DurationParse.Parse(Seconds, s)
  }

  /** `parseStrict(value)` returns what `parse` returns. */
  function ParseStrict(s: string): (r: Outcome<Number>)
    ensures r == Parse(s)
  {
    Parse(s)
  }

  /** A string made of a literal, `n` spaces and a spelling of `u` reads as the literal times
      the size of `u` in seconds. */
  lemma Reads(s: string, t: string, n: nat, a: string, u: Unit, x: real)
    requires s == t + Spaces(n) + a && IsLiteral(t) && Lower(a) in Words(u) && |s| <= 100
    requires x == DurationParse.Scaled(LiteralValue(t), Size(Seconds, u))
    ensures Parse(s) == Return(Finite(x))
  {
    VariantsValid();
    DurationParse.ParseAlias(Seconds, t, n, a, u);
  }

  /** A bare literal reads as that many seconds. */
  lemma ReadsBare(t: string)
    requires IsLiteral(t) && |t| <= 100
    ensures Parse(t) == Return(Finite(LiteralValue(t)))
  {
    VariantsValid();
    DefaultUnitIsBase();
    DurationParse.ParseLiteral(Seconds, t);
  }

  // ---------------------------------------------------------------------------------------
  // Examples

  /** Without a unit the value is in seconds: "100" is 100. */
  lemma HundredExample()
    ensures Parse("100") == Return(Finite(100.0))
  {
    LiteralHundred();
    ReadsBare("100");
  }

  /** "1m" is 60 seconds. */
  lemma MinuteExample()
    ensures Parse("1m") == Return(Finite(60.0))
  {
    LiteralOne();
    assert Lower("m") == "m" && "m" in Words(Minute);
    assert "1" + Spaces(0) + "m" == "1m";
    Reads("1m", "1", 0, "m", Minute, 60.0);
  }

  /** "100ms" is a tenth of a second. */
  lemma MillisecondsExample()
    ensures Parse("100ms") == Return(Finite(0.1))
  {
    LiteralHundred();
    assert Lower("ms") == "ms" && "ms" in Words(Millisecond);
    assert "100" + Spaces(0) + "ms" == "100ms";
    Reads("100ms", "100", 0, "ms", Millisecond, 0.1);
  }

  /** Any number of spaces may separate the number and the unit: "1   s" is 1. */
  lemma SpacesExample()
    ensures Parse("1   s") == Return(Finite(1.0))
  {
    LiteralOne();
    assert Lower("s") == "s" && "s" in Words(Second);
    assert "1" + Spaces(3) + "s" == "1   s";
    Reads("1   s", "1", 3, "s", Second, 1.0);
  }

  /** "1.5h" is 5400 seconds. */
  lemma DecimalExample()
    ensures Parse("1.5h") == Return(Finite(5400.0))
  {
    LiteralOneAndAHalf();
    assert Lower("h") == "h" && "h" in Words(Hour);
    assert "1.5" + Spaces(0) + "h" == "1.5h";
    Reads("1.5h", "1.5", 0, "h", Hour, 5400.0);
  }

  /** The unit is read ignoring case: "1.5H" is 5400 seconds too. */
  lemma UpperCaseExample()
    ensures Parse("1.5H") == Return(Finite(5400.0))
  {
    LiteralOneAndAHalf();
    assert Lower("H") == "h" && "h" in Words(Hour);
    assert "1.5" + Spaces(0) + "H" == "1.5H";
    Reads("1.5H", "1.5", 0, "H", Hour, 5400.0);
  }

  /** ".5s" is half a second. */
  lemma LeadingDotExample()
    ensures Parse(".5s") == Return(Finite(0.5))
  {
    LiteralHalf();
    assert Lower("s") == "s" && "s" in Words(Second);
    assert ".5" + Spaces(0) + "s" == ".5s";
    Reads(".5s", ".5", 0, "s", Second, 0.5);
  }

  /** A leading '-' negates: "-1.5h" is -5400 seconds. */
  lemma NegativeExample()
    ensures Parse("-1.5h") == Return(Finite(-5400.0))
  {
    LiteralMinusOneAndAHalf();
    assert Lower("h") == "h" && "h" in Words(Hour);
    assert "-1.5" + Spaces(0) + "h" == "-1.5h";
    Reads("-1.5h", "-1.5", 0, "h", Hour, -5400.0);
  }

  /** "-10.5h" is -37800 seconds. */
  lemma NegativeDecimalExample()
    ensures Parse("-10.5h") == Return(Finite(-37800.0))
  {
    LiteralMinusTenAndAHalf();
    assert Lower("h") == "h" && "h" in Words(Hour);
    assert "-10.5" + Spaces(0) + "h" == "-10.5h";
    Reads("-10.5h", "-10.5", 0, "h", Hour, -37800.0);
  }

  /** "-.5h" is -1800 seconds. */
  lemma NegativeLeadingDotExample()
    ensures Parse("-.5h") == Return(Finite(-1800.0))
  {
    LiteralMinusHalf();
    assert Lower("h") == "h" && "h" in Words(Hour);
    assert "-.5" + Spaces(0) + "h" == "-.5h";
    Reads("-.5h", "-.5", 0, "h", Hour, -1800.0);
  }

  /** "☃" does not match: NaN, not an error. */
  lemma SnowmanExample()
    ensures Parse("\U{2603}") == Return(NaN)
  {
    NoMatch("\U{2603}");
  }

  /** "s" alone has no number: NaN. */
  lemma BareUnitExample()
    ensures Parse("s") == Return(NaN)
  {
    NoMatch("s");
  }

  /** "10-.5": a '-' after the number is not a unit: NaN. */
  lemma InnerMinusExample()
    ensures Parse("10-.5") == Return(NaN)
  {
    var t := "10-.5";
    assert LiteralEnd(t) == Some(2) && SpanSpaces(t, 2) == 2;
    assert Lower(t[2..])[0] == '-';
    if IsUnitWord(Lower(t[2..])) {
      AliasesAreWords(Lower(t[2..]));
    }
    NoMatch(t);
  }

  /** A string of a valid length that the scanner rejects gives NaN. */
  lemma NoMatch(s: string)
    requires 0 < |s| <= 100 && Scan(s) == None
    ensures Parse(s) == Return(NaN)
  {
    ScanIffMatches(s);
  }

  /** The empty string and a string of 101 characters throw; 100 characters pass the guard. */
  lemma LengthExamples()
    ensures Parse("") == Throw(InvalidLength)
    ensures Parse(seq(101, _ => '\U{25B2}')) == Throw(InvalidLength)
    ensures Parse(seq(100, _ => '1')).Return?
  {
    var t := seq(100, _ => '1');
    assert LiteralSplit(t, 0, 0, 0) by {
      assert t[0..] == t;
    }
    ReadsBare(t);
  }
}
