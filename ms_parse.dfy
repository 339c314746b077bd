/** `parse` and `parseStrict` of the millisecond variant: DurationParse with the sizes in
    milliseconds and the default unit 'ms'. */
module MsParse {
  import opened Values
  import opened Text
  import opened Units
  import opened Grammar
  import DurationParse

  /** `parse(str)` in milliseconds: a hard error exactly for the bad lengths, NaN exactly when the
      regular expression does not match, and never the unknown-unit error. */
  function Parse(s: string): (r: Outcome<Number>)
    ensures r.Throw? <==> !DurationParse.LengthOk(s)
    ensures r.Throw? ==> r.error == InvalidLength
    ensures r == Return(NaN) <==> DurationParse.LengthOk(s) && !Matches(s)
  {
    VariantsValid();
    DurationParse.ParseOutcomes(Millis, s);
    DurationParse.Parse(Millis, s)
  }

  /** `parseStrict(value)` returns what `parse` returns. */
  function ParseStrict(s: string): (r: Outcome<Number>)
    ensures r == Parse(s)
  {
    Parse(s)
  }

  /** A string made of a literal, `n` spaces and a spelling of `u` reads as the literal times
      the size of `u` in milliseconds. */
  lemma Reads(s: string, t: string, n: nat, a: string, u: Unit, x: real)
    requires s == t + Spaces(n) + a && IsLiteral(t) && Lower(a) in Words(u) && |s| <= 100
    requires x == DurationParse.Scaled(LiteralValue(t), Size(Millis, u))
    ensures Parse(s) == Return(Finite(x))
  {
    VariantsValid();
    DurationParse.ParseAlias(Millis, t, n, a, u);
  }

  /** A bare literal reads as that many milliseconds. */
  lemma ReadsBare(t: string)
    requires IsLiteral(t) && |t| <= 100
    ensures Parse(t) == Return(Finite(LiteralValue(t)))
  {
    VariantsValid();
    DefaultUnitIsBase();
    DurationParse.ParseLiteral(Millis, t);
  }

  // ---------------------------------------------------------------------------------------
  // Examples

  /** Without a unit the value is in milliseconds: "100" is 100. */
  lemma HundredExample()
    ensures Parse("100") == Return(Finite(100.0))
  {
    LiteralHundred();
    ReadsBare("100");
  }

  /** "1m" is 60000 milliseconds. */
  lemma MinuteExample()
    ensures Parse("1m") == Return(Finite(60000.0))
  {
    LiteralOne();
    assert Lower("m") == "m" && "m" in Words(Minute);
    assert "1" + Spaces(0) + "m" == "1m";
    Reads("1m", "1", 0, "m", Minute, 60000.0);
  }
}
