/** `ms(value, options)`: parse a string, format a number, throw on anything else; `millis`
    is the same function under another name. */
module MsIndex {
  import opened Values
  import Units
  import DurationParse
  import DurationFormat
  import MsParse
  import MsFormat
  import Text

  /** The argument of `ms`: a string, a number, or any other JavaScript value. */
  datatype Value = Str(s: string) | Num(x: Number) | Other

  /** What `ms` returns: a number for a string, a string for a number. */
  datatype Converted = Parsed(n: Number) | Formatted(text: string)

  /** `ms(value, options)`: a string goes to `parse` (the options are not used), a number to
      `format`, and any other value throws. Each kind of input has its own kind of error. */
  function Ms(value: Value, options: Option<Options>): (r: Outcome<Converted>)
    ensures r.Return? ==> (r.value.Parsed? <==> value.Str?)
    ensures r == Throw(NotStringOrNumber) <==> value.Other?
    ensures value.Str? ==> (r.Throw? <==> !DurationParse.LengthOk(value.s))
    ensures value.Str? && r.Throw? ==> r.error == InvalidLength
    ensures value.Num? ==> (r.Throw? <==> !value.x.Finite?)
    ensures value.Num? && r.Throw? ==> r.error == NotFiniteNumber
    ensures value.Str? && r.Return? ==> r.value.Parsed? && MsParse.Parse(value.s) == Return(r.value.n)
    ensures value.Num? && r.Return? ==>
      r.value.Formatted? && MsFormat.Format(value.x, options) == Return(r.value.text)
  {
    match value
    case Str(s) =>
      (match MsParse.Parse(s)
       case Return(n) => Return(Parsed(n))
       case Throw(e) => Throw(e))
    case Num(x) =>
      (match MsFormat.Format(x, options)
       case Return(t) => Return(Formatted(t))
       case Throw(e) => Throw(e))
    case Other => Throw(NotStringOrNumber)
  }

  /** `millis` is `ms`. */
  function Millis(value: Value, options: Option<Options>): (r: Outcome<Converted>)
    ensures r == Ms(value, options)
  {
    Ms(value, options)
  }

  /** `ms` undoes itself up to rounding: the text `ms` makes of a number of at least one second
      reads back, whatever the options of either call, as that number rounded to whole units
      of the unit it was printed in. */
  lemma MsOfMs(x: real, options: Option<Options>, other: Option<Options>, u: Units.Unit)
    requires DurationFormat.Bucket(Units.Millis, x) == Some(u)
    requires Text.PrintsPlain(DurationFormat.Round(x / Units.Size(Units.Millis, u)))
    ensures Ms(Num(Finite(x)), options).Return?
    ensures var t := Ms(Num(Finite(x)), options).value.text;
      var n := Units.Size(Units.Millis, u);
      var y := DurationParse.Scaled(DurationFormat.Round(x / n) as real, n);
      && Ms(Str(t), other) == Return(Parsed(Finite(y)))
      && DurationFormat.Abs(y - x) <= n / 2.0
  {
    MsFormat.FormatThenParse(x, options, u);
  }
}
