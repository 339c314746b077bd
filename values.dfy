/** The JavaScript values that cross the library's interface. */
module Values {

  /** A JavaScript number: a finite value, NaN, or one of the two infinities.
      Finite values are modelled exactly as reals (no IEEE-754 rounding). */
  datatype Number = Finite(value: real) | NaN | PosInfinity | NegInfinity

  /** The two failure classes of the library: a thrown `Error`, by cause. */
  datatype Error =
    | InvalidLength       // parse(): the length guard
    | UnknownUnit         // parse(): a matched unit missing from `unitMap`
    | NotFiniteNumber     // format(): NaN or an infinity
    | NotStringOrNumber   // ms(): any other kind of value

  /** Either the value a call returns or the error it throws. */
  datatype Outcome<+T> = Return(value: T) | Throw(error: Error)

  datatype Option<+T> = None | Some(value: T)

  /** The `Options` record of the formatter: `long` may be absent, true or false. */
  datatype Options = Options(long: Option<bool>)

  /** `options?.long` is truthy: the record is present and its flag is `true`. */
  predicate IsLong(options: Option<Options>) {
    options.Some? && options.value.long == Some(true)
  }
}
