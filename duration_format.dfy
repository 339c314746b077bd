/** `format` of both variants, written once over a Variant: the if-chains of `fmtShort` and
    `fmtLong`, the `plural` helper and the finiteness guard. */
module DurationFormat {
  import opened Values
  import opened Text
  import opened Units

  /** `Math.abs`. */
  function Abs(x: real): (r: real)
    ensures 0.0 <= r && (r == x || r == -x)
  {
    if x < 0.0 then -x else x
  }

  /** `Math.round`: the nearest integer, a tie going towards positive infinity. */
  function Round(y: real): (k: int)
    ensures k as real - 0.5 <= y < k as real + 0.5
  {
    (y + 0.5).Floor
  }

  /** The unit both if-chains pick: the first of year, month, week, day, hour, minute and
      second whose size is at most |x|, and none below one second. */
  function Bucket(v: Variant, x: real): (r: Option<Unit>)
    ensures r.Some? ==> r.value != Millisecond && Size(v, r.value) <= Abs(x)
    ensures r.None? ==> Abs(x) < v.second
  {
    var a := Abs(x);
    if a >= v.year then Some(Year)
    else if a >= v.month then Some(Month)
    else if a >= v.week then Some(Week)
    else if a >= v.day then Some(Day)
    else if a >= v.hour then Some(Hour)
    else if a >= v.minute then Some(Minute)
    else if a >= v.second then Some(Second)
    else None
  }

  /** `plural`'s test: the magnitude, unrounded, is at least one and a half units. */
  predicate IsPlural(xAbs: real, n: real) {
    xAbs >= n * 1.5
  }

  /** `plural(x, xAbs, n, name)`: the rounded count, a space, the name and an 's' when
      `IsPlural`. */
  function Plural(x: real, xAbs: real, n: real, name: string): string
    requires n != 0.0
  {
    IntToString(Round(x / n)) + " " + name + (if IsPlural(xAbs, n) then "s" else "")
  }

  /** The number printed below one second: the value itself (`${ms}`) or the value times
      1000, rounded (`${Math.round(s * SECOND_IN_MS)}`). */
  function SubSecondText(v: Variant, x: real): string {
    match v.subSecond
    case RawBase => NumberText(x)
    case RoundedMillis => IntToString(Round(x * 1000.0))
  }

  /** `fmtShort`: the rounded count and the unit's abbreviation, with no space. */
  function FmtShort(v: Variant, x: real): string
    requires Ordered(v)
  {
    match Bucket(v, x)
    case Some(u) => IntToString(Round(x / Size(v, u))) + Abbrev(u)
    case None => SubSecondText(v, x) + "ms"
  }

  /** `fmtLong`: `plural` with the unit's name, or the sub-second text and " ms". */
  function FmtLong(v: Variant, x: real): string
    requires Ordered(v)
  {
    match Bucket(v, x)
    case Some(u) => Plural(x, Abs(x), Size(v, u), Name(u))
    case None => SubSecondText(v, x) + " ms"
  }

  /** `format(x, options)`: NaN and the infinities throw before anything is rendered; a finite
      value is rendered in the long form exactly when `options.long` is true. */
  function Format(v: Variant, x: Number, options: Option<Options>): (r: Outcome<string>)
    requires Ordered(v)
    ensures r.Throw? <==> !x.Finite?
    ensures r.Throw? ==> r.error == NotFiniteNumber
  {
    if !x.Finite? then Throw(NotFiniteNumber)
    else if IsLong(options) then Return(FmtLong(v, x.value))
    else Return(FmtShort(v, x.value))
  }

  // ---------------------------------------------------------------------------------------
  // Which unit is chosen

  /** A unit the formatter may print (any but the millisecond) that is no larger than |x|. */
  predicate Fits(v: Variant, x: real, u: Unit) {
    u != Millisecond && Size(v, u) <= Abs(x)
  }

  /** The chain picks the largest unit that fits, and no unit when none fits. */
  lemma BucketIsLargest(v: Variant, x: real, u: Unit)
    requires Ordered(v)
    ensures Bucket(v, x) == Some(u) <==> Fits(v, x, u) && forall w | Fits(v, x, w) :: Size(v, w) <= Size(v, u)
    ensures Bucket(v, x) == None <==> forall w :: !Fits(v, x, w)
  {
    if Bucket(v, x) == None {
      forall w ensures !Fits(v, x, w) {
        if w != Millisecond {
          SizeAtLeastSecond(v, w);
        }
      }
    } else {
      assert Fits(v, x, Bucket(v, x).value);
    }
    if Fits(v, x, u) && forall w | Fits(v, x, w) :: Size(v, w) <= Size(v, u) {
      var b := Bucket(v, x);
      assert b.Some?;
      SizesDistinct(v, b.value, u);
    }
  }

  /** Every unit the formatter prints is at least a second long. */
  lemma SizeAtLeastSecond(v: Variant, u: Unit)
    requires Ordered(v) && u != Millisecond
    ensures v.second <= Size(v, u)
  {
  }

  /** Different units have different sizes. */
  lemma SizesDistinct(v: Variant, u: Unit, w: Unit)
    requires Ordered(v) && Size(v, u) == Size(v, w)
    ensures u == w
  {
  }

  /** Below one second no unit is chosen. */
  lemma BucketBelowSecond(v: Variant, x: real)
    requires Ordered(v)
    ensures Bucket(v, x) == None <==> Abs(x) < v.second
  {
  }

  // ---------------------------------------------------------------------------------------
  // The count

  /** A quotient of at least one in magnitude rounds to a non-zero count. */
  lemma RoundNonZero(y: real)
    requires y >= 1.0 || y <= -1.0
    ensures Round(y) != 0 && (Round(y) > 0 <==> y > 0.0)
  {
  }

  /** When x = y * n for a positive n, |x| = |y| * n and y has the sign of x. */
  lemma ScaledMagnitude(x: real, n: real, y: real)
    requires 0.0 < n && x == y * n
    ensures Abs(x) == Abs(y) * n
    ensures y > 0.0 <==> x > 0.0
    ensures y < 0.0 <==> x < 0.0
  {
    if y < 0.0 {
      assert (-y) * n == -(y * n);
      ScaleCompare(0.0, y, n);
    } else if y > 0.0 {
      ScaleCompare(y, 0.0, n);
      assert 0.0 * n == 0.0;
    }
  }

  /** A positive size scaled by q reaches the size itself exactly when q is at least one. */
  lemma AtLeastOneUnit(q: real, n: real)
    requires 0.0 < n
    ensures q * n >= n <==> q >= 1.0
  {
    if q >= 1.0 {
      assert q * n - n == (q - 1.0) * n;
    } else {
      assert n - q * n == (1.0 - q) * n;
    }
  }

  /** A value at least one unit n in magnitude is at least one in magnitude once divided by n,
      and keeps its sign. */
  lemma QuotientAtLeastOne(x: real, n: real, y: real)
    requires 0.0 < n <= Abs(x) && x == y * n
    ensures y >= 1.0 || y <= -1.0
    ensures y > 0.0 <==> x > 0.0
  {
    ScaledMagnitude(x, n, y);
    AtLeastOneUnit(Abs(y), n);
  }

  /** In every unit branch the count printed is non-zero and has the sign of x. */
  lemma CountNonZero(v: Variant, x: real, u: Unit)
    requires Ordered(v) && Bucket(v, x) == Some(u)
    ensures Round(x / Size(v, u)) != 0
    ensures Round(x / Size(v, u)) < 0 <==> x < 0.0
  {
    var n := Size(v, u);
    var y := x / n;
    assert x == y * n;
    QuotientAtLeastOne(x, n, y);
    RoundNonZero(y);
  }

  /** So neither form ever starts with "0" ("0d", "0 days"). */
  lemma NoLeadingZero(v: Variant, x: real, u: Unit)
    requires Ordered(v) && Bucket(v, x) == Some(u)
    ensures FmtShort(v, x)[0] != '0' && FmtLong(v, x)[0] != '0'
  {
    var k := Round(x / Size(v, u));
    CountNonZero(v, x, u);
    IntToStringShape(k);
    assert FmtShort(v, x)[0] == IntToString(k)[0];
    assert FmtLong(v, x)[0] == IntToString(k)[0];
  }

  // ---------------------------------------------------------------------------------------
  // The plural suffix

  /** `plural`'s test, stated on the quotient: the quotient is at least 1.5 in magnitude. */
  lemma PluralOnQuotient(x: real, n: real, y: real)
    requires 0.0 < n && x == y * n
    ensures IsPlural(Abs(x), n) <==> Abs(y) >= 1.5
  {
    ScaledMagnitude(x, n, y);
    ScaleCompare(Abs(y), 1.5, n);
  }

  /** `plural` looks at the unrounded magnitude, not at the count it prints: for a positive
      value the name is plural exactly when the count is 2 or more, but for a negative value
      it is also plural at exactly minus one and a half units, where the count is -1. */
  lemma PluralAgainstCount(x: real, n: real)
    requires 0.0 < n <= Abs(x)
    ensures x > 0.0 ==> (IsPlural(Abs(x), n) <==> Round(x / n) >= 2)
    ensures x < 0.0 ==> (IsPlural(Abs(x), n) <==> Round(x / n) <= -2 || x / n == -1.5)
  {
    var y := x / n;
    assert x == y * n;
    PluralOnQuotient(x, n, y);
    ScaledMagnitude(x, n, y);
  }

  /** Scaling by a positive factor keeps the order. */
  lemma ScaleCompare(a: real, b: real, n: real)
    requires 0.0 < n
    ensures a * n >= b * n <==> a >= b
  {
    if a >= b {
      assert a * n - b * n == (a - b) * n;
    } else {
      assert b * n - a * n == (b - a) * n;
    }
  }

  /** No unit name ends in 's'. */
  lemma NamesAreSingular(u: Unit)
    ensures |Name(u)| > 0 && Name(u)[|Name(u)| - 1] != 's'
  {
  }

  /** The long form of a unit branch ends in 's' exactly when |x| is at least one and a half
      units: the suffix is decided by the unrounded value. */
  lemma LongFormPlural(v: Variant, x: real, u: Unit)
    requires Ordered(v) && Bucket(v, x) == Some(u)
    ensures var t := FmtLong(v, x);
      |t| > 0 && (t[|t| - 1] == 's' <==> Abs(x) >= 1.5 * Size(v, u))
  {
    NamesAreSingular(u);
    assert Abs(x) >= 1.5 * Size(v, u) <==> IsPlural(Abs(x), Size(v, u));
  }

  // ---------------------------------------------------------------------------------------
  // Sign symmetry

  /** Unit choice and plural suffix depend on |x| only. */
  lemma BucketOfNegated(v: Variant, x: real)
    ensures Bucket(v, -x) == Bucket(v, x)
    ensures forall n :: IsPlural(Abs(-x), n) == IsPlural(Abs(x), n)
  {
    assert Abs(-x) == Abs(x);
  }

  /** Away from a tie, rounding commutes with negation. */
  lemma RoundNegated(y: real)
    requires y + 0.5 != (y + 0.5).Floor as real
    ensures Round(-y) == -Round(y)
  {
    var k := Round(y);
    assert k as real - 0.5 < y;
    assert (-y + 0.5).Floor == -k;
  }

  /** The count of -x is minus the count of x when x / n is not a tie. */
  lemma CountNegated(x: real, n: real)
    requires 0.0 < n && x / n + 0.5 != (x / n + 0.5).Floor as real
    ensures Round(-x / n) == -Round(x / n)
  {
    assert -x / n == -(x / n);
    RoundNegated(x / n);
  }

  /** A positive value whose quotient is not a tie has a positive count, and -x has minus
      that count in the same unit. */
  lemma NegatedCount(v: Variant, x: real, u: Unit)
    requires Ordered(v) && x > 0.0 && Bucket(v, x) == Some(u)
    requires x / Size(v, u) + 0.5 != (x / Size(v, u) + 0.5).Floor as real
    ensures Bucket(v, -x) == Some(u) && Round(x / Size(v, u)) > 0
    ensures Round(-x / Size(v, u)) == -Round(x / Size(v, u))
  {
    var n := Size(v, u);
    var y := x / n;
    assert x == y * n;
    QuotientAtLeastOne(x, n, y);
    RoundNonZero(y);
    BucketOfNegated(v, x);
    CountNegated(x, n);
  }

  /** Negating a value whose quotient is not a tie negates the printed count: both forms of
      -x are "-" followed by the forms of x. */
  lemma FormatNegated(v: Variant, x: real, u: Unit)
    requires Ordered(v) && x > 0.0 && Bucket(v, x) == Some(u)
    requires x / Size(v, u) + 0.5 != (x / Size(v, u) + 0.5).Floor as real
    ensures FmtShort(v, -x) == "-" + FmtShort(v, x)
    ensures FmtLong(v, -x) == "-" + FmtLong(v, x)
  {
    var n := Size(v, u);
    var k := Round(x / n);
    NegatedCount(v, x, u);
    IntToStringNegated(k);
    assert Abs(-x) == Abs(x);
  }

  // ---------------------------------------------------------------------------------------
  // The options flag

  /** Neither short text holds a space, and every long text does: the two forms never
      coincide. */
  lemma SpaceOnlyInLongForm(v: Variant, x: real)
    requires Ordered(v)
    ensures ' ' !in FmtShort(v, x) && ' ' in FmtLong(v, x)
  {
    match Bucket(v, x)
    case Some(u) =>
      var k := Round(x / Size(v, u));
      IntToStringHasNoSpace(k);
      AbbrevHasNoSpace(u);
      assert FmtShort(v, x) == IntToString(k) + Abbrev(u);
      var t := FmtLong(v, x);
      assert t == IntToString(k) + " " + Name(u) + (if IsPlural(Abs(x), Size(v, u)) then "s" else "");
      assert t[|IntToString(k)|] == ' ';
    case None =>
      SubSecondTextHasNoSpace(v, x);
      assert FmtShort(v, x) == SubSecondText(v, x) + "ms";
      var t := FmtLong(v, x);
      assert t[|SubSecondText(v, x)|] == ' ';
  }

  lemma SubSecondTextHasNoSpace(v: Variant, x: real)
    ensures ' ' !in SubSecondText(v, x)
  {
    match v.subSecond
    case RawBase => NumberTextHasNoSpace(x);
    case RoundedMillis => IntToStringHasNoSpace(Round(x * 1000.0));
  }

  lemma AbbrevHasNoSpace(u: Unit)
    ensures ' ' !in Abbrev(u)
  {
  }

  lemma IntToStringHasNoSpace(k: int)
    ensures ' ' !in IntToString(k)
  {
    var m := if k < 0 then -k else k;
    if m < ExponentFrom {
      var d := NatToString(m);
      assert forall i | 0 <= i < |d| :: IsDigit(d[i]);
    } else {
      ExponentTextChars(m);
    }
  }

  lemma NumberTextHasNoSpace(x: real)
    ensures ' ' !in NumberText(x)
  {
    IntToStringHasNoSpace(x.Floor);
    if x != x.Floor as real {
      var a := if x < 0.0 then -x else x;
      var d := NatToString(a.Floor);
      var f := Fraction(a - a.Floor as real, 20);
      assert forall i | 0 <= i < |d| :: IsDigit(d[i]);
      assert forall i | 0 <= i < |f| :: IsDigit(f[i]);
    }
  }

  /** `options.long` truthy selects the long form; an absent record, an absent flag and
      `false` all select the short form; and since the two forms differ, the result is the
      long form exactly when the flag is true. */
  lemma FormatOptions(v: Variant, x: real, options: Option<Options>)
    requires Ordered(v)
    ensures Format(v, Finite(x), options) == Return(FmtLong(v, x)) <==> IsLong(options)
    ensures Format(v, Finite(x), options) == Return(FmtShort(v, x)) <==> !IsLong(options)
    ensures Format(v, Finite(x), None) == Format(v, Finite(x), Some(Options(None)))
      == Format(v, Finite(x), Some(Options(Some(false))))
  {
    SpaceOnlyInLongForm(v, x);
    assert FmtLong(v, x) != FmtShort(v, x);
  }
}
