/** The time units, the alias table `unitMap` and the two base-unit variants. */
module Units {
  import opened Text

  datatype Unit = Year | Month | Week | Day | Hour | Minute | Second | Millisecond

  /** How a formatter renders a value below one second. */
  datatype SubSecond =
    | RawBase        // the value itself, unrounded, in milliseconds (the millisecond variant)
    | RoundedMillis  // the value times 1000, rounded (the second variant)

  /** One variant of the library: the size of each unit in the variant's base unit, the unit
      assumed when a string names none, and the formatter's sub-second rendering. */
  datatype Variant = Variant(
    year: real, month: real, week: real, day: real, hour: real, minute: real, second: real,
    millisecond: real, defaultUnit: string, subSecond: SubSecond)

  function Size(v: Variant, u: Unit): real {
    match u
    case Year => v.year
    case Month => v.month
    case Week => v.week
    case Day => v.day
    case Hour => v.hour
    case Minute => v.minute
    case Second => v.second
    case Millisecond => v.millisecond
  }

  /** The sizes are positive and strictly decreasing from year to millisecond; the
      formatter's if-chains rely on this. */
  predicate Ordered(v: Variant) {
    0.0 < v.millisecond < v.second < v.minute < v.hour < v.day < v.week < v.month < v.year
  }

  /** The sizes are ordered and the default unit, lower-cased, is a key of the table. */
  predicate Valid(v: Variant) {
    Ordered(v) && Lower(v.defaultUnit) in UnitMap(v)
  }

  /** The spellings of a unit, in the order in which both `unitMap` and the regular expression
      list them. */
  function Words(u: Unit): seq<string> {
    match u
    case Year => ["years", "year", "yrs", "yr", "y"]
    case Month => ["months", "month", "mo"]
    case Week => ["weeks", "week", "w"]
    case Day => ["days", "day", "d"]
    case Hour => ["hours", "hour", "hrs", "hr", "h"]
    case Minute => ["minutes", "minute", "mins", "min", "m"]
    case Second => ["seconds", "second", "secs", "sec", "s"]
    case Millisecond => ["milliseconds", "millisecond", "msecs", "msec", "ms"]
  }

  /** The keys of `unitMap`, in its order: from years down to milliseconds. */
  function TableWords(): seq<string> {
    Words(Year) + Words(Month) + Words(Week) + Words(Day) + Words(Hour) + Words(Minute)
      + Words(Second) + Words(Millisecond)
  }

  /** The unit that a key of `unitMap` stands for. */
  function UnitOfWord(a: string): Unit {
    if a in Words(Year) then Year
    else if a in Words(Month) then Month
    else if a in Words(Week) then Week
    else if a in Words(Day) then Day
    else if a in Words(Hour) then Hour
    else if a in Words(Minute) then Minute
    else if a in Words(Second) then Second
    else Millisecond
  }

  /** `unitMap`: every accepted spelling, in lower case, with the size of its unit. */
  function UnitMap(v: Variant): map<string, real> {
    map a | a in TableWords() :: Size(v, UnitOfWord(a))
  }

  /** The unit alternation of the parser's regular expression
      `milliseconds?|msecs?|ms|seconds?|secs?|s|minutes?|mins?|m|hours?|hrs?|h|days?|d|weeks?|w|months?|mo|years?|yrs?|y`,
      in its order (from milliseconds up to years), each optional `s` written out as two
      words. */
  function UnitAlternation(): seq<string> {
    Words(Millisecond) + Words(Second) + Words(Minute) + Words(Hour) + Words(Day) + Words(Week)
      + Words(Month) + Words(Year)
  }

  /** `a` is one of the alternatives, tried left to right. */
  predicate OneOf(a: string, alternatives: seq<string>)
    decreases |alternatives|
  {
    |alternatives| > 0 && (a == alternatives[0] || OneOf(a, alternatives[1..]))
  }

  /** The unit group of the regular expression accepts `a` (already lower-cased). */
  predicate IsUnitWord(a: string) {
    OneOf(a, UnitAlternation())
  }

  lemma {:induction false} OneOfIsMembership(a: string, alternatives: seq<string>)
    ensures OneOf(a, alternatives) <==> a in alternatives
    decreases |alternatives|
  {
    if |alternatives| > 0 {
      OneOfIsMembership(a, alternatives[1..]);
      assert alternatives == [alternatives[0]] + alternatives[1..];
    }
  }

  /** The grammar accepts exactly the keys of the table, so every unit the grammar lets
      through has a multiplier. */
  lemma GrammarAgreesWithTable(v: Variant, a: string)
    ensures a in UnitMap(v) <==> IsUnitWord(a)
  {
    OneOfIsMembership(a, UnitAlternation());
  }

  /** The short abbreviation that the formatter prints for a unit. */
  function Abbrev(u: Unit): string {
    match u
    case Year => "y"
    case Month => "mo"
    case Week => "w"
    case Day => "d"
    case Hour => "h"
    case Minute => "m"
    case Second => "s"
    case Millisecond => "ms"
  }

  /** The singular name that the formatter prints for a unit. */
  function Name(u: Unit): string {
    match u
    case Year => "year"
    case Month => "month"
    case Week => "week"
    case Day => "day"
    case Hour => "hour"
    case Minute => "minute"
    case Second => "second"
    case Millisecond => "millisecond"
  }

  /** No spelling belongs to two units, so the table maps each spelling of `u` to the size
      of `u`. */
  lemma UnitOfWords(v: Variant, u: Unit, a: string)
    requires a in Words(u)
    ensures a in UnitMap(v) && UnitMap(v)[a] == Size(v, u)
  {
    if u == Year || u == Month || u == Week || u == Day {
      UnitOfCalendarWord(u, a);
    } else if u == Hour || u == Minute {
      UnitOfClockWord(u, a);
    } else {
      UnitOfSubMinuteWord(u, a);
    }
  }

  lemma UnitOfCalendarWord(u: Unit, a: string)
    requires a in Words(u) && (u == Year || u == Month || u == Week || u == Day)
    ensures UnitOfWord(a) == u
  {
  }

  lemma UnitOfClockWord(u: Unit, a: string)
    requires a in Words(u) && (u == Hour || u == Minute)
    ensures UnitOfWord(a) == u
  {
  }

  lemma UnitOfSubMinuteWord(u: Unit, a: string)
    requires a in Words(u) && (u == Second || u == Millisecond)
    ensures UnitOfWord(a) == u
  {
  }

  /** The formatter's abbreviation, singular and plural of a unit are spellings of that unit
      in the table, so formatted text parses back in the same unit. */
  lemma AbbrevInTable(v: Variant, u: Unit)
    ensures Abbrev(u) in UnitMap(v) && UnitMap(v)[Abbrev(u)] == Size(v, u)
  {
    assert Abbrev(u) in Words(u);
    UnitOfWords(v, u, Abbrev(u));
  }

  lemma NameInTable(v: Variant, u: Unit)
    ensures Name(u) in UnitMap(v) && UnitMap(v)[Name(u)] == Size(v, u)
  {
    assert Name(u) in Words(u);
    UnitOfWords(v, u, Name(u));
  }

  lemma PluralNameInTable(v: Variant, u: Unit)
    ensures Name(u) + "s" in UnitMap(v) && UnitMap(v)[Name(u) + "s"] == Size(v, u)
  {
    assert Name(u) + "s" == Words(u)[0];
    UnitOfWords(v, u, Name(u) + "s");
  }

  /** The spellings the formatter prints are already lower-case. */
  lemma AbbrevIsLowerCase(u: Unit)
    ensures Lower(Abbrev(u)) == Abbrev(u)
  {
    LowerOfLowerCaseWord(Abbrev(u));
  }

  lemma NameIsLowerCase(u: Unit)
    ensures Lower(Name(u)) == Name(u) && Lower(Name(u) + "s") == Name(u) + "s"
  {
    var a := Name(u);
    assert forall i | 0 <= i < |a| :: IsLowerLetter(a[i]);
    LowerOfLowerCaseWord(a);
    assert forall i | 0 <= i < |a + "s"| :: IsLowerLetter((a + "s")[i]);
    LowerOfLowerCaseWord(a + "s");
  }

  /** Every spelling of a unit starts with a lower-case letter. */
  lemma WordsStartWithLetter(u: Unit)
    ensures forall k | 0 <= k < |Words(u)| :: |Words(u)[k]| > 0 && IsLowerLetter(Words(u)[k][0])
  {
    match u
    case Year =>
    case Month =>
    case Week =>
    case Day =>
    case Hour =>
    case Minute =>
    case Second =>
    case Millisecond =>
  }

  /** Every alias starts with a lower-case letter, so it can start neither with a digit, a
      '.', a '-' nor a space. */
  lemma AliasesAreWords(a: string)
    requires IsUnitWord(a)
    ensures |a| > 0 && IsLowerLetter(a[0])
  {
    OneOfIsMembership(a, UnitAlternation());
    var u :| a in Words(u);
    WordsStartWithLetter(u);
    var k :| 0 <= k < |Words(u)| && Words(u)[k] == a;
  }

  /** Every spelling of a unit is made of lower-case letters only. */
  lemma WordsAreLetters(u: Unit)
    ensures forall k, i | 0 <= k < |Words(u)| && 0 <= i < |Words(u)[k]| :: IsLowerLetter(Words(u)[k][i])
  {
    match u
    case Year =>
    case Month =>
    case Week =>
    case Day =>
    case Hour =>
    case Minute =>
    case Second =>
    case Millisecond =>
  }

  lemma UnitWordLetterAt(a: string, i: nat)
    requires IsUnitWord(a) && i < |a|
    ensures IsLowerLetter(a[i])
  {
    OneOfIsMembership(a, UnitAlternation());
    var u :| a in Words(u);
    WordsAreLetters(u);
    var k :| 0 <= k < |Words(u)| && Words(u)[k] == a;
  }

  /** The millisecond variant. The constants module is not part of this model: the sizes are
      1000 times those that the second variant's tests pin. No test pins the month: a twelfth
      of a year (30.4375 days) is a chosen constant between a week and a year. */
  const Millis: Variant := Variant(
    31557600000.0, 2629800000.0, 604800000.0, 86400000.0, 3600000.0, 60000.0, 1000.0, 1.0,
    "ms", RawBase)

  /** The second variant: a millisecond is 1/1000 of the base unit. */
  const Seconds: Variant := Variant(
    31557600.0, 2629800.0, 604800.0, 86400.0, 3600.0, 60.0, 1.0, 0.001,
    "s", RoundedMillis)

  lemma VariantsValid()
    ensures Valid(Millis) && Valid(Seconds)
    ensures Size(Millis, Millisecond) == 1.0 && Size(Seconds, Second) == 1.0
    ensures Size(Seconds, Millisecond) == 0.001
  {
    assert Lower("ms") == "ms" && Lower("s") == "s";
    UnitOfWords(Millis, Millisecond, "ms");
    UnitOfWords(Seconds, Second, "s");
  }

  /** The default unit of each variant is its base unit: milliseconds and seconds. */
  lemma DefaultUnitIsBase()
    ensures Lower(Millis.defaultUnit) in UnitMap(Millis) && UnitMap(Millis)[Lower(Millis.defaultUnit)] == 1.0
    ensures Lower(Seconds.defaultUnit) in UnitMap(Seconds) && UnitMap(Seconds)[Lower(Seconds.defaultUnit)] == 1.0
  {
    assert Lower("ms") == "ms" && Lower("s") == "s";
    UnitOfWords(Millis, Millisecond, "ms");
    UnitOfWords(Seconds, Second, "s");
  }
}
