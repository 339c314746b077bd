/** `parse` of both variants, written once over a Variant: the length guard, the regular
    expression, the lookup in `unitMap` and the multiplication. */
module DurationParse {
  import opened Values
  import opened Text
  import opened Units
  import opened Grammar

  /** The guard `str.length === 0 || str.length > 100` lets the string through. */
  predicate LengthOk(s: string) {
    0 < |s| <= 100
  }

  /** `parse(str)`: a hard error for a bad length, NaN when the regular expression does not
      match, otherwise the literal's value times the multiplier of the unit (the variant's
      default unit when none is written), and a hard error if the unit has no multiplier. */
  function Parse(v: Variant, s: string): (r: Outcome<Number>)
    ensures r.Return? ==> r.value.Finite? || r.value.NaN?
    ensures !LengthOk(s) ==> r == Throw(InvalidLength)
  {
    if |s| == 0 || |s| > 100 then Throw(InvalidLength)
    else
      match Scan(s)
      case None => Return(NaN)
      case Some(m) =>
        var n := LiteralValue(m.value);
        var key := UnitKey(v, m.unit);
        if key in UnitMap(v) then Return(Finite(Scaled(n, UnitMap(v)[key]))) else Throw(UnknownUnit)
  }

  /** `unit.toLowerCase()`, where `unit` is the captured unit or, without one, the default. */
  function UnitKey(v: Variant, unit: Option<string>): string {
    Lower(match unit case Some(u) => u case None => v.defaultUnit)
  }

  /** `n * factor`. */
  function Scaled(n: real, factor: real): real {
    n * factor
  }

  /** The arithmetic step of `ParseOppositeMatches`, kept apart from the facts about `Parse`
      that would otherwise make the solver search among them. */
  lemma NegatedOutcome(r: Outcome<Number>, q: Outcome<Number>, x: real, y: real, factor: real)
    requires r == Return(Finite(Scaled(x, factor))) && q == Return(Finite(Scaled(y, factor)))
    requires y == -x
    ensures q == Negate(r)
  {
    assert Scaled(y, factor) == -Scaled(x, factor);
  }

  function Negate(r: Outcome<Number>): Outcome<Number> {
    if r.Return? && r.value.Finite? then Return(Finite(-r.value.value)) else r
  }

  /** Only the length guard throws: every unit the regular expression captures, and the default
      unit, are keys of the table, so the unknown-unit error cannot happen; and a string that
      passes the guard gives NaN exactly when the regular expression does not match it. */
  lemma ParseOutcomes(v: Variant, s: string)
    requires Valid(v)
    ensures Parse(v, s).Throw? <==> !LengthOk(s)
    ensures Parse(v, s) != Throw(UnknownUnit)
    ensures LengthOk(s) ==> (Parse(v, s) == Return(NaN) <==> !Matches(s))
  {
    ScanIffMatches(s);
    if LengthOk(s) && Scan(s).Some? {
      var m := Scan(s).value;
      if m.unit.Some? {
        GrammarAgreesWithTable(v, Lower(m.unit.value));
      }
    }
  }

  /** On a match, the result is the literal's value times the multiplier of the unit written
      after it, or of the default unit when none is. */
  lemma ParseMatch(v: Variant, s: string, i: nat, j: nat)
    requires Valid(v) && LengthOk(s) && Splits(s, i, j)
    ensures UnitKey(v, CapturedUnit(s, j)) in UnitMap(v)
    ensures Parse(v, s)
      == Return(Finite(Scaled(LiteralValue(s[..i]), UnitMap(v)[UnitKey(v, CapturedUnit(s, j))])))
  {
    ScanComplete(s, i, j);
    if j < |s| {
      GrammarAgreesWithTable(v, Lower(s[j..]));
    }
  }

  /** A literal followed by any number of spaces and a unit spelled in any case: the literal's
      value times that unit's multiplier. */
  lemma ParseLiteralAndUnit(v: Variant, t: string, n: nat, a: string)
    requires Valid(v) && IsLiteral(t) && Lower(a) in UnitMap(v)
    requires |t| + n + |a| <= 100
    ensures Parse(v, t + Spaces(n) + a) == Return(Finite(Scaled(LiteralValue(t), UnitMap(v)[Lower(a)])))
  {
    GrammarAgreesWithTable(v, Lower(a));
    AliasesAreWords(Lower(a));
    SplitsOfParts(t, n, a);
    ParseMatch(v, t + Spaces(n) + a, |t|, |t| + n);
  }

  /** Every spelling of a unit, in any case and after any number of spaces, multiplies the
      literal by that unit's size: aliases of one unit give equal results. */
  lemma ParseAlias(v: Variant, t: string, n: nat, a: string, u: Unit)
    requires Valid(v) && IsLiteral(t) && Lower(a) in Words(u) && |t| + n + |a| <= 100
    ensures Parse(v, t + Spaces(n) + a) == Return(Finite(Scaled(LiteralValue(t), Size(v, u))))
  {
    UnitOfWords(v, u, Lower(a));
    ParseLiteralAndUnit(v, t, n, a);
  }

  /** A bare literal is read in the default unit. */
  lemma ParseLiteral(v: Variant, t: string)
    requires Valid(v) && IsLiteral(t) && |t| <= 100
    ensures Parse(v, t) == Return(Finite(Scaled(LiteralValue(t), UnitMap(v)[Lower(v.defaultUnit)])))
  {
    SplitsOfLiteral(t);
    ParseMatch(v, t, |t|, |t|);
  }

  /** Parsing is case-insensitive. */
  lemma ParseIgnoresCase(v: Variant, s: string)
    requires Valid(v)
    ensures Parse(v, s) == Parse(v, Lower(s))
  {
    var l := Lower(s);
    if LengthOk(s) {
      MatchesIgnoreCase(s);
      ParseOutcomes(v, s);
      ParseOutcomes(v, l);
      if Matches(s) {
        var i: nat, j: nat :| Splits(s, i, j);
        LowerOfMatch(s, i, j);
        ParseMatch(v, s, i, j);
        ParseMatch(v, l, i, j);
      }
    }
  }

  /** A leading '-' negates the result; where the unsigned string gives NaN, so does the
      signed one. */
  lemma ParseNegative(v: Variant, s: string)
    requires Valid(v) && 0 < |s| < 100 && s[0] != '-'
    ensures Parse(v, "-" + s) == Negate(Parse(v, s))
  {
    if Matches(s) {
      var i: nat, j: nat :| Splits(s, i, j);
      var n := "-" + s;
      NegatedGroups(s, i, j);
      assert LengthOk(n);
      assert Splits(n, i + 1, j + 1);
      assert LiteralValue(n[..i + 1]) == -LiteralValue(s[..i]);
      assert CapturedUnit(n, j + 1) == CapturedUnit(s, j);
      ParseOppositeMatches(v, s, n, i, j, i + 1, j + 1);
    } else {
      ParseNegativeUnmatched(v, s);
    }
  }

  lemma ParseNegativeUnmatched(v: Variant, s: string)
    requires Valid(v) && 0 < |s| < 100 && s[0] != '-' && !Matches(s)
    ensures Parse(v, "-" + s) == Return(NaN) == Parse(v, s)
  {
    MatchesNegated(s);
    ParseOutcomes(v, s);
    ParseOutcomes(v, "-" + s);
  }

  /** Two matches with the same unit group and opposite literals parse to opposite values. */
  lemma ParseOppositeMatches(v: Variant, s: string, n: string, i: nat, j: nat, k: nat, l: nat)
    requires Valid(v) && LengthOk(s) && LengthOk(n) && Splits(s, i, j) && Splits(n, k, l)
    requires LiteralValue(n[..k]) == -LiteralValue(s[..i]) && CapturedUnit(n, l) == CapturedUnit(s, j)
    ensures Parse(v, n) == Negate(Parse(v, s))
  {
    ParseMatch(v, s, i, j);
    ParseMatch(v, n, k, l);
    NegatedOutcome(Parse(v, s), Parse(v, n), LiteralValue(s[..i]), LiteralValue(n[..k]),
      UnitMap(v)[UnitKey(v, CapturedUnit(s, j))]);
  }
}
