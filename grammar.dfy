/** The parser's regular expression `^(-?\d*\.?\d+) *(<unit>)?$`, flag `i`: what it accepts,
    stated as a predicate, and a left-to-right scanner proved to agree with it. `\d` is an ASCII
    digit, the separator is the space character only, and with the `i` flag a character matches
    a letter of a unit exactly when its ASCII lower-case form is that letter. */
module Grammar {
  import opened Text
  import opened Values
  import Units

  /** `t` is the literal `-?\d*\.?\d+` cut into its four parts: an optional '-' (t[..p]),
      digits (t[p..q]), an optional '.' (t[q..r]) and at least one digit (t[r..]). */
  ghost predicate LiteralSplit(t: string, p: nat, q: nat, r: nat) {
    && p <= q <= r < |t|
    && (p == 0 || (p == 1 && t[0] == '-'))
    && AllDigits(t[p..q])
    && (r == q || (r == q + 1 && t[q] == '.'))
    && AllDigits(t[r..])
  }

  ghost predicate IsLiteral(t: string) {
    exists p: nat, q: nat, r: nat :: LiteralSplit(t, p, q, r)
  }

  /** The whole of `s` is a literal s[..i], spaces s[i..j], and then either nothing or, ignoring
      ASCII case, one of the unit spellings of the alternation. */
  ghost predicate Splits(s: string, i: nat, j: nat) {
    && 0 < i <= j <= |s|
    && IsLiteral(s[..i])
    && AllSpaces(s[i..j])
    && (j == |s| || Units.IsUnitWord(Lower(s[j..])))
  }

  /** The anchored regular expression matches `s`. */
  ghost predicate Matches(s: string) {
    exists i: nat, j: nat :: Splits(s, i, j)
  }

  /** The captured groups of a match: the literal and, when present, the unit as written. */
  datatype Match = Match(value: string, unit: Option<string>)

  /** The unit group captured when the unit starts at `j`: absent when nothing follows. */
  function CapturedUnit(s: string, j: nat): Option<string>
    requires j <= |s|
  {
    if j == |s| then None else Some(s[j..])
  }

  /** The end of the run of digits that starts at `i`. */
  function SpanDigits(s: string, i: nat): (j: nat)
    requires i <= |s|
    ensures i <= j <= |s|
    ensures forall k | i <= k < j :: IsDigit(s[k])
    ensures j < |s| ==> !IsDigit(s[j])
    decreases |s| - i
  {
    if i < |s| && IsDigit(s[i]) then SpanDigits(s, i + 1) else i
  }

  /** The end of the run of spaces that starts at `i`. */
  function SpanSpaces(s: string, i: nat): (j: nat)
    requires i <= |s|
    ensures i <= j <= |s|
    ensures forall k | i <= k < j :: s[k] == ' '
    ensures j < |s| ==> s[j] != ' '
    decreases |s| - i
  {
    if i < |s| && s[i] == ' ' then SpanSpaces(s, i + 1) else i
  }

  /** Where the literal at the start of `s` ends: an optional '-', digits, and then either a
      '.' followed by at least one digit, or nothing if at least one digit was read. */
  function LiteralEnd(s: string): (e: Option<nat>)
    ensures e.Some? ==> 0 < e.value <= |s|
  {
    var p := if 0 < |s| && s[0] == '-' then 1 else 0;
    var q := SpanDigits(s, p);
    if q < |s| && s[q] == '.' then
      var r := SpanDigits(s, q + 1);
      if q + 1 < r then Some(r) else None
    else if p < q then Some(q) else None
  }

  /** The scanner: the literal, the spaces after it, and the rest of the string, which must be
      empty or a unit spelling. */
  function Scan(s: string): Option<Match> {
    match LiteralEnd(s)
    case None => None
    case Some(i) =>
      var j := SpanSpaces(s, i);
      if j == |s| then Some(Match(s[..i], None))
      else if Units.IsUnitWord(Lower(s[j..])) then Some(Match(s[..i], Some(s[j..])))
      else None
  }

  /** `parseFloat` of a literal: its exact decimal value. */
  function LiteralValue(t: string): real {
    if 0 < |t| && t[0] == '-' then -UnsignedValue(t[1..]) else UnsignedValue(t)
  }

  function UnsignedValue(u: string): real {
    var k := SpanDigits(u, 0);
    assert AllDigits(u[..k]);
    var whole := DigitsValue(u[..k]) as real;
    if k + 1 < |u| && u[k] == '.' && AllDigits(u[k + 1..]) then
      whole + DigitsValue(u[k + 1..]) as real / Pow10(|u| - k - 1) as real
    else whole
  }

  // ---------------------------------------------------------------------------------------
  // The scanner agrees with the regular expression.

  /** Only a run of exactly the digits from `i` to `k` can make SpanDigits stop at `k`. */
  lemma {:induction false} SpanDigitsAt(s: string, i: nat, k: nat)
    requires i <= k <= |s|
    requires forall m | i <= m < k :: IsDigit(s[m])
    requires k < |s| ==> !IsDigit(s[k])
    ensures SpanDigits(s, i) == k
    decreases k - i
  {
    if i < k {
      assert IsDigit(s[i]);
      SpanDigitsAt(s, i + 1, k);
    }
  }

  lemma {:induction false} SpanSpacesAt(s: string, i: nat, k: nat)
    requires i <= k <= |s|
    requires forall m | i <= m < k :: s[m] == ' '
    requires k < |s| ==> s[k] != ' '
    ensures SpanSpaces(s, i) == k
    decreases k - i
  {
    if i < k {
      assert s[i] == ' ';
      SpanSpacesAt(s, i + 1, k);
    }
  }

  /** A literal is made of digits, '-' and '.' only, and ends with a digit. */
  lemma LiteralChars(t: string)
    requires IsLiteral(t)
    ensures forall k | 0 <= k < |t| :: IsDigit(t[k]) || t[k] == '-' || t[k] == '.'
    ensures IsDigit(t[|t| - 1])
  {
    var p: nat, q: nat, r: nat :| LiteralSplit(t, p, q, r);
    forall k | 0 <= k < |t|
      ensures IsDigit(t[k]) || t[k] == '-' || t[k] == '.'
    {
      if k < p {
      } else if k < q {
        assert t[p..q][k - p] == t[k];
      } else if k < r {
      } else {
        assert t[r..][k - r] == t[k];
      }
    }
    assert t[r..][|t| - 1 - r] == t[|t| - 1];
  }

  /** What the scanner reports is a match of the regular expression. */
  lemma LiteralEndSound(s: string)
    requires LiteralEnd(s).Some?
    ensures IsLiteral(s[..LiteralEnd(s).value])
  {
    var p := if 0 < |s| && s[0] == '-' then 1 else 0;
    var q := SpanDigits(s, p);
    if q < |s| && s[q] == '.' {
      var i := SpanDigits(s, q + 1);
      var t := s[..i];
      DigitsOfPrefix(s, i, p, q);
      DigitsOfPrefix(s, i, q + 1, i);
      assert t[q + 1..i] == t[q + 1..];
      assert LiteralSplit(t, p, q, q + 1);
    } else {
      var t := s[..q];
      DigitsOfPrefix(s, q, p, q);
      assert t[p..q] == t[p..];
      assert LiteralSplit(t, p, p, p);
    }
  }

  /** A run of digits of `s` inside its first `i` characters is a run of digits of s[..i]. */
  lemma DigitsOfPrefix(s: string, i: nat, a: nat, b: nat)
    requires a <= b <= i <= |s| && forall k | a <= k < b :: IsDigit(s[k])
    ensures AllDigits(s[..i][a..b])
  {
    forall k | 0 <= k < b - a
      ensures IsDigit(s[..i][a..b][k])
    {
      assert s[..i][a..b][k] == s[a + k];
    }
  }

  /** The converse: a run of digits of s[..i] is a run of digits of `s`. */
  lemma PrefixDigits(s: string, i: nat, a: nat, b: nat)
    requires a <= b <= i <= |s| && AllDigits(s[..i][a..b])
    ensures forall k | a <= k < b :: IsDigit(s[k])
  {
    forall k | a <= k < b
      ensures IsDigit(s[k])
    {
      assert s[..i][a..b][k - a] == s[k];
    }
  }

  lemma SliceDigits(t: string, a: nat, b: nat)
    requires a <= b <= |t| && AllDigits(t[a..b])
    ensures forall k | a <= k < b :: IsDigit(t[k])
  {
    assert forall k | a <= k < b :: t[a..b][k - a] == t[k];
  }

  /** A leading '-' is neither a digit nor a '.', so it can only be the sign. */
  lemma LiteralSign(t: string, p: nat, q: nat, r: nat)
    requires LiteralSplit(t, p, q, r)
    ensures p == if t[0] == '-' then 1 else 0
  {
    SliceDigits(t, p, q);
    SliceDigits(t, r, |t|);
    assert p == 0 && q > 0 ==> IsDigit(t[0]);
    assert p == 0 && r == 0 ==> IsDigit(t[0]);
  }

  /** The scanner finds a literal exactly where the regular expression does: at the end of a
      literal prefix that is followed by neither a digit nor a '.'. */
  lemma LiteralEndComplete(s: string, i: nat)
    requires 0 < i <= |s| && IsLiteral(s[..i])
    requires i < |s| ==> !IsDigit(s[i]) && s[i] != '.'
    ensures LiteralEnd(s) == Some(i)
  {
    var t := s[..i];
    var p: nat, q: nat, r: nat :| LiteralSplit(t, p, q, r);
    PrefixDigits(s, i, p, q);
    assert t[r..] == t[r..i];
    PrefixDigits(s, i, r, i);
    LiteralSign(t, p, q, r);
    assert t[0] == s[0];
    if r == q + 1 {
      assert s[q] == t[q];
      SpanDigitsAt(s, p, q);
      SpanDigitsAt(s, q + 1, i);
    } else {
      SpanDigitsAt(s, p, i);
    }
  }

  /** A character whose lower-case form is a lower-case letter is neither a digit, a '.', a '-'
      nor a space. */
  lemma UnitStart(s: string, j: nat)
    requires j < |s| && Units.IsUnitWord(Lower(s[j..]))
    ensures !IsDigit(s[j]) && s[j] != '.' && s[j] != '-' && s[j] != ' '
  {
    Units.AliasesAreWords(Lower(s[j..]));
    assert Lower(s[j..])[0] == LowerChar(s[j]);
  }

  /** A match determines the scanner's result: the literal and the unit are the ones the
      regular expression captures. */
  lemma ScanComplete(s: string, i: nat, j: nat)
    requires Splits(s, i, j)
    ensures Scan(s) == Some(Match(s[..i], CapturedUnit(s, j)))
  {
    assert forall k | i <= k < j :: s[k] == ' ' by {
      assert forall k | i <= k < j :: s[i..j][k - i] == s[k];
    }
    if j < |s| {
      UnitStart(s, j);
    }
    if i < j {
      assert s[i] == ' ';
    }
    LiteralEndComplete(s, i);
    SpanSpacesAt(s, i, j);
  }

  /** Whatever the scanner reports comes from a match of the regular expression. */
  lemma ScanSound(s: string)
    requires Scan(s).Some?
    ensures exists i: nat, j: nat :: Splits(s, i, j) && Scan(s) == Some(Match(s[..i], if j == |s| then None else Some(s[j..])))
  {
    var i := LiteralEnd(s).value;
    var j := SpanSpaces(s, i);
    LiteralEndSound(s);
    assert AllSpaces(s[i..j]) by {
      assert forall k | 0 <= k < j - i :: s[i..j][k] == s[i + k];
    }
    assert Splits(s, i, j);
  }

  /** The scanner succeeds exactly on the strings the regular expression matches. */
  lemma ScanIffMatches(s: string)
    ensures Scan(s).Some? <==> Matches(s)
  {
    if Scan(s).Some? {
      ScanSound(s);
    }
    if Matches(s) {
      var i: nat, j: nat :| Splits(s, i, j);
      ScanComplete(s, i, j);
    }
  }

  // ---------------------------------------------------------------------------------------
  // Literals.

  /** A literal may start with '.', but a '.' must be followed by a digit and a sign by a
      number: `.5` and `-.5` are literals, `10.`, `-` and `.` are not. */
  lemma LiteralExamples()
    ensures IsLiteral(".5") && IsLiteral("-.5") && IsLiteral("-10.5")
    ensures !IsLiteral("10.") && !IsLiteral("-") && !IsLiteral(".") && !IsLiteral("")
  {
    assert LiteralSplit(".5", 0, 0, 1);
    assert LiteralSplit("-.5", 1, 1, 2);
    assert LiteralSplit("-10.5", 1, 3, 4);
    if IsLiteral("10.") {
      LiteralChars("10.");
    }
    if IsLiteral("-") {
      LiteralChars("-");
    }
    if IsLiteral(".") {
      LiteralChars(".");
    }
  }

  /** Digits, a '.' and at least one more digit form a literal whose value is the whole part
      plus the fraction. */
  lemma DecimalLiteral(a: string, b: string)
    requires AllDigits(a) && AllDigits(b) && 0 < |b|
    ensures IsLiteral(a + "." + b) && (a + "." + b)[0] != '-'
    ensures LiteralValue(a + "." + b) == DigitsValue(a) as real + DigitsValue(b) as real / Pow10(|b|) as real
  {
    var t := a + "." + b;
    assert t[..|a|] == a && t[|a|] == '.' && t[|a| + 1..] == b;
    assert t[0..|a|] == a;
    assert LiteralSplit(t, 0, |a|, |a| + 1);
    assert forall m | 0 <= m < |a| :: IsDigit(t[m]) by {
      assert forall m | 0 <= m < |a| :: t[m] == a[m];
    }
    SpanDigitsAt(t, 0, |a|);
    assert SpanDigits(t, 0) == |a| && t[..|a|] == a && t[|a| + 1..] == b && |t| - |a| - 1 == |b|;
    assert UnsignedValue(t) == DigitsValue(a) as real + DigitsValue(b) as real / Pow10(|b|) as real;
  }

  /** Putting a '-' in front of an unsigned literal gives a literal of the opposite value, and
      removing the '-' of a signed literal gives a literal. */
  lemma NegatedLiteral(t: string)
    requires 0 < |t| && t[0] != '-'
    ensures IsLiteral("-" + t) <==> IsLiteral(t)
    ensures LiteralValue("-" + t) == -LiteralValue(t)
  {
    var n := "-" + t;
    assert n[1..] == t;
    if IsLiteral(t) {
      var p: nat, q: nat, r: nat :| LiteralSplit(t, p, q, r);
      LiteralSign(t, p, q, r);
      assert n[1..q + 1] == t[..q];
      assert n[r + 1..] == t[r..];
      assert LiteralSplit(n, 1, q + 1, r + 1);
    }
    if IsLiteral(n) {
      var p: nat, q: nat, r: nat :| LiteralSplit(n, p, q, r);
      LiteralSign(n, p, q, r);
      assert t[..q - 1] == n[1..q];
      assert t[r - 1..] == n[r..];
      assert LiteralSplit(t, 0, q - 1, r - 1);
    }
  }

  /** The decimal rendering of an integer is a literal whose value is that integer, so the
      integers the formatter prints read back exactly. */
  lemma IntLiteral(k: int)
    requires PrintsPlain(k)
    ensures IsLiteral(IntToString(k)) && LiteralValue(IntToString(k)) == k as real
  {
    var m := if k < 0 then -k else k;
    var d := NatToString(m);
    assert NatText(m) == d;
    NatToStringValue(m);
    assert d[..|d|] == d;
    SpanDigitsAt(d, 0, |d|);
    assert UnsignedValue(d) == DigitsValue(d) as real;
    assert LiteralSplit(d, 0, 0, 0);
    if k < 0 {
      NegatedLiteral(d);
    }
  }

  /** No part of the regular expression accepts a '+', so a string holding one never matches. */
  lemma PlusNeverMatches(s: string, q: nat)
    requires q < |s| && s[q] == '+'
    ensures !Matches(s)
  {
    if Matches(s) {
      var i: nat, j: nat :| Splits(s, i, j);
      if q < i {
        LiteralCharAt(s[..i], q);
        assert false;
      } else if q < j {
        SpaceAt(s, i, j, q);
        assert false;
      } else {
        Units.UnitWordLetterAt(Lower(s[j..]), q - j);
        assert false;
      }
    }
  }

  lemma LiteralCharAt(t: string, q: nat)
    requires IsLiteral(t) && q < |t|
    ensures IsDigit(t[q]) || t[q] == '-' || t[q] == '.'
  {
    LiteralChars(t);
  }

  lemma SpaceAt(s: string, i: nat, j: nat, q: nat)
    requires i <= q < j <= |s| && AllSpaces(s[i..j])
    ensures s[q] == ' '
  {
    assert s[i..j][q - i] == s[q];
  }

  // ---------------------------------------------------------------------------------------
  // The flag `i`.

  /** The characters that a literal and the spaces after it are made of. */
  predicate IsLiteralOrSpace(c: char) {
    IsDigit(c) || c == '-' || c == '.' || c == ' '
  }

  /** Everything before the unit of a match is a literal or a space character. */
  lemma MatchPrefixChars(t: string, i: nat, j: nat)
    requires 0 < i <= j <= |t| && IsLiteral(t[..i]) && AllSpaces(t[i..j])
    ensures forall k | 0 <= k < j :: IsLiteralOrSpace(t[k])
  {
    LiteralChars(t[..i]);
    forall k | 0 <= k < j
      ensures IsLiteralOrSpace(t[k])
    {
      if k < i {
        assert t[..i][k] == t[k];
      } else {
        assert t[i..j][k - i] == t[k];
      }
    }
  }

  /** Lower-casing keeps such characters as they are, and no other character lower-cases
      into one of them. */
  lemma LowerKeepsPrefix(s: string, j: nat)
    requires j <= |s|
    requires forall k | 0 <= k < j :: IsLiteralOrSpace(s[k])
    ensures Lower(s)[..j] == s[..j]
  {
    forall k | 0 <= k < j
      ensures Lower(s)[k] == s[k]
    {
      LowerKeepsAt(s, k);
    }
  }

  lemma LowerPrefixIsKept(s: string, j: nat)
    requires j <= |s|
    requires forall k | 0 <= k < j :: IsLiteralOrSpace(Lower(s)[k])
    ensures Lower(s)[..j] == s[..j]
  {
    forall k | 0 <= k < j
      ensures Lower(s)[k] == s[k]
    {
      LowerKeepsAt(s, k);
    }
  }

  /** Whether a split is a match depends only on the text before the unit and on the unit's
      lower-case form. */
  lemma SplitsAgree(s: string, t: string, i: nat, j: nat)
    requires Splits(s, i, j) && j <= |t| == |s|
    requires s[..j] == t[..j] && Lower(s[j..]) == Lower(t[j..])
    ensures Splits(t, i, j)
  {
    assert s[..i] == s[..j][..i] && t[..i] == t[..j][..i];
    assert s[i..j] == s[..j][i..] && t[i..j] == t[..j][i..];
  }

  /** The regular expression ignores case: `s` and its lower-case form match at the same
      places. */
  lemma SplitsIgnoreCase(s: string, i: nat, j: nat)
    ensures Splits(s, i, j) <==> Splits(Lower(s), i, j)
  {
    if Splits(s, i, j) {
      SplitsOfLower(s, i, j);
    }
    if Splits(Lower(s), i, j) {
      SplitsFromLower(s, i, j);
    }
  }

  lemma SplitsOfLower(s: string, i: nat, j: nat)
    requires Splits(s, i, j)
    ensures Splits(Lower(s), i, j)
  {
    LowerOfLowerSuffix(s, j);
    MatchPrefixChars(s, i, j);
    LowerKeepsPrefix(s, j);
    SplitsAgree(s, Lower(s), i, j);
  }

  lemma SplitsFromLower(s: string, i: nat, j: nat)
    requires Splits(Lower(s), i, j)
    ensures Splits(s, i, j)
  {
    LowerOfLowerSuffix(s, j);
    MatchPrefixChars(Lower(s), i, j);
    LowerPrefixIsKept(s, j);
    SplitsAgree(Lower(s), s, i, j);
  }

  /** A match of `s` is a match of its lower-case form, with the same literal and a unit of
      the same lower-case form. */
  lemma LowerOfMatch(s: string, i: nat, j: nat)
    requires Splits(s, i, j)
    ensures Splits(Lower(s), i, j)
    ensures Lower(s)[..i] == s[..i] && Lower(Lower(s)[j..]) == Lower(s[j..])
  {
    SplitsOfLower(s, i, j);
    MatchPrefixChars(s, i, j);
    LowerKeepsPrefix(s, j);
    assert Lower(s)[..i] == Lower(s)[..j][..i] && s[..i] == s[..j][..i];
    LowerOfLowerSuffix(s, j);
  }

  lemma MatchesIgnoreCase(s: string)
    ensures Matches(s) <==> Matches(Lower(s))
  {
    if Matches(s) {
      var i: nat, j: nat :| Splits(s, i, j);
      SplitsIgnoreCase(s, i, j);
    }
    if Matches(Lower(s)) {
      var i: nat, j: nat :| Splits(Lower(s), i, j);
      SplitsIgnoreCase(s, i, j);
    }
  }

  /** A literal, `n` spaces and a unit spelling, in any case, make a match. */
  lemma SplitsOfParts(t: string, n: nat, a: string)
    requires IsLiteral(t) && Units.IsUnitWord(Lower(a))
    ensures var s := t + Spaces(n) + a;
      && Splits(s, |t|, |t| + n) && s[..|t|] == t && s[|t| + n..] == a
  {
    var s := t + Spaces(n) + a;
    LiteralChars(t);
    assert s[..|t|] == t;
    assert s[|t|..|t| + n] == Spaces(n);
    assert s[|t| + n..] == a;
  }

  /** A literal on its own is a match. */
  lemma SplitsOfLiteral(t: string)
    requires IsLiteral(t)
    ensures Splits(t, |t|, |t|) && t[..|t|] == t
  {
    LiteralChars(t);
    assert t[..|t|] == t;
    assert t[|t|..|t|] == [];
  }

  /** How the slices of "-" + s line up with those of s. */
  lemma SignedSlices(s: string, i: nat, j: nat)
    requires i <= j <= |s|
    ensures var n := "-" + s;
      && n[..i + 1] == "-" + s[..i] && n[i + 1..j + 1] == s[i..j] && n[j + 1..] == s[j..]
  {
    var n := "-" + s;
    assert forall k | 0 <= k < i :: n[..i + 1][k + 1] == s[..i][k];
    assert forall k | 0 <= k < j - i :: n[i + 1..j + 1][k] == s[i..j][k];
    assert forall k | 0 <= k < |s| - j :: n[j + 1..][k] == s[j..][k];
  }

  /** The same, counted from the positions in "-" + s. */
  lemma UnsignedSlices(s: string, i: nat, j: nat)
    requires 1 <= i <= j <= |s| + 1
    ensures var n := "-" + s;
      && n[..i] == "-" + s[..i - 1] && n[i..j] == s[i - 1..j - 1] && n[j..] == s[j - 1..]
  {
    SignedSlices(s, i - 1, j - 1);
  }

  /** Prefixing a '-' to a string that does not start with one: the matches move one place to
      the right, with the literal negated and the unit unchanged. */
  lemma SplitsOfNegated(s: string, i: nat, j: nat)
    requires 0 < |s| && s[0] != '-' && Splits(s, i, j)
    ensures var n := "-" + s;
      && Splits(n, i + 1, j + 1) && n[..i + 1] == "-" + s[..i] && n[j + 1..] == s[j..]
  {
    var n := "-" + s;
    NegatedLiteral(s[..i]);
    SignedSlices(s, i, j);
  }

  /** The captured groups of the negated match: the literal negated, the unit unchanged. */
  lemma NegatedGroups(s: string, i: nat, j: nat)
    requires 0 < |s| && s[0] != '-' && Splits(s, i, j)
    ensures var n := "-" + s;
      && Splits(n, i + 1, j + 1) && LiteralValue(n[..i + 1]) == -LiteralValue(s[..i])
      && CapturedUnit(n, j + 1) == CapturedUnit(s, j)
  {
    SplitsOfNegated(s, i, j);
    NegatedLiteral(s[..i]);
  }

  lemma MatchesNegated(s: string)
    requires 0 < |s| && s[0] != '-'
    ensures Matches("-" + s) <==> Matches(s)
  {
    if Matches(s) {
      var i: nat, j: nat :| Splits(s, i, j);
      SplitsOfNegated(s, i, j);
    }
    if Matches("-" + s) {
      var i: nat, j: nat :| Splits("-" + s, i, j);
      SplitsOfUnnegated(s, i, j);
    }
  }

  /** Conversely, a match of "-" + s starts with a literal that holds the '-'. */
  lemma SplitsOfUnnegated(s: string, i: nat, j: nat)
    requires 0 < |s| && s[0] != '-' && Splits("-" + s, i, j)
    ensures 1 <= i && Splits(s, i - 1, j - 1)
  {
    var n := "-" + s;
    var p: nat, q: nat, r: nat :| LiteralSplit(n[..i], p, q, r);
    LiteralSign(n[..i], p, q, r);
    assert 2 <= i;
    UnsignedSlices(s, i, j);
    var t := s[..i - 1];
    assert t[0] == s[0];
    NegatedLiteral(t);
    assert IsLiteral(t);
    assert AllSpaces(s[i - 1..j - 1]);
    assert j == |n| || Units.IsUnitWord(Lower(n[j..]));
  }

  // ---------------------------------------------------------------------------------------
  // Literals used in examples

  lemma LiteralOne()
    ensures IsLiteral("1") && LiteralValue("1") == 1.0
  {
    IntLiteral(1);
    assert IntToString(1) == "1";
  }

  lemma LiteralHundred()
    ensures IsLiteral("100") && LiteralValue("100") == 100.0
  {
    IntLiteral(100);
    assert IntToString(100) == "100";
  }

  lemma LiteralOneAndAHalf()
    ensures IsLiteral("1.5") && LiteralValue("1.5") == 1.5
  {
    assert LiteralSplit("1.5", 0, 1, 2);
  }

  lemma LiteralHalf()
    ensures IsLiteral(".5") && LiteralValue(".5") == 0.5
  {
    assert LiteralSplit(".5", 0, 0, 1);
  }

  lemma LiteralMinusOneAndAHalf()
    ensures IsLiteral("-1.5") && LiteralValue("-1.5") == -1.5
  {
    assert LiteralSplit("-1.5", 1, 2, 3);
  }

  lemma LiteralMinusTenAndAHalf()
    ensures IsLiteral("-10.5") && LiteralValue("-10.5") == -10.5
  {
    assert LiteralSplit("-10.5", 1, 3, 4);
  }

  lemma LiteralMinusHalf()
    ensures IsLiteral("-.5") && LiteralValue("-.5") == -0.5
  {
    assert LiteralSplit("-.5", 1, 1, 2);
  }
}
