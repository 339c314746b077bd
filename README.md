# timestamp — a Dafny model of `parse`, `format` and `ms`

The library converts between human-readable durations and numbers in two variants. In the
millisecond variant (`src/ms`), values are counted in milliseconds and a bare number means
milliseconds. In the second variant (`src/seconds`), values are counted in seconds and a bare
number means seconds.

- `parse(str)` reads a string such as `"1.5h"`, `"-.5 hr"` or `"100"` and returns a number:
  - it throws an error when the length is 0 or more than 100;
  - it returns NaN when the string does not match the pattern
    `^(-?\d*\.?\d+) *(<unit>)?$` (case-insensitive);
  - otherwise it multiplies the literal by the size of the unit. The unit is looked up in
    `unitMap` after lower-casing; without a unit the variant's default is used.
- `format(x, options)` prints a finite number in the largest unit, from year down to second,
  that fits into |x|:
  - the short form is `1h`; the long form is `1 hour` / `2 hours`;
  - below one second, the millisecond variant prints the number as it is, and the second
    variant prints it rounded to whole milliseconds;
  - NaN and the infinities throw.
- `ms(value, options)` sends strings to `parse` and numbers to `format`, and throws on anything
  else. `millis` is the same function under another name.

The model is pure: every operation is a function and every property a lemma. `parse` and
`format` exist twice in the source, once per variant. The two copies differ in their unit sizes,
their default unit ('ms' at src/ms/parse.ts:71, 's' at src/seconds/parse.ts:71) and how they
print values below one second (src/ms/format.ts:46 against src/seconds/format.ts:46). Each is
therefore written once over a `Variant`, which records exactly these three:

- the size of every unit;
- the default unit;
- how values below one second are printed.

That single definition is instantiated as `Units.Millis` and `Units.Seconds`.

Modules, from the bottom up:

- `Values`: numbers (finite, NaN, ±∞), the thrown errors, the `Options` record.
- `Text`: ASCII lower-casing (`toLowerCase` on the strings that can reach it), and the decimal
  rendering of numbers (`${...}`).
- `Units`: the units, `unitMap`, the regular expression's unit alternation, and the two
  variants.
- `Grammar`: the regular expression as a predicate (`Splits`, `Matches`), and a left-to-right
  scanner (`Scan`) proved to agree with it. `parseFloat` of a matched literal is modelled as its
  exact decimal value.
- `DurationParse`, `DurationFormat`: `parse`, `plural`, `fmtShort`, `fmtLong`, `format` over a
  variant.
- `RoundTrip`: what `format` prints, `parse` reads back.
- `SecondsParse`, `MsParse`, `SecondsFormat`, `MsFormat`: the two variants, with the examples of
  the test suite.
- `MsIndex`: `ms` and `millis`.

Numbers are reals: `Math.round(y)` is `⌊y + 1/2⌋` and `Math.abs` is the absolute value.

In two places the code does something other than what its message or its names suggest. The
model follows the code:

- **Length guard.** The error message (src/ms/parse.ts:59) says a string may be "between 1 and
  99" characters long. The guard `str.length > 100` (src/ms/parse.ts:57) accepts 100
  characters. `SecondsParse.LengthExamples` states that a string of 100 characters passes the
  guard.
- **Plural of negative half-counts.** `plural` decides the 's' on the unrounded magnitude, but
  prints `Math.round(x / n)`, which rounds -1.5 up to -1. So -1.5 days prints as `-1 days`
  (`MsFormat.NegativeHalfExample`, `DurationFormat.PluralAgainstCount`). The model keeps this
  behaviour.

## Model

| member | source | states |
|---|---|---|
| Text.Lower | src/ms/parse.ts:77 | lower-casing keeps the length and maps each character on its own: capitals A–Z to a–z, everything else unchanged |
| Text.LowerIdempotent | src/ms/parse.ts:77 | lower-casing a lower-cased string changes nothing |
| Text.LowerAppend | src/ms/parse.ts:77 | lower-casing distributes over concatenation |
| Text.NatToString | src/ms/format.ts:26 | the rendering of a count is a non-empty run of digits that starts with '0' only for 0 |
| Text.NatToStringValue | src/ms/format.ts:26 | reading the rendered digits back gives the number |
| Text.NatToStringLength | src/ms/format.ts:26 | a number below 10^d takes at most d digits |
| Text.IntToStringShape | src/ms/format.ts:17 | a rendered integer starts with '-' exactly when it is negative, never has a leading zero unless it is 0, and is "0" exactly for 0 |
| Text.IntToStringExponent | src/ms/format.ts:26 | a count is printed with a '+' (the exponent form `d.ddde+N`) exactly when its magnitude is 10^21 or more |
| Text.IntToString | src/ms/format.ts:17-44 | `${Math.round(...)}`: an optional '-' and the digits of the magnitude below 10^21, the exponent form from there on; its shape is stated by `Text.IntToStringShape`, `Text.IntToStringExponent` and `Text.IntToStringLength`, and it reads back as the integer by `Grammar.IntLiteral` |
| Text.IntToStringLength | src/ms/format.ts:26 | an integer printed in full takes at most 22 characters |
| Text.NumberText | src/ms/format.ts:46 | `${ms}` below one second: an integer value exactly as `IntToString` prints it, so it reads back exactly (`RoundTrip.RawBaseRoundTrip`); never a space (`DurationFormat.SpaceOnlyInLongForm`) |
| Units.UnitMap | src/ms/parse.ts:12-47 | `unitMap`: the 34 spellings, each mapped to its unit's size in the variant; its keys are those the unit group accepts (`Units.GrammarAgreesWithTable`) |
| Units.UnitAlternation | src/ms/parse.ts:63 | the unit group of the regular expression, alternative by alternative, each optional 's' written out |
| Units.GrammarAgreesWithTable | src/ms/parse.ts:12-63 | a lower-case word is a key of `unitMap` exactly when the unit group of the regular expression accepts it, so the unknown-unit error cannot be reached |
| Units.UnitOfWords | src/ms/parse.ts:12-47 | every spelling of a unit is a key of `unitMap`, mapped to that unit's size, in either variant |
| Units.AbbrevInTable | src/ms/format.ts:25-46 | the abbreviation `fmtShort` prints for a unit is a key of `unitMap` that maps to the unit's size |
| Units.NameInTable | src/ms/format.ts:54-73 | the singular name `fmtLong` prints for a unit is a key of `unitMap` that maps to the unit's size |
| Units.PluralNameInTable | src/ms/format.ts:15-18 | the name followed by 's' is also such a key |
| Units.AbbrevIsLowerCase | src/ms/format.ts:26-46 | the printed abbreviations are already lower-case, so `toLowerCase` keeps them |
| Units.NameIsLowerCase | src/ms/format.ts:55-73 | the printed names, singular and plural, are already lower-case |
| Units.AliasesAreWords | src/ms/parse.ts:63 | every alternative of the unit group is non-empty and starts with a lower-case letter |
| Units.UnitWordLetterAt | src/ms/parse.ts:63 | every character of every alternative of the unit group is a lower-case letter |
| Units.VariantsValid | src/seconds/parse.ts:12-46 | in both variants the sizes are positive and strictly decreasing from year to millisecond, and the default unit is a key; the base unit has size 1; in the second variant a millisecond is 0.001 |
| Units.DefaultUnitIsBase | src/ms/parse.ts:71 | the default unit 'ms' (and 's' in the second variant) maps to 1 |
| Units.Millis | src/ms/parse.ts:12-47 | the millisecond variant: sizes from a year of 365.25 days down to 1 for a millisecond, default unit 'ms', sub-second values printed as they are; valid by `Units.VariantsValid` |
| Units.Seconds | src/seconds/parse.ts:12-46 | the second variant: the same sizes in seconds, 1 for a second and 0.001 for a millisecond, default unit 's', sub-second values printed as rounded milliseconds; valid by `Units.VariantsValid` |
| Grammar.Scan | src/ms/parse.ts:62-69 | the regular expression run left to right: the literal, the spaces after it, and the rest, which must be empty or a unit spelling; its agreement with the regular expression is `Grammar.ScanIffMatches` |
| Grammar.Splits | src/ms/parse.ts:63 | one way the regular expression can cut a string: a literal `-?\d*\.?\d+`, spaces, then nothing or a unit spelling in any ASCII case |
| Grammar.Matches | src/ms/parse.ts:63 | the anchored regular expression matches the string: some such cut exists; decided by `Grammar.Scan` (`Grammar.ScanIffMatches`) |
| Grammar.LiteralValue | src/ms/parse.ts:76 | `parseFloat` of a matched literal: its sign and exact decimal value (`Grammar.DecimalLiteral`, `Grammar.IntLiteral`, `Grammar.NegatedLiteral`) |
| Grammar.ScanIffMatches | src/ms/parse.ts:62-69 | the scanner succeeds exactly on the strings the regular expression matches |
| Grammar.ScanComplete | src/ms/parse.ts:62-65 | on any match, the scanner returns the captured groups: the literal, and the unit as written or none |
| Grammar.ScanSound | src/ms/parse.ts:62-65 | whatever the scanner returns comes from a match of the regular expression |
| Grammar.LiteralEndComplete | src/ms/parse.ts:63 | the scanner's literal ends exactly where a literal prefix ends, if the next character is neither a digit nor '.' |
| Grammar.LiteralExamples | src/ms/parse.ts:63 | ".5", "-.5" and "-10.5" are literals; "10.", "-", "." and "" are not |
| Grammar.DecimalLiteral | src/ms/parse.ts:76 | digits, '.' and digits form a literal whose value is the whole part plus the fraction |
| Grammar.NegatedLiteral | src/ms/parse.ts:63-76 | with a '-' in front, an unsigned string is a literal exactly when it was one before, with the opposite value |
| Grammar.IntLiteral | src/ms/parse.ts:76 | every integer printed in full (below 10^21 in magnitude) is a literal whose value is that integer |
| Grammar.PlusNeverMatches | src/ms/parse.ts:63 | no string holding a '+' matches the regular expression |
| Grammar.MatchesIgnoreCase | src/ms/parse.ts:63 | the `i` flag: a string matches exactly when its lower-case form does |
| Grammar.SplitsOfParts | src/ms/parse.ts:63 | a literal, any number of spaces and a unit spelling in any case form a match, with the groups where expected |
| Grammar.MatchesNegated | src/ms/parse.ts:63 | "-" + s matches exactly when s does, if s does not already start with '-' |
| Grammar.NegatedGroups | src/ms/parse.ts:62-65 | putting '-' in front shifts the match by one place, negates the literal and keeps the unit group |
| DurationParse.Parse | src/ms/parse.ts:56-84 | a string of length 0 or over 100 throws the length error; any other result is a finite number or NaN |
| DurationParse.LengthOk | src/ms/parse.ts:57 | the guard lets the string through: its length is between 1 and 100; `DurationParse.ParseOutcomes` states that `parse` throws exactly when it fails |
| DurationParse.UnitKey | src/ms/parse.ts:71-77 | the key looked up in `unitMap`: the captured unit, or 'ms' ('s' in the second variant) when none was captured, lower-cased |
| DurationParse.ParseOutcomes | src/ms/parse.ts:57-81 | `parse` throws exactly for a bad length, never throws the unknown-unit error, and returns NaN exactly when the regular expression does not match |
| DurationParse.ParseMatch | src/ms/parse.ts:71-83 | on a match, the result is the literal's value times the `unitMap` entry of the lower-cased unit group, or of the default unit when there is no unit group |
| DurationParse.ParseLiteralAndUnit | src/ms/parse.ts:62-83 | a literal, spaces and a key of `unitMap` in any case parse to the literal times that key's multiplier |
| DurationParse.ParseAlias | src/ms/parse.ts:12-83 | a literal, spaces and any spelling of unit u parse to the literal times the size of u |
| DurationParse.ParseLiteral | src/ms/parse.ts:71 | a bare literal is read in the default unit |
| DurationParse.ParseIgnoresCase | src/ms/parse.ts:63-77 | parsing a string and parsing its lower-case form give the same result, the error included |
| DurationParse.ParseNegative | src/ms/parse.ts:63-83 | a '-' in front of a string that has none negates the result, and NaN stays NaN |
| DurationFormat.Abs | src/ms/format.ts:24 | `Math.abs`: non-negative and equal to x or -x |
| DurationFormat.Round | src/ms/format.ts:26 | `Math.round`: the integer k with k - 1/2 <= y < k + 1/2, so halves go up |
| DurationFormat.Plural | src/ms/format.ts:15-18 | `plural`: the rounded count, a space, the name, and an 's' when the unrounded magnitude is at least one and a half units (`DurationFormat.PluralAgainstCount`, `DurationFormat.LongFormPlural`) |
| DurationFormat.Bucket | src/ms/format.ts:24-45 | the unit the if-chains choose is not milliseconds and its size is at most \|x\|; no unit is chosen only below one second; the chosen unit is the largest that fits (`DurationFormat.BucketIsLargest`) |
| DurationFormat.FmtShort | src/ms/format.ts:23-47 | `fmtShort`: the rounded count and the abbreviation, or the sub-second text and "ms"; read back by `RoundTrip.ShortFormRoundTrip` |
| DurationFormat.FmtLong | src/ms/format.ts:52-76 | `fmtLong`: `plural` with the unit's name, or the sub-second text and " ms"; read back by `RoundTrip.LongFormRoundTrip` |
| DurationFormat.SubSecondText | src/ms/format.ts:46 | the number printed below one second: `${ms}` in the millisecond variant, `${Math.round(s * SECOND_IN_MS)}` in the second variant (src/seconds/format.ts:46); read back by `RoundTrip.RawBaseRoundTrip` and `RoundTrip.RoundedMillisRoundTrip` |
| DurationFormat.Format | src/ms/format.ts:85-91 | `format` throws exactly for NaN and the infinities, with the not-a-finite-number error |
| DurationFormat.BucketIsLargest | src/ms/format.ts:24-46 | the unit chosen is the largest unit, from year down to second, whose size is at most \|x\|; no unit is chosen exactly when none fits |
| DurationFormat.BucketBelowSecond | src/ms/format.ts:43-46 | the sub-second branch is taken exactly when \|x\| is below one second |
| DurationFormat.SizesDistinct | src/ms/format.ts:24-45 | no two units have the same size, so each branch of the chain belongs to one unit |
| DurationFormat.CountNonZero | src/ms/format.ts:25-44 | the count printed in a unit branch is never 0 and is negative exactly when x is |
| DurationFormat.NoLeadingZero | src/ms/format.ts:23-76 | neither form ever starts with "0" in a unit branch |
| DurationFormat.PluralAgainstCount | src/ms/format.ts:15-18 | for x > 0 the 's' appears exactly when the printed count is at least 2; for x < 0, exactly when the count is at most -2 or x/n is exactly -1.5 |
| DurationFormat.LongFormPlural | src/ms/format.ts:15-18 | the long form ends in 's' exactly when \|x\| is at least one and a half units |
| DurationFormat.NamesAreSingular | src/ms/format.ts:55-73 | no singular name ends in 's', so the 's' comes only from `plural` |
| DurationFormat.BucketOfNegated | src/ms/format.ts:24 | x and -x choose the same unit and the same plural |
| DurationFormat.RoundNegated | src/ms/format.ts:26 | `Math.round(-y) == -Math.round(y)` unless y lies exactly halfway between two integers |
| DurationFormat.FormatNegated | src/ms/format.ts:23-76 | for x > 0 with a unit and no tie, both forms of -x are "-" followed by the form of x |
| DurationFormat.SpaceOnlyInLongForm | src/ms/format.ts:23-76 | the short form never contains a space and the long form always does |
| DurationFormat.FormatOptions | src/ms/format.ts:90 | `format` prints the long form exactly when `options.long` is true; absent options, absent `long` and `long: false` all give the short form |
| Values.IsLong | src/ms/format.ts:90 | `options?.long` is truthy: options present with `long` set to true; `DurationFormat.FormatOptions` states that it alone selects the long form |
| RoundTrip.ShortFormRoundTrip | src/ms/format.ts:23-45 | parsing the short form of a value of at least one second gives its count, rounded, times the chosen unit's size, when that count is printed in full |
| RoundTrip.LongFormRoundTrip | src/ms/format.ts:52-74 | parsing the long form gives the same value, singular or plural |
| RoundTrip.FormsPassLengthGuard | src/ms/format.ts:17-74 | when the count is printed in full, both forms pass the length guard of `parse`: at most 24 characters short and 35 long |
| RoundTrip.SubSecondFormsPassLengthGuard | src/ms/format.ts:46-75 | below one second, an integer printed in full keeps both forms within the length guard |
| RoundTrip.ExponentFormReadsNaN | src/ms/format.ts:23-76 | when the count is 10^21 or more in magnitude, both forms are printed in exponent form and parse to NaN |
| RoundTrip.RoundTripError | src/ms/format.ts:26 | the value read back is within half a unit of the value formatted |
| RoundTrip.RoundedMillisRoundTrip | src/seconds/format.ts:43-46 | below one second in the second variant, both forms parse to the value rounded to whole milliseconds (a count printed in full, as it always is below one second) |
| RoundTrip.RawBaseRoundTrip | src/ms/format.ts:46 | below one second in the millisecond variant, both forms of a whole number parse back to it exactly |
| SecondsParse.Parse | src/seconds/parse.ts:56-84 | `parse` in seconds throws the length error exactly for a bad length and returns NaN exactly when the regular expression does not match |
| SecondsParse.ParseStrict | src/seconds/parse.ts:93-95 | `parseStrict` returns what `parse` returns |
| SecondsParse.Reads | src/seconds/parse.ts:12-83 | a literal, spaces and a spelling of unit u read as the literal times u's size in seconds |
| SecondsParse.ReadsBare | src/seconds/parse.ts:71 | a bare literal is a number of seconds |
| SecondsParse.NoMatch | src/seconds/parse.ts:67-69 | a string of valid length that the scanner rejects gives NaN |
| SecondsParse.HundredExample | src/seconds/parse.test.ts:12-14 | "100" is 100 |
| SecondsParse.MinuteExample | src/seconds/parse.test.ts:16-18 | "1m" is 60 |
| SecondsParse.MillisecondsExample | src/seconds/parse.test.ts:36-38 | "100ms" is 0.1 |
| SecondsParse.DecimalExample | src/seconds/parse.test.ts:44-46 | "1.5h" is 5400 |
| SecondsParse.SpacesExample | src/seconds/parse.test.ts:48-50 | "1   s" is 1 |
| SecondsParse.SnowmanExample | src/seconds/parse.test.ts:53 | "☃" is NaN |
| SecondsParse.InnerMinusExample | src/seconds/parse.test.ts:54 | "10-.5" is NaN |
| SecondsParse.BareUnitExample | src/seconds/parse.test.ts:55 | "s" is NaN |
| SecondsParse.UpperCaseExample | src/seconds/parse.test.ts:58-60 | "1.5H" is 5400 |
| SecondsParse.LeadingDotExample | src/seconds/parse.test.ts:62-64 | ".5s" is 0.5 |
| SecondsParse.NegativeExample | src/seconds/parse.test.ts:70-71 | "-1.5h" is -5400 |
| SecondsParse.NegativeDecimalExample | src/seconds/parse.test.ts:72 | "-10.5h" is -37800 |
| SecondsParse.NegativeLeadingDotExample | src/seconds/parse.test.ts:75-77 | "-.5h" is -1800 |
| SecondsParse.LengthExamples | src/seconds/parse.test.ts:141-151 | "" and 101 × "▲" throw the length error; 100 characters pass the guard |
| MsParse.Parse | src/ms/parse.ts:56-84 | `parse` in milliseconds throws the length error exactly for a bad length and returns NaN exactly when the regular expression does not match |
| MsParse.ParseStrict | src/ms/parse.ts:93-95 | `parseStrict` returns what `parse` returns |
| MsParse.Reads | src/ms/parse.ts:12-83 | a literal, spaces and a spelling of unit u read as the literal times u's size in milliseconds |
| MsParse.ReadsBare | src/ms/parse.ts:71 | a bare literal is a number of milliseconds |
| MsParse.HundredExample | src/ms/parse.ts:71 | "100" is 100 milliseconds |
| MsParse.MinuteExample | src/ms/parse.ts:36 | "1m" is 60000 milliseconds |
| SecondsFormat.Format | src/seconds/format.ts:85-91 | `format` in seconds throws exactly for non-finite input, and its output contains a space exactly when `options.long` is true |
| SecondsFormat.FormatThenParse | src/seconds/format.ts:23-74 | parsing what `format` prints for at least one second, when the count is below 10^21, gives the rounded count of the chosen unit, within half a unit of the input |
| SecondsFormat.ExponentFormThenParse | src/seconds/format.ts:23-74 | a count of 10^21 units or more prints in exponent form, which parses to NaN |
| SecondsFormat.SubSecondFormatThenParse | src/seconds/format.ts:46 | below one second, parsing what `format` prints gives the value rounded to whole milliseconds |
| SecondsFormat.MinuteExample | src/seconds/format.ts:40-70 | 60 seconds prints as "1m", or "1 minute" in the long form |
| SecondsFormat.TenthExample | src/seconds/format.ts:46 | 0.1 seconds prints as "100ms" |
| MsFormat.Format | src/ms/format.ts:85-91 | `format` in milliseconds throws exactly for non-finite input, and its output contains a space exactly when `options.long` is true |
| MsFormat.FormatThenParse | src/ms/format.ts:23-74 | parsing what `format` prints for at least one second, when the count is below 10^21, gives the rounded count of the chosen unit, within half a unit of the input |
| MsFormat.ExponentFormThenParse | src/ms/format.ts:23-74 | a count of 10^21 units or more prints in exponent form, which parses to NaN |
| MsFormat.SubSecondFormatThenParse | src/ms/format.ts:46 | below one second, a whole number of milliseconds reads back exactly |
| MsFormat.MinuteExample | src/ms/format.ts:40-70 | 60000 prints as "1m", or "1 minute" in the long form |
| MsFormat.SubSecondExample | src/ms/format.ts:46 | 500 prints as "500ms", or "500 ms" in the long form |
| MsFormat.PluralExample | src/ms/format.ts:63-64 | two days in the long form is "2 days" |
| MsFormat.NegativeHalfExample | src/ms/format.ts:15-18 | -1.5 days in the long form is "-1 days" |
| MsIndex.Ms | src/ms/index.ts:18-27 | a string's result is exactly what `parse` returns, whatever the options; a number's result is exactly what `format` returns with the options; a string throws only the length error, exactly for a bad length; a number throws exactly when it is not finite; any other value throws its own error |
| MsIndex.Millis | src/ms/index.ts:29 | `millis` is `ms` |
| MsIndex.MsOfMs | src/ms/index.ts:18-27 | `ms` applied to what `ms` prints for a number of at least one second, with a count below 10^21, gives back the number, rounded to the unit it was printed in and within half that unit, whatever the options of either call |

## Left out

- Numbers are reals, not IEEE-754 doubles. The model has no rounding error in `n * multiplier`
  or `ms / n`, no negative zero, and no overflow to infinity. As a result, a finite input never
  parses to an infinity.
- `parseFloat` is applied only to strings the regular expression has already accepted, so
  exponents (`1e3`) and `Infinity` never reach it. Each literal is read as its exact decimal
  value.
- Text.NumberText: `${ms}` below one second in the millisecond variant is exact for whole
  numbers. Other values get sign, integer part and up to 20 truncated fractional digits, not
  JavaScript's shortest round-trip digits. The exponent form JavaScript uses below 10^-6
  (`1e-7`) is not modelled. For that reason RoundTrip.RawBaseRoundTrip and
  MsFormat.SubSecondFormatThenParse are stated for whole numbers only.
- Text.IntToString: from 10^21 on, a count is printed in exponent form, as JavaScript does. Its
  significant digits are the integer's own first 17, truncated, rather than the shortest digits
  of a double. Only the shape matters to the model: it holds a '+', so it never parses back.
- RoundTrip.ShortFormRoundTrip, RoundTrip.LongFormRoundTrip, SecondsFormat.FormatThenParse,
  MsFormat.FormatThenParse and MsIndex.MsOfMs: stated for counts below 10^21 in magnitude
  (about 3.16e31 milliseconds). From there on the text parses to NaN, which
  RoundTrip.ExponentFormReadsNaN and the two ExponentFormThenParse lemmas state.
- String length is counted in Unicode scalar values, not UTF-16 code units. A character outside
  the Basic Multilingual Plane counts 1 here and 2 in `str.length`.
- The `i` flag and `toLowerCase` are modelled on ASCII letters. Every alternative of the unit
  group is ASCII, and no non-ASCII character folds onto an ASCII letter without the `u` flag.
- The `typeof` guards of `parse` and `format` are carried by the Dafny types: non-strings and
  non-numbers cannot be passed. `MsIndex.Value.Other` stands for every other JavaScript value
  that reaches `ms`.
- The text of the thrown errors, including `JSON.stringify(value)`, is left out. Only the kind
  of error is modelled.
- `@/constants` is not part of this model, so the sizes come from elsewhere:
  - the year, week, day, hour and minute sizes are those the second variant's tests pin
    (src/seconds/parse.test.ts:16-41 and 113-119): a year is 31557600 seconds, 365.25 days;
  - the millisecond variant's sizes are 1000 times those;
  - no test pins the month. Its size, 2629800 seconds (30.4375 days, a twelfth of the year), is
    a chosen constant between a week and a year. No lemma depends on its value beyond that
    order (`Units.Ordered`).
- The second variant's `ms` dispatcher (an index file under `src/seconds`) is not part of this
  model. Its `parse` and `format` are modelled.
- The test suite's examples with long unit words (for example "53 milliseconds" and "1.5 hours")
  are not stated one by one. SecondsParse.Reads covers every such string, for every spelling of
  every unit.
- DurationParse.ParseNegative: stated for strings of at most 99 characters that do not start
  with '-', so that the signed string also passes the length guard.
- DurationFormat.FormatNegated: excludes the exact halfway counts, where `Math.round` is not
  symmetric. DurationFormat.PluralAgainstCount states what happens there.
