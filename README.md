# SI unit parser of the PV microinverter integration, in Dafny

The integration reads readings such as `"3.5 kW"` or `"10 Wh"` from a vendor
cloud API and turns them into numbers. The logic lives in
`custom_components/pv_microinverter/units.py`. It has three parts:

- A **registry**. `SI_PREFIXES` is the table of SI prefixes, yocto to yotta,
  with micro spelt both `µ` and `u` and deca spelt `da`. `BASE_UNITS` holds
  the watt and the watt-hour, both with factor 1.
- A **resolver**, `SIUnit.parse`. It takes a unit symbol and returns the
  registered base unit, or a fresh unit built from the first prefix that
  leaves a base symbol. The prefixes are tried longest first.
- A **dimension parser**, `Dimension.parse`. It splits `"value unit"` into
  exactly two tokens, resolves the unit and reads the value as a float. The
  dimension keeps that value as read, in the unit as written. Only
  `to_base_unit` converts it, multiplying by the unit's factor.

The model has five modules:

- `Errors` (errors.dfy) holds the three error outcomes the parser raises as
  `ValueError`, and the `Result` and `Option` wrappers.
- `Text` (text.dfy) holds Python's `str.strip()`, `str.split()` and
  `str.split(" ")`.
- `Numbers` (numbers.dfy) holds `float()` on a decimal literal. The value is
  an exact `real`, `mantissa × 10^exponent`, with a writer for the inverse
  direction.
- `Units` (units.py's registry, the stable `sorted(..., key=len,
  reverse=True)`, `SIUnit.parse` and `_get_unit_symbol`).
- `Dimensions` (`Dimension`, `to_base_unit` and `Dimension.parse`).

The source is pure: tables built once, straight-line parsing, and a
first-match loop with early return. The model is therefore made of
datatypes, functions and lemmas. The prefix loop is a recursive search over
a sequence of prefixes.

Each multiplier is an exact power of ten. A prefix is its symbol and an
integer exponent, and its multiplier is `Pow10(exponent)` as a `real`.

Two points follow the code where a reader might expect otherwise:
- `Dimension.parse` resolves the unit *before* it reads the number
  (units.py:101-102). A text with both a bad number and an unknown unit
  therefore reports the unit. `Dimensions.ParseUnitCheckedFirst` states
  this.
- `Dimension.value` is the float read from the text, not the text itself.
  The assertion at tests/test_units.py:25 compares it with the string
  `"3.5"`, and the model does not follow that assertion.

One fact carries most of the resolver proofs: no prefix symbol contains a
`W`, and every base symbol starts with one. So at most one table prefix
matches any symbol (`Units.MatchUnique`), and the order in which the
prefixes are tried never changes the result (`Units.SearchOrderIrrelevant`).
The longest-first order is still modelled exactly as the source computes it
(`Units.PrefixOrderSorted`).

## Model

| member | source | states |
|---|---|---|
| Units.SiPrefixes | custom_components/pv_microinverter/units.py:4-26 | the prefix table: the 21 entries in dictionary order, each a symbol with its multiplier as a power-of-ten exponent (its contents are stated by the lemmas below) |
| Units.Watt | custom_components/pv_microinverter/units.py:106 | the watt: name "Watt", quantity "Power", symbol "W", factor 1 |
| Units.WattHour | custom_components/pv_microinverter/units.py:107 | the watt-hour: name "Watt-hour", quantity "Energy", symbol "Wh", factor 1 |
| Units.BaseUnits | custom_components/pv_microinverter/units.py:111-114 | the base-unit registry: "W" to the watt and "Wh" to the watt-hour |
| Units.PrefixExponents | custom_components/pv_microinverter/units.py:4-26 | the prefix table has 21 entries with exponents in -24..24 and none 0; micro appears as "µ" and as "u" (both 10^-6), deca as "da" (10^1), kilo as "k" (10^3) |
| Units.PrefixSymbolsDistinct | custom_components/pv_microinverter/units.py:4-26 | no two table entries share a symbol, as dictionary keys |
| Units.PrefixSymbolsShape | custom_components/pv_microinverter/units.py:4-26 | every prefix symbol is non-empty and has no 'W' |
| Units.PrefixSymbolsTokens | custom_components/pv_microinverter/units.py:4-26 | every prefix symbol is free of whitespace |
| Units.SameSymbolSameEntry | custom_components/pv_microinverter/units.py:4-26 | two table entries with one symbol are one entry |
| Units.BaseTable | custom_components/pv_microinverter/units.py:105-114 | each base unit is registered under its own symbol with factor 1, and every base symbol starts with 'W' |
| Units.SortedByLengthDesc | custom_components/pv_microinverter/units.py:59 | the sort returns a permutation of its input (equal multisets), ordered by symbol length, longest first |
| Units.SortStable | custom_components/pv_microinverter/units.py:59 | the sort is stable: the entries of each symbol length keep their relative order |
| Units.SortedOneLong | custom_components/pv_microinverter/units.py:59 | with one two-character symbol among one-character ones, the sort puts that entry first and keeps the rest in order |
| Units.PrefixOrder | custom_components/pv_microinverter/units.py:59 | the order in which the loop tries the prefixes, written out: "da", then the one-character prefixes in table order |
| Units.PrefixOrderSorted | custom_components/pv_microinverter/units.py:59 | the order in which prefixes are tried is exactly the stable longest-first sort of the table: "da", then the others in table order |
| Units.PrefixOrderCoversTable | custom_components/pv_microinverter/units.py:59 | every table prefix is tried, and nothing else |
| Units.Matches | custom_components/pv_microinverter/units.py:60-62 | the loop's test for one prefix: it starts the symbol and what follows is a base symbol; a matching prefix is always shorter than the symbol, since the remainder is never empty |
| Units.Derive | custom_components/pv_microinverter/units.py:65-70 | the unit built from a prefix and a base unit: prefix before name and symbol, base quantity, factor times 10^exponent; its symbol splits back into the prefix and the base symbol, and a positive factor stays positive |
| Units.DeriveFor | custom_components/pv_microinverter/units.py:61-70 | the unit built for a prefix that matches a symbol carries exactly that symbol and a positive factor |
| Units.SearchPrefixes | custom_components/pv_microinverter/units.py:59-71 | the loop fails exactly when no prefix matches (starts the symbol and leaves a base symbol), failing with the unknown-unit error naming the symbol; otherwise it returns the unit derived from the first matching prefix, all earlier ones not matching, and that unit carries the symbol searched for |
| Units.SearchFindsOnly | custom_components/pv_microinverter/units.py:59-70 | when exactly one prefix of the list matches, the loop returns the unit derived from it, wherever it sits in the list |
| Units.MatchUnique | custom_components/pv_microinverter/units.py:59-62 | no symbol is matched by two different table prefixes |
| Units.SearchOrderIrrelevant | custom_components/pv_microinverter/units.py:59-70 | any two orderings of the same table entries resolve every symbol alike |
| Units.Resolve | custom_components/pv_microinverter/units.py:51-71 | SIUnit.parse: a base symbol gives its registered unit, otherwise the prefixes are tried in the sorted order; a failure is always the unknown-unit error naming the symbol, and a resolved unit carries the very symbol asked for and a positive factor (the full characterisation is Units.ResolveExactly) |
| Units.ResolveBase | custom_components/pv_microinverter/units.py:56-57 | a base symbol resolves to its registered unit, with that symbol and factor 1 |
| Units.ResolvePrefixed | custom_components/pv_microinverter/units.py:59-70 | a table prefix before a base symbol resolves to the unit with the prefix prepended to name and symbol, the base quantity, and factor 10^exponent |
| Units.PrefixedSymbol | custom_components/pv_microinverter/units.py:60-63 | a prefix glued to a base symbol is no base symbol itself, and the prefix matches it with the base symbol as the remainder |
| Units.ResolveExactly | custom_components/pv_microinverter/units.py:51-71 | resolution yields u if and only if the symbol is a base symbol with registered unit u, or a table prefix plus a base symbol with u the derived unit; a failure is the unknown-unit error naming the symbol |
| Units.ResolvedSplits | custom_components/pv_microinverter/units.py:59-70 | a resolved symbol that is not a base symbol is a table prefix followed by a base symbol, and its unit is the derived one |
| Units.ResolveIdempotent | custom_components/pv_microinverter/units.py:56-70 | resolving the symbol of a resolved unit gives back that same unit |
| Units.ResolvedContainsW | custom_components/pv_microinverter/units.py:56-70 | every resolvable symbol contains a 'W' |
| Units.ResolvedIsToken | custom_components/pv_microinverter/units.py:56-70 | every resolvable symbol is one whitespace-free token |
| Units.BarePrefixUnknown | custom_components/pv_microinverter/units.py:60-62 | a prefix on its own never resolves, because the empty remainder is no base symbol |
| Units.UnknownWithoutW | custom_components/pv_microinverter/units.py:71 | a symbol without a 'W' fails with the unknown-unit error naming it |
| Units.ResolveWatt | tests/test_units.py:6-11 | "W" resolves to Watt, symbol "W", factor 1 |
| Units.ResolveWattHour | custom_components/pv_microinverter/units.py:107 | "Wh" resolves to Watt-hour, quantity Energy, factor 1 |
| Units.ResolveKilowatt | tests/test_units.py:14-19 | "kW" resolves to "kWatt", symbol "kW", factor 1000 |
| Units.ResolveDecawatt | custom_components/pv_microinverter/units.py:59-70 | "daW" resolves through "da" to "daWatt" with factor 10 |
| Units.ResolveInvalid | tests/test_units.py:39-42 | "invalid" fails with the unknown-unit error |
| Units.UnitSymbolOf | custom_components/pv_microinverter/units.py:29-32 | the result holds no space and is the tail of the stripped text, preceded by a space or equal to the whole |
| Units.UnitSymbolOfPair | custom_components/pv_microinverter/units.py:29-32 | on "value unit" with two tokens the helper returns the unit token |
| Numbers.Pow10 | custom_components/pv_microinverter/units.py:5-25 | every multiplier 10^e is positive, for negative exponents too |
| Numbers.DigitsRoundTrip | custom_components/pv_microinverter/units.py:102 | reading the decimal digits of n gives back n |
| Numbers.ParseDecimal | custom_components/pv_microinverter/units.py:102 | float() on a token, read as an exact decimal; only a non-empty token is accepted, and the decimal is negative exactly when the token starts with '-' |
| Numbers.ParseNumber | custom_components/pv_microinverter/units.py:102 | the value float() reads from a token; only a non-empty token is accepted, a value read after a leading '-' is at most 0 and any other is at least 0 |
| Numbers.FormatDecimal | custom_components/pv_microinverter/units.py:102 | not in the source: the model's own writer, the inverse used by the round-trip lemmas of float() at that line; a decimal written in scientific form is one whitespace-free token |
| Numbers.ExponentTextRoundTrip | custom_components/pv_microinverter/units.py:102 | reading a written exponent, negative or not, gives it back |
| Numbers.FormatDecimalRoundTrip | custom_components/pv_microinverter/units.py:102 | float() reads back exactly the decimal that was written |
| Numbers.ParseThreePointFive | tests/test_units.py:24 | float("3.5") is 3.5 |
| Numbers.ParseTen | custom_components/pv_microinverter/units.py:95 | float("10") is 10 |
| Numbers.ParseLetters | custom_components/pv_microinverter/units.py:102 | float("abc") fails |
| Text.Strip | custom_components/pv_microinverter/units.py:97 | str.strip() is the text with exactly its leading and trailing whitespace cut off and the middle kept as it is, so no whitespace is left at either end |
| Text.Split | custom_components/pv_microinverter/units.py:97 | str.split() yields only non-empty whitespace-free tokens (what it yields for any layout of whitespace is Text.SplitInterleaved) |
| Text.SplitInterleaved | custom_components/pv_microinverter/units.py:97 | str.split() gives back the tokens of a text in which they are separated by whitespace runs of any length, with any whitespace or none before the first and after the last |
| Text.SplitIgnoresStrip | custom_components/pv_microinverter/units.py:97 | splitting the stripped text gives the same tokens as splitting the text |
| Text.SplitJoinSpaced | custom_components/pv_microinverter/units.py:97 | str.split() takes tokens joined by single spaces back apart |
| Text.SplitPair | custom_components/pv_microinverter/units.py:97 | "a b" with two tokens splits into exactly [a, b] |
| Text.SplitOn | custom_components/pv_microinverter/units.py:32 | str.split(" ") yields at least one field, no field holds a space, and joining the fields with spaces restores the text |
| Dimensions.ToBaseUnit | custom_components/pv_microinverter/units.py:84-86 | to_base_unit: the value times the unit's factor; with factor 1 it is the value itself, and with a positive factor it keeps the value's sign |
| Dimensions.Parse | custom_components/pv_microinverter/units.py:91-102 | Dimension.parse: strip, split, exactly two tokens, unit resolved before the number is read; a parsed dimension has a positive factor and a unit that its own symbol resolves to |
| Dimensions.ParseSucceedsExactly | custom_components/pv_microinverter/units.py:97-102 | parsing yields d if and only if the text is two tokens, a float literal reading d.value and a symbol resolving to d.unit |
| Dimensions.ParseFormatError | custom_components/pv_microinverter/units.py:97-99 | the format error arises exactly when the text is not two tokens, and names the original text |
| Dimensions.ParseAnyWhitespace | custom_components/pv_microinverter/units.py:97-102 | two tokens with whitespace runs of any length before, between and after them parse exactly as the same tokens joined by one space |
| Dimensions.ParseTabSeparated | custom_components/pv_microinverter/units.py:97 | "3.5", a tab and "kW" parse to 3.5 in "kWatt", as "3.5 kW" does |
| Dimensions.ParseRejectsUnspaced | custom_components/pv_microinverter/units.py:97-99 | a text with no whitespace inside, such as "3.5kW", is refused as malformed |
| Dimensions.ParseUnitCheckedFirst | custom_components/pv_microinverter/units.py:100-102 | with two tokens and an unknown unit, the unit error is reported whatever the value token holds |
| Dimensions.ParseNumberError | custom_components/pv_microinverter/units.py:100-102 | with two tokens and a known unit, a value token that is no float literal gives the number error naming that token |
| Dimensions.ParsePair | custom_components/pv_microinverter/units.py:97-102 | "num sym" with a resolvable symbol fails on num exactly when float(num) fails, and otherwise yields that number with the resolved unit |
| Dimensions.ParseSpaced | custom_components/pv_microinverter/units.py:97-102 | a float literal, a space and a resolvable symbol parse to that number in that unit |
| Dimensions.ParseRoundTrip | custom_components/pv_microinverter/units.py:92-102 | writing a decimal and a resolvable symbol as "value unit" and parsing gives back that value and the resolved unit |
| Dimensions.ParseReserialize | custom_components/pv_microinverter/units.py:92-102 | every parsed dimension, written back as value and unit symbol, parses to the same dimension, hence the same base value |
| Dimensions.ParsePrefixScales | custom_components/pv_microinverter/units.py:84-86 | a value under a prefixed unit parses exactly when it does under the bare base unit, and its base value is then the prefix multiplier times the other's |
| Dimensions.ScaledOutcomes | custom_components/pv_microinverter/units.py:84-86 | parse outcomes under a unit and under its prefixed form succeed together and scale by 10^exponent |
| Dimensions.ParseThreePointFiveKilowatt | tests/test_units.py:22-30 | "3.5 kW" parses to 3.5 in "kWatt" (symbol "kW") and converts to 3500 |
| Dimensions.ParseTenWattHours | custom_components/pv_microinverter/units.py:95 | "10 Wh" parses to 10 watt-hours, base value 10 |
| Dimensions.ParseUnspacedRefused | tests/test_units.py:33-36 | "3.5kW" fails with the format error |
| Dimensions.ParseLettersRefused | custom_components/pv_microinverter/units.py:102 | "abc W" fails with the number error naming "abc" |
| Dimensions.ParseUnknownUnitRefused | custom_components/pv_microinverter/units.py:101 | "5 Zg" fails with the unknown-unit error naming "Zg" |

## Left out

- Floating point. Multipliers and values are exact reals, so IEEE rounding
  (for example `1e-6` not being exactly 10^-6) is not modelled. `to_base_unit`
  is exact multiplication.
- Numbers.ParseDecimal: `float()` also accepts "inf", "nan", "infinity",
  underscores between digits, and non-ASCII digits. The model accepts only
  `[sign](digits["." [digits]] | "." digits)[("e"|"E")[sign]digits]`, and
  rejects the other forms.
- Units.PrefixOrder: the source sorts the prefix table on every call. The
  model fixes the sorted order as a constant and proves it equal to the
  stable sort of the table.
- `SIUnit.__str__`, `SIUnit.__repr__`, `Dimension.__str__` and
  `Dimension.__repr__` are not modelled: they depend on Python's
  float-to-text formatting.
- Identity of unit objects is not modelled: the model compares units by
  value, while the source returns the registered object for a base symbol
  and a fresh one for a prefixed symbol.
- The three errors are distinct variants here. The source raises
  `ValueError` for all three, with the message text carrying the
  distinction.
- api.py, coordinator.py, sensor.py, entity.py, config_flow.py, const.py and
  `__init__.py` are not part of this model. They are HTTP I/O, JSON
  decoding, clocks and host-platform wiring.
