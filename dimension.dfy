/** A value with its unit, parsed from a "value unit" text such as "3.5 kW". */
module Dimensions {
  import opened Errors
  import opened Numbers
  import opened Units
  import Text

  /** The value as written (before conversion) with the unit it is in. */
  datatype Dimension = Dimension(value: real, unit: Unit)

  /** to_base_unit: the value converted to the base unit. */
  function ToBaseUnit(d: Dimension): (b: real)
    ensures d.unit.factor == 1.0 ==> b == d.value
    ensures d.unit.factor > 0.0 ==> (b > 0.0 <==> d.value > 0.0) && (b == 0.0 <==> d.value == 0.0)
  {
    d.value * d.unit.factor
  }

  /** Dimension.parse: exactly two whitespace-separated tokens; the unit token
      is resolved first, then the value token is read as a float. */
  function Parse(text: string): (r: Result<Dimension>)
    ensures r.Ok? ==> r.value.unit.factor > 0.0 && Resolve(r.value.unit.symbol) == Ok(r.value.unit)
  {
    var parts := Text.Split(Text.Strip(text));
    if |parts| != 2 then Err(InvalidFormat(text))
    else
      match Resolve(parts[1])
      case Err(e) => Err(e)
      case Ok(u) =>
        match ParseNumber(parts[0])
        case None => Err(NumericParse(parts[0]))
        case Some(v) => Ok(Dimension(v, u))
  }

  /** A value token, a space and a resolvable unit symbol: the outcome then
      rests on the value token alone. */
  lemma ParsePair(num: string, sym: string)
    requires Text.IsToken(num) && Resolve(sym).Ok?
    ensures ParseNumber(num).None? ==> Parse(num + " " + sym) == Err(NumericParse(num))
    ensures ParseNumber(num).Some? ==>
      Parse(num + " " + sym) == Ok(Dimension(ParseNumber(num).value, Resolve(sym).value))
  {
    ResolvedIsToken(sym);
    Text.SplitPair(num, sym);
  }

  /** Parsing succeeds exactly when the text is two whitespace-separated
      tokens, a float literal and a resolvable unit symbol, and then yields
      that number with that unit. */
  lemma ParseSucceedsExactly(text: string, d: Dimension)
    ensures Parse(text) == Ok(d) <==>
      var ts := Text.Split(text);
      |ts| == 2 && ParseNumber(ts[0]) == Some(d.value) && Resolve(ts[1]) == Ok(d.unit)
  {
    Text.SplitIgnoresStrip(text);
  }

  /** A text that is not exactly two tokens is refused as malformed, and
      only such a text is. */
  lemma ParseFormatError(text: string)
    ensures Parse(text) == Err(InvalidFormat(text)) <==> |Text.Split(text)| != 2
  {
    Text.SplitIgnoresStrip(text);
    if |Text.Split(text)| == 2 {
      TwoTokensWellFormed(text);
    }
  }

  lemma TwoTokensWellFormed(text: string)
    requires |Text.Split(Text.Strip(text))| == 2
    ensures Parse(text).Ok? || !Parse(text).error.InvalidFormat?
  {
  }

  /** Whitespace runs of any length before, between and after the two tokens
      give the outcome of the single-space form. */
  lemma ParseAnyWhitespace(a: string, num: string, w: string, sym: string, b: string)
    requires Text.IsToken(num) && Text.IsToken(sym)
    requires Text.Blank(a) && Text.Blank(w) && |w| > 0 && Text.Blank(b)
    ensures Parse(a + num + w + sym + b) == Parse(num + " " + sym)
  {
    SameTokensSameParse(a + num + w + sym + b, num + " " + sym, a, num, w, sym, b);
  }

  lemma SameTokensSameParse(text: string, spaced: string, a: string, num: string, w: string, sym: string, b: string)
    requires Text.IsToken(num) && Text.IsToken(sym)
    requires Text.Blank(a) && Text.Blank(w) && |w| > 0 && Text.Blank(b)
    requires text == a + num + w + sym + b && spaced == num + " " + sym
    ensures Parse(text) == Parse(spaced)
  {
    SplitAround(text, a, num, w, sym, b);
    SplitSpaced(num, sym, spaced);
    Text.SplitIgnoresStrip(text);
    Text.SplitIgnoresStrip(spaced);
    SameSplitSameParse(text, spaced);
  }

  /** Only the two tokens matter once there are two of them. */
  lemma SameSplitSameParse(t1: string, t2: string)
    requires Text.Split(Text.Strip(t1)) == Text.Split(Text.Strip(t2))
    requires |Text.Split(Text.Strip(t1))| == 2
    ensures Parse(t1) == Parse(t2)
  {
  }

  /** Two tokens with whitespace runs around and between them split into those tokens. */
  lemma SplitAround(text: string, a: string, num: string, w: string, sym: string, b: string)
    requires Text.IsToken(num) && Text.IsToken(sym)
    requires Text.Blank(a) && Text.Blank(w) && |w| > 0 && Text.Blank(b)
    requires text == a + num + w + sym + b
    ensures Text.Split(text) == [num, sym]
  {
    var ws, ts := [a, w, b], [num, sym];
    assert ws[1..] == [w, b] && ws[2..] == [b] && ts[1..] == [sym] && ts[2..] == [];
    assert Text.Interleave(ws[2..], ts[2..]) == b;
    assert Text.Interleave(ws[1..], ts[1..]) == w + sym + b;
    assert text == a + num + (w + sym + b);
    Text.SplitInterleaved(ws, ts);
  }

  /** Dimension.parse("3.5\tkW") is 3.5 kilowatt: a tab separates as a space does. */
  lemma ParseTabSeparated()
    ensures Parse("3.5\tkW") == Ok(Dimension(3.5, Unit("kWatt", "Power", "kW", 1000.0)))
  {
    TabTokens();
    SameTokensSameParse("3.5\tkW", "3.5 kW", "", "3.5", "\t", "kW", "");
    ParseKilowattText();
  }

  lemma TabTokens()
    ensures Text.IsToken("3.5") && Text.IsToken("kW") && Text.Blank("") && Text.Blank("\t")
    ensures "3.5\tkW" == "" + "3.5" + "\t" + "kW" + "" && "3.5 kW" == "3.5" + " " + "kW"
  {
  }

  /** A text without whitespace, such as "3.5kW", is one token and refused. */
  lemma ParseRejectsUnspaced(text: string)
    requires Text.IsToken(text)
    ensures Parse(text) == Err(InvalidFormat(text))
  {
    Text.SplitToken(text);
    ParseFormatError(text);
  }

  /** The unit is resolved before the number is read: an unknown unit is
      reported whatever the value token holds. */
  lemma ParseUnitCheckedFirst(text: string)
    requires |Text.Split(text)| == 2 && Resolve(Text.Split(text)[1]).Err?
    ensures Parse(text) == Err(UnknownUnit(Text.Split(text)[1]))
  {
    Text.SplitIgnoresStrip(text);
    ResolveExactly(Text.Split(text)[1], Watt);
  }

  /** With a known unit, a value token that is no float literal is reported
      as a number error naming that token. */
  lemma ParseNumberError(text: string)
    requires |Text.Split(text)| == 2 && Resolve(Text.Split(text)[1]).Ok?
    requires ParseNumber(Text.Split(text)[0]).None?
    ensures Parse(text) == Err(NumericParse(Text.Split(text)[0]))
  {
    Text.SplitIgnoresStrip(text);
  }

  /** Writing a decimal and a resolvable unit symbol as "value unit" and
      parsing the text gives back that value and the resolved unit. */
  lemma ParseRoundTrip(dec: Decimal, sym: string)
    requires Resolve(sym).Ok?
    ensures Parse(FormatDecimal(dec) + " " + sym) == Ok(Dimension(dec.Value(), Resolve(sym).value))
  {
    ResolvedIsToken(sym);
    Text.SplitPair(FormatDecimal(dec), sym);
    FormatDecimalRoundTrip(dec);
  }

  /** Every parsed dimension can be written back as "value unit" text (the
      value as a decimal, the unit by its symbol) that parses to the same
      dimension, hence to the same base value. */
  lemma ParseReserialize(text: string, d: Dimension)
    requires Parse(text) == Ok(d)
    ensures exists dec: Decimal ::
      dec.Value() == d.value && Parse(FormatDecimal(dec) + " " + d.unit.symbol) == Ok(d)
  {
    var ts := Text.Split(Text.Strip(text));
    var dec := ParseDecimal(ts[0]).value;
    ResolveIdempotent(ts[1]);
    ParseRoundTrip(dec, d.unit.symbol);
  }

  /** The same value under a prefixed unit is the prefix multiplier times the
      value under the bare base unit, once both are converted. */
  lemma ParsePrefixScales(num: string, p: Prefix, b: string)
    requires Text.IsToken(num) && p in SiPrefixes && b in BaseUnits
    ensures ScaledBy(Parse(num + " " + b), Parse(num + " " + p.symbol + b), Pow10(p.exponent))
  {
    ParsedBase(num, b);
    ParsedPrefixed(num, p, b);
    BaseTable();
    ScaledOutcomes(Parse(num + " " + b), Parse(num + " " + p.symbol + b), ParseNumber(num), num, BaseUnits[b], p);
  }

  lemma ParsedBase(num: string, b: string)
    requires Text.IsToken(num) && b in BaseUnits
    ensures ParsedAs(Parse(num + " " + b), ParseNumber(num), num, BaseUnits[b])
  {
    ResolveBase(b);
    ParsePair(num, b);
  }

  lemma ParsedPrefixed(num: string, p: Prefix, b: string)
    requires Text.IsToken(num) && p in SiPrefixes && b in BaseUnits
    ensures ParsedAs(Parse(num + " " + p.symbol + b), ParseNumber(num), num, Derive(p, BaseUnits[b]))
  {
    ResolvePrefixed(p, b);
    assert num + " " + p.symbol + b == num + " " + (p.symbol + b);
    ParsePair(num, p.symbol + b);
  }

  /** What parsing a value token with a unit comes to, given that token's
      number parse. */
  predicate ParsedAs(r: Result<Dimension>, n: Option<real>, num: string, u: Unit)
  {
    && (n.None? ==> r == Err(NumericParse(num)))
    && (n.Some? ==> r == Ok(Dimension(n.value, u)))
  }

  /** Two parse outcomes succeed together, and when they do the second
      converts to k times the base value of the first. */
  predicate ScaledBy(base: Result<Dimension>, scaled: Result<Dimension>, k: real)
  {
    && (scaled.Ok? <==> base.Ok?)
    && (base.Ok? && scaled.Ok? ==> ToBaseUnit(scaled.value) == k * ToBaseUnit(base.value))
  }

  lemma ScaledOutcomes(base: Result<Dimension>, scaled: Result<Dimension>, n: Option<real>, num: string, u: Unit, p: Prefix)
    requires u.factor == 1.0
    requires ParsedAs(base, n, num, u) && ParsedAs(scaled, n, num, Derive(p, u))
    ensures ScaledBy(base, scaled, Pow10(p.exponent))
  {
    if n.Some? {
      ScaledBaseValue(n.value, u, p);
    }
  }

  lemma ScaledBaseValue(v: real, u: Unit, p: Prefix)
    requires u.factor == 1.0
    ensures ToBaseUnit(Dimension(v, Derive(p, u))) == Pow10(p.exponent) * ToBaseUnit(Dimension(v, u))
  {
  }

  /** Dimension.parse("3.5 kW") is 3.5 kilowatt, 3500 watt. */
  lemma ParseThreePointFiveKilowatt()
    ensures Parse("3.5 kW") == Ok(Dimension(3.5, Unit("kWatt", "Power", "kW", 1000.0)))
    ensures ToBaseUnit(Parse("3.5 kW").value) == 3500.0
  {
    ParseKilowattText();
    assert ToBaseUnit(Dimension(3.5, Unit("kWatt", "Power", "kW", 1000.0))) == 3500.0;
  }

  lemma ParseKilowattText()
    ensures Parse("3.5 kW") == Ok(Dimension(3.5, Unit("kWatt", "Power", "kW", 1000.0)))
  {
    KilowattTokens();
    ResolveKilowatt();
    ParseThreePointFive();
    ParseSpaced("3.5 kW", "3.5", "kW", 3.5, Unit("kWatt", "Power", "kW", 1000.0));
  }

  lemma WattHourTokens()
    ensures Text.IsToken("10") && Text.IsToken("Wh") && "10 Wh" == "10" + " " + "Wh"
  {
  }

  lemma KilowattTokens()
    ensures Text.IsToken("3.5") && Text.IsToken("kW") && "3.5 kW" == "3.5" + " " + "kW"
  {
  }

  /** A float literal, one space and a resolvable unit symbol parse to that
      number in that unit. */
  lemma ParseSpaced(text: string, num: string, sym: string, v: real, u: Unit)
    requires Text.IsToken(num) && Text.IsToken(sym) && text == num + " " + sym
    requires ParseNumber(num) == Some(v) && Resolve(sym) == Ok(u)
    ensures Parse(text) == Ok(Dimension(v, u))
  {
    SplitSpaced(num, sym, text);
    ParseSucceedsExactly(text, Dimension(v, u));
  }

  /** "value unit" with one space splits into exactly those two tokens. */
  lemma SplitSpaced(num: string, sym: string, text: string)
    requires Text.IsToken(num) && Text.IsToken(sym) && text == num + " " + sym
    ensures Text.Split(text) == [num, sym]
  {
    Text.SplitPair(num, sym);
    Text.SplitIgnoresStrip(text);
  }

  /** Dimension.parse("10 Wh") is 10 watt-hours in the base unit already. */
  lemma ParseTenWattHours()
    ensures Parse("10 Wh") == Ok(Dimension(10.0, Unit("Watt-hour", "Energy", "Wh", 1.0)))
    ensures ToBaseUnit(Parse("10 Wh").value) == 10.0
  {
    ParseWattHoursText();
    assert ToBaseUnit(Dimension(10.0, Unit("Watt-hour", "Energy", "Wh", 1.0))) == 10.0;
  }

  lemma ParseWattHoursText()
    ensures Parse("10 Wh") == Ok(Dimension(10.0, Unit("Watt-hour", "Energy", "Wh", 1.0)))
  {
    WattHourTokens();
    ResolveWattHour();
    ParseTen();
    ParseSpaced("10 Wh", "10", "Wh", 10.0, Unit("Watt-hour", "Energy", "Wh", 1.0));
  }

  /** Dimension.parse("3.5kW") is refused: there is no space. */
  lemma ParseUnspacedRefused()
    ensures Parse("3.5kW") == Err(InvalidFormat("3.5kW"))
  {
    assert Text.IsToken("3.5kW");
    ParseRejectsUnspaced("3.5kW");
  }

  /** Dimension.parse("abc W") fails reading the number. */
  lemma ParseLettersRefused()
    ensures Parse("abc W") == Err(NumericParse("abc"))
  {
    SplitSpaced("abc", "W", "abc W");
    ResolveBase("W");
    ParseLetters();
    ParseNumberError("abc W");
  }

  /** Dimension.parse("5 Zg") fails on the unit: "Zg" is no known unit. */
  lemma ParseUnknownUnitRefused()
    ensures Parse("5 Zg") == Err(UnknownUnit("Zg"))
  {
    SplitSpaced("5", "Zg", "5 Zg");
    assert 'W' !in "Zg";
    UnknownWithoutW("Zg");
    ParseUnitCheckedFirst("5 Zg");
  }
}
