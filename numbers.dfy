/** Numbers as the unit parser reads them: Python's float() on a decimal
    literal, and exact powers of ten for the SI prefix multipliers. Reals are
    exact, so the model has none of the rounding of binary floating point. */
module Numbers {
  import opened Errors
  import Text

  /** 10^n as a natural number. */
  function Pow10Nat(n: nat): (r: nat)
    ensures r >= 1
  {
    if n == 0 then 1 else 10 * Pow10Nat(n - 1)
  }

  /** 10^e as an exact real, for negative exponents too. */
  function Pow10(e: int): (r: real)
    ensures r > 0.0
  {
    if e >= 0 then Pow10Nat(e) as real else 1.0 / (Pow10Nat(-e) as real)
  }

  predicate IsDigit(c: char)
  {
    '0' <= c <= '9'
  }

  predicate AllDigits(s: string)
  {
    forall i :: 0 <= i < |s| ==> IsDigit(s[i])
  }

  /** The value of a string of decimal digits (0 for the empty string). */
  function DigitsValue(s: string): nat
    requires AllDigits(s)
  {
    if s == [] then 0
    else 10 * DigitsValue(s[..|s| - 1]) + (s[|s| - 1] as int - '0' as int)
  }

  /** The shortest decimal digit string of n. */
  function NatToDigits(n: nat): (s: string)
    ensures |s| >= 1 && AllDigits(s)
  {
    if n < 10 then [('0' as int + n) as char]
    else NatToDigits(n / 10) + [('0' as int + n % 10) as char]
  }

  lemma {:induction false} DigitsRoundTrip(n: nat)
    ensures DigitsValue(NatToDigits(n)) == n
  {
    if n >= 10 {
      var s := NatToDigits(n);
      assert s[..|s| - 1] == NatToDigits(n / 10);
      DigitsRoundTrip(n / 10);
    }
  }

  /** A finite decimal number: (-1)^negative * mantissa * 10^exponent. Every
      literal float() accepts here denotes one of these. */
  datatype Decimal = Decimal(negative: bool, mantissa: nat, exponent: int)
  {
    function Value(): real
    {
      (if negative then -1.0 else 1.0) * (mantissa as real) * Pow10(exponent)
    }
  }

  /** Index of the first 'e' or 'E' in s, or |s| if there is none. */
  function ExponentMark(s: string): (k: nat)
    ensures k <= |s|
    ensures forall i :: 0 <= i < k ==> s[i] != 'e' && s[i] != 'E'
    ensures k < |s| ==> s[k] == 'e' || s[k] == 'E'
  {
    if s == [] then 0
    else if s[0] == 'e' || s[0] == 'E' then 0
    else 1 + ExponentMark(s[1..])
  }

  /** Splits off an optional leading sign: (negative, rest). */
  function Unsign(s: string): (bool, string)
  {
    if |s| > 0 && (s[0] == '-' || s[0] == '+') then (s[0] == '-', s[1..]) else (false, s)
  }

  /** The exponent part of a float literal after its 'e': a sign and digits. */
  function ParseExponent(s: string): Option<int>
  {
    var (negative, digits) := Unsign(s);
    if |digits| > 0 && AllDigits(digits) then
      var v: int := DigitsValue(digits);
      Some(if negative then -v else v)
    else None
  }

  /** float() on a token: [sign] (digits ["." [digits]] | "." digits) [("e"|"E") [sign] digits]. */
  function ParseDecimal(tok: string): (r: Option<Decimal>)
    ensures r.Some? ==> |tok| > 0 && (r.value.negative <==> tok[0] == '-')
  {
    var (negative, body) := Unsign(tok);
    var k := ExponentMark(body);
    var mant := body[..k];
    var d := Text.IndexOf(mant, '.');
    var whole := mant[..d];
    var fraction := if d < |mant| then mant[d + 1..] else [];
    if !(AllDigits(whole) && AllDigits(fraction) && |whole| + |fraction| > 0) then None
    else
      var exp := if k == |body| then Some(0) else ParseExponent(body[k + 1..]);
      match exp
      case None => None
      case Some(x) => Some(Decimal(negative, DigitsValue(whole + fraction), x - |fraction|))
  }

  /** float() on a token: its value, or None when Python raises ValueError. */
  function ParseNumber(tok: string): (r: Option<real>)
    ensures r.Some? ==> |tok| > 0
    ensures r.Some? && tok[0] == '-' ==> r.value <= 0.0
    ensures r.Some? && tok[0] != '-' ==> r.value >= 0.0
  {
    match ParseDecimal(tok)
    case None => None
    case Some(d) => Some(d.Value())
  }

  /** The exponent of a float literal in scientific form, e.g. "-1" or "24". */
  function ExponentText(e: int): (s: string)
    ensures Text.IsToken(s)
  {
    if e < 0 then "-" + NatToDigits(-e) else NatToDigits(e)
  }

  /** A decimal written as a float literal in scientific form, e.g. "-35e-1". */
  function FormatDecimal(d: Decimal): (s: string)
    ensures Text.IsToken(s)
  {
    (if d.negative then "-" else "") + NatToDigits(d.mantissa) + "e" + ExponentText(d.exponent)
  }

  lemma ExponentTextRoundTrip(e: int)
    ensures ParseExponent(ExponentText(e)) == Some(e)
  {
    if e < 0 {
      var digits := NatToDigits(-e);
      DigitsRoundTrip(-e);
      UnsignMinus(digits);
      assert ParseExponent("-" + digits) == Some(e);
    } else {
      var digits := NatToDigits(e);
      DigitsRoundTrip(e);
      assert IsDigit(digits[0]);
      UnsignDigits(digits);
      assert ParseExponent(digits) == Some(e);
    }
  }

  lemma UnsignMinus(s: string)
    ensures Unsign("-" + s) == (true, s)
  {
    assert ("-" + s)[1..] == s;
  }

  lemma UnsignDigits(s: string)
    requires |s| >= 1 && IsDigit(s[0])
    ensures Unsign(s) == (false, s)
  {
  }

  /** In "<digits>e<tail>" the mantissa is the digits and the exponent the tail. */
  lemma ScientificParts(m: string, tail: string)
    requires |m| >= 1 && AllDigits(m)
    ensures var body := m + "e" + tail;
      && ExponentMark(body) == |m|
      && body[..|m|] == m
      && body[|m| + 1..] == tail
      && Text.IndexOf(m, '.') == |m|
  {
    var body := m + "e" + tail;
    assert body[|m|] == 'e';
    assert forall i :: 0 <= i < |m| ==> body[i] == m[i];
    assert body[..|m|] == m;
    assert body[|m| + 1..] == tail;
  }

  /** The sign of a formatted decimal comes off first, leaving the scientific body. */
  lemma UnsignFormatted(d: Decimal, body: string)
    requires body == NatToDigits(d.mantissa) + "e" + ExponentText(d.exponent)
    ensures Unsign(FormatDecimal(d)) == (d.negative, body)
  {
    if d.negative {
      assert FormatDecimal(d) == "-" + body;
      UnsignMinus(body);
    } else {
      assert FormatDecimal(d) == body;
      assert IsDigit(NatToDigits(d.mantissa)[0]);
      UnsignDigits(body);
    }
  }

  /** float() reads back exactly the decimal that was written. */
  lemma FormatDecimalRoundTrip(d: Decimal)
    ensures ParseDecimal(FormatDecimal(d)) == Some(d)
  {
    var m := NatToDigits(d.mantissa);
    var tail := ExponentText(d.exponent);
    var body := m + "e" + tail;
    UnsignFormatted(d, body);
    ScientificParts(m, tail);
    assert m[..|m|] == m;
    ExponentTextRoundTrip(d.exponent);
    assert m + [] == m;
    DigitsRoundTrip(d.mantissa);
  }

  /** float("3.5") is 3.5. */
  lemma ParseThreePointFive()
    ensures ParseNumber("3.5") == Some(3.5)
  {
    assert Unsign("3.5") == (false, "3.5");
    assert ExponentMark("3.5") == 3;
    assert "3.5"[..3] == "3.5";
    assert Text.IndexOf("3.5", '.') == 1;
    assert "3.5"[..1] == "3" && "3.5"[2..] == "5";
    assert "3" + "5" == "35";
    assert DigitsValue("35") == 35 by {
      assert "35"[..1] == "3";
      assert "3"[..0] == "";
    }
  }

  /** float("abc") raises: a letter is not a digit. */
  lemma ParseLetters()
    ensures ParseNumber("abc") == None
  {
    assert Unsign("abc") == (false, "abc");
    assert ExponentMark("abc") == 3;
    assert "abc"[..3] == "abc";
    assert Text.IndexOf("abc", '.') == 3;
    assert !IsDigit("abc"[0]);
  }

  /** float("10") is 10. */
  lemma ParseTen()
    ensures ParseNumber("10") == Some(10.0)
  {
    assert Unsign("10") == (false, "10");
    assert ExponentMark("10") == 2;
    assert "10"[..2] == "10";
    assert Text.IndexOf("10", '.') == 2;
    assert "10"[..2] + [] == "10";
    assert DigitsValue("10") == 10 by {
      assert "10"[..1] == "1";
      assert "1"[..0] == "";
    }
  }
}
