/**
 * parseMarketCap of the FTSE 100 page object: turns the market-cap text of
 * a table cell ("8,321.50") into a number. An empty text gives null;
 * otherwise every comma is deleted, the ends are trimmed and the rest goes
 * to parseFloat, whose NaN becomes null.
 */
module MarketCap {
  import opened Wrappers
  import opened JsText
  import opened JsNumber

  /** The `normalized` text: commas deleted, then trimmed. */
  function Normalize(text: string): (r: string)
    ensures IsTrimmed(r) && ',' !in r
    ensures r == [] <==> IsBlank(RemoveCommas(text))
    ensures exists lead | 0 <= lead <= |RemoveCommas(text)| - |r| :: IsTrimSlice(RemoveCommas(text), lead, r)
  {
    Trim(RemoveCommas(text))
  }

  /** The parsed market cap: null exactly when no prefix of the normalised
      text is a decimal literal, otherwise the value of the longest one. */
  function ParseMarketCap(text: string): (r: Option<Number>)
    ensures r.None? <==> NoLiteralPrefix(Normalize(text))
    ensures r.Some? ==> exists n: nat :: IsLongestLiteralPrefix(Normalize(text), n)
                                        && r.value == LiteralValue(Normalize(text)[..n])
  {
    var normalized := Normalize(text);
    TrimStartUnchanged(normalized);
    if text == "" then
      assert normalized == [];
      assert !IsDecimalLiteral(normalized[..0]);
      None
    else ParseFloat(normalized)
  }

  // ---------------------------------------------------------------------
  // Null results
  // ---------------------------------------------------------------------

  /** A text of nothing but white space and commas ("", "   ", ",") gives
      null, never 0. */
  lemma BlankIsNull(text: string)
    requires forall i | 0 <= i < |text| :: IsWhiteSpace(text[i]) || text[i] == ','
    ensures ParseMarketCap(text) == None
  {
    var s := RemoveCommas(text);
    forall i | 0 <= i < |s| ensures IsWhiteSpace(s[i]) {
      RemoveCommasKeeps(text, s[i]);
    }
    assert Normalize(text) == [];
    assert Normalize(text)[..0] == [];
  }

  // ---------------------------------------------------------------------
  // Thousands separators
  // ---------------------------------------------------------------------

  /** Two texts that differ only in their commas parse alike. */
  lemma SameDigitsSameValue(a: string, b: string)
    requires RemoveCommas(a) == RemoveCommas(b)
    ensures ParseMarketCap(a) == ParseMarketCap(b)
  {
    if a == "" || b == "" {
      assert RemoveCommas(a) == [] && Normalize(a) == [] && Normalize(b) == [];
      assert Normalize(a)[..0] == [];
    }
  }

  /** Inserting a comma anywhere leaves the parsed value unchanged. */
  lemma CommaInsertion(a: string, b: string)
    ensures ParseMarketCap(a + "," + b) == ParseMarketCap(a + b)
  {
    assert RemoveCommas(a + "," + b) == RemoveCommas(a + b) by {
      RemoveCommasAround(a, b);
      RemoveCommasAppend(a, b);
    }
    SameDigitsSameValue(a + "," + b, a + b);
  }

  // ---------------------------------------------------------------------
  // The rendering the parser inverts
  // ---------------------------------------------------------------------

  function DigitChar(d: nat): (c: char)
    requires d < 10
    ensures IsDigit(c) && DigitValue(c) == d
  {
    ('0' as int + d) as char
  }

  /** The decimal numeral of `n`, without leading zeros. */
  function DecimalDigits(n: nat): (s: string)
    ensures |s| > 0 && AllDigits(s)
  {
    if n < 10 then [DigitChar(n)] else DecimalDigits(n / 10) + [DigitChar(n % 10)]
  }

  /** The numeral of `n` is worth `n`. */
  lemma {:induction false} DecimalDigitsValue(n: nat)
    ensures DigitsValue(DecimalDigits(n)) == n
  {
    var s := DecimalDigits(n);
    if n < 10 {
      assert s[..0] == [];
    } else {
      var prefix := DecimalDigits(n / 10);
      DecimalDigitsValue(n / 10);
      assert s[..|s| - 1] == prefix;
    }
  }

  /** A numeral with a comma between each group of three digits, counted
      from the right ("8321" becomes "8,321"). */
  function GroupThousands(d: string): string {
    if |d| <= 3 then d else GroupThousands(d[..|d| - 3]) + "," + d[|d| - 3..]
  }

  /** Deleting the separators of a grouped numeral gives the numeral back. */
  lemma {:induction false} UngroupThousands(d: string)
    requires ',' !in d
    ensures RemoveCommas(GroupThousands(d)) == d
  {
    if |d| > 3 {
      var head, tail := d[..|d| - 3], d[|d| - 3..];
      assert ',' !in head && ',' !in tail by {
        assert head + tail == d;
      }
      UngroupThousands(head);
      RemoveCommasAround(GroupThousands(head), tail);
      assert head + tail == d;
    }
  }

  function Abs(c: int): nat {
    if c < 0 then -c else c
  }

  function SignText(c: int): string {
    if c < 0 then "-" else ""
  }

  /** The whole part of |c| / 100 in decimal. */
  function WholeDigits(c: int): (d: string)
    ensures |d| > 0 && AllDigits(d)
  {
    DecimalDigits(Abs(c) / 100)
  }

  lemma WholeDigitsValue(c: int)
    ensures DigitsValue(WholeDigits(c)) == Abs(c) / 100
  {
    DecimalDigitsValue(Abs(c) / 100);
  }

  /** The two decimals of |c| / 100. */
  function CentDigits(c: int): (f: string)
    ensures |f| == 2 && AllDigits(f) && DigitsValue(f) == Abs(c) % 100
  {
    var cents := Abs(c) % 100;
    var f := [DigitChar(cents / 10), DigitChar(cents % 10)];
    assert f[..1] == [f[0]] && [f[0]][..0] == [];
    f
  }

  /** A value in hundredths written the way the table shows market caps:
      sign, thousands separators, two decimals (832150 is "8,321.50"). */
  function FormatHundredths(c: int): string {
    SignText(c) + (GroupThousands(WholeDigits(c)) + ("." + CentDigits(c)))
  }

  /** The same value without thousands separators ("8321.50"). */
  function Numeral(c: int): string {
    SignText(c) + (WholeDigits(c) + ("." + CentDigits(c)))
  }

  lemma ShiftDigit(x: int, p: int, y: int, z: int)
    ensures (x * p + y) * 10 + z == x * (10 * p) + (y * 10 + z)
  {
  }

  lemma {:induction false} DigitsValueAppend(a: string, b: string)
    ensures DigitsValue(a + b) == DigitsValue(a) * Pow10(|b|) + DigitsValue(b)
  {
    if b == [] {
      assert a + b == a;
    } else {
      var b' := b[..|b| - 1];
      assert (a + b)[..|a + b| - 1] == a + b';
      DigitsValueAppend(a, b');
      ShiftDigit(DigitsValue(a), Pow10(|b'|), DigitsValue(b'), DigitValue(b[|b| - 1]));
    }
  }

  /** The characters of `d.f`: digits and one point after `d`. */
  lemma PointChars(d: string, f: string)
    requires |d| > 0 && AllDigits(d) && AllDigits(f)
    ensures var u := d + ("." + f);
      && (forall i | 0 <= i < |u| :: IsDigit(u[i]) || u[i] == '.')
      && IsDigit(u[0]) && u[|d|] == '.' && u[..|d|] == d && u[|d| + 1..] == f
  {
    var u := d + ("." + f);
    assert u[..|d|] == d && u[|d| + 1..] == f;
    forall i | 0 <= i < |u| ensures IsDigit(u[i]) || u[i] == '.' {
      if i < |d| {
        assert u[i] == d[i];
      } else if i > |d| {
        assert u[i] == f[i - |d| - 1];
      }
    }
  }

  /** `d.f` is an unsigned literal with its point after `d` and no
      exponent. */
  lemma PointNumeral(d: string, f: string)
    requires |d| > 0 && AllDigits(d) && AllDigits(f)
    ensures var u := d + ("." + f);
      && IsUnsignedDecimal(u) && u != "Infinity" && IsDigit(u[0])
      && ExponentStart(u) == |u| && DotIndex(u) == |d|
      && u[..|u|] == u && u[..|d|] == d && u[|d| + 1..] == f
  {
    var u := d + ("." + f);
    PointChars(d, f);
    ExponentStartAt(u, |u|);
    DotIndexAt(u, |d|);
    assert u[..|u|] == u;
  }

  /** A run of digits is a mantissa without point or exponent. */
  lemma DigitsMantissa(d: string)
    requires |d| > 0 && AllDigits(d)
    ensures ExponentStart(d) == |d| && d[..|d|] == d && DotIndex(d) == |d|
    ensures IsUnsignedDecimal(d) && d != "Infinity" && !IsSign(d[0])
  {
    ExponentStartAt(d, |d|);
    assert d[..|d|] == d;
    DotIndexAt(d, |d|);
    assert d != "Infinity" by {
      assert IsDigit(d[0]) && "Infinity"[0] == 'I';
    }
  }

  /** A run of digits alone is a literal with the value of those digits. */
  lemma DigitsLiteral(d: string)
    requires |d| > 0 && AllDigits(d)
    ensures IsDecimalLiteral(d) && LiteralValue(d) == Finite(DigitsValue(d) as real)
  {
    DigitsMantissa(d);
    assert d[..|d|][..|d|] + [] == d;
    assert Scale(DigitsValue(d), 0) == DigitsValue(d) as real by {
      assert Pow10(0) == 1;
    }
  }

  /** The value of `d.f` is the digits of d and f together, shifted right
      by the length of f. */
  lemma PointValue(d: string, f: string)
    requires |d| > 0 && AllDigits(d) && AllDigits(f)
    ensures IsUnsignedDecimal(d + ("." + f)) && !IsSign((d + ("." + f))[0])
    ensures LiteralValue(d + ("." + f)) == Finite(Scale(DigitsValue(d + f), -|f|))
  {
    PointNumeral(d, f);
  }

  /** Whole part and two decimals put back together give |c|. */
  lemma HundredthsDigits(c: int)
    ensures AllDigits(WholeDigits(c) + CentDigits(c))
    ensures DigitsValue(WholeDigits(c) + CentDigits(c)) == Abs(c)
  {
    var d, f := WholeDigits(c), CentDigits(c);
    WholeDigitsValue(c);
    DigitsValueAppend(d, f);
    assert Pow10(2) == 100 by {
      assert Pow10(1) == 10;
    }
  }

  /** Shifting right by two places divides by 100. */
  lemma ScaleHundredths(n: nat)
    ensures Scale(n, -2) == n as real / 100.0
  {
    assert Pow10(2) == 100 by {
      assert Pow10(1) == 10;
    }
  }

  /** The numeral of |c| without sign is an unsigned literal worth |c| / 100. */
  lemma UnsignedNumeralValue(c: int)
    ensures var u := WholeDigits(c) + ("." + CentDigits(c));
      && IsUnsignedDecimal(u) && u != [] && !IsSign(u[0])
      && LiteralValue(u) == Finite(Abs(c) as real / 100.0)
  {
    var d, f := WholeDigits(c), CentDigits(c);
    PointValue(d, f);
    assert Scale(DigitsValue(d + f), -|f|) == Abs(c) as real / 100.0 by {
      HundredthsDigits(c);
      ScaleHundredths(Abs(c));
    }
  }

  /** The numeral of a negative c is a decimal literal worth c / 100. */
  lemma NegativeNumeralValue(c: int)
    requires c < 0
    ensures IsDecimalLiteral(Numeral(c))
    ensures LiteralValue(Numeral(c)) == Finite(c as real / 100.0)
  {
    UnsignedNumeralValue(c);
    NegativeLiteral(WholeDigits(c) + ("." + CentDigits(c)));
  }

  /** The numeral of a non-negative c has no sign. */
  lemma UnsignedNumeral(c: int)
    requires c >= 0
    ensures Numeral(c) == WholeDigits(c) + ("." + CentDigits(c))
  {
    assert SignText(c) == "";
  }

  /** The numeral of a non-negative c is a decimal literal worth c / 100. */
  lemma NonNegativeNumeralValue(c: int)
    requires c >= 0
    ensures IsDecimalLiteral(Numeral(c))
    ensures LiteralValue(Numeral(c)) == Finite(c as real / 100.0)
  {
    UnsignedNumeral(c);
    UnsignedNumeralValue(c);
  }

  /** The numeral of c is a decimal literal whose value is c / 100. */
  lemma NumeralValue(c: int)
    ensures IsDecimalLiteral(Numeral(c))
    ensures LiteralValue(Numeral(c)) == Finite(c as real / 100.0)
  {
    if c < 0 {
      NegativeNumeralValue(c);
    } else {
      NonNegativeNumeralValue(c);
    }
  }

  /** Deleting the commas of a rendered value gives its numeral. */
  lemma FormattedDigits(c: int)
    ensures RemoveCommas(FormatHundredths(c)) == Numeral(c)
  {
    var sign, d, f := SignText(c), WholeDigits(c), CentDigits(c);
    var grouped := GroupThousands(d);
    assert ',' !in d && ',' !in "." + f by {
      assert forall i | 0 <= i < |d| :: IsDigit(d[i]);
      assert forall i | 0 <= i < |f| :: IsDigit(f[i]);
    }
    UngroupThousands(d);
    RemoveCommasAppend(sign, grouped + ("." + f));
    RemoveCommasAppend(grouped, "." + f);
  }

  /** A numeral has no white space at either end. */
  lemma NumeralTrimmed(c: int)
    ensures IsTrimmed(Numeral(c))
  {
    var d, f := WholeDigits(c), CentDigits(c);
    var n := Numeral(c);
    assert n[|n| - 1] == f[1];
    if c < 0 {
      assert n[0] == '-';
    } else {
      assert n[0] == d[0];
    }
  }

  /** A text whose normalised form is a decimal literal parses to the value
      of that literal. */
  lemma ParseNormalizedLiteral(text: string)
    requires IsDecimalLiteral(Normalize(text))
    ensures ParseMarketCap(text) == Some(LiteralValue(Normalize(text)))
  {
    LiteralStart(Normalize(text));
    ParseFloatOfLiteral(Normalize(text));
  }

  /** Round trip: parsing a rendered value gives back that value. */
  lemma ParseFormatted(c: int)
    ensures ParseMarketCap(FormatHundredths(c)) == Some(Finite(c as real / 100.0))
  {
    FormattedDigits(c);
    NumeralValue(c);
    NumeralTrimmed(c);
    TrimTrimmed(Numeral(c));
    ParseNormalizedLiteral(FormatHundredths(c));
  }

  lemma ExampleLeadingDigits()
    ensures DecimalDigits(832) == "832"
  {
    assert DecimalDigits(8) == "8";
    assert DecimalDigits(83) == "83";
  }

  lemma ExampleWholeDigits()
    ensures DecimalDigits(8321) == "8321"
  {
    ExampleLeadingDigits();
    assert DecimalDigits(8321) == DecimalDigits(832) + [DigitChar(1)];
    assert DigitChar(1) == '1';
  }

  lemma ExampleGrouping()
    ensures GroupThousands("8321") == "8,321"
  {
    assert "8321"[..1] == "8" && "8321"[1..] == "321";
  }

  lemma ExampleCents()
    ensures CentDigits(832150) == "50"
  {
  }

  /** "8,321.50" is how 832150 hundredths are rendered. */
  lemma SeparatedExampleText()
    ensures FormatHundredths(832150) == "8,321.50"
  {
    assert WholeDigits(832150) == "8321" by {
      assert Abs(832150) / 100 == 8321;
      ExampleWholeDigits();
    }
    ExampleGrouping();
    ExampleCents();
  }

  /** The example of the source's comment: "8,321.50" parses to 8321.5. */
  lemma ParsesSeparatedExample()
    ensures ParseMarketCap("8,321.50") == Some(Finite(8321.5))
  {
    SeparatedExampleText();
    ParseFormatted(832150);
  }

  /** Digits followed by text without commas: normalising changes nothing. */
  lemma LeadingDigitsNormal(d: string, rest: string)
    requires |d| > 0 && AllDigits(d)
    requires ',' !in rest && rest != [] && !IsWhiteSpace(rest[|rest| - 1])
    ensures Normalize(d + rest) == d + rest
  {
    var text := d + rest;
    assert ',' !in text by {
      assert forall i | 0 <= i < |d| :: IsDigit(d[i]);
      assert forall i | |d| <= i < |text| :: text[i] == rest[i - |d|];
    }
    assert IsTrimmed(text) by {
      assert text[0] == d[0] && text[|text| - 1] == rest[|rest| - 1];
    }
    TrimTrimmed(text);
  }

  /** parseFloat's longest-prefix rule survives normalisation: digits
      followed by text that cannot continue a number ("12abc") parse to the
      value of the digits. */
  lemma ParsesLeadingDigits(d: string, rest: string)
    requires |d| > 0 && AllDigits(d)
    requires ',' !in rest && rest != [] && !IsWhiteSpace(rest[|rest| - 1])
    requires !IsDigit(rest[0]) && rest[0] != '.' && !IsExponentIndicator(rest[0])
    ensures ParseMarketCap(d + rest) == Some(Finite(DigitsValue(d) as real))
  {
    LeadingDigitsNormal(d, rest);
    DigitsLiteral(d);
    ParseFloatStopsAtText(d, rest);
  }
}
