/**
 * The global parseFloat of ECMAScript (section 19.2.4 of ECMA-262): skip
 * leading white space, take the LONGEST prefix of what is left that is a
 * StrDecimalLiteral, and give its value; give NaN when no prefix is one.
 *
 * The grammar is stated as a predicate (IsDecimalLiteral) and the scan as a
 * greedy function (LiteralLength); the lemmas prove that the scan stops at a
 * literal and that no longer prefix is one. Values are exact reals, not
 * IEEE-754 doubles.
 */
module JsNumber {
  import opened Wrappers
  import opened JsText

  /** A JavaScript number as far as this model needs one. */
  datatype Number = Finite(r: real) | PositiveInfinity | NegativeInfinity

  /** JavaScript's `a > b` for a number `a` and a finite `b`: positive
      infinity exceeds every finite number, negative infinity none. */
  predicate GreaterThan(a: Number, b: real)
    ensures GreaterThan(a, b) <==> a == PositiveInfinity || (a.Finite? && a.r > b)
  {
    match a
    case Finite(x) => x > b
    case PositiveInfinity => true
    case NegativeInfinity => false
  }

  predicate IsDigit(c: char) { '0' <= c <= '9' }

  predicate AllDigits(s: string) {
    forall i | 0 <= i < |s| :: IsDigit(s[i])
  }

  predicate IsSign(c: char) { c == '+' || c == '-' }

  predicate IsExponentIndicator(c: char) { c == 'e' || c == 'E' }

  // ---------------------------------------------------------------------
  // The grammar of StrDecimalLiteral
  // ---------------------------------------------------------------------

  /** ExponentPart: `e` or `E`, an optional sign, one or more digits. */
  predicate IsExponentPart(e: string) {
    && |e| >= 2
    && IsExponentIndicator(e[0])
    && var digits := if IsSign(e[1]) then e[2..] else e[1..];
       |digits| > 0 && AllDigits(digits)
  }

  /** Position of the first `.` of `m`, or |m| when there is none. */
  function DotIndex(m: string): (d: nat)
    ensures d <= |m|
    ensures forall i | 0 <= i < d :: m[i] != '.'
    ensures d < |m| ==> m[d] == '.'
  {
    if m == [] || m[0] == '.' then 0 else 1 + DotIndex(m[1..])
  }

  /** The part before the exponent, in one of its three forms:
      `DecimalDigits`, `DecimalDigits . DecimalDigits?`, `. DecimalDigits`. */
  predicate IsMantissa(m: string) {
    var d := DotIndex(m);
    if d == |m| then |m| > 0 && AllDigits(m)
    else AllDigits(m[..d]) && AllDigits(m[d + 1..]) && |m| > 1
  }

  /** Position of the first `e` or `E` of `u`, or |u| when there is none. */
  function ExponentStart(u: string): (k: nat)
    ensures k <= |u|
    ensures forall i | 0 <= i < k :: !IsExponentIndicator(u[i])
    ensures k < |u| ==> IsExponentIndicator(u[k])
  {
    if u == [] || IsExponentIndicator(u[0]) then 0 else 1 + ExponentStart(u[1..])
  }

  /** StrUnsignedDecimalLiteral: `Infinity`, or a mantissa followed by an
      optional exponent part. */
  predicate IsUnsignedDecimal(u: string) {
    || u == "Infinity"
    || var k := ExponentStart(u);
       IsMantissa(u[..k]) && (k == |u| || IsExponentPart(u[k..]))
  }

  /** StrDecimalLiteral: an optional sign, then an unsigned literal. */
  predicate IsDecimalLiteral(p: string) {
    if |p| > 0 && IsSign(p[0]) then IsUnsignedDecimal(p[1..]) else IsUnsignedDecimal(p)
  }

  // ---------------------------------------------------------------------
  // The greedy scan
  // ---------------------------------------------------------------------

  /** Length of the run of digits at the start of `s`. */
  function DigitRun(s: string): (n: nat)
    ensures n <= |s| && AllDigits(s[..n])
    ensures n < |s| ==> !IsDigit(s[n])
  {
    if s != [] && IsDigit(s[0]) then 1 + DigitRun(s[1..]) else 0
  }

  /** Length of the mantissa at the start of `u`, 0 when there is none. */
  function MantissaLength(u: string): (n: nat)
    ensures n <= |u|
  {
    var i := DigitRun(u);
    if i < |u| && u[i] == '.' then
      var f := DigitRun(u[i + 1..]);
      if i + f > 0 then i + 1 + f else 0
    else i
  }

  /** Length of the exponent part at the start of `s`, 0 when there is none. */
  function ExponentLength(s: string): (n: nat)
    ensures n <= |s|
  {
    if |s| >= 2 && IsExponentIndicator(s[0]) then
      var signLength := if IsSign(s[1]) then 1 else 0;
      var d := DigitRun(s[1 + signLength..]);
      if d > 0 then 1 + signLength + d else 0
    else 0
  }

  /** Length of the unsigned literal at the start of `u`, 0 when there is none. */
  function UnsignedLength(u: string): (n: nat)
    ensures n <= |u|
  {
    if |u| >= 8 && u[..8] == "Infinity" then 8
    else
      var m := MantissaLength(u);
      if m == 0 then 0 else m + ExponentLength(u[m..])
  }

  /** Length of the longest prefix of `t` that is a StrDecimalLiteral, 0 when
      no prefix is one. */
  function LiteralLength(t: string): (n: nat)
    ensures n <= |t|
    ensures n > 0 ==> IsDecimalLiteral(t[..n])
    ensures forall j | n < j <= |t| :: !IsDecimalLiteral(t[..j])
  {
    if |t| > 0 && IsSign(t[0]) then
      var u := t[1..];
      var n := UnsignedLength(u);
      UnsignedSound(u);
      UnsignedLongest(u);
      assert forall j | 1 <= j <= |t| :: t[..j][1..] == u[..j - 1];
      if n == 0 then 0 else 1 + n
    else
      UnsignedSound(t);
      UnsignedLongest(t);
      UnsignedLength(t)
  }

  // ---------------------------------------------------------------------
  // The scan agrees with the grammar
  // ---------------------------------------------------------------------

  /** A run of digits that is a prefix of `s` is no longer than DigitRun(s). */
  lemma {:induction false} DigitRunBound(s: string, w: string)
    requires w <= s && AllDigits(w)
    ensures |w| <= DigitRun(s)
  {
    if w != [] {
      assert s[0] == w[0];
      assert w[1..] <= s[1..];
      DigitRunBound(s[1..], w[1..]);
    }
  }

  /** DigitRun(s) stops at or before any non-digit of `s`. */
  lemma {:induction false} DigitRunStops(s: string, k: nat)
    requires k < |s| && !IsDigit(s[k])
    ensures DigitRun(s) <= k
  {
    if k > 0 && IsDigit(s[0]) {
      DigitRunStops(s[1..], k - 1);
    }
  }

  lemma {:induction false} DotIndexAt(m: string, d: nat)
    requires d <= |m|
    requires forall i | 0 <= i < d :: m[i] != '.'
    requires d < |m| ==> m[d] == '.'
    ensures DotIndex(m) == d
  {
    if d > 0 {
      DotIndexAt(m[1..], d - 1);
    }
  }

  lemma {:induction false} ExponentStartAtLeast(u: string, k: nat)
    requires k <= |u|
    requires forall i | 0 <= i < k :: !IsExponentIndicator(u[i])
    ensures ExponentStart(u) >= k
  {
    if k > 0 {
      ExponentStartAtLeast(u[1..], k - 1);
    }
  }

  lemma ExponentStartAt(u: string, k: nat)
    requires k <= |u|
    requires forall i | 0 <= i < k :: !IsExponentIndicator(u[i])
    requires k < |u| ==> IsExponentIndicator(u[k])
    ensures ExponentStart(u) == k
  {
    ExponentStartAtLeast(u, k);
  }

  /** A mantissa holds nothing but digits and its dot. */
  lemma MantissaChars(v: string)
    requires IsMantissa(v)
    ensures forall i | 0 <= i < |v| :: IsDigit(v[i]) || v[i] == '.'
  {
    var d := DotIndex(v);
    if d < |v| {
      forall i | 0 <= i < |v| ensures IsDigit(v[i]) || v[i] == '.' {
        if i < d {
          assert v[i] == v[..d][i];
        } else if i > d {
          assert v[i] == v[d + 1..][i - d - 1];
        }
      }
    }
  }

  /** The mantissa the scan takes is one, and holds only digits and a dot. */
  lemma MantissaSound(u: string)
    ensures var m := MantissaLength(u);
      m > 0 ==> IsMantissa(u[..m]) && forall i | 0 <= i < m :: IsDigit(u[i]) || u[i] == '.'
  {
    var m := MantissaLength(u);
    var i := DigitRun(u);
    if m > 0 {
      if i < |u| && u[i] == '.' {
        DottedMantissaSound(u, i, DigitRun(u[i + 1..]));
      } else {
        DotIndexAt(u[..i], i);
      }
      var v := u[..m];
      MantissaChars(v);
      forall k | 0 <= k < m
        ensures IsDigit(u[k]) || u[k] == '.'
      {
        assert u[k] == v[k];
      }
    }
  }

  /** Digits, a dot and digits, with a digit on at least one side, form a mantissa. */
  lemma DottedMantissaSound(u: string, i: nat, f: nat)
    requires i == DigitRun(u) && i < |u| && u[i] == '.'
    requires f == DigitRun(u[i + 1..]) && i + f > 0
    ensures IsMantissa(u[..i + 1 + f])
  {
    var v := u[..i + 1 + f];
    assert v[..i] == u[..i];
    forall k | 0 <= k < i
      ensures v[k] != '.'
    {
      assert v[k] == u[..i][k];
    }
    DotIndexAt(v, i);
    assert v[i + 1..] == u[i + 1..][..f];
  }

  /** Every mantissa that is a prefix of `u` is no longer than the scan's. */
  lemma MantissaBound(u: string, v: string)
    requires v <= u && IsMantissa(v)
    ensures 0 < |v| <= MantissaLength(u)
  {
    var i := DigitRun(u);
    var d := DotIndex(v);
    if d == |v| {
      DigitRunBound(u, v);
    } else {
      assert v[..d] <= u;
      DigitRunBound(u, v[..d]);
      DigitRunStops(u, d);
      assert d == i && u[i] == '.';
      assert v[i + 1..] <= u[i + 1..];
      DigitRunBound(u[i + 1..], v[i + 1..]);
    }
  }

  lemma ExponentSound(s: string)
    ensures ExponentLength(s) > 0 ==> IsExponentPart(s[..ExponentLength(s)])
  {
    var n := ExponentLength(s);
    if n > 0 {
      var signLength := if IsSign(s[1]) then 1 else 0;
      var d := DigitRun(s[1 + signLength..]);
      assert s[..n][1 + signLength..] == s[1 + signLength..][..d];
    }
  }

  /** Every exponent part that is a prefix of `s` is no longer than the scan's. */
  lemma ExponentBound(s: string, v: string)
    requires v <= s && IsExponentPart(v)
    ensures |v| <= ExponentLength(s)
  {
    var signLength := if IsSign(v[1]) then 1 else 0;
    assert v[1 + signLength..] <= s[1 + signLength..];
    DigitRunBound(s[1 + signLength..], v[1 + signLength..]);
  }

  lemma UnsignedSound(u: string)
    ensures UnsignedLength(u) > 0 ==> IsUnsignedDecimal(u[..UnsignedLength(u)])
  {
    var n := UnsignedLength(u);
    if n > 0 && !(|u| >= 8 && u[..8] == "Infinity") {
      var m := MantissaLength(u);
      var e := ExponentLength(u[m..]);
      var q := u[..n];
      MantissaSound(u);
      ExponentSound(u[m..]);
      assert q[..m] == u[..m];
      assert q[m..] == u[m..][..e];
      ExponentStartAt(q, m);
    }
  }

  /** No prefix of `u` longer than the scan's is an unsigned literal. */
  lemma UnsignedLongest(u: string)
    ensures forall j | UnsignedLength(u) < j <= |u| :: !IsUnsignedDecimal(u[..j])
  {
    forall j | UnsignedLength(u) < j <= |u|
      ensures !IsUnsignedDecimal(u[..j])
    {
      UnsignedLongestAt(u, j);
    }
  }

  lemma UnsignedLongestAt(u: string, j: nat)
    requires UnsignedLength(u) < j <= |u|
    ensures !IsUnsignedDecimal(u[..j])
  {
    var q := u[..j];
    assert q != "Infinity" by {
      if |q| == 8 {
        assert u[..8] == q;
      }
    }
    var k := ExponentStart(q);
    if IsMantissa(q[..k]) {
      PrefixSlices(u, j, k);
      MantissaBound(u, q[..k]);
      MantissaChars(q[..k]);
      assert !(|u| >= 8 && u[..8] == "Infinity") by {
        if |u| >= 8 {
          assert u[..8][0] == q[..k][0];
        }
      }
      var m := MantissaLength(u);
      MantissaSound(u);
      ExponentStartAtLeast(q, m);
      assert k == m < |q|;
      PrefixSlices(u, j, m);
      if IsExponentPart(q[m..]) {
        ExponentBound(u[m..], q[m..]);
      }
    }
  }

  /** The pieces of a prefix are prefixes of the pieces of the whole. */
  lemma PrefixSlices(u: string, j: nat, k: nat)
    requires k <= j <= |u|
    ensures u[..j][..k] <= u && u[..j][k..] <= u[k..]
  {
  }

  // ---------------------------------------------------------------------
  // Values
  // ---------------------------------------------------------------------

  function Pow10(n: nat): (p: nat)
    ensures p >= 1
  {
    if n == 0 then 1 else 10 * Pow10(n - 1)
  }

  /** n * 10^e as an exact real. */
  function Scale(n: nat, e: int): real {
    if e >= 0 then (n * Pow10(e)) as real else n as real / Pow10(-e) as real
  }

  /** The value of a decimal digit (0 for any other character). */
  function DigitValue(c: char): (v: nat)
    ensures v < 10
  {
    if IsDigit(c) then c as int - '0' as int else 0
  }

  /** The value of a string of decimal digits, most significant first. */
  function DigitsValue(s: string): (v: nat)
    ensures v < Pow10(|s|)
  {
    if s == [] then 0 else DigitsValue(s[..|s| - 1]) * 10 + DigitValue(s[|s| - 1])
  }

  /** The value of an ExponentPart: its digits, negated after a minus sign. */
  function ExponentValue(e: string): int {
    if |e| < 2 then 0
    else if IsSign(e[1]) then
      (if e[1] == '-' then -(DigitsValue(e[2..]) as int) else DigitsValue(e[2..]))
    else DigitsValue(e[1..])
  }

  /** The mathematical value of a StrUnsignedDecimalLiteral: the digits of
      the mantissa with its point removed, times ten to the exponent less
      the number of fraction digits. (Defined on every string, meaningful
      on those IsUnsignedDecimal accepts.) */
  function UnsignedValue(u: string): (v: Number)
    ensures v != NegativeInfinity
    ensures v == PositiveInfinity <==> u == "Infinity"
  {
    if u == "Infinity" then PositiveInfinity
    else
      var k := ExponentStart(u);
      var m := u[..k];
      var d := DotIndex(m);
      var fraction := if d < |m| then m[d + 1..] else [];
      var exponent := if k < |u| then ExponentValue(u[k..]) else 0;
      Finite(Scale(DigitsValue(m[..d] + fraction), exponent - |fraction|))
  }

  /** The value of a StrDecimalLiteral: that of its unsigned part, negated
      after a minus sign. */
  function LiteralValue(p: string): (v: Number)
    ensures v == NegativeInfinity <==> |p| > 0 && p[0] == '-' && p[1..] == "Infinity"
    ensures v == PositiveInfinity <==>
      p == "Infinity" || (|p| > 0 && p[0] == '+' && p[1..] == "Infinity")
  {
    if |p| > 0 && p[0] == '-' then Negate(UnsignedValue(p[1..]))
    else if |p| > 0 && p[0] == '+' then UnsignedValue(p[1..])
    else UnsignedValue(p)
  }

  /** JavaScript's unary minus. */
  function Negate(n: Number): Number {
    match n
    case Finite(x) => Finite(-x)
    case PositiveInfinity => NegativeInfinity
    case NegativeInfinity => PositiveInfinity
  }

  /** An ExponentPart: `e`, an optional sign, then digits. */
  function ExponentText(sign: string, x: string): string {
    ("e" + sign) + x
  }

  /** An exponent part is worth its digits, negated after a minus sign. */
  lemma ExponentTextValue(sign: string, x: string)
    requires sign == "" || sign == "+" || sign == "-"
    requires |x| > 0 && AllDigits(x)
    ensures IsExponentPart(ExponentText(sign, x))
    ensures ExponentValue(ExponentText(sign, x)) ==
      if sign == "-" then -(DigitsValue(x) as int) else DigitsValue(x)
  {
    var e := ExponentText(sign, x);
    AfterPrefix("e" + sign, x);
    if sign == "" {
      assert e[1] == x[0];
    } else {
      assert e[1] == sign[0];
    }
  }

  lemma AfterPrefix(p: string, x: string)
    ensures (p + x)[|p|..] == x
  {
  }

  /** Digits times a power of ten: `m e x` is an unsigned literal worth m
      shifted left by x places (right after a minus sign). */
  lemma ExponentLiteralValue(m: string, sign: string, x: string)
    requires |m| > 0 && AllDigits(m)
    requires sign == "" || sign == "+" || sign == "-"
    requires |x| > 0 && AllDigits(x)
    ensures IsUnsignedDecimal(m + ExponentText(sign, x))
    ensures UnsignedValue(m + ExponentText(sign, x)) ==
      Finite(Scale(DigitsValue(m), if sign == "-" then -(DigitsValue(x) as int) else DigitsValue(x)))
  {
    var e := ExponentText(sign, x);
    var u := m + e;
    assert u != "Infinity" by {
      assert u[0] == m[0];
    }
    forall i | 0 <= i < |m|
      ensures !IsExponentIndicator(u[i])
    {
      assert u[i] == m[i];
    }
    assert u[|m|] == 'e';
    ExponentStartAt(u, |m|);
    assert u[..|m|] == m;
    AfterPrefix(m, e);
    DotIndexAt(m, |m|);
    assert m[..|m|] + [] == m;
    ExponentTextValue(sign, x);
  }

  /** A minus sign in front of an unsigned literal negates its value. */
  lemma NegativeLiteral(u: string)
    requires IsUnsignedDecimal(u) && u != [] && !IsSign(u[0])
    ensures IsDecimalLiteral(u) && IsDecimalLiteral("-" + u)
    ensures LiteralValue("-" + u) == Negate(LiteralValue(u))
  {
    assert ("-" + u)[1..] == u;
  }

  /** No prefix of `t` at all is a decimal literal. */
  ghost predicate NoLiteralPrefix(t: string) {
    forall j | 0 <= j <= |t| :: !IsDecimalLiteral(t[..j])
  }

  /** t[..n] is a literal and no longer prefix of `t` is one. */
  ghost predicate IsLongestLiteralPrefix(t: string, n: nat) {
    && 0 < n <= |t|
    && IsDecimalLiteral(t[..n])
    && forall j | n < j <= |t| :: !IsDecimalLiteral(t[..j])
  }

  /** parseFloat: NaN (here None) exactly when no prefix of the string,
      after its leading white space, is a decimal literal; otherwise the
      value of the longest such prefix. */
  function ParseFloat(s: string): (r: Option<Number>)
    ensures r.None? <==> NoLiteralPrefix(TrimStart(s))
    ensures r.Some? ==> exists n: nat :: IsLongestLiteralPrefix(TrimStart(s), n)
                                   && r.value == LiteralValue(TrimStart(s)[..n])
  {
    var t := TrimStart(s);
    var n := LiteralLength(t);
    assert !IsDecimalLiteral(t[..0]) by {
      assert t[..0] == [];
    }
    if n == 0 then
      assert NoLiteralPrefix(t);
      None
    else
      assert IsLongestLiteralPrefix(t, n);
      assert !NoLiteralPrefix(t);
      Some(LiteralValue(t[..n]))
  }

  // ---------------------------------------------------------------------
  // Properties of parseFloat
  // ---------------------------------------------------------------------

  lemma LiteralLengthOfLiteral(t: string)
    requires IsDecimalLiteral(t)
    ensures LiteralLength(t) == |t|
  {
    assert t[..|t|] == t;
  }

  /** A string that is a literal, with no white space in front, parses to
      its own value. */
  lemma ParseFloatOfLiteral(t: string)
    requires IsDecimalLiteral(t) && (t == [] || !IsWhiteSpace(t[0]))
    ensures ParseFloat(t) == Some(LiteralValue(t))
  {
    TrimStartUnchanged(t);
    LiteralLengthOfLiteral(t);
    assert t[..|t|] == t;
  }

  /** A literal never starts with white space. */
  lemma LiteralStart(p: string)
    requires IsDecimalLiteral(p)
    ensures p != [] && !IsWhiteSpace(p[0])
  {
    var u := if |p| > 0 && IsSign(p[0]) then p[1..] else p;
    if u != "Infinity" {
      var k := ExponentStart(u);
      MantissaChars(u[..k]);
      assert u[..k][0] == u[0];
    }
  }

  lemma NotMantissaAt(m: string, i: nat)
    requires i < |m| && !IsDigit(m[i]) && m[i] != '.'
    ensures !IsMantissa(m)
  {
    if IsMantissa(m) {
      MantissaChars(m);
    }
  }

  /** An exponent part followed by a non-digit is no exponent part. */
  lemma ExponentNotExtended(e: string, r: string)
    requires IsExponentPart(e) && r != [] && !IsDigit(r[0])
    ensures !IsExponentPart(e + r)
  {
    var w := e + r;
    var signLength := if IsSign(e[1]) then 1 else 0;
    assert w[1] == e[1];
    assert w[1 + signLength..][|e| - 1 - signLength] == r[0];
  }

  /** The first character of an unsigned literal that is not `Infinity`
      is a digit or a dot, and it has a mantissa of length at least one. */
  lemma UnsignedDecimalStart(v: string)
    requires IsUnsignedDecimal(v) && v != "Infinity"
    ensures ExponentStart(v) > 0 && (IsDigit(v[0]) || v[0] == '.')
  {
    var k := ExponentStart(v);
    MantissaChars(v[..k]);
    assert v[..k][0] == v[0];
  }

  /** A text that is not `Infinity` and whose exponent indicator does not
      start an exponent part is no unsigned literal. */
  lemma NoExponentPartAt(q: string, k: nat)
    requires |q| > 0 && q[0] != 'I'
    requires k < |q| && ExponentStart(q) == k && !IsExponentPart(q[k..])
    ensures !IsUnsignedDecimal(q)
  {
  }

  /** "Infinity" followed by a character is no unsigned literal. */
  lemma InfinityNotExtended(r: string)
    requires r != []
    ensures !IsUnsignedDecimal("Infinity" + r)
  {
    var q := "Infinity" + r;
    assert q[0] == 'I';
    ExponentStartAtLeast(q, 1);
    NotMantissaAt(q[..ExponentStart(q)], 0);
  }

  lemma SuffixOfConcat(v: string, r: string, k: nat)
    requires k <= |v|
    ensures (v + r)[k..] == v[k..] + r
  {
  }

  /** A text whose exponent part ends it does not extend over a non-digit. */
  lemma ExponentEndNotExtended(v: string, r: string)
    requires |v| > 0 && v[0] != 'I'
    requires ExponentStart(v) < |v| && IsExponentPart(v[ExponentStart(v)..])
    requires r != [] && !IsDigit(r[0])
    ensures !IsUnsignedDecimal(v + r)
  {
    var q := v + r;
    var kv := ExponentStart(v);
    assert q[0] != 'I' by { assert q[0] == v[0]; }
    forall i | 0 <= i < kv
      ensures !IsExponentIndicator(q[i])
    {
      assert q[i] == v[i];
    }
    assert IsExponentIndicator(q[kv]) by { assert q[kv] == v[kv]; }
    ExponentStartAt(q, kv);
    SuffixOfConcat(v, r, kv);
    ExponentNotExtended(v[kv..], r);
    NoExponentPartAt(q, kv);
  }

  /** A literal without exponent part does not extend over a character
      that is no digit, no dot and no exponent indicator. */
  lemma MantissaEndNotExtended(v: string, r: string)
    requires IsUnsignedDecimal(v) && v != "Infinity" && ExponentStart(v) == |v|
    requires r != [] && !IsDigit(r[0]) && r[0] != '.' && !IsExponentIndicator(r[0])
    ensures !IsUnsignedDecimal(v + r)
  {
    var q := v + r;
    assert q[|v|] == r[0];
    UnsignedDecimalStart(v);
    assert q[0] == v[0];
    assert q[..|v|] == v[..|v|];
    ExponentStartAtLeast(q, |v| + 1);
    var k := ExponentStart(q);
    assert q[..k][|v|] == r[0];
    NotMantissaAt(q[..k], |v|);
  }

  /** The three ways an unsigned literal can end, each shown not to extend
      over a character that is no digit, no dot and no exponent indicator. */
  lemma UnsignedNotExtended(v: string, r: string)
    requires IsUnsignedDecimal(v)
    requires r != [] && !IsDigit(r[0]) && r[0] != '.' && !IsExponentIndicator(r[0])
    ensures !IsUnsignedDecimal(v + r)
  {
    if v == "Infinity" {
      InfinityNotExtended(r);
    } else if ExponentStart(v) < |v| {
      UnsignedDecimalStart(v);
      ExponentEndNotExtended(v, r);
    } else {
      MantissaEndNotExtended(v, r);
    }
  }

  /** parseFloat reads a literal up to the first character that cannot
      continue it and ignores everything after that character. */
  lemma ParseFloatStopsAtText(lit: string, rest: string)
    requires IsDecimalLiteral(lit)
    requires rest != [] && !IsDigit(rest[0]) && rest[0] != '.' && !IsExponentIndicator(rest[0])
    ensures ParseFloat(lit + rest) == Some(LiteralValue(lit))
  {
    var t := lit + rest;
    LiteralStart(lit);
    TrimStartUnchanged(t);
    assert t[..|lit|] == lit;
    forall j | |lit| < j <= |t|
      ensures !IsDecimalLiteral(t[..j])
    {
      var r := rest[..j - |lit|];
      assert t[..j] == lit + r && r[0] == rest[0];
      if |lit| > 0 && IsSign(lit[0]) {
        assert (lit + r)[1..] == lit[1..] + r;
        UnsignedNotExtended(lit[1..], r);
      } else {
        UnsignedNotExtended(lit, r);
      }
    }
    assert LiteralLength(t) == |lit|;
  }
}
