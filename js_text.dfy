/**
 * The two ECMAScript string operations the page object applies to cell
 * text: String.prototype.trim, and replace(/,/g, '') which deletes every
 * comma.
 */
module JsText {

  /** The code points trim strips: WhiteSpace (section 12.2 of ECMA-262:
      TAB, VT, FF, ZWNBSP and every space separator of category Zs) and
      LineTerminator (section 12.3: LF, CR, LS, PS). */
  predicate IsWhiteSpace(c: char) {
    || c == '\t' || c == '\U{000B}' || c == '\U{000C}' || c == '\U{FEFF}'
    || c == ' ' || c == '\U{00A0}' || c == '\U{1680}' || ('\U{2000}' <= c <= '\U{200A}')
    || c == '\U{202F}' || c == '\U{205F}' || c == '\U{3000}'
    || c == '\n' || c == '\r' || c == '\U{2028}' || c == '\U{2029}'
  }

  predicate IsBlank(s: string) {
    forall i | 0 <= i < |s| :: IsWhiteSpace(s[i])
  }

  /** Neither end of `s` is white space: what trim leaves behind. */
  predicate IsTrimmed(s: string) {
    s == [] || (!IsWhiteSpace(s[0]) && !IsWhiteSpace(s[|s| - 1]))
  }

  /** How many white-space characters follow position `lo` of `s`. */
  function LeadingBlanks(s: string, lo: nat): (n: nat)
    requires lo <= |s|
    ensures lo + n <= |s|
    ensures forall i | lo <= i < lo + n :: IsWhiteSpace(s[i])
    ensures lo + n < |s| ==> !IsWhiteSpace(s[lo + n])
    decreases |s| - lo
  {
    if lo < |s| && IsWhiteSpace(s[lo]) then 1 + LeadingBlanks(s, lo + 1) else 0
  }

  /** How many white-space characters come before position `hi` of `s`,
      counting no further back than position `lo`. */
  function TrailingBlanks(s: string, lo: nat, hi: nat): (n: nat)
    requires lo <= hi <= |s|
    ensures n <= hi - lo
    ensures forall i | hi - n <= i < hi :: IsWhiteSpace(s[i])
    ensures lo < hi - n ==> !IsWhiteSpace(s[hi - n - 1])
  {
    if lo < hi && IsWhiteSpace(s[hi - 1]) then 1 + TrailingBlanks(s, lo, hi - 1) else 0
  }

  /** Drops the white space at the start of `s` (the TrimString(start) step
      of parseFloat). */
  function TrimStart(s: string): (r: string)
    ensures r == [] || !IsWhiteSpace(r[0])
    ensures exists k | 0 <= k <= |s| :: r == s[k..] && IsBlank(s[..k])
  {
    var k := LeadingBlanks(s, 0);
    assert IsBlank(s[..k]) by {
      forall i | 0 <= i < k ensures IsWhiteSpace(s[..k][i]) {
        assert s[..k][i] == s[i];
      }
    }
    s[k..]
  }

  /** A text that does not start with white space has nothing to drop. */
  lemma TrimStartUnchanged(s: string)
    requires s == [] || !IsWhiteSpace(s[0])
    ensures TrimStart(s) == s
  {
    assert LeadingBlanks(s, 0) == 0;
  }

  /** String.prototype.trim: the slice of `s` left once the white space at
      both ends is gone. It is empty exactly when `s` is blank. */
  function Trim(s: string): (r: string)
    ensures IsTrimmed(r)
    ensures r == [] <==> IsBlank(s)
    ensures exists lead | 0 <= lead <= |s| - |r| :: IsTrimSlice(s, lead, r)
  {
    var lead := LeadingBlanks(s, 0);
    var trail := TrailingBlanks(s, lead, |s|);
    TrimSlice(s, lead, trail);
    s[lead..|s| - trail]
  }

  /** `r` is the slice of `s` at `lead` and everything around it is blank. */
  predicate IsTrimSlice(s: string, lead: nat, r: string)
    requires lead + |r| <= |s|
  {
    && r == s[lead..lead + |r|]
    && IsBlank(s[..lead])
    && IsBlank(s[lead + |r|..])
  }

  lemma TrimSlice(s: string, lead: nat, trail: nat)
    requires lead == LeadingBlanks(s, 0)
    requires trail == TrailingBlanks(s, lead, |s|)
    ensures var r := s[lead..|s| - trail];
      && IsTrimmed(r)
      && (r == [] <==> IsBlank(s))
      && IsTrimSlice(s, lead, r)
  {
    var r := s[lead..|s| - trail];
    assert IsBlank(s[..lead]) by {
      forall i | 0 <= i < lead ensures IsWhiteSpace(s[..lead][i]) {
        assert s[..lead][i] == s[i];
      }
    }
    var after := s[|s| - trail..];
    assert IsBlank(after) by {
      forall i | 0 <= i < |after| ensures IsWhiteSpace(after[i]) {
        assert after[i] == s[|s| - trail + i];
      }
    }
    if r == [] {
      assert lead == |s|;
    } else {
      assert r[0] == s[lead];
      assert r[|r| - 1] == s[|s| - trail - 1];
    }
  }

  /** replace(/,/g, ''): every comma of `s` deleted, every other character
      kept, in order. */
  function RemoveCommas(s: string): (r: string)
    ensures ',' !in r
    ensures ',' !in s ==> r == s
  {
    if s == [] then []
    else
      assert s == [s[0]] + s[1..];
      (if s[0] == ',' then [] else [s[0]]) + RemoveCommas(s[1..])
  }

  /** Every character RemoveCommas keeps is a character of its input. */
  lemma {:induction false} RemoveCommasKeeps(s: string, c: char)
    requires c in RemoveCommas(s)
    ensures c in s && c != ','
  {
    if s != [] && c != s[0] {
      assert c in RemoveCommas(s[1..]);
      RemoveCommasKeeps(s[1..], c);
    }
  }

  lemma {:induction false} RemoveCommasAppend(a: string, b: string)
    ensures RemoveCommas(a + b) == RemoveCommas(a) + RemoveCommas(b)
  {
    if a == [] {
      assert a + b == b;
    } else {
      assert (a + b)[1..] == a[1..] + b;
      RemoveCommasAppend(a[1..], b);
    }
  }

  /** Deleting a comma between `a` and `b` is deleting the commas of each. */
  lemma RemoveCommasAround(a: string, b: string)
    ensures RemoveCommas(a + "," + b) == RemoveCommas(a) + RemoveCommas(b)
  {
    RemoveCommasAppend(a + ",", b);
    RemoveCommasAppend(a, ",");
  }

  /** Trimming a string whose ends are not white space changes nothing. */
  lemma TrimTrimmed(s: string)
    requires IsTrimmed(s)
    ensures Trim(s) == s
  {
    if s != [] {
      assert LeadingBlanks(s, 0) == 0;
      assert TrailingBlanks(s, 0, |s|) == 0;
      assert s[0..|s|] == s;
    }
  }
}
