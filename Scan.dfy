/** The two `re.search` patterns and the `int`/`float` conversions the field
    extractor applies to element texts. */
module Scan {
  import opened Wrappers
  import opened Text

  /** The end of the maximal run of digits that starts at `i`. */
  function DigitRunEnd(s: string, i: nat): (j: nat)
    requires i <= |s|
    ensures i <= j <= |s|
    ensures forall k :: i <= k < j ==> IsDigit(s[k])
    ensures j == |s| || !IsDigit(s[j])
    decreases |s| - i
  {
    if i < |s| && IsDigit(s[i]) then DigitRunEnd(s, i + 1) else i
  }

  /** Reference reading of `\d+\.\d+`: digits, one dot, digits. */
  predicate IsDecimalToken(t: string) {
    exists k :: 0 < k < |t| - 1 && t[k] == '.' && AllDigits(t[..k]) && AllDigits(t[k + 1..])
  }

  /** Where a match of `\d+\.\d+` that starts at `i` ends, if one does: the
      greedy first `\d+` cannot give back digits (the `.` would then have to
      match a digit) and the second takes the whole run. */
  function DecimalMatchAt(s: string, i: nat): Option<nat>
    requires i <= |s|
  {
    if i < |s| && IsDigit(s[i]) then
      var j := DigitRunEnd(s, i);
      if j + 1 < |s| && s[j] == '.' && IsDigit(s[j + 1]) then Some(DigitRunEnd(s, j + 1)) else None
    else None
  }

  /** `re.search(r'\d+\.\d+', s)` from position `i` on: the leftmost start, and
      the end the regex engine picks there. */
  function SearchDecimal(s: string, i: nat): (r: Option<(nat, nat)>)
    requires i <= |s|
    ensures r.Some? ==> i <= r.value.0 <= |s| && DecimalMatchAt(s, r.value.0) == Some(r.value.1)
    decreases |s| - i
  {
    match DecimalMatchAt(s, i)
    case Some(e) => Some((i, e))
    case None => if i < |s| then SearchDecimal(s, i + 1) else None
  }

  lemma DecimalMatchAtIsToken(s: string, i: nat)
    requires i <= |s| && DecimalMatchAt(s, i).Some?
    ensures var e := DecimalMatchAt(s, i).value;
            i < e <= |s| && IsDecimalToken(s[i..e]) && (e == |s| || !IsDigit(s[e]))
  {
    var j := DigitRunEnd(s, i);
    var e := DecimalMatchAt(s, i).value;
    var t := s[i..e];
    var k := j - i;
    assert t[k] == '.';
    assert t[..k] == s[i..j];
    assert t[k + 1..] == s[j + 1..e];
  }

  /** Wherever a match of the pattern starts, `DecimalMatchAt` finds one. */
  lemma DecimalTokenIsFound(s: string, i: nat, e: nat)
    requires i <= e <= |s| && IsDecimalToken(s[i..e])
    ensures DecimalMatchAt(s, i).Some?
  {
    var t := s[i..e];
    var k :| 0 < k < |t| - 1 && t[k] == '.' && AllDigits(t[..k]) && AllDigits(t[k + 1..]);
    forall m | i <= m < i + k ensures IsDigit(s[m]) {
      assert s[m] == t[..k][m - i];
    }
    assert s[i + k] == '.';
    assert s[i + k + 1] == t[k + 1..][0];
    var j := DigitRunEnd(s, i);
    assert j == i + k;
  }

  /** What `SearchDecimal` returns is the leftmost match, a greedy one, and
      nothing is returned exactly when no substring matches. */
  lemma {:induction false} SearchDecimalIsLeftmost(s: string, i: nat)
    requires i <= |s|
    ensures match SearchDecimal(s, i)
            case Some(m) =>
              i <= m.0 < m.1 <= |s| && IsDecimalToken(s[m.0..m.1])
              && (m.1 == |s| || !IsDigit(s[m.1]))
              && forall a, b :: i <= a < m.0 && a <= b <= |s| ==> !IsDecimalToken(s[a..b])
            case None =>
              forall a, b :: i <= a <= b <= |s| ==> !IsDecimalToken(s[a..b])
    decreases |s| - i
  {
    match DecimalMatchAt(s, i)
    case Some(e) =>
      DecimalMatchAtIsToken(s, i);
    case None =>
      forall b | i <= b <= |s| ensures !IsDecimalToken(s[i..b]) {
        if IsDecimalToken(s[i..b]) {
          DecimalTokenIsFound(s, i, b);
        }
      }
      if i < |s| {
        SearchDecimalIsLeftmost(s, i + 1);
      }
  }

  function Pow10(n: nat): (p: nat)
    ensures p >= 1
  {
    if n == 0 then 1 else 10 * Pow10(n - 1)
  }

  /** Python's `float(t)` for a token `digits.digits`, as an exact rational. */
  function DecimalValue(intPart: string, fracPart: string): (v: real)
    requires AllDigits(intPart) && AllDigits(fracPart)
    ensures v >= DigitsValue(intPart) as real
  {
    DigitsValue(intPart) as real + DigitsValue(fracPart) as real / Pow10(|fracPart|) as real
  }

  /** A match splits into the integer digits, the dot and the fraction
      digits. */
  lemma DecimalMatchParts(s: string, i: nat)
    requires i <= |s| && DecimalMatchAt(s, i).Some?
    ensures var j := DigitRunEnd(s, i);
            j < DecimalMatchAt(s, i).value <= |s|
            && AllDigits(s[i..j]) && AllDigits(s[j + 1..DecimalMatchAt(s, i).value])
  {
    var j := DigitRunEnd(s, i);
    var e := DigitRunEnd(s, j + 1);
    var whole := s[i..j];
    forall k | 0 <= k < |whole| ensures IsDigit(whole[k]) {
      assert whole[k] == s[i + k];
    }
    var f := j + 1;
    var frac := s[f..e];
    forall k | 0 <= k < |frac| ensures IsDigit(frac[k]) {
      assert frac[k] == s[f + k];
    }
  }

  /** `float(re.search(r'\d+\.\d+', text).group())`; `None` where the search
      finds nothing and the source raises. */
  function ParsePrice(text: string): (r: Option<real>)
    ensures r.Some? ==> r.value >= 0.0
  {
    match SearchDecimal(text, 0)
    case None => None
    case Some(m) =>
      DecimalMatchParts(text, m.0);
      var j := DigitRunEnd(text, m.0);
      Some(DecimalValue(text[m.0..j], text[j + 1..m.1]))
  }

  /** A price is found exactly when some substring of the text is digits,
      a dot and digits. */
  lemma ParsePriceIffToken(text: string)
    ensures ParsePrice(text).Some? <==>
              exists a, b :: 0 <= a <= b <= |text| && IsDecimalToken(text[a..b])
  {
    SearchDecimalIsLeftmost(text, 0);
  }

  /** Reference reading of the price a text holds: `t[a..e]` is digits, the
      dot at `k`, digits; the fraction run is maximal; and no substring
      starting before `a` is such a token. */
  predicate LeftmostDecimal(t: string, a: nat, k: nat, e: nat) {
    && a < k && k + 1 < e <= |t| && t[k] == '.'
    && AllDigits(t[a..k]) && AllDigits(t[k + 1..e])
    && (e == |t| || !IsDigit(t[e]))
    && forall a', b' :: 0 <= a' < a && a' <= b' <= |t| ==> !IsDecimalToken(t[a'..b'])
  }

  /** The price read is the value of the leftmost decimal token of the
      text, its fraction taken whole. */
  lemma PriceIsLeftmostDecimal(text: string)
    ensures ParsePrice(text).Some? ==>
              exists a: nat, k: nat, e: nat :: LeftmostDecimal(text, a, k, e)
                                && ParsePrice(text).value == DecimalValue(text[a..k], text[k + 1..e])
  {
    SearchDecimalIsLeftmost(text, 0);
    match SearchDecimal(text, 0)
    case None =>
    case Some(m) =>
      DecimalMatchParts(text, m.0);
      var k := DigitRunEnd(text, m.0);
      assert text[k] == '.';
      assert LeftmostDecimal(text, m.0, k, m.1);
  }

  /** `re.search(r'\d+', s)` from position `i` on: the first digit and the end
      of its run, which is the leftmost, greedy match. */
  function SearchDigits(s: string, i: nat): (r: Option<(nat, nat)>)
    requires i <= |s|
    ensures r.Some? ==>
              && i <= r.value.0 < r.value.1 <= |s|
              && AllDigits(s[r.value.0..r.value.1])
              && (r.value.1 == |s| || !IsDigit(s[r.value.1]))
              && forall k :: i <= k < r.value.0 ==> !IsDigit(s[k])
    ensures r.None? <==> forall k :: i <= k < |s| ==> !IsDigit(s[k])
    decreases |s| - i
  {
    if i == |s| then None
    else if IsDigit(s[i]) then
      var e := DigitRunEnd(s, i);
      assert forall k :: 0 <= k < e - i ==> s[i..e][k] == s[i + k];
      Some((i, e))
    else SearchDigits(s, i + 1)
  }

  /** `int(re.search(r'\d+', text.strip()).group())`; `None` where there is no
      digit and the source raises. */
  function ParseStock(text: string): Option<nat> {
    FirstNumber(Strip(text))
  }

  /** `int(re.search(r'\d+', t).group())`. */
  function FirstNumber(t: string): Option<nat> {
    match SearchDigits(t, 0)
    case None => None
    case Some(m) => Some(DigitsValue(t[m.0..m.1]))
  }

  /** A digit of a text survives `strip()`, at the offset `LeadingSpaces`. */
  lemma StripKeepsDigit(text: string, k: nat)
    requires k < |text| && IsDigit(text[k])
    ensures LeadingSpaces(text) <= k < LeadingSpaces(text) + |Strip(text)|
    ensures Strip(text)[k - LeadingSpaces(text)] == text[k]
  {
    var t := Strip(text);
    var a := LeadingSpaces(text);
    StripTrimsEnds(text);
  }

  lemma StripCharAt(text: string, k: nat)
    requires k < |Strip(text)|
    ensures LeadingSpaces(text) + k < |text|
    ensures Strip(text)[k] == text[LeadingSpaces(text) + k]
  {
    StripTrimsEnds(text);
  }

  /** The first digit and the end of its run determine `SearchDigits`. */
  lemma {:induction false} SearchDigitsUnique(s: string, i: nat, p: nat, e: nat)
    requires i <= p < e <= |s|
    requires forall k :: p <= k < e ==> IsDigit(s[k])
    requires e == |s| || !IsDigit(s[e])
    requires forall k :: i <= k < p ==> !IsDigit(s[k])
    ensures SearchDigits(s, i) == Some((p, e))
    decreases p - i
  {
    if i < p {
      SearchDigitsUnique(s, i + 1, p, e);
    } else {
      var e' := DigitRunEnd(s, i);
    }
  }

  /** The window condition: `t` is the slice of `text` at offset `a`, and
      every digit of `text` lies inside it. */
  predicate DigitWindow(text: string, t: string, a: nat) {
    && a + |t| <= |text|
    && (forall k :: 0 <= k < |t| ==> t[k] == text[a + k])
    && (forall k :: 0 <= k < |text| && IsDigit(text[k]) ==> a <= k < a + |t|)
  }

  /** The digit run found in the window sits, shifted, in the text. */
  lemma WindowRunInText(text: string, t: string, a: nat, p: nat, e: nat)
    requires DigitWindow(text, t, a)
    requires p < e <= |t| && AllDigits(t[p..e])
    ensures forall k :: a + p <= k < a + e ==> IsDigit(text[k])
    ensures t[p..e] == text[a + p..a + e]
  {
    forall k | a + p <= k < a + e ensures IsDigit(text[k]) {
      assert text[k] == t[k - a] == t[p..e][k - a - p];
    }
    forall j | 0 <= j < e - p ensures t[p..e][j] == text[a + p..a + e][j] {
      assert t[p + j] == text[a + (p + j)];
    }
  }

  /** What precedes and what follows the run in the window precedes and
      follows it in the text, with no digit in between. */
  lemma WindowRunBounds(text: string, t: string, a: nat, p: nat, e: nat)
    requires DigitWindow(text, t, a)
    requires p < e <= |t|
    requires forall k :: 0 <= k < p ==> !IsDigit(t[k])
    requires e == |t| || !IsDigit(t[e])
    ensures forall k :: 0 <= k < a + p ==> !IsDigit(text[k])
    ensures a + e == |text| || !IsDigit(text[a + e])
  {
    if e < |t| {
      assert text[a + e] == t[e];
    }
    forall k | 0 <= k < a + p ensures !IsDigit(text[k]) {
      if a <= k {
        assert text[k] == t[k - a];
      }
    }
  }

  /** Searching a window of `text` that holds all of its digits finds the
      same run, shifted by the window's offset. */
  lemma SearchDigitsInWindow(text: string, t: string, a: nat)
    requires DigitWindow(text, t, a)
    requires SearchDigits(t, 0).Some?
    ensures SearchDigits(text, 0) == Some((a + SearchDigits(t, 0).value.0, a + SearchDigits(t, 0).value.1))
    ensures t[SearchDigits(t, 0).value.0..SearchDigits(t, 0).value.1]
            == text[a + SearchDigits(t, 0).value.0..a + SearchDigits(t, 0).value.1]
  {
    var m := SearchDigits(t, 0).value;
    WindowRunInText(text, t, a, m.0, m.1);
    WindowRunBounds(text, t, a, m.0, m.1);
    SearchDigitsUnique(text, 0, a + m.0, a + m.1);
  }

  /** A window without digits means a text without digits. */
  lemma SearchDigitsInWindowNone(text: string, t: string, a: nat)
    requires DigitWindow(text, t, a)
    requires SearchDigits(t, 0).None?
    ensures SearchDigits(text, 0).None?
  {
    forall k | 0 <= k < |text| ensures !IsDigit(text[k]) {
      if a <= k < a + |t| {
        assert text[k] == t[k - a];
      }
    }
  }

  /** Hence the first number of the window is the first number of the text. */
  lemma FirstNumberInWindow(text: string, t: string, a: nat)
    requires DigitWindow(text, t, a)
    ensures FirstNumber(t) == FirstNumber(text)
  {
    if SearchDigits(t, 0).Some? {
      SearchDigitsInWindow(text, t, a);
    } else {
      SearchDigitsInWindowNone(text, t, a);
    }
  }

  lemma StripWindow(text: string)
    ensures DigitWindow(text, Strip(text), LeadingSpaces(text))
  {
    StripTrimsEnds(text);
    forall k | 0 <= k < |Strip(text)| ensures Strip(text)[k] == text[LeadingSpaces(text) + k] {
      StripCharAt(text, k);
    }
    forall k | 0 <= k < |text| && IsDigit(text[k])
      ensures LeadingSpaces(text) <= k < LeadingSpaces(text) + |Strip(text)|
    {
      StripKeepsDigit(text, k);
    }
  }

  /** Stripping first does not change what `re.search(r'\d+', ...)` finds:
      the stock is the value of the first maximal digit run of the element
      text itself, and there is none exactly when the text has no digit. */
  lemma ParseStockSearchesText(text: string)
    ensures ParseStock(text) == FirstNumber(text)
  {
    StripWindow(text);
    FirstNumberInWindow(text, Strip(text), LeadingSpaces(text));
  }

  /** Reference reading of the stock a text holds: `t[p..e]` is a maximal
      run of digits and no digit comes before it. */
  predicate FirstDigitRun(t: string, p: nat, e: nat) {
    && p < e <= |t|
    && AllDigits(t[p..e])
    && (e == |t| || !IsDigit(t[e]))
    && forall k :: 0 <= k < p ==> !IsDigit(t[k])
  }

  /** The stock read is the value of the first digit run of the raw text;
      there is none exactly when the text has no digit. */
  lemma StockIsFirstDigitRun(text: string)
    ensures ParseStock(text).Some? ==>
              exists p: nat, e: nat :: FirstDigitRun(text, p, e) && ParseStock(text).value == DigitsValue(text[p..e])
    ensures ParseStock(text).None? <==> forall k :: 0 <= k < |text| ==> !IsDigit(text[k])
  {
    ParseStockSearchesText(text);
    match SearchDigits(text, 0)
    case None =>
    case Some(m) =>
      assert FirstDigitRun(text, m.0, m.1);
  }

  /** Python's `int(s)` for a base-10 literal: surrounding whitespace, an
      optional sign, then ASCII digits. */
  function ParseInt(s: string): Option<int> {
    var t := Strip(s);
    if t == [] then None
    else if t[0] == '+' || t[0] == '-' then
      if |t| >= 2 && AllDigits(t[1..]) then
        var v: int := DigitsValue(t[1..]);
        Some(if t[0] == '-' then -v else v)
      else None
    else if AllDigits(t) then Some(DigitsValue(t))
    else None
  }

  /** `int(str(n)) == n`. */
  lemma ParseIntOfNatToString(n: nat)
    ensures ParseInt(NatToString(n)) == Some(n)
  {
    var s := NatToString(n);
    StripTrimmed(s);
  }

  /** `int` rejects a text without a digit. */
  lemma ParseIntNeedsDigit(s: string)
    requires forall k :: 0 <= k < |s| ==> !IsDigit(s[k])
    ensures ParseInt(s).None?
  {
    var t := Strip(s);
    var a := LeadingSpaces(s);
    StripTrimsEnds(s);
    assert forall k :: 0 <= k < |t| ==> t[k] == s[a + k];
    if t != [] && (t[0] == '+' || t[0] == '-') && |t| >= 2 {
      assert !IsDigit(t[1..][0]);
    } else if t != [] {
      assert !IsDigit(t[0]);
    }
  }
}
