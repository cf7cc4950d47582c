/** The Python string operations the crawler and the feature extractor use:
    `str.isspace`, `str.strip()`, `str.lstrip(chars)`, `sub in s`,
    `s.replace(pat, '')`, `str.split()`, `str(n)` and the value of a run of
    decimal digits. */
module Text {

  /** The characters for which Python's `str.isspace()` holds; `str.split()` and
      `str.strip()` with no argument break and trim on exactly these. */
  predicate IsSpace(c: char) {
    || ('\t' <= c <= '\r')
    || ('\U{1c}' <= c <= '\U{1f}')
    || c == ' '
    || c == '\U{85}'
    || c == '\U{a0}'
    || c == '\U{1680}'
    || ('\U{2000}' <= c <= '\U{200a}')
    || c == '\U{2028}'
    || c == '\U{2029}'
    || c == '\U{202f}'
    || c == '\U{205f}'
    || c == '\U{3000}'
  }

  predicate NotSpace(c: char) {
    !IsSpace(c)
  }

  predicate AllSpace(s: string) {
    forall i :: 0 <= i < |s| ==> IsSpace(s[i])
  }

  predicate NoSpace(s: string) {
    forall i :: 0 <= i < |s| ==> NotSpace(s[i])
  }

  /** `\d` restricted to the ASCII digits (see README, "Left out"). */
  predicate IsDigit(c: char) {
    '0' <= c <= '9'
  }

  predicate AllDigits(s: string) {
    forall i :: 0 <= i < |s| ==> IsDigit(s[i])
  }

  predicate StartsWith(s: string, prefix: string) {
    |prefix| <= |s| && s[..|prefix|] == prefix
  }

  /** Python's `sub in s`. */
  predicate Contains(s: string, sub: string)
    decreases |s|
  {
    StartsWith(s, sub) || (s != [] && Contains(s[1..], sub))
  }

  /** The suffix of `s` left after dropping its longest prefix whose characters
      all satisfy `p`. */
  function DropWhile(s: string, p: char -> bool): (r: string)
    ensures |r| <= |s| && r == s[|s| - |r|..]
    ensures forall i :: 0 <= i < |s| - |r| ==> p(s[i])
    ensures r != [] ==> !p(r[0])
    decreases |s|
  {
    if s != [] && p(s[0]) then DropWhile(s[1..], p) else s
  }

  /** The prefix of `s` left after dropping its longest suffix whose characters
      all satisfy `p`. */
  function DropWhileEnd(s: string, p: char -> bool): (r: string)
    ensures |r| <= |s| && r == s[..|r|]
    ensures forall i :: |r| <= i < |s| ==> p(s[i])
    ensures r != [] ==> !p(r[|r| - 1])
    decreases |s|
  {
    if s != [] && p(s[|s| - 1]) then DropWhileEnd(s[..|s| - 1], p) else s
  }

  /** Python's `s.strip()`: `s` without its leading and trailing whitespace. */
  function Strip(s: string): (r: string)
    ensures |r| <= |s|
    ensures r != [] ==> NotSpace(r[0]) && NotSpace(r[|r| - 1])
    ensures r == [] <==> AllSpace(s)
  {
    DropWhileEnd(DropWhile(s, IsSpace), IsSpace)
  }

  /** How many characters `Strip` removes at the front. */
  function LeadingSpaces(s: string): nat {
    |s| - |DropWhile(s, IsSpace)|
  }

  /** What `Strip` keeps is a window of `s`, starting after the leading
      whitespace. */
  lemma StripIsWindow(s: string)
    ensures LeadingSpaces(s) + |Strip(s)| <= |s|
    ensures Strip(s) == s[LeadingSpaces(s)..LeadingSpaces(s) + |Strip(s)|]
  {
    var front := DropWhile(s, IsSpace);
    assert Strip(s) == DropWhileEnd(front, IsSpace);
    WindowOfTail(s, front, Strip(s));
  }

  /** A prefix of a suffix of `s` is a window of `s`. */
  lemma WindowOfTail(s: string, front: string, r: string)
    requires |front| <= |s| && front == s[|s| - |front|..]
    requires |r| <= |front| && r == front[..|r|]
    ensures r == s[|s| - |front|..|s| - |front| + |r|]
  {
  }

  /** Everything past `|r|` in `front`, if it all satisfies `p`, is the
      tail of `s` past the window. */
  lemma TrimTail(s: string, front: string, r: string, p: char -> bool)
    requires |front| <= |s| && front == s[|s| - |front|..]
    requires |r| <= |front| && forall i :: |r| <= i < |front| ==> p(front[i])
    ensures forall i :: |s| - |front| + |r| <= i < |s| ==> p(s[i])
  {
    var a := |s| - |front|;
    forall i | a + |r| <= i < |s| ensures p(s[i]) {
      assert s[i] == front[i - a];
    }
  }

  /** What `Strip` removes is whitespace, and only from the two ends. */
  lemma StripTrimsEnds(s: string)
    ensures var a := LeadingSpaces(s);
            a + |Strip(s)| <= |s| && Strip(s) == s[a..a + |Strip(s)|]
            && AllSpace(s[..a]) && AllSpace(s[a + |Strip(s)|..])
  {
    StripIsWindow(s);
    StripHeadIsSpace(s);
    StripTailIsSpace(s);
  }

  lemma StripHeadIsSpace(s: string)
    ensures LeadingSpaces(s) <= |s| && AllSpace(s[..LeadingSpaces(s)])
  {
    var a := LeadingSpaces(s);
    forall i | 0 <= i < a ensures IsSpace(s[..a][i]) {
      assert s[..a][i] == s[i];
    }
  }

  lemma StripTailIsSpace(s: string)
    ensures LeadingSpaces(s) + |Strip(s)| <= |s|
    ensures AllSpace(s[LeadingSpaces(s) + |Strip(s)|..])
  {
    var front := DropWhile(s, IsSpace);
    TrimTail(s, front, DropWhileEnd(front, IsSpace), IsSpace);
    var e := LeadingSpaces(s) + |Strip(s)|;
    forall i | 0 <= i < |s| - e ensures IsSpace(s[e..][i]) {
      assert s[e..][i] == s[e + i];
    }
  }

  /** A text that neither starts nor ends with whitespace is its own `strip()`. */
  lemma StripTrimmed(s: string)
    requires s != [] && NotSpace(s[0]) && NotSpace(s[|s| - 1])
    ensures Strip(s) == s
  {
  }

  /** Python's `s.lstrip(chars)`: `chars` is a set of characters, not a prefix. */
  function LStrip(s: string, chars: set<char>): (r: string)
    ensures |r| <= |s| && r == s[|s| - |r|..]
    ensures forall i :: 0 <= i < |s| - |r| ==> s[i] in chars
    ensures r != [] ==> r[0] !in chars
  {
    DropWhile(s, c => c in chars)
  }

  /** Python's `s.replace(pat, '')`: every occurrence of `pat` found by a
      left-to-right scan is deleted. */
  function RemoveAll(s: string, pat: string): (r: string)
    requires pat != []
    ensures |r| <= |s|
    decreases |s|
  {
    if StartsWith(s, pat) then RemoveAll(s[|pat|..], pat)
    else if s == [] then []
    else [s[0]] + RemoveAll(s[1..], pat)
  }

  lemma {:induction false} RemoveAllWithoutOccurrence(s: string, pat: string)
    requires pat != [] && !Contains(s, pat)
    ensures RemoveAll(s, pat) == s
    decreases |s|
  {
    if s != [] {
      RemoveAllWithoutOccurrence(s[1..], pat);
    }
  }

  function Repeat(s: string, k: nat): string {
    if k == 0 then [] else s + Repeat(s, k - 1)
  }

  /** Deleting `pat` from `k` copies of `pat` followed by a text free of `pat`
      leaves that text. */
  lemma {:induction false} RemoveAllLeadingCopies(pat: string, k: nat, rest: string)
    requires pat != [] && !Contains(rest, pat)
    ensures RemoveAll(Repeat(pat, k) + rest, pat) == rest
  {
    if k == 0 {
      assert Repeat(pat, k) + rest == rest;
      RemoveAllWithoutOccurrence(rest, pat);
    } else {
      var s := Repeat(pat, k) + rest;
      assert s == pat + (Repeat(pat, k - 1) + rest);
      assert StartsWith(s, pat);
      assert s[|pat|..] == Repeat(pat, k - 1) + rest;
      RemoveAllLeadingCopies(pat, k - 1, rest);
    }
  }

  /** Python's `s.split()`: the maximal runs of non-whitespace characters. */
  function Words(s: string): (ws: seq<string>)
    ensures forall i :: 0 <= i < |ws| ==> ws[i] != [] && NoSpace(ws[i])
    ensures |ws| <= |s|
    ensures |ws| == 0 <==> AllSpace(s)
    decreases |s|
  {
    if s == [] then []
    else if IsSpace(s[0]) then
      var ws := Words(s[1..]);
      assert AllSpace(s[1..]) ==> AllSpace(s) by {
        if AllSpace(s[1..]) {
          forall i | 0 <= i < |s| ensures IsSpace(s[i]) {
            if i > 0 { assert s[i] == s[1..][i - 1]; }
          }
        }
      }
      ws
    else
      var rest := DropWhile(s, NotSpace);
      var k := |s| - |rest|;
      assert s[..k] + rest == s;
      [s[..k]] + Words(rest)
  }

  /** Reference count: the positions that start a word, i.e. hold a
      non-whitespace character that is first or follows whitespace. */
  function WordStarts(s: string, afterSpace: bool): nat
    decreases |s|
  {
    if s == [] then 0
    else (if afterSpace && NotSpace(s[0]) then 1 else 0) + WordStarts(s[1..], IsSpace(s[0]))
  }

  lemma {:induction false} SkipWordStarts(s: string, j: nat, k: nat)
    requires j <= k <= |s|
    requires forall i :: j <= i < k ==> NotSpace(s[i])
    requires k == |s| || IsSpace(s[k])
    ensures WordStarts(s[j..], false) == WordStarts(s[k..], true)
    decreases k - j
  {
    if j < k {
      assert s[j..][1..] == s[j + 1..];
      SkipWordStarts(s, j + 1, k);
    } else if k < |s| {
      assert s[k..][1..] == s[k + 1..];
    }
  }

  /** `len(s.split())` counts exactly the word-start positions. */
  lemma {:induction false} WordCountIsWordStarts(s: string)
    ensures |Words(s)| == WordStarts(s, true)
    decreases |s|
  {
    if s == [] {
    } else if IsSpace(s[0]) {
      WordCountIsWordStarts(s[1..]);
    } else {
      var rest := DropWhile(s, NotSpace);
      var k := |s| - |rest|;
      assert rest == s[k..];
      WordCountIsWordStarts(rest);
      SkipWordStarts(s, 1, k);
    }
  }

  function RemoveSpaces(s: string): (r: string)
    decreases |s|
  {
    if s == [] then [] else (if IsSpace(s[0]) then [] else [s[0]]) + RemoveSpaces(s[1..])
  }

  function Flatten(ws: seq<string>): string {
    if ws == [] then [] else ws[0] + Flatten(ws[1..])
  }

  lemma {:induction false} RemoveSpacesAppend(a: string, b: string)
    ensures RemoveSpaces(a + b) == RemoveSpaces(a) + RemoveSpaces(b)
    decreases |a|
  {
    if a != [] {
      assert (a + b)[0] == a[0] && (a + b)[1..] == a[1..] + b;
      RemoveSpacesAppend(a[1..], b);
    } else {
      assert a + b == b;
    }
  }

  lemma {:induction false} RemoveSpacesOfWord(w: string)
    requires NoSpace(w)
    ensures RemoveSpaces(w) == w
    decreases |w|
  {
    if w != [] {
      RemoveSpacesOfWord(w[1..]);
    }
  }

  /** The words, put back together, are the text without its whitespace. */
  lemma {:induction false} WordsKeepAllNonSpace(s: string)
    ensures Flatten(Words(s)) == RemoveSpaces(s)
    decreases |s|
  {
    if s == [] {
    } else if IsSpace(s[0]) {
      WordsKeepAllNonSpace(s[1..]);
    } else {
      var rest := DropWhile(s, NotSpace);
      var k := |s| - |rest|;
      assert s == s[..k] + rest;
      WordsKeepAllNonSpace(rest);
      RemoveSpacesAppend(s[..k], rest);
      RemoveSpacesOfWord(s[..k]);
    }
  }

  function DigitValue(c: char): (d: nat)
    requires IsDigit(c)
    ensures d < 10
  {
    c as int - '0' as int
  }

  function DigitChar(d: nat): (c: char)
    requires d < 10
    ensures IsDigit(c) && DigitValue(c) == d
  {
    ('0' as int + d) as char
  }

  /** The number a run of decimal digits denotes (Python's `int` of it). */
  function DigitsValue(s: string): nat
    requires AllDigits(s)
    decreases |s|
  {
    if s == [] then 0 else 10 * DigitsValue(s[..|s| - 1]) + DigitValue(s[|s| - 1])
  }

  /** Python's `str(n)` / `'{}'.format(n)` for a non-negative integer. */
  function NatToString(n: nat): (s: string)
    ensures s != [] && AllDigits(s)
    ensures DigitsValue(s) == n
    ensures s[0] == '0' ==> n == 0
    decreases n
  {
    if n < 10 then [DigitChar(n)]
    else
      var s := NatToString(n / 10) + [DigitChar(n % 10)];
      assert s[..|s| - 1] == NatToString(n / 10);
      s
  }

  /** A canonical digit string (no leading zero) is the decimal form of its value. */
  lemma {:induction false} NatToStringOfDigits(s: string)
    requires s != [] && AllDigits(s) && (s[0] == '0' ==> |s| == 1)
    ensures NatToString(DigitsValue(s)) == s
    decreases |s|
  {
    var p := s[..|s| - 1];
    var d := DigitValue(s[|s| - 1]);
    if p == [] {
      assert s == [DigitChar(d)];
    } else {
      assert p[0] == s[0];
      LeadingDigitBound(p);
      NatToStringOfDigits(p);
      var n := DigitsValue(s);
      assert n == 10 * DigitsValue(p) + d;
      assert n / 10 == DigitsValue(p) && n % 10 == d;
      assert s == p + [DigitChar(d)];
    }
  }

  lemma {:induction false} LeadingDigitBound(s: string)
    requires s != [] && AllDigits(s) && s[0] != '0'
    ensures DigitsValue(s) >= 1
    decreases |s|
  {
    if |s| > 1 {
      LeadingDigitBound(s[..|s| - 1]);
    }
  }
}
