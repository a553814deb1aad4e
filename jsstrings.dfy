/** The few JavaScript string primitives the reader relies on, on strings of
    code points: the `\s` class of regular expressions, `trim`, `startsWith`,
    `endsWith`, `substring`, bracket indexing and number-to-string for
    non-negative integers. */
module JsStrings {

  /** The characters matched by `\s` (ECMAScript WhiteSpace and LineTerminator). */
  predicate IsWhitespace(c: char) {
    || c == '\t' || c == '\n' || c == '\U{000B}' || c == '\U{000C}' || c == '\r' || c == ' '
    || c == '\U{00A0}' || c == '\U{1680}' || ('\U{2000}' <= c <= '\U{200A}')
    || c == '\U{2028}' || c == '\U{2029}' || c == '\U{202F}' || c == '\U{205F}'
    || c == '\U{3000}' || c == '\U{FEFF}'
  }

  predicate IsBlank(s: string) {
    forall i :: 0 <= i < |s| ==> IsWhitespace(s[i])
  }

  predicate HasNoWhitespace(s: string) {
    forall i :: 0 <= i < |s| ==> !IsWhitespace(s[i])
  }

  predicate StartsWith(s: string, prefix: string) {
    |prefix| <= |s| && s[..|prefix|] == prefix
  }

  predicate EndsWith(s: string, suffix: string) {
    |suffix| <= |s| && s[|s| - |suffix|..] == suffix
  }

  lemma StartsWithAppend(prefix: string, rest: string)
    ensures StartsWith(prefix + rest, prefix)
  {
    assert (prefix + rest)[..|prefix|] == prefix;
  }

  /** Concatenation of a list of lists, in order (`words.join('')` for strings). */
  function Concat<T>(ss: seq<seq<T>>): seq<T> {
    if |ss| == 0 then [] else Concat(ss[..|ss| - 1]) + ss[|ss| - 1]
  }

  lemma {:induction false} ConcatAppend<T>(a: seq<seq<T>>, b: seq<seq<T>>)
    ensures Concat(a + b) == Concat(a) + Concat(b)
  {
    if |b| == 0 {
      assert a + b == a;
    } else {
      ConcatAppend(a, b[..|b| - 1]);
      assert (a + b)[..|a + b| - 1] == a + b[..|b| - 1];
    }
  }

  lemma ConcatSingleton<T>(s: seq<T>)
    ensures Concat([s]) == s
  {
    assert [s][..0] == [];
  }

  /** The string with every `\s` character deleted. */
  function RemoveWhitespace(s: string): (r: string)
    ensures HasNoWhitespace(r)
    ensures |r| <= |s|
  {
    if |s| == 0 then ""
    else (if IsWhitespace(s[0]) then "" else [s[0]]) + RemoveWhitespace(s[1..])
  }

  lemma {:induction false} RemoveWhitespaceAppend(a: string, b: string)
    ensures RemoveWhitespace(a + b) == RemoveWhitespace(a) + RemoveWhitespace(b)
  {
    if |a| == 0 {
      assert a + b == b;
    } else {
      var head := if IsWhitespace(a[0]) then "" else [a[0]];
      assert (a + b)[0] == a[0] && (a + b)[1..] == a[1..] + b;
      assert RemoveWhitespace(a + b) == head + RemoveWhitespace(a[1..] + b);
      RemoveWhitespaceAppend(a[1..], b);
      assert head + (RemoveWhitespace(a[1..]) + RemoveWhitespace(b))
          == (head + RemoveWhitespace(a[1..])) + RemoveWhitespace(b);
    }
  }

  lemma {:induction false} RemoveWhitespaceOfBlank(s: string)
    requires IsBlank(s)
    ensures RemoveWhitespace(s) == ""
  {
    if |s| > 0 {
      RemoveWhitespaceOfBlank(s[1..]);
    }
  }

  lemma {:induction false} RemoveWhitespaceOfSolid(s: string)
    requires HasNoWhitespace(s)
    ensures RemoveWhitespace(s) == s
  {
    if |s| > 0 {
      RemoveWhitespaceOfSolid(s[1..]);
    }
  }

  /** `t` is `s` with a blank prefix cut off, and does not start with
      whitespace. */
  predicate BlankPrefixCut(s: string, t: string) {
    |t| <= |s| && t == s[|s| - |t|..] && IsBlank(s[..|s| - |t|]) &&
    (t == [] || !IsWhitespace(t[0]))
  }

  /** `r` is `t` with a blank suffix cut off, and does not end with
      whitespace. */
  predicate BlankSuffixCut(t: string, r: string) {
    |r| <= |t| && r == t[..|r|] && IsBlank(t[|r|..]) &&
    (r == [] || !IsWhitespace(r[|r| - 1]))
  }

  /** `s.trimStart()`: the suffix left after dropping leading whitespace. */
  function TrimStart(s: string): (r: string)
    ensures BlankPrefixCut(s, r)
  {
    if |s| > 0 && IsWhitespace(s[0]) then
      var r := TrimStart(s[1..]);
      BlankPrefixCutStep(s, r);
      r
    else
      assert s[..0] == [];
      s
  }

  /** A leading whitespace character joins the blank prefix. */
  lemma BlankPrefixCutStep(s: string, r: string)
    requires |s| > 0 && IsWhitespace(s[0]) && BlankPrefixCut(s[1..], r)
    ensures BlankPrefixCut(s, r)
  {
    var k := |s| - |r|;
    assert s[1..][k - 1..] == s[k..];
    assert s[1..][..k - 1] == s[1..k];
    forall i | 0 <= i < k ensures IsWhitespace(s[..k][i]) {
      if i > 0 {
        assert s[..k][i] == s[1..][..k - 1][i - 1];
      }
    }
  }

  /** `s.trimEnd()`: the prefix left after dropping trailing whitespace. */
  function TrimEnd(s: string): (r: string)
    ensures BlankSuffixCut(s, r)
  {
    if |s| > 0 && IsWhitespace(s[|s| - 1]) then
      var r := TrimEnd(s[..|s| - 1]);
      BlankSuffixCutStep(s, r);
      r
    else
      assert s[|s|..] == [];
      s
  }

  /** A trailing whitespace character joins the blank suffix. */
  lemma BlankSuffixCutStep(s: string, r: string)
    requires |s| > 0 && IsWhitespace(s[|s| - 1]) && BlankSuffixCut(s[..|s| - 1], r)
    ensures BlankSuffixCut(s, r)
  {
    var t := s[..|s| - 1];
    assert t[..|r|] == s[..|r|];
    forall i | 0 <= i < |s| - |r| ensures IsWhitespace(s[|r|..][i]) {
      if i < |s| - 1 - |r| {
        assert s[|r|..][i] == t[|r|..][i];
      }
    }
  }

  /** `r` is `s` with a blank prefix and a blank suffix cut off. */
  predicate IsUnpadded(r: string, s: string) {
    exists k :: 0 <= k <= |s| - |r| && s[k..k + |r|] == r && IsBlank(s[..k]) && IsBlank(s[k + |r|..])
  }

  /** `s.trim()`: empty exactly for blank strings, otherwise the piece of `s`
      left by cutting off blank ends, which neither starts nor ends with
      whitespace. */
  function Trim(s: string): (r: string)
    ensures r == [] <==> IsBlank(s)
    ensures r != [] ==> !IsWhitespace(r[0]) && !IsWhitespace(r[|r| - 1])
    ensures IsUnpadded(r, s)
    ensures |r| <= |s|
  {
    var t := TrimStart(s);
    var r := TrimEnd(t);
    TrimAgreesWithBlank(s, t, r);
    TrimUnpadded(s, t, r);
    r
  }

  /** Cutting a blank prefix and then a blank suffix leaves nothing exactly
      for blank text, and otherwise text with no whitespace at either end. */
  lemma TrimAgreesWithBlank(s: string, t: string, r: string)
    requires BlankPrefixCut(s, t) && BlankSuffixCut(t, r)
    ensures r == [] <==> IsBlank(s)
    ensures r != [] ==> !IsWhitespace(r[0]) && !IsWhitespace(r[|r| - 1])
    ensures |r| <= |s|
  {
    var k := |s| - |t|;
    if r == [] {
      assert t[|r|..] == t;
      assert s == s[..k] + t;
    } else {
      assert s[k] == t[0] == r[0];
    }
  }

  /** Cutting a blank prefix and then a blank suffix leaves a piece of the
      text with blank text on either side. */
  lemma TrimUnpadded(s: string, t: string, r: string)
    requires BlankPrefixCut(s, t) && BlankSuffixCut(t, r)
    ensures IsUnpadded(r, s)
  {
    var k := |s| - |t|;
    assert s[k..k + |r|] == r;
    assert s[k + |r|..] == t[|r|..];
    UnpaddedAt(r, s, k);
  }

  lemma UnpaddedAt(r: string, s: string, k: nat)
    requires k <= |s| - |r| && s[k..k + |r|] == r
    requires IsBlank(s[..k]) && IsBlank(s[k + |r|..])
    ensures IsUnpadded(r, s)
  {
  }

  /** JavaScript's clamping of a `substring` bound into `[0, n]`. */
  function ClampIndex(i: int, n: nat): (r: nat)
    ensures r <= n
    ensures 0 <= i <= n ==> r == i
  {
    if i < 0 then 0 else if i > n then n else i
  }

  /** `s.substring(start, end)`: both bounds clamped into range, then swapped
      when they are out of order. */
  function Substring(s: string, start: int, end: int): (r: string)
    ensures 0 <= start <= end <= |s| ==> r == s[start..end]
  {
    var a := ClampIndex(start, |s|);
    var b := ClampIndex(end, |s|);
    if a <= b then s[a..b] else s[b..a]
  }

  /** `s[i] || ''`: the one-character string at `i`, or `''` out of range. */
  function CharAt(s: string, i: int): (r: string)
    ensures |r| <= 1
    ensures r != "" <==> 0 <= i < |s|
    ensures 0 <= i < |s| ==> r == [s[i]]
  {
    if 0 <= i < |s| then [s[i]] else ""
  }

  predicate IsDigits(s: string) {
    forall i :: 0 <= i < |s| ==> '0' <= s[i] <= '9'
  }

  /** The number a string of decimal digits denotes. */
  function DecimalValue(s: string): nat
    requires IsDigits(s)
  {
    if |s| == 0 then 0
    else 10 * DecimalValue(s[..|s| - 1]) + (s[|s| - 1] as int - '0' as int)
  }

  function DigitChar(d: nat): (c: char)
    requires d < 10
    ensures '0' <= c <= '9' && c as int - '0' as int == d
  {
    (d + '0' as int) as char
  }

  /** The decimal rendering of a non-negative integer (`${n}` in a template):
      digits only, no leading zero, and it reads back as `n`. */
  function NatToString(n: nat): (r: string)
    ensures |r| >= 1 && IsDigits(r)
    ensures |r| > 1 ==> r[0] != '0'
    ensures DecimalValue(r) == n
  {
    if n < 10 then [DigitChar(n)]
    else
      var prefix := NatToString(n / 10);
      var r := prefix + [DigitChar(n % 10)];
      assert r[..|r| - 1] == prefix;
      r
  }
}
