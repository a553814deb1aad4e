/** The optimal-recognition-point split of the word shown in speed view:
    the letters before the focus letter, the focus letter (drawn in red) and
    the letters after it. Two rules exist: the current one, about a third of
    the way into the word, and the earlier one, the third letter at most. */
module Orp {
  import opened JsStrings

  datatype Emphasis = Emphasis(before: string, focus: string, after: string)

  /** `Math.round(x)`: the nearest integer, halves rounded up. */
  function JsRound(x: real): (r: int)
    ensures r as real <= x + 0.5 < r as real + 1.0
  {
    (x + 0.5).Floor
  }

  /** `Math.round((len - 1) / 3)`, then 1 for two letters and 0 for one. */
  function OrpIndex(len: nat): int {
    var orp := JsRound(((len as real) - 1.0) / 3.0);
    if len == 2 then 1 else if len == 1 then 0 else orp
  }

  /** For every length but two the rounded third is the integer third, so
      the focus sits at `len / 3`; the empty word gets index 0. */
  lemma OrpIndexIsThird(len: nat)
    ensures len != 2 ==> OrpIndex(len) == len / 3
    ensures len == 2 ==> OrpIndex(len) == 1
  {
    var q, r := len / 3, len % 3;
    assert len == 3 * q + r;
    var x := ((len as real) - 1.0) / 3.0 + 0.5;
    assert x == q as real + (r as real + 0.5) / 3.0;
    assert q as real <= x < q as real + 1.0;
  }

  /** The index lies inside every non-empty word. */
  lemma OrpIndexInWord(len: nat)
    ensures len > 0 ==> 0 <= OrpIndex(len) < len
    ensures len == 0 ==> OrpIndex(len) == 0
  {
    OrpIndexIsThird(len);
  }

  /** The three parts of a word as `updateWordDisplay` computes them. */
  function Split(word: string): (e: Emphasis)
    ensures e.before + e.focus + e.after == word
    ensures |word| > 0 ==> e.focus == [word[OrpIndex(|word|)]] && e.before == word[..OrpIndex(|word|)]
    ensures |word| == 0 ==> e == Emphasis("", "", "")
  {
    var orp := OrpIndex(|word|);
    OrpIndexInWord(|word|);
    var e := Emphasis(Substring(word, 0, orp), CharAt(word, orp), Substring(word, orp + 1, |word|));
    assert |word| > 0 ==> word == word[..orp] + [word[orp]] + word[orp + 1..];
    e
  }

  /** A few words and where their focus letter falls. */
  lemma SplitExamples()
    ensures Split("a") == Emphasis("", "a", "")
    ensures Split("an") == Emphasis("a", "n", "")
    ensures Split("the") == Emphasis("t", "h", "e")
    ensures Split("reading") == Emphasis("re", "a", "ding")
  {
    OrpIndexIsThird(1);
    OrpIndexIsThird(3);
    OrpIndexIsThird(7);
  }

  // ---------------------------------------------------------------------------
  // The earlier rule

  /** `Math.min(2, word.length - 1)`: -1 for the empty word. */
  function LegacyOrpIndex(len: nat): (r: int)
    ensures len == 0 ==> r == -1
    ensures len > 0 ==> 0 <= r < len && r <= 2
    ensures len == 1 ==> r == 0
    ensures len == 2 ==> r == 1
    ensures len >= 3 ==> r == 2
  {
    if 2 < len - 1 then 2 else len - 1
  }

  /** The split of the earlier snapshot: the focus is the first, second or
      third letter for words of one, two or more letters. */
  function LegacySplit(word: string): (e: Emphasis)
    ensures e.before + e.focus + e.after == word
    ensures |word| > 0 ==> e.focus == [word[LegacyOrpIndex(|word|)]] && e.before == word[..LegacyOrpIndex(|word|)]
    ensures |word| == 1 ==> e.focus == [word[0]]
    ensures |word| == 2 ==> e.focus == [word[1]]
    ensures |word| >= 3 ==> e.focus == [word[2]] && e.before == word[..2]
    ensures |word| == 0 ==> e == Emphasis("", "", "")
  {
    var orp := LegacyOrpIndex(|word|);
    var e := Emphasis(Substring(word, 0, orp), CharAt(word, orp), Substring(word, orp + 1, |word|));
    assert |word| > 0 ==> word == word[..orp] + [word[orp]] + word[orp + 1..];
    e
  }

  /** How the two rules compare: the same letter for words of one, two and
      six to eight letters, an earlier one now for three to five letters,
      a later one from nine letters on. */
  lemma RulesCompared(word: string)
    ensures |word| <= 2 ==> Split(word) == LegacySplit(word)
    ensures 3 <= |word| <= 5 ==> OrpIndex(|word|) == 1 < LegacyOrpIndex(|word|)
    ensures 6 <= |word| <= 8 ==> OrpIndex(|word|) == LegacyOrpIndex(|word|)
    ensures |word| >= 9 ==> OrpIndex(|word|) > LegacyOrpIndex(|word|)
  {
    OrpIndexIsThird(|word|);
  }
}
