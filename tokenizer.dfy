/** The plain-text tokenizer of `www/main.js`: punctuation spacing, splitting
    on whitespace, merging of trailing punctuation, and the percentage table
    of contents that `parseTXT` builds. The same three tokenizing steps are
    applied to each EPUB chapter (module Epub). */
module Tokenizer {
  import opened JsStrings

  // ---------------------------------------------------------------------------
  // Character classes

  /** The characters `parseTXT` surrounds with spaces: , . ! ? ; : and the
      en and em dashes. The hyphen is not among them. */
  predicate IsSpacedPunctuation(c: char) {
    c == ',' || c == '.' || c == '!' || c == '?' || c == ';' || c == ':'
    || c == '\U{2013}' || c == '\U{2014}'
  }

  /** A token that `mergeTrailingPunctuation` appends to the previous word:
      exactly one character, a hyphen or one of the spaced punctuation marks. */
  predicate IsMergePunctuation(w: string) {
    |w| == 1 && (w[0] == '-' || IsSpacedPunctuation(w[0]))
  }

  /** `s[i]` exists and is whitespace. */
  predicate WhitespaceAt(s: string, i: int) {
    0 <= i < |s| && IsWhitespace(s[i])
  }

  /** Every spaced punctuation mark has whitespace (or the end of the string)
      on both sides. */
  predicate PunctuationIsolated(s: string) {
    forall i :: 0 <= i < |s| && IsSpacedPunctuation(s[i]) ==>
      (i == 0 || IsWhitespace(s[i - 1])) && (i == |s| - 1 || IsWhitespace(s[i + 1]))
  }

  // ---------------------------------------------------------------------------
  // Step 1: `content.replace(/([,\.!?;:–—])/g, ' $1 ')`

  /** Inserts a space before and after every spaced punctuation mark. */
  function SpacePunctuation(s: string): string {
    if |s| == 0 then ""
    else (if IsSpacedPunctuation(s[0]) then [' ', s[0], ' '] else [s[0]]) + SpacePunctuation(s[1..])
  }

  /** Spacing adds only whitespace: deleting whitespace gives the same text. */
  lemma {:induction false} SpacePunctuationKeepsText(s: string)
    ensures RemoveWhitespace(SpacePunctuation(s)) == RemoveWhitespace(s)
  {
    if |s| > 0 {
      var head := if IsSpacedPunctuation(s[0]) then [' ', s[0], ' '] else [s[0]];
      var rest := SpacePunctuation(s[1..]);
      SpacePunctuationKeepsText(s[1..]);
      SpacedHead(s, head);
      RemoveWhitespaceAppend(head, rest);
      assert SpacePunctuation(s) == head + rest;
    }
  }

  /** After spacing every mark is isolated, and the text neither starts nor
      ends with a mark. */
  lemma {:induction false} SpacePunctuationIsolates(s: string)
    ensures PunctuationIsolated(SpacePunctuation(s))
    ensures var r := SpacePunctuation(s);
      |r| > 0 ==> !IsSpacedPunctuation(r[0]) && !IsSpacedPunctuation(r[|r| - 1])
  {
    if |s| > 0 {
      var head := if IsSpacedPunctuation(s[0]) then [' ', s[0], ' '] else [s[0]];
      var rest := SpacePunctuation(s[1..]);
      SpacePunctuationIsolates(s[1..]);
      SpacedHead(s, head);
      IsolatedAppend(head, rest);
      assert SpacePunctuation(s) == head + rest;
    }
  }

  lemma {:induction false} SpacePunctuationAppend(a: string, b: string)
    ensures SpacePunctuation(a + b) == SpacePunctuation(a) + SpacePunctuation(b)
  {
    if |a| == 0 {
      assert a + b == b;
    } else {
      assert (a + b)[0] == a[0] && (a + b)[1..] == a[1..] + b;
      SpacePunctuationAppend(a[1..], b);
    }
  }

  lemma {:induction false} SpacePunctuationOfPlain(s: string)
    requires forall i :: 0 <= i < |s| ==> !IsSpacedPunctuation(s[i])
    ensures SpacePunctuation(s) == s
  {
    if |s| > 0 {
      SpacePunctuationOfPlain(s[1..]);
    }
  }

  lemma SpacedHead(s: string, head: string)
    requires |s| > 0
    requires head == if IsSpacedPunctuation(s[0]) then [' ', s[0], ' '] else [s[0]]
    ensures RemoveWhitespace(head) + RemoveWhitespace(s[1..]) == RemoveWhitespace(s)
    ensures PunctuationIsolated(head)
    ensures !IsSpacedPunctuation(head[0]) && !IsSpacedPunctuation(head[|head| - 1])
  {
    var c := s[0];
    assert s == [c] + s[1..];
    RemoveWhitespaceAppend([c], s[1..]);
    if IsSpacedPunctuation(c) {
      SpacedMark(c);
    }
  }

  lemma SpacedMark(c: char)
    requires IsSpacedPunctuation(c)
    ensures RemoveWhitespace([' ', c, ' ']) == RemoveWhitespace([c]) == [c]
    ensures PunctuationIsolated([' ', c, ' '])
  {
    assert !IsWhitespace(c);
    assert [c][1..] == [] && [' '][1..] == [];
    assert RemoveWhitespace([c]) == [c] + RemoveWhitespace([]) == [c];
    assert RemoveWhitespace([' ']) == [];
    assert [c, ' '][1..] == [' '];
    assert RemoveWhitespace([c, ' ']) == [c] + RemoveWhitespace([' ']) == [c];
    assert [' ', c, ' '][1..] == [c, ' '];
  }

  lemma IsolatedAppend(a: string, b: string)
    requires PunctuationIsolated(a) && PunctuationIsolated(b)
    requires |a| > 0 ==> !IsSpacedPunctuation(a[|a| - 1])
    requires |b| > 0 ==> !IsSpacedPunctuation(b[0])
    ensures PunctuationIsolated(a + b)
  {
    var r := a + b;
    forall i | 0 <= i < |r| && IsSpacedPunctuation(r[i])
      ensures (i == 0 || IsWhitespace(r[i - 1])) && (i == |r| - 1 || IsWhitespace(r[i + 1]))
    {
      if i < |a| {
        assert r[i] == a[i] && i < |a| - 1;
        assert i > 0 ==> r[i - 1] == a[i - 1];
        assert r[i + 1] == a[i + 1];
      } else {
        var j := i - |a|;
        assert r[i] == b[j] && j > 0;
        assert r[i - 1] == b[j - 1];
        assert j < |b| - 1 ==> r[i + 1] == b[j + 1];
      }
    }
  }

  // ---------------------------------------------------------------------------
  // Step 2: `split(/\s+/).filter(word => word.length > 0)`

  /** Length of the run of non-whitespace characters at the start of `s`. */
  function RunLength(s: string): (n: nat)
    ensures n <= |s|
    ensures HasNoWhitespace(s[..n])
    ensures n < |s| ==> IsWhitespace(s[n])
  {
    if |s| == 0 || IsWhitespace(s[0]) then 0
    else
      var n := 1 + RunLength(s[1..]);
      assert s[..n] == [s[0]] + s[1..][..n - 1];
      n
  }

  /** The maximal runs of non-whitespace characters of `s`, in order: every
      word is non-empty and free of whitespace, and together they spell `s`
      with its whitespace deleted. */
  function Words(s: string): (ws: seq<string>)
    ensures forall i :: 0 <= i < |ws| ==> |ws[i]| > 0 && HasNoWhitespace(ws[i])
    ensures Concat(ws) == RemoveWhitespace(s)
    decreases |s|
  {
    if |s| == 0 then []
    else if IsWhitespace(s[0]) then
      assert RemoveWhitespace(s) == RemoveWhitespace(s[1..]);
      Words(s[1..])
    else
      var n := RunLength(s);
      var rest := Words(s[n..]);
      var ws := [s[..n]] + rest;
      ConcatAppend([s[..n]], rest);
      ConcatSingleton(s[..n]);
      assert s == s[..n] + s[n..];
      RemoveWhitespaceAppend(s[..n], s[n..]);
      RemoveWhitespaceOfSolid(s[..n]);
      ws
  }

  lemma {:induction false} RunLengthOfSolidPrefix(w: string, t: string)
    requires HasNoWhitespace(w)
    requires |t| == 0 || IsWhitespace(t[0])
    ensures RunLength(w + t) == |w|
  {
    if |w| > 0 {
      assert (w + t)[1..] == w[1..] + t;
      RunLengthOfSolidPrefix(w[1..], t);
    } else {
      assert w + t == t;
    }
  }

  /** The words joined by single spaces (`ws.join(' ')`). */
  function Join(ws: seq<string>): string {
    if |ws| == 0 then ""
    else if |ws| == 1 then ws[0]
    else ws[0] + " " + Join(ws[1..])
  }

  /** Splitting undoes joining: a list of non-empty, whitespace-free words
      joined with spaces splits back into exactly that list. */
  lemma {:induction false} WordsOfJoin(ws: seq<string>)
    requires forall i :: 0 <= i < |ws| ==> |ws[i]| > 0 && HasNoWhitespace(ws[i])
    ensures Words(Join(ws)) == ws
  {
    if |ws| == 1 {
      WordsOfSolid(ws[0]);
    } else if |ws| > 1 {
      assert Join(ws) == ws[0] + " " + Join(ws[1..]);
      WordsOfSolidThenSpace(ws[0], Join(ws[1..]));
      WordsOfJoin(ws[1..]);
      assert ws == [ws[0]] + ws[1..];
    }
  }

  /** A single run of non-whitespace is a single word. */
  lemma WordsOfSolid(w: string)
    requires |w| > 0 && HasNoWhitespace(w)
    ensures Words(w) == [w]
  {
    RunLengthOfSolidPrefix(w, "");
    assert w + "" == w;
    assert w[|w|..] == "";
  }

  lemma {:induction false} RunLengthOfLongerString(a: string, b: string)
    requires RunLength(a) < |a|
    ensures RunLength(a + b) == RunLength(a)
  {
    if !IsWhitespace(a[0]) {
      assert (a + b)[1..] == a[1..] + b;
      RunLengthOfLongerString(a[1..], b);
    }
  }

  /** Text that ends in whitespace splits independently of what follows it. */
  lemma {:induction false} WordsAfterSeparator(a: string, b: string)
    requires |a| == 0 || IsWhitespace(a[|a| - 1])
    ensures Words(a + b) == Words(a) + Words(b)
    decreases |a|
  {
    if |a| == 0 {
      assert a + b == b;
    } else if IsWhitespace(a[0]) {
      WordsAfterSeparator(a[1..], b);
      SeparatorAfterSpace(a, b);
    } else {
      RunLengthOfLongerString(a, b);
      WordsAfterSeparator(a[RunLength(a)..], b);
      SeparatorAfterRun(a, b);
    }
  }

  lemma SeparatorAfterSpace(a: string, b: string)
    requires |a| > 0 && IsWhitespace(a[0])
    requires Words(a[1..] + b) == Words(a[1..]) + Words(b)
    ensures Words(a + b) == Words(a) + Words(b)
  {
    WordsOfJoinedSpace(a, b);
    WordsOfSpaceHead(a);
  }

  lemma WordsOfJoinedSpace(a: string, b: string)
    requires |a| > 0 && IsWhitespace(a[0])
    ensures Words(a + b) == Words(a[1..] + b)
  {
    assert (a + b)[1..] == a[1..] + b;
    WordsOfSpaceHead(a + b);
  }

  lemma WordsOfSpaceHead(s: string)
    requires |s| > 0 && IsWhitespace(s[0])
    ensures Words(s) == Words(s[1..])
  {
  }

  lemma SeparatorAfterRun(a: string, b: string)
    requires |a| > 0 && !IsWhitespace(a[0]) && RunLength(a) < |a|
    requires RunLength(a + b) == RunLength(a)
    requires Words(a[RunLength(a)..] + b) == Words(a[RunLength(a)..]) + Words(b)
    ensures Words(a + b) == Words(a) + Words(b)
  {
    var n := RunLength(a);
    WordsOfJoinedRun(a, b);
    WordsOfSolidHead(a);
    AppendAssoc([a[..n]], Words(a[n..]), Words(b));
  }

  lemma WordsOfJoinedRun(a: string, b: string)
    requires |a| > 0 && !IsWhitespace(a[0]) && RunLength(a) < |a|
    requires RunLength(a + b) == RunLength(a)
    ensures Words(a + b) == [a[..RunLength(a)]] + Words(a[RunLength(a)..] + b)
  {
    var n := RunLength(a);
    assert (a + b)[..n] == a[..n];
    assert (a + b)[n..] == a[n..] + b;
    WordsOfSolidHead(a + b);
  }

  lemma WordsOfSolidHead(s: string)
    requires |s| > 0 && !IsWhitespace(s[0])
    ensures Words(s) == [s[..RunLength(s)]] + Words(s[RunLength(s)..])
  {
  }

  lemma AppendAssoc(x: seq<string>, y: seq<string>, z: seq<string>)
    ensures x + (y + z) == (x + y) + z
  {
  }

  /** In isolated text every word that contains a spaced punctuation mark is
      that mark alone: after step 1, marks always become tokens of their own. */
  lemma {:induction false} IsolatedMarksAreOwnWords(s: string)
    requires PunctuationIsolated(s)
    ensures forall i, k ::
              0 <= i < |Words(s)| && 0 <= k < |Words(s)[i]| && IsSpacedPunctuation(Words(s)[i][k]) ==>
                |Words(s)[i]| == 1
    decreases |s|
  {
    if |s| == 0 {
    } else if IsWhitespace(s[0]) {
      assert PunctuationIsolated(s[1..]) by {
        forall i | 0 <= i < |s[1..]| && IsSpacedPunctuation(s[1..][i])
          ensures (i == 0 || IsWhitespace(s[1..][i - 1])) && (i == |s[1..]| - 1 || IsWhitespace(s[1..][i + 1]))
        {
          assert s[1..][i] == s[i + 1];
        }
      }
      IsolatedMarksAreOwnWords(s[1..]);
    } else {
      var n := RunLength(s);
      var t := s[n..];
      assert PunctuationIsolated(t) by {
        forall i | 0 <= i < |t| && IsSpacedPunctuation(t[i])
          ensures (i == 0 || IsWhitespace(t[i - 1])) && (i == |t| - 1 || IsWhitespace(t[i + 1]))
        {
          assert t[i] == s[n + i];
          assert i != 0;
        }
      }
      IsolatedMarksAreOwnWords(t);
      var w := s[..n];
      forall k | 0 <= k < |w| && IsSpacedPunctuation(w[k])
        ensures |w| == 1
      {
        assert w[k] == s[k];
        MarkInSolidRun(s, n, k);
      }
      var ws := Words(s);
      assert ws == [w] + Words(t);
      forall i, k | 0 <= i < |ws| && 0 <= k < |ws[i]| && IsSpacedPunctuation(ws[i][k])
        ensures |ws[i]| == 1
      {
        if i > 0 {
          assert ws[i] == Words(t)[i - 1];
        }
      }
    }
  }

  /** A mark inside a run of non-whitespace characters of isolated text is
      the whole run. */
  lemma MarkInSolidRun(s: string, n: nat, k: nat)
    requires PunctuationIsolated(s)
    requires k < n <= |s|
    requires forall j :: 0 <= j < n ==> !IsWhitespace(s[j])
    requires IsSpacedPunctuation(s[k])
    ensures k == 0 && n == 1
  {
    assert k > 0 ==> WhitespaceAt(s, k - 1);
    assert k > 0 ==> !WhitespaceAt(s, k - 1);
    assert k + 1 < |s| ==> WhitespaceAt(s, k + 1);
    assert k + 1 < n ==> !WhitespaceAt(s, k + 1);
  }

  // ---------------------------------------------------------------------------
  // Step 3: `mergeTrailingPunctuation`

  /** What `mergeTrailingPunctuation` returns, stated word by word from the
      left: a merge token is appended to the last word produced so far, or
      kept when there is none. */
  function Merged(ws: seq<string>): seq<string> {
    if |ws| == 0 then []
    else
      var prev := Merged(ws[..|ws| - 1]);
      var w := ws[|ws| - 1];
      if IsMergePunctuation(w) && |prev| > 0 then prev[|prev| - 1 := prev[|prev| - 1] + w]
      else prev + [w]
  }

  /** The loop of `mergeTrailingPunctuation`, pushing onto or extending `result`. */
  method MergeTrailingPunctuation(words: seq<string>) returns (result: seq<string>)
    ensures result == Merged(words)
  {
    result := [];
    for i := 0 to |words|
      invariant result == Merged(words[..i])
    {
      var word := words[i];
      assert words[..i + 1][..i] == words[..i];
      if IsMergePunctuation(word) {
        if |result| > 0 {
          result := result[|result| - 1 := result[|result| - 1] + word];
        } else {
          result := result + [word];
        }
      } else {
        result := result + [word];
      }
    }
    assert words[..|words|] == words;
  }

  /** The number of merge tokens after the first position: each is absorbed. */
  function MergeCount(ws: seq<string>): nat {
    if |ws| <= 1 then 0
    else MergeCount(ws[..|ws| - 1]) + (if IsMergePunctuation(ws[|ws| - 1]) then 1 else 0)
  }

  /** Merging only regroups characters: the concatenation is unchanged. */
  lemma {:induction false} MergedConcat(ws: seq<string>)
    ensures Concat(Merged(ws)) == Concat(ws)
  {
    if |ws| > 0 {
      var init := ws[..|ws| - 1];
      var w := ws[|ws| - 1];
      var prev := Merged(init);
      MergedConcat(init);
      assert ws == init + [w];
      ConcatAppend(init, [w]);
      ConcatSingleton(w);
      if IsMergePunctuation(w) && |prev| > 0 {
        var k := |prev| - 1;
        var next := prev[k := prev[k] + w];
        assert next[..k] == prev[..k];
        assert Concat(next) == Concat(prev[..k]) + (prev[k] + w);
      } else {
        ConcatAppend(prev, [w]);
      }
    }
  }

  /** Exactly one output word is lost per merge token after the first
      position; in particular the output is never longer than the input. */
  lemma {:induction false} MergedLength(ws: seq<string>)
    ensures |Merged(ws)| + MergeCount(ws) == |ws|
    ensures |ws| > 0 ==> |Merged(ws)| > 0
  {
    if |ws| > 0 {
      MergedLength(ws[..|ws| - 1]);
    }
  }

  /** On non-empty, whitespace-free tokens the output is again non-empty and
      whitespace-free, begins with the first token, and no merge token stands
      alone after the first position. */
  lemma {:induction false} MergedShape(ws: seq<string>)
    requires forall i :: 0 <= i < |ws| ==> |ws[i]| > 0 && HasNoWhitespace(ws[i])
    ensures forall i :: 0 <= i < |Merged(ws)| ==> |Merged(ws)[i]| > 0 && HasNoWhitespace(Merged(ws)[i])
    ensures forall i :: 0 < i < |Merged(ws)| ==> !IsMergePunctuation(Merged(ws)[i])
    ensures |ws| > 0 ==> |Merged(ws)| > 0 && StartsWith(Merged(ws)[0], ws[0])
  {
    if |ws| > 0 {
      var init := ws[..|ws| - 1];
      var w := ws[|ws| - 1];
      var prev := Merged(init);
      MergedShape(init);
      if IsMergePunctuation(w) && |prev| > 0 {
        var k := |prev| - 1;
        var next := prev[k := prev[k] + w];
        assert HasNoWhitespace(prev[k] + w) by {
          assert forall j :: 0 <= j < |prev[k] + w| ==>
            (prev[k] + w)[j] == if j < |prev[k]| then prev[k][j] else w[j - |prev[k]|];
        }
        assert |init| > 0;
        assert k == 0 ==> StartsWith(next[0], ws[0]) by {
          if k == 0 {
            assert init[0] == ws[0];
            assert (prev[0] + w)[..|ws[0]|] == prev[0][..|ws[0]|];
          }
        }
      } else if |init| > 0 {
        assert init[0] == ws[0];
      } else {
        assert Merged(ws) == [w];
      }
    }
  }

  // ---------------------------------------------------------------------------
  // The three steps together

  /** The word list `parseTXT` (and each EPUB chapter) produces from a text. */
  function Tokenize(text: string): seq<string> {
    Merged(Words(SpacePunctuation(text)))
  }

  /** What the tokenizer promises for every text: non-empty, whitespace-free
      words that spell the text without its whitespace, no stray punctuation
      token after the first word, and never more words than the split gave. */
  lemma TokenizeProperties(text: string)
    ensures forall i :: 0 <= i < |Tokenize(text)| ==> |Tokenize(text)[i]| > 0 && HasNoWhitespace(Tokenize(text)[i])
    ensures Concat(Tokenize(text)) == RemoveWhitespace(text)
    ensures forall i :: 0 < i < |Tokenize(text)| ==> !IsMergePunctuation(Tokenize(text)[i])
    ensures |Tokenize(text)| <= |Words(SpacePunctuation(text))|
    ensures |Tokenize(text)| == 0 <==> IsBlank(text)
  {
    var ws := Words(SpacePunctuation(text));
    SpacePunctuationKeepsText(text);
    MergedConcat(ws);
    MergedShape(ws);
    MergedLength(ws);
    BlankIffNoWords(text);
  }

  lemma ConcatOfNonEmptyWords(ws: seq<string>)
    requires forall i :: 0 <= i < |ws| ==> |ws[i]| > 0
    ensures |ws| > 0 ==> |Concat(ws)| > 0
  {
    if |ws| > 0 {
      assert ws == ws[..|ws| - 1] + [ws[|ws| - 1]];
    }
  }

  lemma BlankIffNoWords(text: string)
    ensures |Words(SpacePunctuation(text))| == 0 <==> IsBlank(text)
  {
    var ws := Words(SpacePunctuation(text));
    SpacePunctuationKeepsText(text);
    if IsBlank(text) {
      RemoveWhitespaceOfBlank(text);
      ConcatOfNonEmptyWords(ws);
    } else {
      var i :| 0 <= i < |text| && !IsWhitespace(text[i]);
      assert text == text[..i] + [text[i]] + text[i + 1..];
      RemoveWhitespaceAppend(text[..i] + [text[i]], text[i + 1..]);
      RemoveWhitespaceAppend(text[..i], [text[i]]);
      assert |RemoveWhitespace(text)| > 0;
    }
  }

  lemma WordsOfSolidThenSpace(w: string, rest: string)
    requires |w| > 0 && HasNoWhitespace(w)
    ensures Words(w + " " + rest) == [w] + Words(rest)
  {
    var s := w + " " + rest;
    assert s == w + (" " + rest);
    RunLengthOfSolidPrefix(w, " " + rest);
    assert s[..|w|] == w;
    assert s[|w|..] == " " + rest;
    assert (" " + rest)[1..] == rest;
  }

  /** A word with no whitespace and no spaced punctuation that is not a
      lone hyphen either: tokenizing leaves it alone. */
  predicate IsPlainWord(w: string) {
    |w| > 0 && HasNoWhitespace(w) && !IsMergePunctuation(w)
    && forall i :: 0 <= i < |w| ==> !IsSpacedPunctuation(w[i])
  }

  lemma SpacedSentence(a: string, b: string)
    requires IsPlainWord(a) && IsPlainWord(b)
    ensures SpacePunctuation(a + ", " + b + "!") == a + " , " + " " + b + " ! "
  {
    SpacedPlainThen(b, "!");
    assert SpacePunctuation("!") == " ! ";
    SpacedPlainThen(" ", b + "!");
    SpacedMarkThen(',', " " + (b + "!"));
    SpacedPlainThen(a, [','] + (" " + (b + "!")));
    SentenceShapes(a, b);
  }

  lemma SentenceShapes(a: string, b: string)
    ensures a + ", " + b + "!" == a + ([','] + (" " + (b + "!")))
    ensures a + ([' ', ',', ' '] + (" " + (b + " ! "))) == a + " , " + " " + b + " ! "
  {
  }

  /** Text without marks passes through spacing unchanged. */
  lemma SpacedPlainThen(w: string, rest: string)
    requires forall i :: 0 <= i < |w| ==> !IsSpacedPunctuation(w[i])
    ensures SpacePunctuation(w + rest) == w + SpacePunctuation(rest)
  {
    SpacePunctuationAppend(w, rest);
    SpacePunctuationOfPlain(w);
  }

  /** A mark gets a space on each side. */
  lemma SpacedMarkThen(c: char, rest: string)
    requires IsSpacedPunctuation(c)
    ensures SpacePunctuation([c] + rest) == [' ', c, ' '] + SpacePunctuation(rest)
  {
    assert ([c] + rest)[0] == c && ([c] + rest)[1..] == rest;
  }

  /** A trailing space adds no word. */
  lemma {:induction false} WordsOfTrailingSpace(t: string)
    ensures Words(t + " ") == Words(t)
    decreases |t|
  {
    if |t| == 0 {
      assert t + " " == " " && " "[1..] == "";
    } else if IsWhitespace(t[0]) {
      assert (t + " ")[1..] == t[1..] + " ";
      WordsOfTrailingSpace(t[1..]);
    } else {
      var n := RunLength(t);
      if n < |t| {
        RunLengthOfLongerString(t, " ");
        assert (t + " ")[..n] == t[..n];
        assert (t + " ")[n..] == t[n..] + " ";
        WordsOfTrailingSpace(t[n..]);
      } else {
        assert t[..n] == t;
        RunLengthOfSolidPrefix(t, " ");
        assert (t + " ")[..n] == t && (t + " ")[n..] == " " && " "[1..] == "";
        assert t[n..] == "";
      }
    }
  }

  lemma WordsOfLeadingSpace(rest: string)
    ensures Words(" " + rest) == Words(rest)
  {
    assert (" " + rest)[1..] == rest;
  }

  lemma WordsOfBang()
    ensures Words("! ") == ["!"]
  {
    WordsOfSolidThenSpace("!", "");
    assert "!" + " " + "" == "! ";
  }

  lemma WordsOfTail(b: string)
    requires IsPlainWord(b)
    ensures Words(" " + b + " ! ") == [b, "!"]
  {
    WordsOfBang();
    WordsOfSolidThenSpace(b, "! ");
    WordsOfLeadingSpace(b + " " + "! ");
    TailText(b);
  }

  lemma TailText(b: string)
    ensures " " + b + " ! " == " " + (b + " " + "! ")
  {
  }

  lemma WordsOfSentence(a: string, b: string)
    requires IsPlainWord(a) && IsPlainWord(b)
    ensures Words(a + " , " + " " + b + " ! ") == [a, ",", b, "!"]
  {
    var t1 := " " + b + " ! ";
    WordsOfTail(b);
    WordsOfSolidThenSpace(",", t1);
    WordsOfSolidThenSpace(a, "," + " " + t1);
    SentenceText(a, b);
  }

  lemma SentenceText(a: string, b: string)
    ensures a + " , " + " " + b + " ! " == a + " " + ("," + " " + (" " + b + " ! "))
  {
  }

  lemma MergedSentence(a: string, b: string)
    requires IsPlainWord(a) && IsPlainWord(b)
    ensures Merged([a, ",", b, "!"]) == [a + ",", b + "!"]
  {
    var ws := [a, ",", b, "!"];
    assert ws[..1] == [a] && ws[..2] == [a, ","] && ws[..3] == [a, ",", b];
    assert Merged([a]) == [a];
    assert Merged([a, ","]) == [a + ","];
    assert [a, ",", b][..2] == [a, ","];
    assert Merged([a, ",", b]) == [a + ",", b];
  }

  /** The usual example of the tokenizer: in "Hello, world!" the comma and
      the exclamation mark end up on the word before them, for any two
      plain words in place of "Hello" and "world". */
  lemma SentenceTokens(a: string, b: string)
    requires IsPlainWord(a) && IsPlainWord(b)
    ensures Tokenize(a + ", " + b + "!") == [a + ",", b + "!"]
  {
    SpacedSentence(a, b);
    WordsOfSentence(a, b);
    MergedSentence(a, b);
  }

  // ---------------------------------------------------------------------------
  // Table of contents

  datatype TocEntry = TocEntry(title: string, wordIndex: int)

  predicate TocInBounds(toc: seq<TocEntry>, n: int) {
    forall i :: 0 <= i < |toc| ==> 0 <= toc[i].wordIndex < n
  }

  predicate TocNonDecreasing(toc: seq<TocEntry>) {
    forall i, j :: 0 <= i < j < |toc| ==> toc[i].wordIndex <= toc[j].wordIndex
  }

  predicate TocIncreasing(toc: seq<TocEntry>) {
    forall i, j :: 0 <= i < j < |toc| ==> toc[i].wordIndex < toc[j].wordIndex
  }

  /** Appending a bookmark past every earlier one, inside a longer text,
      keeps a table in bounds and strictly increasing. */
  lemma TocAppend(toc: seq<TocEntry>, e: TocEntry, n: int, n': int)
    requires TocIncreasing(toc) && TocInBounds(toc, n)
    requires 0 <= n <= e.wordIndex < n'
    ensures TocIncreasing(toc + [e]) && TocInBounds(toc + [e], n')
  {
    var t := toc + [e];
    assert forall k :: 0 <= k < |toc| ==> t[k] == toc[k];
  }

  /** A table in bounds for a text stays in bounds for a longer one. */
  lemma TocInLongerText(toc: seq<TocEntry>, n: int, n': int)
    requires TocInBounds(toc, n) && n <= n'
    ensures TocInBounds(toc, n')
  {
  }

  /** The bookmark percentages of a plain-text document. */
  const Percentages: seq<nat> := [0, 25, 50, 75, 100]

  /** `Math.min(Math.floor((pct / 100) * n), n - 1)`; the product is exact in
      double precision for these percentages, so it is the integer quotient. */
  function PercentMark(pct: nat, n: nat): int {
    var idx := pct * n / 100;
    if idx < n - 1 then idx else n - 1
  }

  function PercentEntry(pct: nat, n: nat): TocEntry {
    TocEntry(NatToString(pct) + "%", PercentMark(pct, n))
  }

  /** The five bookmarks of a plain-text document of `n` words. */
  function PercentToc(n: nat): seq<TocEntry> {
    seq(|Percentages|, k requires 0 <= k < |Percentages| => PercentEntry(Percentages[k], n))
  }

  /** `parseTXT`'s loop over the percentages, pushing one bookmark each. */
  method BuildPercentToc(n: nat) returns (toc: seq<TocEntry>)
    ensures toc == PercentToc(n)
  {
    toc := [];
    for k := 0 to |Percentages|
      invariant toc == PercentToc(n)[..k]
    {
      toc := toc + [PercentEntry(Percentages[k], n)];
    }
  }

  /** A mark lies within the document and grows with the percentage. */
  lemma PercentMarkBounds(pct: nat, pct': nat, n: nat)
    requires n > 0 && pct <= pct' <= 100
    ensures 0 <= PercentMark(pct, n) <= PercentMark(pct', n) <= n - 1
  {
    var x, y := pct * n, pct' * n;
    ScaleMonotone(pct, pct', n);
    ScaleMonotone(pct', 100, n);
    assert x / 100 <= y / 100;
    assert y / 100 <= n;
  }

  lemma {:induction false} ScaleMonotone(a: nat, b: nat, n: nat)
    requires a <= b
    ensures a * n <= b * n
  {
    if n > 0 {
      ScaleMonotone(a, b, n - 1);
      assert a * n == a * (n - 1) + a && b * n == b * (n - 1) + b;
    }
  }

  /** For a non-empty document the five bookmarks are in bounds and in order;
      for an empty one all of them are -1. */
  lemma PercentMarksOrdered(n: nat)
    ensures n > 0 ==> 0 <= PercentMark(0, n) <= PercentMark(25, n) <= PercentMark(50, n)
                      <= PercentMark(75, n) <= PercentMark(100, n) <= n - 1
    ensures n == 0 ==> PercentMark(0, n) == PercentMark(25, n) == PercentMark(50, n)
                       == PercentMark(75, n) == PercentMark(100, n) == -1
  {
    if n > 0 {
      PercentMarkBounds(0, 25, n);
      PercentMarkBounds(25, 50, n);
      PercentMarkBounds(50, 75, n);
      PercentMarkBounds(75, 100, n);
    }
  }

  /** The bookmarks of a non-empty document are in bounds and in order;
      those of an empty one all point at -1. */
  lemma PercentTocValid(n: nat)
    ensures |PercentToc(n)| == 5
    ensures n > 0 ==> TocInBounds(PercentToc(n), n) && TocNonDecreasing(PercentToc(n))
    ensures n == 0 ==> forall k :: 0 <= k < 5 ==> PercentToc(n)[k].wordIndex == -1
  {
    PercentMarksOrdered(n);
    PercentTocMarks(n);
    if n > 0 {
      FiveInOrder(PercentToc(n), n);
    }
  }

  lemma PercentTocMarks(n: nat)
    ensures var toc := PercentToc(n);
      |toc| == 5 && toc[0].wordIndex == PercentMark(0, n) && toc[1].wordIndex == PercentMark(25, n)
      && toc[2].wordIndex == PercentMark(50, n) && toc[3].wordIndex == PercentMark(75, n)
      && toc[4].wordIndex == PercentMark(100, n)
  {
  }

  lemma FiveInOrder(toc: seq<TocEntry>, n: int)
    requires |toc| == 5 && 0 <= toc[0].wordIndex <= toc[1].wordIndex <= toc[2].wordIndex
             <= toc[3].wordIndex <= toc[4].wordIndex < n
    ensures TocInBounds(toc, n) && TocNonDecreasing(toc)
  {
  }

  /** The bookmarks are titled 0% to 100%; for 100 words they point at words
      0, 25, 50, 75 and 99. */
  lemma PercentTocTitles(n: nat)
    ensures [PercentToc(n)[0].title, PercentToc(n)[1].title, PercentToc(n)[2].title,
             PercentToc(n)[3].title, PercentToc(n)[4].title] == ["0%", "25%", "50%", "75%", "100%"]
    ensures PercentToc(100) == [TocEntry("0%", 0), TocEntry("25%", 25), TocEntry("50%", 50),
                                TocEntry("75%", 75), TocEntry("100%", 99)]
  {
    PercentTitles();
    PercentMarksOfHundredWords();
  }

  lemma PercentMarksOfHundredWords()
    ensures PercentMark(0, 100) == 0 && PercentMark(25, 100) == 25 && PercentMark(50, 100) == 50
    ensures PercentMark(75, 100) == 75 && PercentMark(100, 100) == 99
  {
  }

  lemma PercentTitles()
    ensures NatToString(0) + "%" == "0%" && NatToString(25) + "%" == "25%"
    ensures NatToString(50) + "%" == "50%" && NatToString(75) + "%" == "75%"
    ensures NatToString(100) + "%" == "100%"
  {
    TwoDigits(25);
    TwoDigits(50);
    TwoDigits(75);
    TwoDigits(10);
    assert NatToString(100) == NatToString(10) + "0";
  }

  lemma TwoDigits(n: nat)
    requires 10 <= n < 100
    ensures NatToString(n) == [DigitChar(n / 10), DigitChar(n % 10)]
  {
  }

  /** `parseTXT`: tokenize the whole text, then add the percentage bookmarks. */
  method ParseTxt(content: string) returns (words: seq<string>, toc: seq<TocEntry>)
    ensures words == Tokenize(content) && toc == PercentToc(|words|)
  {
    var spaced := SpacePunctuation(content);
    var split := Words(spaced);
    words := MergeTrailingPunctuation(split);
    toc := BuildPercentToc(|words|);
  }
}
