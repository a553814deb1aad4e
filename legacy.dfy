/** The earlier snapshot in `app/www/main.js`: plain whitespace splitting
    for text files; an EPUB reader that joins the chapters' `textContent`
    and falls back to three fixed words on any structural failure; a
    fixed-rate playback without auto-pace; and an import that shows no
    messages. Its word split is `Orp.LegacySplit`. */
module Legacy {
  import opened Wrappers
  import opened JsStrings
  import opened Tokenizer
  import opened Markup
  import opened Epub
  import opened Pace
  import opened Orp
  import Session

  // ---------------------------------------------------------------------------
  // Plain text

  /** `content.split(/\s+/).filter(word => word.length > 0)`: the runs of
      non-whitespace characters, with no punctuation handling. */
  function LegacyParseTxt(content: string): (words: seq<string>)
    ensures forall i :: 0 <= i < |words| ==> |words[i]| > 0 && HasNoWhitespace(words[i])
    ensures Concat(words) == RemoveWhitespace(content)
  {
    Words(content)
  }

  /** Splitting undoes joining with single spaces. */
  lemma LegacyParseTxtOfJoin(ws: seq<string>)
    requires forall i :: 0 <= i < |ws| ==> |ws[i]| > 0 && HasNoWhitespace(ws[i])
    ensures LegacyParseTxt(Join(ws)) == ws
  {
    WordsOfJoin(ws);
  }

  /** Where punctuation sits on its word, both snapshots agree: "a, b!"
      gives "a," and "b!". */
  lemma SnapshotsAgreeOnAttachedMarks(a: string, b: string)
    requires IsPlainWord(a) && IsPlainWord(b)
    ensures LegacyParseTxt(a + ", " + b + "!") == Tokenize(a + ", " + b + "!") == [a + ",", b + "!"]
  {
    SentenceTokens(a, b);
    var x, y := a + ",", b + "!";
    assert HasNoWhitespace(x) by {
      assert forall i :: 0 <= i < |x| ==> x[i] == if i < |a| then a[i] else ',';
    }
    assert HasNoWhitespace(y) by {
      assert forall i :: 0 <= i < |y| ==> y[i] == if i < |b| then b[i] else '!';
    }
    WordsOfJoin([x, y]);
    assert Join([x, y]) == x + " " + Join([y]);
    assert a + ", " + b + "!" == x + " " + y;
  }

  /** A mark standing alone between spaces stays a word of its own in the
      earlier snapshot; the current one appends it to the word before. */
  lemma SnapshotsDifferOnSpacedMarks(a: string, b: string)
    requires IsPlainWord(a) && IsPlainWord(b)
    ensures LegacyParseTxt(a + " , " + b) == [a, ",", b]
    ensures Tokenize(a + " , " + b) == [a + ",", b]
  {
    WordsOfPlainSpacedMark(a, b);
    SpacedMarkTokens(a, b);
  }

  lemma WordsOfPlainSpacedMark(a: string, b: string)
    requires IsPlainWord(a) && IsPlainWord(b)
    ensures Words(a + " , " + b) == [a, ",", b]
  {
    JoinOfSpacedMark(a, b);
    WordsOfJoin([a, ",", b]);
  }

  lemma JoinOfSpacedMark(a: string, b: string)
    ensures Join([a, ",", b]) == a + " , " + b
  {
    var ws := [a, ",", b];
    assert ws[1..] == [",", b] && [",", b][1..] == [b];
    assert Join([b]) == b;
    assert Join([",", b]) == "," + " " + b;
    assert Join(ws) == a + " " + ("," + " " + b);
  }

  lemma SpacedMarkTokens(a: string, b: string)
    requires IsPlainWord(a) && IsPlainWord(b)
    ensures Tokenize(a + " , " + b) == [a + ",", b]
  {
    SpacedMarkBetween(a, b);
    WordsOfSpacedMark(a, b);
    MergedOfSpacedMark(a, b);
  }

  lemma MergedOfSpacedMark(a: string, b: string)
    requires IsPlainWord(a) && IsPlainWord(b)
    ensures Merged([a, ",", b]) == [a + ",", b]
  {
    var ws := [a, ",", b];
    assert ws[..1] == [a] && ws[..2] == [a, ","];
    assert Merged([a]) == [a];
    assert Merged([a, ","]) == [a + ","];
  }

  lemma SpacedMarkBetween(a: string, b: string)
    requires IsPlainWord(a) && IsPlainWord(b)
    ensures SpacePunctuation(a + " , " + b) == a + " " + " , " + " " + b
  {
    SpacedPlainThen(" ", b);
    SpacePunctuationOfPlain(b);
    SpacedMarkThen(',', " " + b);
    SpacedPlainThen(" ", [','] + (" " + b));
    SpacedPlainThen(a, " " + ([','] + (" " + b)));
    SpacedMarkShapes(a, b);
  }

  lemma SpacedMarkShapes(a: string, b: string)
    ensures a + " , " + b == a + (" " + ([','] + (" " + b)))
    ensures a + (" " + ([' ', ',', ' '] + (" " + b))) == a + " " + " , " + " " + b
  {
  }

  lemma WordsOfSpacedMark(a: string, b: string)
    requires IsPlainWord(a) && IsPlainWord(b)
    ensures Words(a + " " + " , " + " " + b) == [a, ",", b]
  {
    var t1 := " " + b;
    WordsOfPaddedWord(b);
    var t2 := "," + " " + t1;
    WordsOfSolidThenSpace(",", t1);
    var t3 := " " + t2;
    WordsOfLeadingSpace(t2);
    WordsOfSolidThenSpace(a, t3);
    SpacedMarkText(a, b);
  }

  lemma WordsOfPaddedWord(b: string)
    requires IsPlainWord(b)
    ensures Words(" " + b) == [b]
  {
    WordsOfJoin([b]);
    assert Join([b]) == b;
    WordsOfLeadingSpace(b);
  }

  lemma SpacedMarkText(a: string, b: string)
    ensures a + " " + " , " + " " + b == a + " " + (" " + ("," + " " + (" " + b)))
  {
  }

  // ---------------------------------------------------------------------------
  // EPUB

  /** What the earlier parser returns when anything outside the chapters
      fails. */
  const FailedWords := ["EPUB", "parsing", "failed"]

  /** The earlier spine filter: HTML or XHTML, not `.htm`. */
  predicate IsLegacyChapterHref(href: string) {
    EndsWith(href, ".html") || EndsWith(href, ".xhtml")
  }

  /** The text one spine item adds, none when it is skipped: not a chapter,
      missing from the archive, or failing to parse. */
  function LegacyChapterText(archive: Archive, manifest: map<string, string>, idref: string, p: Parsers): Option<string> {
    if idref in manifest && IsLegacyChapterHref(manifest[idref]) && manifest[idref] in archive then
      match p.chapter(archive[manifest[idref]])
      case Some(ch) => Some(TextContent(ch.body))
      case None => None
    else None
  }

  /** `fullText` after the given spine items: each chapter's text followed
      by one space. */
  function LegacyFullText(archive: Archive, manifest: map<string, string>, spine: seq<string>, p: Parsers): string {
    if |spine| == 0 then ""
    else
      var prev := LegacyFullText(archive, manifest, spine[..|spine| - 1], p);
      match LegacyChapterText(archive, manifest, spine[|spine| - 1], p)
      case Some(text) => prev + text + " "
      case None => prev
  }

  /** The words of each chapter read, in spine order. */
  function LegacyChapterWords(archive: Archive, manifest: map<string, string>, spine: seq<string>, p: Parsers): seq<seq<string>> {
    if |spine| == 0 then []
    else
      var prev := LegacyChapterWords(archive, manifest, spine[..|spine| - 1], p);
      match LegacyChapterText(archive, manifest, spine[|spine| - 1], p)
      case Some(text) => prev + [Words(text)]
      case None => prev
  }

  /** The earlier `parseEPUB`: any failure before the chapters gives the
      three fallback words; otherwise the joined text, split on whitespace.
      Manifest paths are taken as they are, without the package's
      directory. */
  function LegacyEpubSpec(loaded: Result<Archive, string>, p: Parsers): seq<string> {
    if loaded.Failure? || ContainerPath !in loaded.value then FailedWords
    else
      var archive := loaded.value;
      match p.rootfile(archive[ContainerPath])
      case None => FailedWords
      case Some(rootfile) =>
        if rootfile !in archive then FailedWords
        else
          var pkg := p.package(archive[rootfile]);
          Words(LegacyFullText(archive, ManifestOf(pkg.manifest, ""), pkg.spine, p))
  }

  /** The joined text ends in a space, or is empty, and it splits into the
      chapters' words one chapter after another: no word runs across two
      chapters, and skipped items add nothing. */
  lemma {:induction false} LegacyWordsAreChapterWords(archive: Archive, manifest: map<string, string>, spine: seq<string>, p: Parsers)
    ensures var full := LegacyFullText(archive, manifest, spine, p);
      (full == "" || full[|full| - 1] == ' ') &&
      Words(full) == Concat(LegacyChapterWords(archive, manifest, spine, p))
  {
    if |spine| > 0 {
      var init := spine[..|spine| - 1];
      LegacyWordsAreChapterWords(archive, manifest, init, p);
      var text := LegacyChapterText(archive, manifest, spine[|spine| - 1], p);
      if text.Some? {
        AppendChapterText(LegacyFullText(archive, manifest, init, p), text.value,
                          LegacyChapterWords(archive, manifest, init, p));
      }
    }
  }

  /** One chapter added to the joined text adds its words to the list. */
  lemma AppendChapterText(prev: string, text: string, lists: seq<seq<string>>)
    requires prev == "" || prev[|prev| - 1] == ' '
    requires Words(prev) == Concat(lists)
    ensures var full := prev + text + " ";
      full[|full| - 1] == ' ' && Words(full) == Concat(lists + [Words(text)])
  {
    assert prev + text + " " == prev + (text + " ");
    WordsAfterSeparator(prev, text + " ");
    WordsOfTrailingSpace(text);
    ConcatAppend(lists, [Words(text)]);
    ConcatSingleton(Words(text));
  }

  /** The earlier `parseEPUB` as the code runs it, with the spine loop
      appending to `fullText`. */
  method LegacyParseEpub(loaded: Result<Archive, string>, p: Parsers) returns (words: seq<string>)
    ensures words == LegacyEpubSpec(loaded, p)
  {
    if loaded.Failure? || ContainerPath !in loaded.value {
      return FailedWords;
    }
    var archive := loaded.value;
    var rootfile := p.rootfile(archive[ContainerPath]);
    if rootfile.None? || rootfile.value !in archive {
      return FailedWords;
    }
    var pkg := p.package(archive[rootfile.value]);
    var manifest := BuildManifest(pkg.manifest, "");
    var spine := pkg.spine;
    var fullText := "";
    for i := 0 to |spine|
      invariant fullText == LegacyFullText(archive, manifest, spine[..i], p)
    {
      assert spine[..i + 1][..i] == spine[..i];
      var id := spine[i];
      if id in manifest && IsLegacyChapterHref(manifest[id]) && manifest[id] in archive {
        var parsed := p.chapter(archive[manifest[id]]);
        if parsed.Some? {
          fullText := fullText + TextContent(parsed.value.body) + " ";
        }
      }
    }
    assert spine[..|spine|] == spine;
    words := Words(fullText);
  }

  /** What the earlier parser returns: the fallback words exactly when the
      package cannot be reached, otherwise the chapters' words in spine
      order. */
  lemma LegacyEpubOutcome(loaded: Result<Archive, string>, p: Parsers)
    ensures loaded.Failure? ==> LegacyEpubSpec(loaded, p) == FailedWords
    ensures loaded.Success? && ContainerPath !in loaded.value ==> LegacyEpubSpec(loaded, p) == FailedWords
    ensures loaded.Success? && ContainerPath in loaded.value ==>
      var archive := loaded.value;
      match p.rootfile(archive[ContainerPath])
      case None => LegacyEpubSpec(loaded, p) == FailedWords
      case Some(rootfile) =>
        (rootfile !in archive ==> LegacyEpubSpec(loaded, p) == FailedWords) &&
        (rootfile in archive ==>
          var pkg := p.package(archive[rootfile]);
          LegacyEpubSpec(loaded, p) == Concat(LegacyChapterWords(archive, ManifestOf(pkg.manifest, ""), pkg.spine, p)))
  {
    if loaded.Success? && ContainerPath in loaded.value {
      var archive := loaded.value;
      var rootfile := p.rootfile(archive[ContainerPath]);
      if rootfile.Some? && rootfile.value in archive {
        var pkg := p.package(archive[rootfile.value]);
        LegacyWordsAreChapterWords(archive, ManifestOf(pkg.manifest, ""), pkg.spine, p);
      }
    }
  }

  // ---------------------------------------------------------------------------
  // The reader

  /** A record of the earlier snapshot: no bookmarks. */
  datatype LegacyDocument = LegacyDocument(
    id: string, filename: string, format: Session.Format, words: seq<string>,
    lastReadPosition: int, totalWords: nat, addedAt: int, lastAccessedAt: int)

  /** `parseDocument(file)` of the earlier snapshot: it never fails. */
  function LegacyParseDocument(f: Session.SelectedFile, p: Parsers): seq<string> {
    if Session.IsEpubName(f.name) then LegacyEpubSpec(f.archive, p) else LegacyParseTxt(f.text)
  }

  /** The record the earlier `handleFileSelect` stores. */
  function LegacyImportRecord(id: string, name: string, words: seq<string>, now: int): LegacyDocument {
    LegacyDocument(id, name, if Session.IsEpubName(name) then Session.EpubFormat else Session.TxtFormat,
                   words, 0, |words|, now, now)
  }

  /** An import stores a record exactly when the file gives words: a text
      file exactly when it is not blank, an EPUB always when its package
      cannot be reached. The record starts at its first word and counts
      its words. */
  lemma LegacyImportFacts(f: Session.SelectedFile, p: Parsers, id: string, now: int)
    ensures !Session.IsEpubName(f.name) ==> (|LegacyParseDocument(f, p)| == 0 <==> IsBlank(f.text))
    ensures Session.IsEpubName(f.name) && (f.archive.Failure? || ContainerPath !in f.archive.value) ==>
      LegacyParseDocument(f, p) == FailedWords
    ensures |LegacyParseDocument(f, p)| > 0 ==>
      var doc := LegacyImportRecord(id, f.name, LegacyParseDocument(f, p), now);
      0 == doc.lastReadPosition < doc.totalWords == |doc.words| &&
      (doc.format == Session.EpubFormat <==> Session.IsEpubName(f.name))
  {
    if !Session.IsEpubName(f.name) {
      BlankIffWords(f.text);
    }
  }

  /** Whitespace splitting gives no word exactly for blank text. */
  lemma BlankIffWords(text: string)
    ensures |Words(text)| == 0 <==> IsBlank(text)
  {
    if IsBlank(text) {
      RemoveWhitespaceOfBlank(text);
      ConcatOfNonEmptyWords(Words(text));
    } else {
      var i :| 0 <= i < |text| && !IsWhitespace(text[i]);
      assert text == text[..i] + [text[i]] + text[i + 1..];
      RemoveWhitespaceAppend(text[..i] + [text[i]], text[i + 1..]);
      RemoveWhitespaceAppend(text[..i], [text[i]]);
      assert |RemoveWhitespace(text)| > 0;
    }
  }

  class LegacyReader {
    var currentView: Session.View
    var documents: seq<LegacyDocument>
    var store: map<string, LegacyDocument>
    var currentDocument: Option<LegacyDocument>
    var documentId: Option<string>
    var currentWordIndex: int
    var words: seq<string>
    var isPlaying: bool
    var speedWpm: int
    /** The pace the running interval was armed with, none when stopped. */
    var interval: Option<int>

    /** An interval runs exactly while playing, at the chosen speed. */
    predicate PlaybackValid()
      reads this
    {
      (interval.Some? <==> isPlaying) && (isPlaying ==> interval == Some(speedWpm))
    }

    predicate InBounds()
      reads this
    {
      0 <= currentWordIndex < |words|
    }

    twostate predicate LibraryUnchanged()
      reads this
    {
      documents == old(documents) && store == old(store) && currentDocument == old(currentDocument) &&
      documentId == old(documentId) && currentView == old(currentView)
    }

    constructor()
      ensures currentView == Session.LibraryView && documents == [] && store == map[]
      ensures currentDocument.None? && documentId.None? && currentWordIndex == 0 && words == []
      ensures !isPlaying && speedWpm == 300 && PlaybackValid()
    {
      currentView := Session.LibraryView;
      documents := [];
      store := map[];
      currentDocument := None;
      documentId := None;
      currentWordIndex := 0;
      words := [];
      isPlaying := false;
      speedWpm := 300;
      interval := None;
    }

    /** `60000 / speedWPM`: the fixed delay between words. */
    function Delay(): (d: real)
      reads this
      requires speedWpm > 0
      ensures d > 0.0 && d * speedWpm as real == 60000.0
    {
      DelayMs(speedWpm as real)
    }

    /** The split of the word on screen, by the earlier rule. */
    function Display(): (e: Emphasis)
      reads this
      ensures InBounds() ==> e.before + e.focus + e.after == words[currentWordIndex] && e == LegacySplit(words[currentWordIndex])
      ensures !InBounds() ==> e == Emphasis("", "", "")
    {
      LegacySplit(if InBounds() then words[currentWordIndex] else "")
    }

    /** `togglePlayPause()`: start at the chosen speed, or stop. */
    method TogglePlayPause()
      modifies this
      ensures isPlaying == !old(isPlaying) && PlaybackValid()
      ensures speedWpm == old(speedWpm) && currentWordIndex == old(currentWordIndex) && words == old(words)
      ensures LibraryUnchanged()
    {
      isPlaying := !isPlaying;
      if isPlaying {
        interval := Some(speedWpm);
      } else {
        interval := None;
      }
    }

    /** One firing of the interval: the next word; past the last word the
        position goes back to the last word and playback stops. The delay is
        never changed by a tick. */
    method Tick()
      requires isPlaying && PlaybackValid()
      modifies this
      ensures PlaybackValid()
      ensures old(currentWordIndex) + 1 >= |words| ==> currentWordIndex == |words| - 1 && !isPlaying && interval.None?
      ensures old(currentWordIndex) + 1 < |words| ==>
        currentWordIndex == old(currentWordIndex) + 1 && isPlaying && interval == old(interval)
      ensures old(InBounds()) ==> InBounds()
      ensures words == old(words) && speedWpm == old(speedWpm) && LibraryUnchanged()
    {
      currentWordIndex := currentWordIndex + 1;
      if currentWordIndex >= |words| {
        currentWordIndex := |words| - 1;
        TogglePlayPause();
      }
    }

    /** `resetReading()`: back to the first word, playing or not. */
    method ResetReading()
      modifies this
      ensures currentWordIndex == 0 && (|words| > 0 ==> InBounds())
      ensures words == old(words) && isPlaying == old(isPlaying) && interval == old(interval)
      ensures speedWpm == old(speedWpm) && LibraryUnchanged()
    {
      currentWordIndex := 0;
    }

    /** `updateSpeed(newSpeed)`: a running interval is re-armed at the new
        speed; a stopped one stays stopped. */
    method UpdateSpeed(newSpeed: int)
      requires PlaybackValid()
      modifies this
      ensures speedWpm == newSpeed && isPlaying == old(isPlaying) && PlaybackValid()
      ensures !isPlaying ==> interval.None?
      ensures currentWordIndex == old(currentWordIndex) && words == old(words) && LibraryUnchanged()
    {
      speedWpm := newSpeed;
      if isPlaying {
        interval := None;
        interval := Some(speedWpm);
      }
    }

    /** `openDocument(doc)` for the list entry `i`: the earlier snapshot
        neither stamps the access time nor stops playback. */
    method OpenDocument(i: nat)
      requires i < |documents|
      modifies this
      ensures currentDocument == Some(old(documents[i])) && documentId == Some(old(documents[i].id))
      ensures currentWordIndex == old(documents[i].lastReadPosition) && words == old(documents[i].words)
      ensures currentView == Session.NormalView
      ensures documents == old(documents) && store == old(store)
      ensures isPlaying == old(isPlaying) && interval == old(interval) && speedWpm == old(speedWpm)
    {
      var doc := documents[i];
      currentDocument := Some(doc);
      documentId := Some(doc.id);
      currentWordIndex := doc.lastReadPosition;
      words := doc.words;
      currentView := Session.NormalView;
    }

    /** The earlier `handleFileSelect(event)`: no file filter and no
        messages; a file without words is dropped without a word. */
    method HandleFileSelect(file: Option<Session.SelectedFile>, p: Parsers, id: string, now: int)
      modifies this
      ensures file.None? || |LegacyParseDocument(file.value, p)| == 0 ==>
        documents == old(documents) && store == old(store)
      ensures file.Some? && |LegacyParseDocument(file.value, p)| > 0 ==>
        var doc := LegacyImportRecord(id, file.value.name, LegacyParseDocument(file.value, p), now);
        documents == old(documents) + [doc] && store == old(store)[id := doc]
      ensures currentDocument == old(currentDocument) && documentId == old(documentId) && currentView == old(currentView)
      ensures currentWordIndex == old(currentWordIndex) && words == old(words)
      ensures isPlaying == old(isPlaying) && interval == old(interval) && speedWpm == old(speedWpm)
    {
      if file.None? {
        return;
      }
      var f := file.value;
      var parsedWords: seq<string>;
      if Session.IsEpubName(f.name) {
        parsedWords := LegacyParseEpub(f.archive, p);
      } else {
        parsedWords := LegacyParseTxt(f.text);
      }
      if |parsedWords| == 0 {
        return;
      }
      var doc := LegacyImportRecord(id, f.name, parsedWords, now);
      store := store[doc.id := doc];
      documents := documents + [doc];
    }
  }
}
