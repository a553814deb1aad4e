/** `parseEPUB` of `www/main.js`: locating the package through the container
    file, building the manifest, reading the chapters in spine order,
    concatenating their words, recording a bookmark at the start of every
    chapter that has words, and the error messages of each failure.

    The zip archive is a map from entry paths to their text. The XML and
    HTML parsers are parameters: `rootfile` is the `full-path` of the
    container's `rootfile` element (none when there is no such element),
    `package` the manifest items and spine `idref`s of an OPF text, and
    `chapter` the parsed chapter (none when parsing it throws). */
module Epub {
  import opened Wrappers
  import opened JsStrings
  import opened Markup
  import opened Tokenizer

  type Archive = map<string, string>

  datatype ManifestItem = ManifestItem(id: string, href: string)

  datatype Package = Package(manifest: seq<ManifestItem>, spine: seq<string>)

  /** A parsed chapter: its `body` and the first `h1`, `h2` and `title`
      elements, each possibly absent. */
  datatype Chapter = Chapter(body: Option<Node>, h1: Option<Node>, h2: Option<Node>, title: Option<Node>)

  datatype Parsers = Parsers(
    rootfile: string -> Option<string>,
    package: string -> Package,
    chapter: string -> Option<Chapter>)

  /** A parsed book, with the warning shown when some chapters failed. */
  datatype Book = Book(words: seq<string>, toc: seq<TocEntry>, warning: Option<string>)

  const ContainerPath := "META-INF/container.xml"

  const InvalidPrefix := "Invalid EPUB"
  const NoTextPrefix := "EPUB contains"

  const MissingContainer := InvalidPrefix + ": Missing container.xml. This file may be corrupted or not a valid EPUB."
  const MissingRootfile := InvalidPrefix + ": Cannot find content location in container.xml"
  const MissingPackage := InvalidPrefix + ": Cannot find content file. The EPUB structure may be malformed."
  const EmptySpine := InvalidPrefix + ": No chapters found. The EPUB may be empty or corrupted."
  const NoReadableText := NoTextPrefix + " no readable text. All chapters failed to parse or are empty."
  const FailurePrefix := "Failed to parse EPUB file: "

  /** The parser's own messages carry the prefixes the `catch` keeps. */
  lemma InvalidMessages()
    ensures StartsWith(MissingContainer, InvalidPrefix) && StartsWith(MissingRootfile, InvalidPrefix)
    ensures StartsWith(MissingPackage, InvalidPrefix) && StartsWith(EmptySpine, InvalidPrefix)
    ensures StartsWith(NoReadableText, NoTextPrefix)
  {
    StartsWithAppend(InvalidPrefix, MissingContainer[|InvalidPrefix|..]);
    StartsWithAppend(InvalidPrefix, MissingRootfile[|InvalidPrefix|..]);
    StartsWithAppend(InvalidPrefix, MissingPackage[|InvalidPrefix|..]);
    StartsWithAppend(InvalidPrefix, EmptySpine[|InvalidPrefix|..]);
    StartsWithAppend(NoTextPrefix, NoReadableText[|NoTextPrefix|..]);
  }

  function Warning(failed: nat): string {
    "Warning: " + NatToString(failed) + " chapter(s) could not be parsed. The book may be incomplete."
  }

  /** The `catch` of `parseEPUB`: its own messages pass through, any other
      message gets the generic prefix (`'Unknown error'` standing in for an
      empty one). The result always tells which kind of failure it was. */
  function Rethrow(msg: string): (r: string)
    ensures StartsWith(msg, InvalidPrefix) || StartsWith(msg, NoTextPrefix) ==> r == msg
    ensures !StartsWith(msg, InvalidPrefix) && !StartsWith(msg, NoTextPrefix) ==>
              StartsWith(r, FailurePrefix) && (msg != "" ==> r[|FailurePrefix|..] == msg)
    ensures msg == "" ==> r == FailurePrefix + "Unknown error"
    ensures StartsWith(r, InvalidPrefix) || StartsWith(r, NoTextPrefix) || StartsWith(r, FailurePrefix)
  {
    if (msg != "" && StartsWith(msg, InvalidPrefix)) || StartsWith(msg, NoTextPrefix) then msg
    else
      var r := FailurePrefix + (if msg == "" then "Unknown error" else msg);
      assert r[..|FailurePrefix|] == FailurePrefix;
      r
  }

  // ---------------------------------------------------------------------------
  // Base path and manifest

  /** `s.lastIndexOf(c)`: the last position of `c`, or -1. */
  function LastIndexOf(s: string, c: char): (r: int)
    ensures -1 <= r < |s|
    ensures r >= 0 ==> s[r] == c
    ensures forall j :: r < j < |s| ==> s[j] != c
  {
    if |s| == 0 then -1
    else if s[|s| - 1] == c then |s| - 1
    else LastIndexOf(s[..|s| - 1], c)
  }

  /** The directory of the package file, up to and including its last `/`,
      or `''` when the path has none: a prefix of the path that is empty or
      ends in `/`, followed by a part without `/`. */
  function BasePath(rootfile: string): (r: string)
    ensures StartsWith(rootfile, r)
    ensures r == "" || r[|r| - 1] == '/'
    ensures forall j :: |r| <= j < |rootfile| ==> rootfile[j] != '/'
  {
    if '/' in rootfile then rootfile[..LastIndexOf(rootfile, '/') + 1] else ""
  }

  /** The manifest object: each item's `id` mapped to the base path plus its
      `href`, later items overwriting earlier ones with the same `id`. */
  function ManifestOf(items: seq<ManifestItem>, base: string): map<string, string> {
    if |items| == 0 then map[]
    else
      var last := items[|items| - 1];
      ManifestOf(items[..|items| - 1], base)[last.id := base + last.href]
  }

  /** The `forEach` over the manifest items. */
  method BuildManifest(items: seq<ManifestItem>, base: string) returns (manifest: map<string, string>)
    ensures manifest == ManifestOf(items, base)
  {
    manifest := map[];
    for i := 0 to |items|
      invariant manifest == ManifestOf(items[..i], base)
    {
      assert items[..i + 1][..i] == items[..i];
      manifest := manifest[items[i].id := base + items[i].href];
    }
    assert items[..|items|] == items;
  }

  /** The manifest has exactly the items' ids as keys... */
  lemma {:induction false} ManifestKeys(items: seq<ManifestItem>, base: string)
    ensures ManifestOf(items, base).Keys == set i | 0 <= i < |items| :: items[i].id
  {
    if |items| > 0 {
      var init := items[..|items| - 1];
      ManifestKeys(init, base);
      var ks := set i | 0 <= i < |items| :: items[i].id;
      var ks' := set i | 0 <= i < |init| :: init[i].id;
      assert ks == ks' + {items[|items| - 1].id} by {
        forall k | k in ks ensures k in ks' + {items[|items| - 1].id} {
          var i :| 0 <= i < |items| && items[i].id == k;
          if i < |init| {
            assert init[i].id == k;
          }
        }
        forall k | k in ks' ensures k in ks {
          var i :| 0 <= i < |init| && init[i].id == k;
          assert items[i].id == k;
        }
      }
    }
  }

  /** ...and an id maps to the based `href` of the last item carrying it. */
  lemma {:induction false} ManifestLastWins(items: seq<ManifestItem>, base: string, i: nat)
    requires i < |items|
    requires forall j :: i < j < |items| ==> items[j].id != items[i].id
    ensures items[i].id in ManifestOf(items, base)
    ensures ManifestOf(items, base)[items[i].id] == base + items[i].href
  {
    if i < |items| - 1 {
      var init := items[..|items| - 1];
      assert init[i] == items[i];
      ManifestLastWins(init, base, i);
    }
  }

  // ---------------------------------------------------------------------------
  // Chapters

  /** The spine filter: the `href` names an HTML or XHTML file. */
  predicate IsChapterHref(href: string) {
    EndsWith(href, ".html") || EndsWith(href, ".xhtml") || EndsWith(href, ".htm")
  }

  /** What happens to one spine item. */
  datatype Outcome = Skipped | Failed | Read(chapter: Chapter)

  function ChapterOutcome(archive: Archive, manifest: map<string, string>, idref: string, p: Parsers): Outcome {
    if idref !in manifest || !IsChapterHref(manifest[idref]) then Skipped
    else
      var href := manifest[idref];
      if href !in archive then Failed
      else
        match p.chapter(archive[href])
        case None => Failed
        case Some(ch) => Read(ch)
  }

  /** The words of a chapter: its spaced-out body text, tokenized. */
  function ChapterWords(ch: Chapter): seq<string> {
    Tokenize(ExtractTextWithSpacing(ch.body))
  }

  /** A usable title: non-empty, with no whitespace at either end. */
  predicate IsTitle(s: string) {
    |s| > 0 && !IsWhitespace(s[0]) && !IsWhitespace(s[|s| - 1])
  }

  /** `h && h.textContent.trim()`: `''` exactly when the heading's text is
      absent or blank, otherwise that text with its blank ends cut off. */
  function HeadingText(h: Option<Node>): (r: string)
    ensures r == "" <==> IsBlank(TextContent(h))
    ensures r == "" || IsTitle(r)
    ensures IsUnpadded(r, TextContent(h))
  {
    var t := TextContent(h);
    var r := Trim(t);
    assert r == "" || IsTitle(r);
    r
  }

  /** The fallback title of the chapter read after `successful` others. */
  function FallbackTitle(successful: nat): (r: string)
    ensures IsTitle(r)
  {
    var n := NatToString(successful + 1);
    var r := "Chapter " + n;
    assert r[|r| - 1] == n[|n| - 1];
    r
  }

  /** The chapter title: the first non-blank of the `h1`, `h2` and `title`
      texts, trimmed, else "Chapter N". It is never empty and never starts
      or ends with whitespace. */
  function ChapterTitle(ch: Chapter, successful: nat): (r: string)
    ensures IsTitle(r)
  {
    if HeadingText(ch.h1) != "" then HeadingText(ch.h1)
    else if HeadingText(ch.h2) != "" then HeadingText(ch.h2)
    else if HeadingText(ch.title) != "" then HeadingText(ch.title)
    else FallbackTitle(successful)
  }

  /** Where the title comes from: the first of `h1`, `h2` and `title` whose
      text is not blank, and the "Chapter N" fallback when all three are. */
  lemma ChapterTitleSource(ch: Chapter, successful: nat)
    ensures HeadingText(ch.h1) != "" ==> ChapterTitle(ch, successful) == HeadingText(ch.h1)
    ensures HeadingText(ch.h1) == "" && HeadingText(ch.h2) != "" ==> ChapterTitle(ch, successful) == HeadingText(ch.h2)
    ensures HeadingText(ch.h1) == "" && HeadingText(ch.h2) == "" && HeadingText(ch.title) != ""
      ==> ChapterTitle(ch, successful) == HeadingText(ch.title)
    ensures HeadingText(ch.h1) == "" && HeadingText(ch.h2) == "" && HeadingText(ch.title) == ""
      ==> ChapterTitle(ch, successful) == FallbackTitle(successful)
  {
  }

  // ---------------------------------------------------------------------------
  // The spine loop

  /** The loop variables `allWords`, `toc`, `successfulChapters` and
      `failedChapters`. */
  datatype Assembly = Assembly(words: seq<string>, toc: seq<TocEntry>, successful: nat, failed: nat)

  /** One iteration of the spine loop. */
  function Step(acc: Assembly, o: Outcome): Assembly {
    match o
    case Skipped => acc
    case Failed => acc.(failed := acc.failed + 1)
    case Read(ch) =>
      var cw := ChapterWords(ch);
      var toc := if |cw| > 0 then acc.toc + [TocEntry(ChapterTitle(ch, acc.successful), |acc.words|)] else acc.toc;
      Assembly(acc.words + cw, toc, acc.successful + 1, acc.failed)
  }

  /** The loop variables after the given spine items, in order. */
  function AssembleSpine(archive: Archive, manifest: map<string, string>, spine: seq<string>, p: Parsers): Assembly {
    if |spine| == 0 then Assembly([], [], 0, 0)
    else Step(AssembleSpine(archive, manifest, spine[..|spine| - 1], p),
              ChapterOutcome(archive, manifest, spine[|spine| - 1], p))
  }

  /** The word lists of the chapters that were read, in spine order. */
  function ReadChapterWords(archive: Archive, manifest: map<string, string>, spine: seq<string>, p: Parsers): seq<seq<string>> {
    if |spine| == 0 then []
    else
      var prev := ReadChapterWords(archive, manifest, spine[..|spine| - 1], p);
      match ChapterOutcome(archive, manifest, spine[|spine| - 1], p)
      case Read(ch) => prev + [ChapterWords(ch)]
      case _ => prev
  }

  /** The number of spine items that pass the `href` filter. */
  function ChapterItemCount(manifest: map<string, string>, spine: seq<string>): nat {
    if |spine| == 0 then 0
    else
      var idref := spine[|spine| - 1];
      ChapterItemCount(manifest, spine[..|spine| - 1])
        + (if idref in manifest && IsChapterHref(manifest[idref]) then 1 else 0)
  }

  /** The words are the read chapters' words, in spine order. */
  lemma {:induction false} AssembleWords(archive: Archive, manifest: map<string, string>, spine: seq<string>, p: Parsers)
    ensures var acc := AssembleSpine(archive, manifest, spine, p);
      acc.words == Concat(ReadChapterWords(archive, manifest, spine, p)) &&
      acc.successful == |ReadChapterWords(archive, manifest, spine, p)|
  {
    if |spine| > 0 {
      var init := spine[..|spine| - 1];
      AssembleWords(archive, manifest, init, p);
      var o := ChapterOutcome(archive, manifest, spine[|spine| - 1], p);
      if o.Read? {
        var lists := ReadChapterWords(archive, manifest, init, p);
        var cw := ChapterWords(o.chapter);
        ConcatAppend(lists, [cw]);
        ConcatSingleton(cw);
      }
    }
  }

  /** Every item that passes the `href` filter is counted once, as a success
      or as a failure; skipped items are not counted. */
  lemma {:induction false} AssembleCounts(archive: Archive, manifest: map<string, string>, spine: seq<string>, p: Parsers)
    ensures var acc := AssembleSpine(archive, manifest, spine, p);
      acc.successful + acc.failed == ChapterItemCount(manifest, spine)
  {
    if |spine| > 0 {
      AssembleCounts(archive, manifest, spine[..|spine| - 1], p);
    }
  }

  /** What the bookmarks keep true along the loop: at most one per chapter
      read, strictly increasing positions inside the words, non-empty titles. */
  predicate TocSound(acc: Assembly) {
    |acc.toc| <= acc.successful &&
    TocIncreasing(acc.toc) && TocInBounds(acc.toc, |acc.words|) &&
    (forall k :: 0 <= k < |acc.toc| ==> acc.toc[k].title != "")
  }

  /** One pass of the loop body keeps the bookmarks sound. */
  lemma TocStep(acc: Assembly, o: Outcome)
    requires TocSound(acc)
    ensures TocSound(Step(acc, o))
  {
    if o.Read? {
      var cw := ChapterWords(o.chapter);
      if |cw| > 0 {
        var e := TocEntry(ChapterTitle(o.chapter, acc.successful), |acc.words|);
        TocAppend(acc.toc, e, |acc.words|, |acc.words + cw|);
        assert (acc.toc + [e])[|acc.toc|] == e;
      } else {
        TocInLongerText(acc.toc, |acc.words|, |acc.words + cw|);
      }
    }
  }

  /** Bookmarks, at most one per chapter read, point at strictly increasing
      positions inside the words and carry non-blank titles. */
  lemma {:induction false} AssembleToc(archive: Archive, manifest: map<string, string>, spine: seq<string>, p: Parsers)
    ensures var acc := AssembleSpine(archive, manifest, spine, p);
      |acc.toc| <= acc.successful &&
      TocIncreasing(acc.toc) && TocInBounds(acc.toc, |acc.words|) &&
      (forall k :: 0 <= k < |acc.toc| ==> acc.toc[k].title != "")
  {
    if |spine| > 0 {
      AssembleToc(archive, manifest, spine[..|spine| - 1], p);
      TocStep(AssembleSpine(archive, manifest, spine[..|spine| - 1], p),
              ChapterOutcome(archive, manifest, spine[|spine| - 1], p));
    }
  }

  /** The bookmarks the spine should produce, stated from the chapters that
      were read: each read chapter with at least one word adds one bookmark,
      titled from that chapter and the number of chapters read before it,
      at the total word count of those earlier chapters. */
  function TocOf(archive: Archive, manifest: map<string, string>, spine: seq<string>, p: Parsers): seq<TocEntry> {
    if |spine| == 0 then []
    else
      var init := spine[..|spine| - 1];
      var prev := TocOf(archive, manifest, init, p);
      match ChapterOutcome(archive, manifest, spine[|spine| - 1], p)
      case Read(ch) =>
        var before := ReadChapterWords(archive, manifest, init, p);
        if |ChapterWords(ch)| > 0
        then prev + [TocEntry(ChapterTitle(ch, |before|), |Concat(before)|)]
        else prev
      case _ => prev
  }

  /** The number of word lists that are not empty. */
  function NonEmptyCount(lists: seq<seq<string>>): nat {
    if |lists| == 0 then 0
    else NonEmptyCount(lists[..|lists| - 1]) + (if |lists[|lists| - 1]| > 0 then 1 else 0)
  }

  /** The bookmarks built by the loop are exactly the reference ones. */
  lemma {:induction false} AssembleTocIsTocOf(archive: Archive, manifest: map<string, string>, spine: seq<string>, p: Parsers)
    ensures AssembleSpine(archive, manifest, spine, p).toc == TocOf(archive, manifest, spine, p)
  {
    if |spine| > 0 {
      var init := spine[..|spine| - 1];
      AssembleTocIsTocOf(archive, manifest, init, p);
      AssembleWords(archive, manifest, init, p);
    }
  }

  /** There is one bookmark per read chapter that has words. */
  lemma {:induction false} TocOfCount(archive: Archive, manifest: map<string, string>, spine: seq<string>, p: Parsers)
    ensures |TocOf(archive, manifest, spine, p)| == NonEmptyCount(ReadChapterWords(archive, manifest, spine, p))
  {
    if |spine| > 0 {
      var init := spine[..|spine| - 1];
      TocOfCount(archive, manifest, init, p);
      var o := ChapterOutcome(archive, manifest, spine[|spine| - 1], p);
      if o.Read? {
        var lists := ReadChapterWords(archive, manifest, init, p);
        assert (lists + [ChapterWords(o.chapter)])[..|lists|] == lists;
      }
    }
  }

  /** What the spine loop guarantees, all together. */
  lemma AssembleFacts(archive: Archive, manifest: map<string, string>, spine: seq<string>, p: Parsers)
    ensures var acc := AssembleSpine(archive, manifest, spine, p);
      acc.words == Concat(ReadChapterWords(archive, manifest, spine, p)) &&
      acc.successful == |ReadChapterWords(archive, manifest, spine, p)| &&
      acc.successful + acc.failed == ChapterItemCount(manifest, spine) &&
      |acc.toc| <= acc.successful &&
      TocIncreasing(acc.toc) && TocInBounds(acc.toc, |acc.words|) &&
      (forall k :: 0 <= k < |acc.toc| ==> acc.toc[k].title != "") &&
      acc.toc == TocOf(archive, manifest, spine, p) &&
      |acc.toc| == NonEmptyCount(ReadChapterWords(archive, manifest, spine, p))
  {
    AssembleWords(archive, manifest, spine, p);
    AssembleCounts(archive, manifest, spine, p);
    AssembleToc(archive, manifest, spine, p);
    AssembleTocIsTocOf(archive, manifest, spine, p);
    TocOfCount(archive, manifest, spine, p);
  }

  // ---------------------------------------------------------------------------
  // The whole parse

  /** The body of the `try`: each missing piece throws its own message. */
  function ParseOrThrow(loaded: Result<Archive, string>, p: Parsers): Result<Book, string> {
    if loaded.Failure? then Failure(loaded.error)
    else
      var archive := loaded.value;
      if ContainerPath !in archive then Failure(MissingContainer)
      else
        match p.rootfile(archive[ContainerPath])
        case None => Failure(MissingRootfile)
        case Some(rootfile) =>
          if rootfile !in archive then Failure(MissingPackage)
          else
            var pkg := p.package(archive[rootfile]);
            var manifest := ManifestOf(pkg.manifest, BasePath(rootfile));
            if |pkg.spine| == 0 then Failure(EmptySpine)
            else
              var acc := AssembleSpine(archive, manifest, pkg.spine, p);
              if |acc.words| == 0 then Failure(NoReadableText)
              else Success(Book(acc.words, acc.toc,
                                if acc.failed > 0 && acc.successful > 0 then Some(Warning(acc.failed)) else None))
  }

  /** `parseEPUB(file)`: the `try` body with its `catch`. `loaded` is what
      loading the zip gives: the archive, or the loader's error message. */
  function EpubSpec(loaded: Result<Archive, string>, p: Parsers): Result<Book, string> {
    match ParseOrThrow(loaded, p)
    case Success(book) => Success(book)
    case Failure(msg) => Failure(Rethrow(msg))
  }

  /** One pass of the spine loop's body: skip the item, count a failure,
      or append the chapter's words and perhaps a bookmark. */
  method ReadSpineItem(archive: Archive, manifest: map<string, string>, id: string, p: Parsers,
                       allWords: seq<string>, toc: seq<TocEntry>, successful: nat, failed: nat)
    returns (allWords': seq<string>, toc': seq<TocEntry>, successful': nat, failed': nat)
    ensures Assembly(allWords', toc', successful', failed')
         == Step(Assembly(allWords, toc, successful, failed), ChapterOutcome(archive, manifest, id, p))
  {
    allWords', toc', successful', failed' := allWords, toc, successful, failed;
    ghost var o := ChapterOutcome(archive, manifest, id, p);
    if id in manifest && IsChapterHref(manifest[id]) {
      var href := manifest[id];
      if href !in archive {
        assert o == Failed;
        failed' := failed + 1;
        return;
      }
      var parsed := p.chapter(archive[href]);
      if parsed.None? {
        assert o == Failed;
        failed' := failed + 1;
        return;
      }
      assert o == Read(parsed.value);
      allWords', toc', successful' := ReadChapter(parsed.value, allWords, toc, successful, failed);
    } else {
      assert o == Skipped;
    }
  }

  /** The chapter part of the loop body: its words appended, a bookmark at
      their start when there are any, and one more success. */
  method ReadChapter(ch: Chapter, allWords: seq<string>, toc: seq<TocEntry>, successful: nat, failed: nat)
    returns (allWords': seq<string>, toc': seq<TocEntry>, successful': nat)
    ensures Assembly(allWords', toc', successful', failed) == Step(Assembly(allWords, toc, successful, failed), Read(ch))
  {
    var text := ExtractTextWithSpacing(ch.body);
    var chapterStart := |allWords|;
    var title := ChapterTitle(ch, successful);
    var chapterWords := MergeTrailingPunctuation(Words(SpacePunctuation(text)));
    assert chapterWords == Tokenize(text);
    StepRead(Assembly(allWords, toc, successful, failed), ch, chapterWords, title);
    toc' := toc;
    if |chapterWords| > 0 {
      toc' := toc + [TocEntry(title, chapterStart)];
    }
    allWords' := allWords + chapterWords;
    successful' := successful + 1;
  }

  /** The spine loop of `parseEPUB`, with `allWords`, `toc` and the two
      counters as local variables. */
  method ReadSpine(archive: Archive, manifest: map<string, string>, spine: seq<string>, p: Parsers)
    returns (allWords: seq<string>, toc: seq<TocEntry>, successful: nat, failed: nat)
    ensures Assembly(allWords, toc, successful, failed) == AssembleSpine(archive, manifest, spine, p)
  {
    allWords, toc, successful, failed := [], [], 0, 0;
    for i := 0 to |spine|
      invariant Assembly(allWords, toc, successful, failed) == AssembleSpine(archive, manifest, spine[..i], p)
    {
      assert spine[..i + 1][..i] == spine[..i];
      allWords, toc, successful, failed := ReadSpineItem(archive, manifest, spine[i], p, allWords, toc, successful, failed);
    }
    assert spine[..|spine|] == spine;
  }

  /** `parseEPUB` as the code runs it: the checks in order, the manifest and
      spine loops, and the rethrow of any failure. */
  method ParseEpub(loaded: Result<Archive, string>, p: Parsers) returns (r: Result<Book, string>)
    ensures r == EpubSpec(loaded, p)
  {
    var thrown: string;
    if loaded.Failure? {
      thrown := loaded.error;
    } else {
      var archive := loaded.value;
      if ContainerPath !in archive {
        thrown := MissingContainer;
      } else {
        var rootfile := p.rootfile(archive[ContainerPath]);
        if rootfile.None? {
          thrown := MissingRootfile;
        } else if rootfile.value !in archive {
          thrown := MissingPackage;
        } else {
          var pkg := p.package(archive[rootfile.value]);
          var manifest := BuildManifest(pkg.manifest, BasePath(rootfile.value));
          if |pkg.spine| == 0 {
            thrown := EmptySpine;
          } else {
            var allWords, toc, successful, failed := ReadSpine(archive, manifest, pkg.spine, p);
            if |allWords| == 0 {
              thrown := NoReadableText;
            } else {
              var warning := if failed > 0 && successful > 0 then Some(Warning(failed)) else None;
              return Success(Book(allWords, toc, warning));
            }
          }
        }
      }
    }
    r := Failure(Rethrow(thrown));
  }

  // ---------------------------------------------------------------------------
  // Outcomes

  /** Each missing piece ends in its own `Invalid EPUB` message, which the
      `catch` passes through unchanged; a loader error gets the generic
      prefix. */
  lemma EpubErrors(loaded: Result<Archive, string>, p: Parsers)
    ensures loaded.Failure? && loaded.error != "" && !StartsWith(loaded.error, InvalidPrefix)
            && !StartsWith(loaded.error, NoTextPrefix) ==>
              EpubSpec(loaded, p) == Failure(FailurePrefix + loaded.error)
    ensures loaded.Success? && ContainerPath !in loaded.value ==> EpubSpec(loaded, p) == Failure(MissingContainer)
    ensures loaded.Success? && ContainerPath in loaded.value && p.rootfile(loaded.value[ContainerPath]).None? ==>
              EpubSpec(loaded, p) == Failure(MissingRootfile)
    ensures loaded.Success? && ContainerPath in loaded.value && p.rootfile(loaded.value[ContainerPath]).Some? &&
            p.rootfile(loaded.value[ContainerPath]).value !in loaded.value ==>
              EpubSpec(loaded, p) == Failure(MissingPackage)
  {
    if loaded.Failure? && loaded.error != "" && !StartsWith(loaded.error, InvalidPrefix)
       && !StartsWith(loaded.error, NoTextPrefix) {
      var r := Rethrow(loaded.error);
      assert r == r[..|FailurePrefix|] + r[|FailurePrefix|..];
    }
    InvalidMessages();
  }

  /** A book with an empty spine, or whose chapters give no words at all,
      fails with its own message. */
  lemma EpubEmptyErrors(archive: Archive, p: Parsers, rootfile: string)
    requires ContainerPath in archive && p.rootfile(archive[ContainerPath]) == Some(rootfile) && rootfile in archive
    ensures var pkg := p.package(archive[rootfile]);
      (|pkg.spine| == 0 ==> EpubSpec(Success(archive), p) == Failure(EmptySpine)) &&
      (|pkg.spine| > 0 &&
       |AssembleSpine(archive, ManifestOf(pkg.manifest, BasePath(rootfile)), pkg.spine, p).words| == 0 ==>
         EpubSpec(Success(archive), p) == Failure(NoReadableText))
  {
    InvalidMessages();
  }

  /** Once the package is found, the parse succeeds exactly when the spine
      is non-empty and its chapters give words; the book then has the
      assembled words, bookmarks at strictly increasing positions inside
      them, and a warning exactly when some chapters failed while others
      were read. */
  lemma EpubSuccess(archive: Archive, p: Parsers, rootfile: string)
    requires ContainerPath in archive && p.rootfile(archive[ContainerPath]) == Some(rootfile) && rootfile in archive
    ensures var pkg := p.package(archive[rootfile]);
      var acc := AssembleSpine(archive, ManifestOf(pkg.manifest, BasePath(rootfile)), pkg.spine, p);
      EpubSpec(Success(archive), p).Success? <==> |pkg.spine| > 0 && |acc.words| > 0
    ensures var pkg := p.package(archive[rootfile]);
      var acc := AssembleSpine(archive, ManifestOf(pkg.manifest, BasePath(rootfile)), pkg.spine, p);
      EpubSpec(Success(archive), p).Success? ==>
        var book := EpubSpec(Success(archive), p).value;
        book.words == acc.words && book.toc == acc.toc && |book.words| > 0 &&
        TocIncreasing(book.toc) && TocInBounds(book.toc, |book.words|) &&
        (book.warning.Some? <==> acc.failed > 0 && acc.successful > 0) &&
        (book.warning.Some? ==> book.warning.value == Warning(acc.failed))
  {
    var pkg := p.package(archive[rootfile]);
    AssembleFacts(archive, ManifestOf(pkg.manifest, BasePath(rootfile)), pkg.spine, p);
  }

  /** Every book the parser returns has words, and its bookmarks are
      strictly increasing positions inside them. */
  lemma EpubBookFacts(loaded: Result<Archive, string>, p: Parsers)
    ensures EpubSpec(loaded, p).Success? ==>
      var book := EpubSpec(loaded, p).value;
      |book.words| > 0 && TocIncreasing(book.toc) && TocInBounds(book.toc, |book.words|)
  {
    if EpubSpec(loaded, p).Success? {
      var archive := loaded.value;
      EpubSuccess(archive, p, p.rootfile(archive[ContainerPath]).value);
    }
  }

  /** A spine item that fails to load or parse changes nothing but the
      failure count: the words, bookmarks and successful count are those of
      the spine without it. */
  lemma {:induction false} FailedItemOnlyCounted(archive: Archive, manifest: map<string, string>, p: Parsers,
                                                 pre: seq<string>, x: string, post: seq<string>)
    requires ChapterOutcome(archive, manifest, x, p) == Failed
    ensures var without := AssembleSpine(archive, manifest, pre + post, p);
      AssembleSpine(archive, manifest, pre + [x] + post, p) == without.(failed := without.failed + 1)
    decreases |post|
  {
    if |post| == 0 {
      SpineShapes(pre, x, post);
      AssembleSnoc(archive, manifest, pre, x, p);
    } else {
      var init, y := post[..|post| - 1], post[|post| - 1];
      FailedItemOnlyCounted(archive, manifest, p, pre, x, init);
      SpineShapes(pre, x, post);
      AssembleSnoc(archive, manifest, pre + [x] + init, y, p);
      AssembleSnoc(archive, manifest, pre + init, y, p);
      StepIgnoresFailed(AssembleSpine(archive, manifest, pre + init, p), ChapterOutcome(archive, manifest, y, p));
    }
  }

  /** A spine item that is not a chapter changes nothing. */
  lemma {:induction false} SkippedItemIgnored(archive: Archive, manifest: map<string, string>, p: Parsers,
                                              pre: seq<string>, x: string, post: seq<string>)
    requires ChapterOutcome(archive, manifest, x, p) == Skipped
    ensures AssembleSpine(archive, manifest, pre + [x] + post, p) == AssembleSpine(archive, manifest, pre + post, p)
    decreases |post|
  {
    if |post| == 0 {
      SpineShapes(pre, x, post);
      AssembleSnoc(archive, manifest, pre, x, p);
    } else {
      var init, y := post[..|post| - 1], post[|post| - 1];
      SkippedItemIgnored(archive, manifest, p, pre, x, init);
      SpineShapes(pre, x, post);
      AssembleSnoc(archive, manifest, pre + [x] + init, y, p);
      AssembleSnoc(archive, manifest, pre + init, y, p);
    }
  }

  lemma SpineShapes(pre: seq<string>, x: string, post: seq<string>)
    ensures |post| == 0 ==> pre + [x] + post == pre + [x] && pre + post == pre
    ensures |post| > 0 ==>
      pre + [x] + post == (pre + [x] + post[..|post| - 1]) + [post[|post| - 1]] &&
      pre + post == (pre + post[..|post| - 1]) + [post[|post| - 1]]
  {
  }

  /** One more spine item is one more step. */
  lemma AssembleSnoc(archive: Archive, manifest: map<string, string>, spine: seq<string>, y: string, p: Parsers)
    ensures AssembleSpine(archive, manifest, spine + [y], p)
         == Step(AssembleSpine(archive, manifest, spine, p), ChapterOutcome(archive, manifest, y, p))
  {
    assert (spine + [y])[..|spine|] == spine;
  }

  /** A chapter read adds its words, a bookmark at their start when there
      are any, and one success. */
  lemma StepRead(acc: Assembly, ch: Chapter, cw: seq<string>, title: string)
    requires cw == ChapterWords(ch) && title == ChapterTitle(ch, acc.successful)
    ensures Step(acc, Read(ch)) == Assembly(acc.words + cw,
      if |cw| > 0 then acc.toc + [TocEntry(title, |acc.words|)] else acc.toc,
      acc.successful + 1, acc.failed)
  {
  }

  /** The failure count does not influence a step. */
  lemma StepIgnoresFailed(acc: Assembly, o: Outcome)
    ensures var next := Step(acc, o);
      Step(acc.(failed := acc.failed + 1), o) == next.(failed := next.failed + 1)
  {
  }
}
