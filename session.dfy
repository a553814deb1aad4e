/** The reader's state in `www/main.js`: the library list of imported
    documents and the store that persists them, the open document, the
    reading position, and speed-reading playback with its optional
    auto-pace ramp.

    The store is a map from document ids to records. A running
    `setInterval` is represented by the pace it was armed with, and one
    firing of it by a call of `Tick`. The clock (`Date.now()`) and the id
    generator are parameters. */
module Session {
  import opened Wrappers
  import opened JsStrings
  import opened Tokenizer
  import opened Epub
  import opened Pace
  import opened Orp

  datatype View = LibraryView | NormalView | SpeedView

  datatype Format = TxtFormat | EpubFormat

  /** A document record as imported and stored. */
  datatype Document = Document(
    id: string, filename: string, format: Format,
    words: seq<string>, toc: seq<TocEntry>,
    lastReadPosition: int, totalWords: nat,
    addedAt: int, lastAccessedAt: int)

  /** A selected file: its name and MIME type, its text as `FileReader`
      reads it, and what JSZip makes of its bytes. */
  datatype SelectedFile = SelectedFile(name: string, mimeType: string, text: string, archive: Result<Archive, string>)

  /** What `parseDocument` gives: the words, the bookmarks, and the warning
      an EPUB with some failed chapters raises. */
  datatype Parsed = Parsed(words: seq<string>, toc: seq<TocEntry>, warning: Option<string>)

  const AutoPaceRampStartWpm := 120
  const AutoPaceDurationWords := 100

  const InvalidFileMessage := "Please select a valid TXT or EPUB file."
  const ImportErrorPrefix := "Error importing document: "
  const NoWordsMessage := "No words found in document"

  // ---------------------------------------------------------------------------
  // The library and the store

  /** The state shared with storage: the library list, the store keyed by
      id, `currentDocument` and `readingState.documentId`. */
  datatype Library = Library(documents: seq<Document>, store: map<string, Document>,
                             open: Option<Document>, documentId: Option<string>)

  function Ids(docs: seq<Document>): set<string> {
    set k | 0 <= k < |docs| :: docs[k].id
  }

  predicate UniqueIds(docs: seq<Document>) {
    forall j, k :: 0 <= j < k < |docs| ==> docs[j].id != docs[k].id
  }

  /** The store holds exactly the listed documents, each under its own id. */
  predicate InSync(lib: Library) {
    UniqueIds(lib.documents) &&
    (forall d :: d in lib.documents ==> d.id in lib.store && lib.store[d.id] == d) &&
    lib.store.Keys == Ids(lib.documents)
  }

  /** The open document, if any, is the stored one with its id. */
  predicate OpenStored(lib: Library) {
    lib.open.Some? ==>
      lib.documentId == Some(lib.open.value.id) &&
      lib.open.value.id in lib.store && lib.store[lib.open.value.id] == lib.open.value
  }

  predicate Consistent(lib: Library) {
    InSync(lib) && OpenStored(lib)
  }

  /** The list with the entries carrying `d`'s id replaced by `d`: the
      object the open document shares with the list, updated in place. */
  function ReplaceById(docs: seq<Document>, d: Document): (r: seq<Document>)
    ensures |r| == |docs|
    ensures forall k :: 0 <= k < |r| ==> r[k] == (if docs[k].id == d.id then d else docs[k])
  {
    seq(|docs|, k requires 0 <= k < |docs| => if docs[k].id == d.id then d else docs[k])
  }

  /** `documents.filter(doc => doc.id !== id)`: exactly the entries with
      another id, in their order. */
  function WithoutId(docs: seq<Document>, id: string): (r: seq<Document>)
    ensures forall d :: d in r <==> d in docs && d.id != id
    ensures Ids(r) == Ids(docs) - {id}
  {
    if |docs| == 0 then []
    else
      var rest := WithoutId(docs[1..], id);
      var r := (if docs[0].id == id then [] else [docs[0]]) + rest;
      assert Ids(r) == Ids(docs) - {id} by {
        forall x | x in Ids(r) ensures x in Ids(docs) - {id} {
          var k :| 0 <= k < |r| && r[k].id == x;
          assert r[k] in docs;
        }
        forall x | x in Ids(docs) - {id} ensures x in Ids(r) {
          var k :| 0 <= k < |docs| && docs[k].id == x;
          assert docs[k] in r;
        }
      }
      r
  }

  /** `openDocument(doc)` on the list entry `i`: the entry's access time is
      updated in place and stored, and it becomes the open document. */
  function Opened(lib: Library, i: nat, now: int): Library
    requires i < |lib.documents|
  {
    var d := lib.documents[i].(lastAccessedAt := now);
    Library(lib.documents[i := d], lib.store[d.id := d], Some(d), Some(d.id))
  }

  /** `saveReadingState()`: with an open document and a non-empty id, the
      position and time are written into the open document, the list entry
      it shares, and the store under `documentId`; otherwise nothing. */
  function Saved(lib: Library, position: int, now: int): Library {
    if lib.open.Some? && lib.documentId.Some? && lib.documentId.value != "" then
      var d := lib.open.value.(lastReadPosition := position, lastAccessedAt := now);
      Library(ReplaceById(lib.documents, d), lib.store[lib.documentId.value := d], Some(d), lib.documentId)
    else lib
  }

  /** `deleteDocument(id)` once confirmed, as written: the record leaves the
      store and the list, but stays the open document. */
  function Deleted(lib: Library, id: string): Library {
    lib.(documents := WithoutId(lib.documents, id), store := lib.store - {id})
  }

  /** Deletion that also closes the document when it is the open one. */
  function DeletedAndClosed(lib: Library, id: string): Library {
    var r := Deleted(lib, id);
    if r.open.Some? && r.open.value.id == id then r.(open := None, documentId := None) else r
  }

  /** A new record stored and appended to the list. */
  function Imported(lib: Library, d: Document): Library {
    lib.(documents := lib.documents + [d], store := lib.store[d.id := d])
  }

  /** Opening keeps the store in step with the list, and the opened record
      differs from the listed one only in its access time. */
  lemma OpenedConsistent(lib: Library, i: nat, now: int)
    requires Consistent(lib) && i < |lib.documents|
    ensures Consistent(Opened(lib, i, now))
    ensures var r := Opened(lib, i, now);
      r.open == Some(lib.documents[i].(lastAccessedAt := now)) && r.documents[i] == r.open.value &&
      r.open.value.lastReadPosition == lib.documents[i].lastReadPosition && Ids(r.documents) == Ids(lib.documents)
  {
    var d := lib.documents[i].(lastAccessedAt := now);
    assert lib.documents[i] in lib.documents;
    UpdateIsReplace(lib.documents, i, d);
    assert Opened(lib, i, now) == Library(ReplaceById(lib.documents, d), lib.store[d.id := d], Some(d), Some(d.id));
    ReplaceInSync(lib, d);
    ReplaceByIdKeeps(lib.documents, d);
  }

  /** With unique ids, overwriting entry `i` with a record of the same id is
      replacing by that id. */
  lemma UpdateIsReplace(docs: seq<Document>, i: nat, d: Document)
    requires UniqueIds(docs) && i < |docs| && d.id == docs[i].id
    ensures docs[i := d] == ReplaceById(docs, d)
  {
    var r := ReplaceById(docs, d);
    forall k | 0 <= k < |docs| ensures docs[i := d][k] == r[k] {
      if k != i {
        assert docs[k].id != d.id;
      }
    }
  }

  /** Saving keeps the store in step with the list and writes the position
      into the stored record and its list entry; with no open document it
      changes nothing. */
  lemma SavedConsistent(lib: Library, position: int, now: int)
    requires Consistent(lib)
    ensures Consistent(Saved(lib, position, now))
    ensures Saved(lib, position, now).store.Keys == lib.store.Keys
    ensures lib.open.None? ==> Saved(lib, position, now) == lib
    ensures lib.open.Some? && lib.open.value.id != "" ==>
      var id := lib.open.value.id;
      var r := Saved(lib, position, now);
      r.store[id].lastReadPosition == position && r.store[id].lastAccessedAt == now &&
      (forall k :: 0 <= k < |r.documents| && r.documents[k].id == id ==> r.documents[k] == r.store[id])
  {
    if lib.open.Some? && lib.open.value.id != "" {
      var id := lib.open.value.id;
      var d := lib.open.value.(lastReadPosition := position, lastAccessedAt := now);
      assert Saved(lib, position, now) == Library(ReplaceById(lib.documents, d), lib.store[id := d], Some(d), Some(id));
      ReplaceInSync(lib, d);
      assert lib.store[id := d].Keys == lib.store.Keys;
    }
  }

  /** Writing a record over the stored one with its id, in the store and in
      the list entries with that id, keeps the two in step. */
  lemma ReplaceInSync(lib: Library, d: Document)
    requires InSync(lib) && d.id in lib.store
    ensures InSync(Library(ReplaceById(lib.documents, d), lib.store[d.id := d], Some(d), Some(d.id)))
  {
    var docs := ReplaceById(lib.documents, d);
    ReplaceByIdKeeps(lib.documents, d);
    assert lib.store[d.id := d].Keys == lib.store.Keys;
    forall x | x in docs ensures x.id in lib.store[d.id := d] && lib.store[d.id := d][x.id] == x {
      if x != d {
        assert x in lib.documents && x.id != d.id;
      }
    }
  }

  /** Replacing by id keeps the ids, their uniqueness, and every other
      entry. */
  lemma ReplaceByIdKeeps(docs: seq<Document>, d: Document)
    requires UniqueIds(docs)
    ensures var r := ReplaceById(docs, d);
      UniqueIds(r) && Ids(r) == Ids(docs) && (forall x :: x in r ==> x == d || (x in docs && x.id != d.id))
  {
    var r := ReplaceById(docs, d);
    assert Ids(r) == Ids(docs) by {
      forall x | x in Ids(docs) ensures x in Ids(r) {
        var k :| 0 <= k < |docs| && docs[k].id == x;
        assert r[k].id == x;
      }
    }
  }

  /** Saving twice at the same position and time is saving once. */
  lemma SaveIdempotent(lib: Library, position: int, now: int)
    ensures Saved(Saved(lib, position, now), position, now) == Saved(lib, position, now)
  {
    var once := Saved(lib, position, now);
    if lib.open.Some? && lib.documentId.Some? && lib.documentId.value != "" {
      var d := once.open.value;
      assert ReplaceById(once.documents, d) == once.documents;
    }
  }

  /** Importing a record under a fresh id keeps the store in step with the
      list and adds exactly that record. */
  lemma ImportedConsistent(lib: Library, d: Document)
    requires Consistent(lib) && d.id !in lib.store
    ensures Consistent(Imported(lib, d))
    ensures Imported(lib, d).store[d.id] == d && Ids(Imported(lib, d).documents) == Ids(lib.documents) + {d.id}
  {
    var r := Imported(lib, d);
    forall j, k | 0 <= j < k < |r.documents| ensures r.documents[j].id != r.documents[k].id {
      if k == |lib.documents| {
        assert lib.documents[j] in lib.documents;
      }
    }
    forall x | x in r.documents ensures x.id in r.store && r.store[x.id] == x {
      if x != d {
        assert x in lib.documents;
      }
    }
    assert Ids(r.documents) == Ids(lib.documents) + {d.id} by {
      forall x | x in Ids(r.documents) ensures x in Ids(lib.documents) + {d.id} {
        var k :| 0 <= k < |r.documents| && r.documents[k].id == x;
        if k < |lib.documents| {
          assert lib.documents[k].id == x;
        }
      }
      forall x | x in Ids(lib.documents) ensures x in Ids(r.documents) {
        var k :| 0 <= k < |lib.documents| && lib.documents[k].id == x;
        assert r.documents[k].id == x;
      }
      assert r.documents[|lib.documents|].id == d.id;
    }
  }

  /** Filtering a list with unique ids keeps them unique. */
  lemma {:induction false} WithoutIdUnique(docs: seq<Document>, id: string)
    requires UniqueIds(docs)
    ensures UniqueIds(WithoutId(docs, id))
  {
    if |docs| > 0 {
      var rest := WithoutId(docs[1..], id);
      WithoutIdUnique(docs[1..], id);
      if docs[0].id != id {
        var r := [docs[0]] + rest;
        forall k | 0 < k < |r| ensures r[0].id != r[k].id {
          assert r[k] in docs[1..];
          var j :| 0 <= j < |docs[1..]| && docs[1..][j] == r[k];
          assert docs[j + 1] == r[k];
        }
      }
    }
  }

  /** Filtering one entry keeps it exactly when its id differs. */
  lemma WithoutIdSingleton(d: Document, id: string)
    ensures WithoutId([d], id) == if d.id == id then [] else [d]
  {
    assert [d][1..] == [];
  }

  /** Filtering works piece by piece, so the kept entries stay in their
      order: with the singleton case this pins the result down entirely. */
  lemma {:induction false} WithoutIdAppend(xs: seq<Document>, ys: seq<Document>, id: string)
    ensures WithoutId(xs + ys, id) == WithoutId(xs, id) + WithoutId(ys, id)
    decreases |xs|
  {
    if |xs| == 0 {
      assert xs + ys == ys;
    } else {
      assert (xs + ys)[1..] == xs[1..] + ys;
      WithoutIdAppend(xs[1..], ys, id);
    }
  }

  /** Filtering an id the list does not hold changes nothing. */
  lemma {:induction false} WithoutAbsentId(docs: seq<Document>, id: string)
    requires id !in Ids(docs)
    ensures WithoutId(docs, id) == docs
  {
    if |docs| > 0 {
      assert docs[0].id in Ids(docs);
      assert Ids(docs[1..]) <= Ids(docs) by {
        forall x | x in Ids(docs[1..]) ensures x in Ids(docs) {
          var k :| 0 <= k < |docs[1..]| && docs[1..][k].id == x;
          assert docs[k + 1].id == x;
        }
      }
      WithoutAbsentId(docs[1..], id);
      assert [docs[0]] + docs[1..] == docs;
    }
  }

  /** Deleting, as written, keeps the store in step with the list, but the
      open document may now be one the store no longer has. */
  lemma DeletedInSync(lib: Library, id: string)
    requires Consistent(lib)
    ensures InSync(Deleted(lib, id)) && id !in Deleted(lib, id).store && id !in Ids(Deleted(lib, id).documents)
    ensures lib.open.Some? && lib.open.value.id == id ==> !OpenStored(Deleted(lib, id))
  {
    WithoutIdUnique(lib.documents, id);
  }

  /** Deleting the open document, as written, and then saving, as the app
      does when it is sent to the background, puts the deleted record back
      into the store while the list no longer shows it: on the next start
      the library loads it again. */
  lemma DeletedThenSavedResurrects(lib: Library, position: int, now: int)
    requires Consistent(lib) && lib.open.Some? && lib.open.value.id != ""
    ensures var id := lib.open.value.id;
      var after := Saved(Deleted(lib, id), position, now);
      id in after.store && after.store[id].lastReadPosition == position &&
      id !in Ids(after.documents) && !InSync(after)
  {
    var id := lib.open.value.id;
    DeletedInSync(lib, id);
    var del := Deleted(lib, id);
    ReplaceByIdKeeps(del.documents, del.open.value.(lastReadPosition := position, lastAccessedAt := now));
  }

  /** Deletion that closes the open document keeps the whole library
      consistent, so a later save can never bring the record back. */
  lemma DeletedAndClosedConsistent(lib: Library, id: string, position: int, now: int)
    requires Consistent(lib)
    ensures Consistent(DeletedAndClosed(lib, id))
    ensures id !in DeletedAndClosed(lib, id).store && id !in Ids(DeletedAndClosed(lib, id).documents)
    ensures var after := Saved(DeletedAndClosed(lib, id), position, now);
      InSync(after) && id !in after.store
  {
    DeletedInSync(lib, id);
    var r := DeletedAndClosed(lib, id);
    assert r.documents == Deleted(lib, id).documents && r.store == Deleted(lib, id).store;
    if r.open.Some? {
      var o := r.open.value;
      assert o.id != id;
      assert lib.store[o.id] == o;
    }
    SavedConsistent(r, position, now);
  }

  // ---------------------------------------------------------------------------
  // Import

  /** The file filter of `handleFileSelect`: a known MIME type or a known
      extension. */
  predicate AcceptedFile(f: SelectedFile) {
    f.mimeType in ["text/plain", "application/epub+zip"] || EndsWith(f.name, ".txt") || EndsWith(f.name, ".epub")
  }

  predicate IsEpubName(name: string) {
    EndsWith(name, ".epub")
  }

  /** `parseDocument(file)`: an `.epub` name goes to the EPUB parser, any
      other to the plain-text one, whatever the MIME type. */
  function ParseDocument(f: SelectedFile, p: Parsers): Result<Parsed, string> {
    if IsEpubName(f.name) then
      match EpubSpec(f.archive, p)
      case Success(book) => Success(Parsed(book.words, book.toc, book.warning))
      case Failure(msg) => Failure(msg)
    else
      var words := Tokenize(f.text);
      Success(Parsed(words, PercentToc(|words|), None))
  }

  /** The `try` of `handleFileSelect` up to the record: the parser's error,
      or the empty-document error, or what will be stored. */
  function ImportOutcome(f: SelectedFile, p: Parsers): Result<Parsed, string> {
    match ParseDocument(f, p)
    case Failure(msg) => Failure(msg)
    case Success(parsed) => if |parsed.words| == 0 then Failure(NoWordsMessage) else Success(parsed)
  }

  /** The record `handleFileSelect` stores. */
  function ImportRecord(id: string, name: string, parsed: Parsed, now: int): Document {
    Document(id, name, if IsEpubName(name) then EpubFormat else TxtFormat,
             parsed.words, parsed.toc, 0, |parsed.words|, now, now)
  }

  /** What an import gives. A plain-text file is imported exactly when its
      text is not blank, with its tokens and the five percentage bookmarks;
      an EPUB exactly when the EPUB parser returns a book. Every imported
      record starts at its first word, counts its words, and has bookmarks
      inside them. */
  lemma ImportFacts(f: SelectedFile, p: Parsers, id: string, now: int)
    ensures !IsEpubName(f.name) ==>
      (ImportOutcome(f, p).Success? <==> !IsBlank(f.text)) &&
      (ImportOutcome(f, p).Failure? ==> ImportOutcome(f, p).error == NoWordsMessage) &&
      (ImportOutcome(f, p).Success? ==>
         ImportOutcome(f, p).value == Parsed(Tokenize(f.text), PercentToc(|Tokenize(f.text)|), None) &&
         TocNonDecreasing(ImportOutcome(f, p).value.toc))
    ensures IsEpubName(f.name) ==>
      (ImportOutcome(f, p).Success? <==> EpubSpec(f.archive, p).Success?) &&
      (ImportOutcome(f, p).Failure? ==> ImportOutcome(f, p).error == EpubSpec(f.archive, p).error) &&
      (ImportOutcome(f, p).Success? ==> TocIncreasing(ImportOutcome(f, p).value.toc))
    ensures ImportOutcome(f, p).Success? ==>
      var doc := ImportRecord(id, f.name, ImportOutcome(f, p).value, now);
      0 == doc.lastReadPosition < doc.totalWords == |doc.words| &&
      TocInBounds(doc.toc, |doc.words|) &&
      (doc.format == EpubFormat <==> IsEpubName(f.name))
  {
    if IsEpubName(f.name) {
      EpubBookFacts(f.archive, p);
    } else {
      TokenizeProperties(f.text);
      PercentTocValid(|Tokenize(f.text)|);
    }
  }

  /** The alerts the EPUB warning raises. */
  function WarningAlerts(warning: Option<string>): seq<string> {
    if warning.Some? then [warning.value] else []
  }

  /** The `try` of `handleFileSelect` up to the record: parse the file as
      its name says, and reject a document without words. The alerts are
      the EPUB warning on success and the error message on failure. */
  method ParseSelected(f: SelectedFile, p: Parsers) returns (outcome: Result<Parsed, string>, alerts: seq<string>)
    ensures outcome == ImportOutcome(f, p)
    ensures outcome.Success? ==> alerts == WarningAlerts(outcome.value.warning) && |outcome.value.words| > 0
    ensures outcome.Failure? ==> alerts == [ImportErrorPrefix + outcome.error]
  {
    var parsed: Parsed;
    alerts := [];
    if IsEpubName(f.name) {
      var book := ParseEpub(f.archive, p);
      if book.Failure? {
        outcome := Failure(book.error);
        alerts := [ImportErrorPrefix + book.error];
        return;
      }
      alerts := WarningAlerts(book.value.warning);
      parsed := Parsed(book.value.words, book.value.toc, book.value.warning);
    } else {
      var txtWords, toc := ParseTxt(f.text);
      parsed := Parsed(txtWords, toc, None);
    }
    assert ParseDocument(f, p) == Success(parsed);
    if |parsed.words| == 0 {
      outcome := Failure(NoWordsMessage);
      alerts := [ImportErrorPrefix + NoWordsMessage];
      return;
    }
    outcome := Success(parsed);
  }

  // ---------------------------------------------------------------------------
  // The reader

  class Reader {
    var currentView: View
    var documents: seq<Document>
    var store: map<string, Document>
    var currentDocument: Option<Document>
    var documentId: Option<string>
    var currentWordIndex: int
    var words: seq<string>
    var isPlaying: bool
    var speedWpm: int
    var targetSpeedWpm: int
    var autoPaceEnabled: bool
    var autoPaceStartWpm: int
    var autoPaceStartWordIndex: int
    /** The pace the running interval was armed with, none when stopped. */
    var interval: Option<real>

    function Lib(): Library
      reads this
    {
      Library(documents, store, currentDocument, documentId)
    }

    /** An interval runs exactly while playing, and without auto-pace it
        runs at the chosen speed. */
    predicate PlaybackValid()
      reads this
    {
      (interval.Some? <==> isPlaying) &&
      (isPlaying && !autoPaceEnabled ==> interval == Some(speedWpm as real))
    }

    predicate InBounds()
      reads this
    {
      0 <= currentWordIndex < |words|
    }

    twostate predicate PositionUnchanged()
      reads this
    {
      currentWordIndex == old(currentWordIndex) && words == old(words)
    }

    twostate predicate PaceUnchanged()
      reads this
    {
      speedWpm == old(speedWpm) && targetSpeedWpm == old(targetSpeedWpm) &&
      autoPaceEnabled == old(autoPaceEnabled) && autoPaceStartWpm == old(autoPaceStartWpm) &&
      autoPaceStartWordIndex == old(autoPaceStartWordIndex)
    }

    twostate predicate PlaybackUnchanged()
      reads this
    {
      isPlaying == old(isPlaying) && interval == old(interval)
    }

    twostate predicate LibraryUnchanged()
      reads this
    {
      Lib() == old(Lib()) && currentView == old(currentView)
    }

    /** The initial state: library view, no documents, 300 words per
        minute, auto-pace off. */
    constructor()
      ensures Lib() == Library([], map[], None, None) && Consistent(Lib())
      ensures currentView == LibraryView && currentWordIndex == 0 && words == []
      ensures !isPlaying && PlaybackValid()
      ensures speedWpm == 300 && targetSpeedWpm == 300 && !autoPaceEnabled
      ensures autoPaceStartWpm == AutoPaceRampStartWpm && autoPaceStartWordIndex == 0
    {
      currentView := LibraryView;
      documents := [];
      store := map[];
      currentDocument := None;
      documentId := None;
      currentWordIndex := 0;
      words := [];
      isPlaying := false;
      speedWpm := 300;
      targetSpeedWpm := 300;
      autoPaceEnabled := false;
      autoPaceStartWpm := AutoPaceRampStartWpm;
      autoPaceStartWordIndex := 0;
      interval := None;
    }

    // -------------------------------------------------------------------------
    // Pace

    /** The pace `calculateDelay` divides by: the ramp when auto-pace is on,
        the chosen speed otherwise. The ramp starts at its starting speed at
        its anchor and holds the target from 100 words after it. */
    function EffectiveWpm(): (wpm: real)
      reads this
      ensures !autoPaceEnabled ==> wpm == speedWpm as real
      ensures autoPaceEnabled && currentWordIndex == autoPaceStartWordIndex ==> wpm == autoPaceStartWpm as real
      ensures autoPaceEnabled && currentWordIndex >= autoPaceStartWordIndex + AutoPaceDurationWords ==>
                wpm == targetSpeedWpm as real
    {
      if autoPaceEnabled then
        var wpm := RampWpm(autoPaceStartWpm, targetSpeedWpm, autoPaceStartWordIndex, AutoPaceDurationWords, currentWordIndex);
        RampAtStart(autoPaceStartWpm, targetSpeedWpm, autoPaceStartWordIndex, AutoPaceDurationWords);
        assert currentWordIndex >= autoPaceStartWordIndex + AutoPaceDurationWords ==> wpm == targetSpeedWpm as real by {
          if currentWordIndex >= autoPaceStartWordIndex + AutoPaceDurationWords {
            RampHoldsTarget(autoPaceStartWpm, targetSpeedWpm, autoPaceStartWordIndex, AutoPaceDurationWords, currentWordIndex);
          }
        }
        wpm
      else speedWpm as real
    }

    /** `calculateDelay()`: milliseconds per word at the current pace. */
    function CalculateDelay(): (d: real)
      reads this
      requires EffectiveWpm() > 0.0
      ensures d > 0.0 && d * EffectiveWpm() == 60000.0
      ensures !autoPaceEnabled ==> d * speedWpm as real == 60000.0
    {
      DelayMs(EffectiveWpm())
    }

    /** The split of the word on screen; `words[i] || ''` makes it empty
        outside the text. */
    function Display(): (e: Emphasis)
      reads this
      ensures InBounds() ==> e.before + e.focus + e.after == words[currentWordIndex] && e == Split(words[currentWordIndex])
      ensures !InBounds() ==> e == Emphasis("", "", "")
    {
      Split(if InBounds() then words[currentWordIndex] else "")
    }

    // -------------------------------------------------------------------------
    // Playback

    /** `startPlayback()`: arm an interval at the current pace. */
    method StartPlayback()
      modifies this
      ensures interval == Some(old(EffectiveWpm()))
      ensures isPlaying == old(isPlaying) && PaceUnchanged() && PositionUnchanged() && LibraryUnchanged()
    {
      interval := Some(EffectiveWpm());
    }

    /** `stopPlayback()`: clear the interval. */
    method StopPlayback()
      modifies this
      ensures interval.None?
      ensures isPlaying == old(isPlaying) && PaceUnchanged() && PositionUnchanged() && LibraryUnchanged()
    {
      interval := None;
    }

    /** `togglePlayPause()`: stopping clears the interval; starting anchors
        the auto-pace ramp at the current word, from 120 words per minute
        up to the chosen speed, and arms the interval at the pace there. */
    method TogglePlayPause()
      modifies this
      ensures isPlaying == !old(isPlaying) && PlaybackValid()
      ensures old(isPlaying) ==> interval.None? && PaceUnchanged()
      ensures !old(isPlaying) && autoPaceEnabled ==>
        autoPaceStartWordIndex == currentWordIndex && autoPaceStartWpm == AutoPaceRampStartWpm &&
        targetSpeedWpm == speedWpm && interval == Some(AutoPaceRampStartWpm as real)
      ensures !old(isPlaying) && !autoPaceEnabled ==> PaceUnchanged() && interval == Some(speedWpm as real)
      ensures speedWpm == old(speedWpm) && autoPaceEnabled == old(autoPaceEnabled)
      ensures PositionUnchanged() && LibraryUnchanged()
    {
      isPlaying := !isPlaying;
      if isPlaying {
        if autoPaceEnabled {
          autoPaceStartWordIndex := currentWordIndex;
          autoPaceStartWpm := AutoPaceRampStartWpm;
          targetSpeedWpm := speedWpm;
        }
        StartPlayback();
      } else {
        StopPlayback();
      }
    }

    /** One firing of the interval: the next word; past the last word the
        position goes back to the last word and playback stops; with
        auto-pace the interval is re-armed at the new word's pace. */
    method Tick()
      requires isPlaying && PlaybackValid()
      modifies this
      ensures PlaybackValid()
      ensures old(currentWordIndex) + 1 >= |words| ==>
        currentWordIndex == |words| - 1 && !isPlaying && interval.None?
      ensures old(currentWordIndex) + 1 < |words| ==>
        currentWordIndex == old(currentWordIndex) + 1 && isPlaying &&
        (autoPaceEnabled ==> interval == Some(EffectiveWpm())) &&
        (!autoPaceEnabled ==> interval == old(interval))
      ensures old(InBounds()) ==> InBounds()
      ensures words == old(words) && PaceUnchanged() && LibraryUnchanged()
    {
      currentWordIndex := currentWordIndex + 1;
      if currentWordIndex >= |words| {
        currentWordIndex := |words| - 1;
        TogglePlayPause();
      } else if autoPaceEnabled {
        StopPlayback();
        StartPlayback();
      }
    }

    /** `updateSpeed(newSpeed)`: the new speed becomes the speed and the
        target; while ramping and playing the ramp restarts flat at the new
        speed. A running interval is re-armed, so the new speed takes effect
        at once in both modes. */
    method UpdateSpeed(newSpeed: int)
      requires PlaybackValid()
      modifies this
      ensures speedWpm == newSpeed && targetSpeedWpm == newSpeed
      ensures old(autoPaceEnabled && isPlaying) ==>
        autoPaceStartWpm == newSpeed && autoPaceStartWordIndex == currentWordIndex
      ensures !old(autoPaceEnabled && isPlaying) ==>
        autoPaceStartWpm == old(autoPaceStartWpm) && autoPaceStartWordIndex == old(autoPaceStartWordIndex)
      ensures isPlaying == old(isPlaying) && autoPaceEnabled == old(autoPaceEnabled)
      ensures isPlaying ==> interval == Some(newSpeed as real)
      ensures PlaybackValid()
      ensures PositionUnchanged() && LibraryUnchanged()
    {
      if autoPaceEnabled && isPlaying {
        autoPaceStartWpm := newSpeed;
        autoPaceStartWordIndex := currentWordIndex;
      }
      speedWpm := newSpeed;
      targetSpeedWpm := newSpeed;
      if isPlaying {
        StopPlayback();
        StartPlayback();
      }
    }

    /** `toggleAutoPace(enabled)`: switching it on anchors a flat ramp at
        the chosen speed; either way a running interval is re-armed at the
        chosen speed, so the pace does not jump. */
    method ToggleAutoPace(enabled: bool)
      requires PlaybackValid()
      modifies this
      ensures autoPaceEnabled == enabled
      ensures enabled ==>
        autoPaceStartWordIndex == currentWordIndex && autoPaceStartWpm == speedWpm && targetSpeedWpm == speedWpm
      ensures !enabled ==>
        autoPaceStartWordIndex == old(autoPaceStartWordIndex) && autoPaceStartWpm == old(autoPaceStartWpm) &&
        targetSpeedWpm == old(targetSpeedWpm)
      ensures speedWpm == old(speedWpm) && isPlaying == old(isPlaying)
      ensures isPlaying ==> interval == Some(speedWpm as real)
      ensures PlaybackValid()
      ensures PositionUnchanged() && LibraryUnchanged()
    {
      autoPaceEnabled := enabled;
      if autoPaceEnabled {
        autoPaceStartWordIndex := currentWordIndex;
        autoPaceStartWpm := speedWpm;
        targetSpeedWpm := speedWpm;
      }
      if isPlaying {
        StopPlayback();
        StartPlayback();
      }
    }

    // -------------------------------------------------------------------------
    // Position

    /** `goToPreviousWord()`: one word back unless at the first word. */
    method GoToPreviousWord()
      modifies this
      ensures old(currentWordIndex) > 0 ==> currentWordIndex == old(currentWordIndex) - 1
      ensures old(currentWordIndex) <= 0 ==> currentWordIndex == old(currentWordIndex)
      ensures old(InBounds()) ==> InBounds()
      ensures words == old(words) && PaceUnchanged() && PlaybackUnchanged() && LibraryUnchanged()
    {
      if currentWordIndex > 0 {
        currentWordIndex := currentWordIndex - 1;
      }
    }

    /** `goToNextWord()`: one word on unless at the last word. */
    method GoToNextWord()
      modifies this
      ensures old(currentWordIndex) < |words| - 1 ==> currentWordIndex == old(currentWordIndex) + 1
      ensures old(currentWordIndex) >= |words| - 1 ==> currentWordIndex == old(currentWordIndex)
      ensures old(InBounds()) ==> InBounds()
      ensures words == old(words) && PaceUnchanged() && PlaybackUnchanged() && LibraryUnchanged()
    {
      if currentWordIndex < |words| - 1 {
        currentWordIndex := currentWordIndex + 1;
      }
    }

    /** `goToNextPage()`: a page on, stopping at the last word. */
    method GoToNextPage(wordsPerPage: nat)
      modifies this
      ensures currentWordIndex == old(currentWordIndex) + wordsPerPage || currentWordIndex == |words| - 1
      ensures currentWordIndex <= old(currentWordIndex) + wordsPerPage && currentWordIndex <= |words| - 1
      ensures old(InBounds()) ==> InBounds() && old(currentWordIndex) <= currentWordIndex
      ensures words == old(words) && PaceUnchanged() && PlaybackUnchanged() && LibraryUnchanged()
    {
      var next := currentWordIndex + wordsPerPage;
      currentWordIndex := if |words| - 1 < next then |words| - 1 else next;
    }

    /** `goToPreviousPage()`: a page back, stopping at the first word. */
    method GoToPreviousPage(wordsPerPage: nat)
      modifies this
      ensures currentWordIndex == old(currentWordIndex) - wordsPerPage || currentWordIndex == 0
      ensures currentWordIndex >= old(currentWordIndex) - wordsPerPage && currentWordIndex >= 0
      ensures old(InBounds()) ==> InBounds() && currentWordIndex <= old(currentWordIndex)
      ensures words == old(words) && PaceUnchanged() && PlaybackUnchanged() && LibraryUnchanged()
    {
      var previous := currentWordIndex - wordsPerPage;
      currentWordIndex := if 0 < previous then previous else 0;
    }

    /** `resetReading()`: back to the first word; playback and the ramp
        anchors are left as they are. */
    method ResetReading()
      modifies this
      ensures currentWordIndex == 0 && (|words| > 0 ==> InBounds())
      ensures words == old(words) && PaceUnchanged() && PlaybackUnchanged() && LibraryUnchanged()
    {
      currentWordIndex := 0;
    }

    /** `jumpToChapter(wordIndex)`: straight to a bookmark's word. */
    method JumpToChapter(wordIndex: int)
      modifies this
      ensures currentWordIndex == wordIndex
      ensures 0 <= wordIndex < |words| ==> InBounds()
      ensures words == old(words) && PaceUnchanged() && PlaybackUnchanged() && LibraryUnchanged()
    {
      currentWordIndex := wordIndex;
    }

    /** `switchView(view)`: leaving the speed view stops playback. */
    method SwitchView(view: View)
      requires PlaybackValid()
      modifies this
      ensures currentView == view && PlaybackValid()
      ensures old(currentView) == SpeedView && view != SpeedView ==> !isPlaying && interval.None?
      ensures !(old(currentView) == SpeedView && view != SpeedView) ==> PlaybackUnchanged()
      ensures Lib() == old(Lib()) && PositionUnchanged() && PaceUnchanged()
    {
      if currentView == SpeedView && view != SpeedView && isPlaying {
        isPlaying := false;
        StopPlayback();
      }
      currentView := view;
    }

    // -------------------------------------------------------------------------
    // Documents

    /** `openDocument(doc)` for the list entry `i` at time `now`. */
    method OpenDocument(i: nat, now: int)
      requires i < |documents| && PlaybackValid()
      modifies this
      ensures Lib() == Opened(old(Lib()), i, now)
      ensures currentWordIndex == old(documents[i].lastReadPosition) && words == old(documents[i].words)
      ensures currentView == NormalView && PlaybackValid() && PaceUnchanged()
      ensures old(currentView) == SpeedView ==> !isPlaying
      ensures old(currentView) != SpeedView ==> PlaybackUnchanged()
    {
      var doc := documents[i].(lastAccessedAt := now);
      documents := documents[i := doc];
      currentDocument := Some(doc);
      documentId := Some(doc.id);
      currentWordIndex := doc.lastReadPosition;
      words := doc.words;
      store := store[doc.id := doc];
      SwitchView(NormalView);
    }

    /** `saveReadingState()` at time `now`. */
    method SaveReadingState(now: int)
      modifies this
      ensures Lib() == Saved(old(Lib()), old(currentWordIndex), now)
      ensures currentView == old(currentView) && PositionUnchanged() && PaceUnchanged() && PlaybackUnchanged()
    {
      if currentDocument.Some? && documentId.Some? && documentId.value != "" {
        var doc := currentDocument.value.(lastReadPosition := currentWordIndex, lastAccessedAt := now);
        currentDocument := Some(doc);
        store := store[documentId.value := doc];
        documents := ReplaceById(documents, doc);
      }
    }

    /** `deleteDocument(docId)`, as written: `confirmed` is the answer to
        the confirmation dialog. */
    method DeleteDocument(docId: string, confirmed: bool)
      modifies this
      ensures confirmed ==> Lib() == Deleted(old(Lib()), docId)
      ensures !confirmed ==> Lib() == old(Lib())
      ensures currentView == old(currentView) && PositionUnchanged() && PaceUnchanged() && PlaybackUnchanged()
    {
      if confirmed {
        store := store - {docId};
        documents := WithoutId(documents, docId);
      }
    }

    /** Deletion that also closes the document when it is the open one. */
    method DeleteDocumentAndClose(docId: string, confirmed: bool)
      modifies this
      ensures confirmed ==> Lib() == DeletedAndClosed(old(Lib()), docId)
      ensures !confirmed ==> Lib() == old(Lib())
      ensures old(Consistent(Lib())) ==> Consistent(Lib())
      ensures currentView == old(currentView) && PositionUnchanged() && PaceUnchanged() && PlaybackUnchanged()
    {
      ghost var before := Lib();
      if confirmed {
        store := store - {docId};
        documents := WithoutId(documents, docId);
        if currentDocument.Some? && currentDocument.value.id == docId {
          currentDocument := None;
          documentId := None;
        }
        assert Lib() == DeletedAndClosed(before, docId);
        if Consistent(before) {
          DeletedAndClosedConsistent(before, docId, currentWordIndex, 0);
        }
      }
    }

    /** `handleFileSelect(event)`: `file` is the selected file, if any, `p`
        the parsers, `id` the fresh id `generateId()` gives and `now` the
        clock. The result is the alerts shown, in order. */
    method HandleFileSelect(file: Option<SelectedFile>, p: Parsers, id: string, now: int)
      returns (alerts: seq<string>)
      requires id !in store
      modifies this
      ensures file.None? ==> alerts == [] && Lib() == old(Lib())
      ensures file.Some? && !AcceptedFile(file.value) ==> alerts == [InvalidFileMessage] && Lib() == old(Lib())
      ensures file.Some? && AcceptedFile(file.value) && ImportOutcome(file.value, p).Failure? ==>
        alerts == [ImportErrorPrefix + ImportOutcome(file.value, p).error] && Lib() == old(Lib())
      ensures file.Some? && AcceptedFile(file.value) && ImportOutcome(file.value, p).Success? ==>
        var parsed := ImportOutcome(file.value, p).value;
        alerts == WarningAlerts(parsed.warning) &&
        Lib() == Imported(old(Lib()), ImportRecord(id, file.value.name, parsed, now))
      ensures old(Consistent(Lib())) ==> Consistent(Lib())
      ensures currentView == old(currentView) && PositionUnchanged() && PaceUnchanged() && PlaybackUnchanged()
    {
      alerts := [];
      if file.None? {
        return;
      }
      var f := file.value;
      if !AcceptedFile(f) {
        alerts := [InvalidFileMessage];
        return;
      }
      var outcome;
      outcome, alerts := ParseSelected(f, p);
      if outcome.Failure? {
        return;
      }
      AddRecord(ImportRecord(id, f.name, outcome.value, now));
    }

    /** The end of a successful import: the record is stored under its id
        and appended to the list. */
    method AddRecord(doc: Document)
      requires doc.id !in store
      modifies this
      ensures Lib() == Imported(old(Lib()), doc)
      ensures old(Consistent(Lib())) ==> Consistent(Lib())
      ensures currentView == old(currentView) && PositionUnchanged() && PaceUnchanged() && PlaybackUnchanged()
    {
      if Consistent(Lib()) {
        ImportedConsistent(Lib(), doc);
      }
      store := store[doc.id := doc];
      documents := documents + [doc];
    }
  }
}
