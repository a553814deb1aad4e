# Speed reader core in Dafny

A model of the reading core of a mobile speed-reading app. It covers two versions of the app's one script: `www/main.js`, the current version, and `app/www/main.js`, an earlier snapshot. The model has these parts:

- **Tokenizer** (`tokenizer.dfy`). Plain text becomes word tokens. Punctuation marks are padded with spaces, the text is split on `\s`, and a lone mark is appended to the word before it. A text file gets five percentage bookmarks: 0%, 25%, 50%, 75% and 100%.
- **Markup** (`markup.dfy`). A chapter's HTML is a tree of text nodes, elements and other nodes. `extractTextWithSpacing` flattens it and pads block-level elements with one space on each side. The DOM's `textContent` is modelled beside it.
- **EPUB** (`epub.dfy`). The package is found through `META-INF/container.xml`. Manifest paths are resolved against the package's directory. Chapters are read in spine order and their words concatenated. A bookmark is recorded at the first word of every chapter that has words, and its title comes with fallbacks. Failed chapters are counted, and every structural failure has its own message. The zip archive is a map from paths to texts. The XML and HTML parsers are function parameters.
- **ORP** (`orp.dfy`). A word is split around its focus letter, the optimal recognition point. The current rule puts it about a third of the way in. The earlier rule puts it at the third letter at most.
- **Pace** (`pace.dfy`). The auto-pace ramp is a linear interpolation from a start pace to the target over 100 words. The delay between words is `60000 / wpm`. Both use exact reals.
- **Session** (`session.dfy`). The app's global state is the class `Reader`. It holds the document list, a store keyed by document id, the open document, the reading position and playback with auto-pace. The store and the list are also described as a value, `Library`, with one pure transition per operation. The class methods are proved to perform exactly those transitions. Opening, saving and importing keep list, store and open document consistent. Deleting the open document keeps list and store in step but leaves the open document outside the store; see Findings.
- **Legacy** (`legacy.dfy`). The earlier snapshot has whitespace-only splitting and no bookmarks. Its EPUB reader joins the chapters' `textContent` and falls back to three fixed words. Playback runs at a fixed rate, and imports show no messages.

A running `setInterval` is the pace it was armed with, and one firing of it is a call of `Tick`. The clock (`Date.now()`) and the id generator (`generateId`) are parameters. So are the file a user picks, its text and what the zip loader makes of it.

Where the code departs from the app's design notes, the model follows the code:
- `updateSpeed` during auto-paced playback re-anchors the ramp at the new speed, so the pace is flat from then on.
- Page turns do not save the position.
- `jumpToChapter` does not clamp its index.
- The ramp's progress has no lower bound, so a position before the anchor reads below the start pace (`Pace.RampBelowStart`).
- A text file with no words gets five bookmarks at index -1, which is never stored because the import rejects it.

## Model

| member | source | states |
|---|---|---|
| JsStrings.Trim | www/main.js:860-865 | `trim()` is empty exactly for blank text, otherwise neither starts nor ends with whitespace, and is always the text with a blank prefix and a blank suffix cut off (`IsUnpadded`) |
| JsStrings.Substring | www/main.js:621-623 | `substring` with in-range ordered bounds is the slice between them |
| JsStrings.CharAt | www/main.js:622 | `word[i] \|\| ''` is the one-character string of the letter at `i` when `i` is inside the word, and `''` otherwise |
| JsStrings.NatToString | www/main.js:771 | the decimal rendering of a count is digits only, has no leading zero, and reads back as the count |
| Tokenizer.SpacePunctuationKeepsText | www/main.js:761 | padding punctuation adds only whitespace: the non-whitespace text is unchanged |
| Tokenizer.SpacePunctuationIsolates | www/main.js:761 | after padding, every mark has whitespace or the text's end on both sides |
| Tokenizer.Words | www/main.js:762 | `split(/\s+/).filter(...)` gives non-empty, whitespace-free words whose concatenation is the text without whitespace |
| Tokenizer.WordsOfJoin | www/main.js:762 | splitting undoes joining non-empty whitespace-free words with single spaces |
| Tokenizer.WordsAfterSeparator | www/main.js:762 | text that is empty or ends in whitespace splits independently of what follows it |
| Tokenizer.IsolatedMarksAreOwnWords | www/main.js:761-762 | once marks are isolated, any word containing a mark is that mark alone |
| Tokenizer.MergeTrailingPunctuation | www/main.js:36-52 | the loop computes exactly the left-to-right merge `Merged` |
| Tokenizer.MergedConcat | www/main.js:36-52 | merging keeps the concatenation of the tokens |
| Tokenizer.MergedLength | www/main.js:36-52 | the output is shorter than the input by exactly the number of merged marks, and non-empty input gives non-empty output |
| Tokenizer.MergedShape | www/main.js:36-52 | output words are non-empty and whitespace-free, only the first can be a lone mark, and the first starts with the first input word |
| Tokenizer.TokenizeProperties | www/main.js:759-763 | the tokens of `Tokenize` (pad the marks, split, merge lone marks) are non-empty and whitespace-free, concatenate to the text without whitespace, contain no lone mark after the first, and there are none exactly for blank text |
| Tokenizer.BlankIffNoWords | www/main.js:761-762 | the padded text splits into no word exactly when the text is blank |
| Tokenizer.SentenceTokens | www/main.js:759-763 | `"a, b!"` gives the tokens `"a,"` and `"b!"` for plain words `a` and `b` |
| Tokenizer.BuildPercentToc | www/main.js:766-774 | the bookmark loop builds exactly `PercentToc` |
| Tokenizer.PercentMarkBounds | www/main.js:769-772 | a larger percentage never gives an earlier index, and every index lies in `[0, n-1]` |
| Tokenizer.PercentTocValid | www/main.js:766-774 | there are five bookmarks, in bounds and non-decreasing for a non-empty text, all at -1 for an empty one |
| Tokenizer.PercentTocTitles | www/main.js:767-772 | the titles are `0%`, `25%`, `50%`, `75%`, `100%`, and 100 words give indices 0, 25, 50, 75, 99 |
| Tokenizer.PercentMarksOfHundredWords | www/main.js:769-772 | for 100 words the indices are 0, 25, 50, 75 and 99 |
| Tokenizer.PercentTitles | www/main.js:771 | the templates render as `0%` … `100%` |
| Tokenizer.ParseTxt | www/main.js:759-776 | `parseTXT` returns `Tokenize` of the text (padding, split, merge) and the percentage bookmarks for their count |
| Markup.SpacedTextLength | www/main.js:62-87 | a node's spaced text is its text plus two characters per block element in it |
| Markup.SpacedTextOfAllLength | www/main.js:67-84 | the same for a list of child nodes |
| Markup.SpacedTextSameLetters | www/main.js:62-87 | spacing adds only whitespace to a node's text |
| Markup.SpacedTextOfAllSameLetters | www/main.js:67-84 | the same for a list of child nodes |
| Markup.SpacedTextWithoutBlocks | www/main.js:62-87 | a node without block elements gives exactly its `textContent` |
| Markup.SpacedTextOfAllWithoutBlocks | www/main.js:67-84 | the same for a list of child nodes |
| Markup.ExtractionAgainstTextContent | www/main.js:55-87 | `ExtractTextWithSpacing`: a missing element gives `''`; otherwise the result is `textContent` with one space added on each side of every block element |
| Markup.SpacedTextOfAllAppend | www/main.js:67-84 | the loop's text for a run of siblings is the texts of its parts one after another |
| Markup.BlockSeparatesWords | www/main.js:62-87 | a block element among siblings splits into the words before it, then its own words, then the words after it: no word joins across its boundary |
| Markup.TwoParagraphs | www/main.js:55-87 | two `P` elements give their texts each padded with spaces, so the last word of one and the first of the next stay apart |
| Epub.InvalidMessages | www/main.js:785-897 | each structural failure message starts with `Invalid EPUB`, and the no-text message with `EPUB contains` |
| Epub.Rethrow | www/main.js:909-915 | the parser's own messages pass the `catch` unchanged; any other gets the generic prefix, with `Unknown error` for an empty message |
| Epub.LastIndexOf | www/main.js:810 | `lastIndexOf` is -1 or a position of the character, and no later position holds it |
| Epub.BasePath | www/main.js:810 | the base path is a prefix of the package path that is empty or ends in `/`, and no `/` follows it |
| Epub.BuildManifest | www/main.js:813-816 | the manifest loop builds exactly `ManifestOf` |
| Epub.ManifestKeys | www/main.js:813-816 | the manifest's keys are exactly the item ids |
| Epub.ManifestLastWins | www/main.js:813-816 | an id maps to the base path plus the href of the last item with that id |
| Epub.HeadingText | www/main.js:860-865 | the heading's text is empty exactly when its `textContent` is blank; otherwise it is that `textContent` with its blank ends cut off, and neither starts nor ends with whitespace |
| Epub.FallbackTitle | www/main.js:867 | the `Chapter N` title is non-empty and has no whitespace at either end |
| Epub.ChapterTitle | www/main.js:856-868 | the chapter title is never empty and has no whitespace at either end |
| Epub.ChapterTitleSource | www/main.js:856-868 | the title is the first non-blank one of `h1`, `h2` and `title`, trimmed, in that order; `Chapter N` when all three are blank |
| Epub.ReadSpineItem | www/main.js:833-889 | one pass of the loop body is one `Step` of the assembly on the item's `ChapterOutcome`: skipped when not an HTML item of the manifest, failed when its file is missing or does not parse, read otherwise |
| Epub.ReadSpine | www/main.js:827-890 | the spine loop computes exactly `AssembleSpine` |
| Epub.AssembleWords | www/main.js:872-884 | the words are the concatenation of the read chapters' words in spine order, and the success count is the number of chapters read |
| Epub.AssembleCounts | www/main.js:836-888 | every item that passes the href filter is counted once, as success or failure; others are not counted |
| Epub.TocStep | www/main.js:852-881 | one pass of the loop body keeps the bookmarks at most one per chapter read, strictly increasing, inside the words and titled |
| Epub.AssembleToc | www/main.js:852-881 | at most one bookmark per chapter read, at strictly increasing positions inside the words, with non-empty titles |
| Epub.AssembleTocIsTocOf | www/main.js:852-881 | the bookmarks are exactly `TocOf`: one per read chapter with words, titled from that chapter and the number of chapters read before it, at the total word count of those chapters |
| Epub.TocOfCount | www/main.js:852-881 | there are as many bookmarks as read chapters with at least one word |
| Epub.AssembleFacts | www/main.js:827-890 | the facts above together: words, counts, bookmark order and bounds, and bookmarks exactly `TocOf` |
| Epub.FailedItemOnlyCounted | www/main.js:838-843 | a chapter that is missing or throws changes nothing but the failure count |
| Epub.SkippedItemIgnored | www/main.js:836 | a spine item that is not an HTML chapter changes nothing at all |
| Epub.ParseEpub | www/main.js:779-916 | `parseEPUB` returns exactly `EpubSpec`: the book, or the rethrown message |
| Epub.EpubErrors | www/main.js:785-805 | a missing container, rootfile element or package file each fails with its own message; a loader error gets the generic prefix |
| Epub.EpubEmptyErrors | www/main.js:823-897 | an empty spine and a book without words each fail with their own message |
| Epub.EpubSuccess | www/main.js:892-908 | once the package is found, the parse succeeds exactly for a non-empty spine with words; the book has the assembled words and bookmarks, and a warning exactly when chapters both failed and succeeded |
| Epub.EpubBookFacts | www/main.js:895-908 | every returned book has words, and its bookmarks are strictly increasing and in bounds |
| Orp.JsRound | www/main.js:618 | `Math.round` gives the integer within half a unit, halves rounded up |
| Orp.OrpIndexIsThird | www/main.js:618-620 | the focus index is `len / 3`, except 1 for two-letter words |
| Orp.OrpIndexInWord | www/main.js:618-620 | the focus index lies inside every non-empty word |
| Orp.Split | www/main.js:615-623 | the three parts concatenate to the word, the focus is the one letter at the focus index, and the empty word gives three empty parts |
| Orp.SplitExamples | www/main.js:615-623 | the splits of `a`, `an`, `the` and `reading` |
| Orp.LegacyOrpIndex | app/www/main.js:194 | `Math.min(2, len - 1)`: -1 for the empty word, 0 for one letter, 1 for two, and 2 from three letters on |
| Orp.LegacySplit | app/www/main.js:190-198 | the earlier parts concatenate to the word; `before` is the word up to the index and the focus is the letter at it (the first, second or third), so `after` is the rest |
| Orp.RulesCompared | www/main.js:618-623 | the rules agree up to two letters and from six to eight; the current focus is earlier for three to five letters and later from nine on |
| Pace.Progress | www/main.js:680 | progress is at most 1, reaches 1 exactly from the anchor plus the duration on, and is negative before the anchor |
| Pace.RampAtStart | www/main.js:680-681 | at the anchor the pace is the start pace |
| Pace.RampHoldsTarget | www/main.js:680-681 | from the anchor plus the duration on, the pace is the target |
| Pace.RampBetween | www/main.js:680-681 | from the anchor on, the pace lies between the start pace and the target |
| Pace.RampMonotone | www/main.js:680-681 | for a target above the start, the pace never decreases as the position advances |
| Pace.FlatRamp | www/main.js:700-704 | a ramp whose start and target are equal is flat |
| Pace.RampBelowStart | www/main.js:680 | before the anchor the pace drops below the start pace, for example 30 wpm halfway before it |
| Pace.DelayMs | www/main.js:683 | the delay is positive, and delay times pace is one minute |
| Pace.DelayShrinksWithPace | www/main.js:683 | a faster pace never gives a longer delay, and 300 wpm gives 200 ms |
| Session.ReplaceByIdKeeps | www/main.js:943-944 | replacing by id in a list with unique ids keeps the ids unique and the same, and every entry is the document or an old entry with another id |
| Session.ReplaceInSync | www/main.js:941-945 | writing the document into the store and replacing it in the list keeps every listed entry equal to its stored record |
| Session.WithoutId | www/main.js:922 | the filtered list holds exactly the entries with another id |
| Session.WithoutIdUnique | www/main.js:922 | filtering keeps ids unique |
| Session.WithoutIdSingleton | www/main.js:922 | one entry is kept exactly when its id differs |
| Session.WithoutIdAppend | www/main.js:922 | filtering a concatenation is concatenating the filtered parts, so kept entries stay in their order |
| Session.WithoutAbsentId | www/main.js:922 | filtering an id the list does not hold leaves the list unchanged |
| Session.OpenedConsistent | www/main.js:725-731 | opening keeps list, store and open document consistent; the open record is the listed one with a new access time |
| Session.SavedConsistent | www/main.js:941-945 | saving keeps the library consistent, never adds or removes a stored record, does nothing with no open document, and otherwise writes the position into the store and the list |
| Session.SaveIdempotent | www/main.js:941-945 | saving twice at the same position is saving once |
| Session.ImportedConsistent | www/main.js:468-469 | `Imported`, storing and appending a record with a fresh id, keeps the library consistent and adds exactly that id |
| Session.DeletedInSync | www/main.js:919-924 | deleting keeps list and store in step and removes the id from both, but leaves a deleted open document outside the store |
| Session.DeletedThenSavedResurrects | www/main.js:919-945 | deleting the open document and then saving puts it back into the store with the saved position while the list no longer shows it |
| Session.DeletedAndClosedConsistent | www/main.js:919-924 | deleting that also closes the deleted document keeps the library consistent, and a later save cannot bring the record back |
| Session.ImportFacts | www/main.js:432-451 | `ImportOutcome`, the parse with the no-words check: a text file imports exactly when it is not blank, with its tokens and bookmarks; an EPUB exactly when it parses; every record starts at word 0, counts its words and has in-bound bookmarks |
| Session.ParseSelected | www/main.js:432-438 | parses the file as its name says (`parseDocument`, lines 750-757) and gives exactly the import outcome: a document with words and the EPUB warning as its alert, or the error alert |
| Session.Reader.constructor | www/main.js:1-16 | the initial state: library view, nothing open, position 0, not playing, 300 wpm, auto-pace off with a ramp from 120 |
| Session.Reader.EffectiveWpm | www/main.js:677-682 | without auto-pace the pace is the speed; with it, the start pace at the anchor and the target from 100 words after it on |
| Session.Reader.CalculateDelay | www/main.js:677-684 | the delay times the effective pace is one minute, and it is `60000 / speed` without auto-pace |
| Session.Reader.Display | www/main.js:615-623 | the word on screen is split by the ORP rule; out of range nothing is shown |
| Session.Reader.StartPlayback | www/main.js:657-659 | an interval is armed at the current effective pace |
| Session.Reader.StopPlayback | www/main.js:686-688 | the interval is cleared and nothing else changes |
| Session.Reader.TogglePlayPause | www/main.js:640-653 | play flips; starting with auto-pace anchors the ramp at the position, from 120 wpm to the speed; stopping clears the interval |
| Session.Reader.Tick | www/main.js:659-674 | one word forward; past the last word the position returns to it and playback stops; with auto-pace the interval is re-armed at the new pace |
| Session.Reader.UpdateSpeed | www/main.js:696-710 | speed and target take the new value; while ramping and playing, the ramp restarts flat at the position; a running interval is re-armed at it |
| Session.Reader.ToggleAutoPace | www/main.js:712-723 | switching on anchors a flat ramp at the speed and position; a running interval is re-armed |
| Session.Reader.GoToPreviousWord | www/main.js:335-341 | one word back when not at the first, otherwise nothing changes |
| Session.Reader.GoToNextWord | www/main.js:343-349 | one word forward when not at the last, otherwise nothing changes |
| Session.Reader.GoToNextPage | www/main.js:351-357 | the position becomes the smaller of the last word and one page on |
| Session.Reader.GoToPreviousPage | www/main.js:359-365 | the position becomes the larger of 0 and one page back |
| Session.Reader.ResetReading | www/main.js:690-694 | the position returns to 0 and playback is untouched |
| Session.Reader.JumpToChapter | www/main.js:1003-1004 | the position becomes the bookmark's index, unclamped |
| Session.Reader.SwitchView | www/main.js:736-748 | leaving speed view stops playback; any other switch leaves it alone |
| Session.Reader.OpenDocument | www/main.js:725-734 | performs `Opened`: position and words come from the record, the view becomes normal, playback stops if it was in speed view |
| Session.Reader.SaveReadingState | www/main.js:941-954 | performs `Saved` at the current position |
| Session.Reader.DeleteDocument | www/main.js:919-925 | performs `Deleted` once confirmed, nothing otherwise |
| Session.Reader.DeleteDocumentAndClose | www/main.js:919-925 | performs `DeletedAndClosed` once confirmed and keeps the library consistent |
| Session.Reader.AddRecord | www/main.js:468-469 | performs `Imported`: the record is stored under its id and appended to the list, keeping consistency and leaving the rest of the state alone |
| Session.Reader.HandleFileSelect | www/main.js:419-475 | no file: nothing; a rejected file: the invalid-file alert; a failed import: the error alert; otherwise the record is stored and listed, the chapter warning is shown, and consistency is kept |
| Legacy.LegacyParseTxt | app/www/main.js:281-283 | the earlier tokens are the non-empty whitespace-free runs, concatenating to the text without whitespace |
| Legacy.LegacyParseTxtOfJoin | app/www/main.js:281-283 | splitting undoes joining with single spaces |
| Legacy.BlankIffWords | app/www/main.js:281-283 | the earlier split gives no word exactly for blank text |
| Legacy.SnapshotsAgreeOnAttachedMarks | app/www/main.js:281-283 | both versions split `"a, b!"` into `"a,"` and `"b!"` |
| Legacy.SnapshotsDifferOnSpacedMarks | app/www/main.js:281-283 | `"a , b"` gives three words in the earlier version and `"a,"`, `"b"` in the current one |
| Tokenizer.WordsOfTrailingSpace | app/www/main.js:318 | the space after each chapter adds no word |
| Legacy.LegacyWordsAreChapterWords | app/www/main.js:309-325 | `LegacyFullText`, the chapters' `textContent` each followed by a space, splits into the chapters' words one chapter after another; skipped chapters add nothing |
| Legacy.LegacyParseEpub | app/www/main.js:285-330 | the earlier `parseEPUB` returns exactly `LegacyEpubSpec`: the fallback words on a failure, else the words of `LegacyFullText` |
| Legacy.LegacyEpubOutcome | app/www/main.js:285-330 | any failure before the chapters gives `EPUB parsing failed`; otherwise the words are the chapters' words in spine order |
| Legacy.LegacyImportFacts | app/www/main.js:95-118 | a text file imports exactly when not blank, an unreadable EPUB always imports as the three fallback words, and every record starts at word 0 and counts its words |
| Legacy.LegacyReader.constructor | app/www/main.js:1-15 | the initial state of the earlier version |
| Legacy.LegacyReader.Delay | app/www/main.js:224 | the fixed delay times the speed is one minute |
| Legacy.LegacyReader.Display | app/www/main.js:190-198 | the word on screen is split by the earlier rule |
| Legacy.LegacyReader.TogglePlayPause | app/www/main.js:211-219 | play flips and the interval runs exactly while playing, at the speed |
| Legacy.LegacyReader.Tick | app/www/main.js:225-234 | one word forward at a fixed delay; past the last word the position returns to it and playback stops |
| Legacy.LegacyReader.ResetReading | app/www/main.js:241-245 | the position returns to 0 and playback is untouched |
| Legacy.LegacyReader.UpdateSpeed | app/www/main.js:247-254 | the speed changes, and only a running interval is re-armed |
| Legacy.LegacyReader.OpenDocument | app/www/main.js:256-263 | position and words come from the record and the view becomes normal; playback is not stopped |
| Legacy.LegacyReader.HandleFileSelect | app/www/main.js:95-123 | a file with words is stored and listed with position 0 and its word count; otherwise nothing changes and nothing is shown |

## Left out

- Zip loading, XML and HTML parsing, `FileReader`, `localforage` and the Capacitor plugins are outside the model. Their results are inputs: the archive map, the parser functions, the file's text, and the map that stands for the store. Storage calls are treated as if they succeed at once.
- The copy of the file into app storage and the record's `filepath` field are not modelled. They affect no other state.
- Timers are not modelled: `setInterval`, `clearInterval`, `debounce`, and the half-second delay before the chapter warning. The warning is returned as an alert of the import.
- DOM rendering is not modelled: the library list, page layout, `calculateWordsPerPage`, highlighting, progress text, the bookmark dialog, gestures, night mode and font size. Pages take `wordsPerPage` as an input.
- Dead code is not modelled: `parseDocumentFromContent` and the first, overridden declarations of `parseTXT` and `parseEPUB` in both versions.
- Strings are sequences of code points. JavaScript counts UTF-16 code units, so word lengths and the ORP index differ for characters outside the Basic Multilingual Plane.
- Session.Reader.CalculateDelay: requires a positive effective pace. For a pace of zero or less the code produces an infinite or negative delay, which the timer coerces, and that is not modelled.
- Session.Reader.Tick: requires playback to be running, since only a live interval fires it.
- Session.Reader.HandleFileSelect: requires the generated id to be fresh in the store. Failures to read the file or to write the store are not modelled. The `parseInt` of `updateSpeed` is likewise taken to give an integer, never `NaN`.
- Legacy.LegacyReader.HandleFileSelect: failures to read the file or to write the store are not modelled.
- Legacy.LegacyChapterText: a chapter whose HTML parse is reported missing is treated like one whose file is missing, and both are skipped, as the earlier `catch` does.
- The earlier `switchView`, `startPlayback` and `stopPlayback` have no methods of their own. Their effects are part of `OpenDocument`, `TogglePlayPause` and `UpdateSpeed` of `Legacy.LegacyReader`.

## Findings

| source | as written | input that shows it | evidently intended | confidence | as-written member | corrected member |
|---|---|---|---|---|---|---|
| www/main.js:919-924 | `deleteDocument` removes the record from the store and the list but leaves `currentDocument` and `readingState.documentId` set; `saveReadingState` (www/main.js:941-945), run when the app goes to the background, then writes the record back into the store | open document `d`, return to the library, delete `d` and confirm, send the app to the background: the store holds `d` again while the list does not, so the next start lists it again | deleting the open document also closes it, so no later save can store it again | not executed; follows from the code as written | Session.DeletedThenSavedResurrects | Session.DeletedAndClosedConsistent |
