# eBookReader core, modelled in Dafny

eBookReader is a small web e-book reader. Its server opens EPUB files and
extracts two things from each. The first is a book record: id, title,
author, cover and so on. The second is the book's content: the chapters in
reading order, plus a table of contents kept parallel to them. The server
caches both in an in-memory store. The browser's reader page shows one
chapter at a time. It offers previous/next buttons and a chapter list,
remembers the reading position in local storage, and hides the header while
the reader scrolls down.

This project models four parts of that system:

- **The EPUB parser** (`server/epubParser.ts`):
  - locating the package document through `META-INF/container.xml`, following
    OCF 2.0.1, section 3.5.1;
  - reading the package document;
  - the metadata fallbacks and the cover search;
  - the title map taken from the NCX navigation map (OPF 2.0.1, section 2.4.1);
  - the spine walk that builds the chapters and the table of contents
    (OPF 2.0.1, sections 2.3 and 2.4);
  - the nine regular-expression deletions and the `trim` that clean each chapter.
- **The in-memory store** (`server/storage.ts`).
- **The reader page's navigation state** (`client/src/pages/Reader.tsx`,
  lines 36-107).
- **The previous/next button predicates**
  (`client/src/components/ChapterControls.tsx`).

Layout:

| file | module | contents |
|---|---|---|
| `core.dfy` | `Core` | `Option`, `Result`, bytes, and `findIndex`/`find` |
| `text.dfy` | `Text` | the JavaScript string operations used (`replace` with a string pattern, `split("#")[0]`, `toLowerCase`, `trim`, `${n}`) and a simplified `path.dirname`/`path.join` |
| `schema.dfy` | `Schema` | `Book`, `Chapter`, `TocEntry` and `BookContent`, plus the table of contents that is pushed beside the chapters |
| `html_clean.dfy` | `HtmlClean` | `cleanHtmlContent`: one matcher per regular expression, which follows how the JavaScript engine matches that expression; global deletion; the pipeline as a function (`Cleaned`) and as the step-by-step method (`CleanHtmlContent`) |
| `epub_rules.dfy` | `EpubRules` | the parser's rules as functions of the archive (a `map<string, Bytes>`) and of the trees `xml2js` builds, together with the lemmas about them |
| `parser.dfy` | `Parser` | class `EpubParser`, whose fields `opfPath`/`rootPath` are updated in place; each method is proved to return what the matching `EpubRules` function describes |
| `storage.dfy` | `Storage` | class `MemStorage` |
| `chapter_controls.dfy` | `ChapterControls` | `hasPrevious` and `hasNext` |
| `reader.dfy` | `ReaderPage` | index lookup, the navigation and restore rules, and class `Reader` with the page's handlers as methods |

Library code that the parser calls is passed in as the fields of one
`EpubRules.Foreign` value. This covers:

- SHA-256 hex digests (FIPS 180-4);
- base64 (RFC 4648, section 4);
- UTF-8 decoding;
- the `xml2js` parser;
- `randomUUID`.

`uuid(n)` is the id that `randomUUID` returns for the n-th chapter pushed
during one extraction. The only assumption made about it is
`UuidsDistinct`, and it is stated as a hypothesis wherever it is used.

Where one might expect otherwise, the model follows the code:

- **Chapter `order`** is the spine index plus one. A skipped spine item leaves
  a gap: orders strictly increase but need not be contiguous
  (`SkippedItemLeavesGap`).
- **The fallback title** is `"Chương " + (index + 1)`, not "Chapter N".
- **Only top-level NCX navigation points** are read. Nested points contribute
  nothing.
- **`cleanHtmlContent` has no allow-list** of tags, attributes or URI schemes.
  Markup that uses none of the nine deleted forms passes through unchanged.
  This includes a `<script>` element and an `onclick` attribute
  (`ScriptSurvives`, `EventHandlerSurvives`).
- **Cleaning is not idempotent.** One deletion can splice a new match
  together: `<ht<html>ml>` becomes `<html>` (`HtmlOpenDeletionSplices`). No
  idempotence or "pattern absent" property is claimed.
- **A restored chapter id is not validated.** It is opened even when the
  table of contents no longer has it, and chapter ids change on every
  extraction (`StaleSavedChapterIsOpened`).

## Model

| member | source | states |
|---|---|---|
| Text.ReplaceFirst | server/epubParser.ts:113 | `replace` with a string pattern rewrites only the first occurrence; a name without the pattern is returned unchanged |
| Text.BeforeFirst | server/epubParser.ts:179 | `src.split("#")[0]` is a prefix of `src` with no `#`, and it stops only at a `#` |
| Text.Trim | server/epubParser.ts:235 | `trim` returns a middle slice of the input; everything cut off is whitespace; the result neither starts nor ends with whitespace |
| Text.TrimUnchanged | server/epubParser.ts:235 | a string without whitespace at either end is its own trim |
| Text.Dirname | server/epubParser.ts:92 | "." without a `/`; "/" when the only `/` leads the path; otherwise the text before the last `/` |
| Text.JoinAppendsName | server/epubParser.ts:190 | `join(dir, name)` ends with `name`; a directory other than "" and "." stays in front of it, separated by a `/` |
| Text.JoinDirnameBasename | server/epubParser.ts:92 | joining `rootPath = dirname(opfPath)` with the package file's own name gives `opfPath` back (for paths without `//` or a leading `./`) |
| Text.NatToStringInjective | server/epubParser.ts:198 | distinct spine positions render as distinct decimal strings |
| Schema.TocOf | server/epubParser.ts:207-211 | the table of contents has one entry per chapter, with that chapter's id, title and order |
| Schema.TocOfAppend | server/epubParser.ts:200-211 | pushing a chapter together with its entry keeps the table of contents equal to `TocOf(chapters)` |
| Schema.TocOfDistinctIds | server/epubParser.ts:197-211 | chapter ids are distinct iff table-of-contents ids are distinct |
| Schema.FindChapter | server/storage.ts:35 | `find` gives none iff no chapter has the id; otherwise the first chapter with that id |
| Schema.FindChapterOwnId | server/storage.ts:35 | with distinct ids, looking up a chapter's own id finds that chapter |
| HtmlClean.MatchDelimited | server/epubParser.ts:225-226 | `open[^c]*c` matches iff `open` leads and a `c` follows; the match ends at the first such `c` |
| HtmlClean.MatchXmlDeclaration | server/epubParser.ts:224 | `<\?xml[^>]*\?>` matches exactly when the run up to the first `>` ends in `?>` |
| HtmlClean.MatchHeadElement | server/epubParser.ts:228 | `<head[^>]*>[\s\S]*?<\/head>` runs from the open tag to the first following `</head>`, and does not match without one |
| HtmlClean.MatchXmlnsAttribute | server/epubParser.ts:233 | `xmlns[^=]*="[^"]*"` matches iff a `=` follows `xmlns` and a quoted string follows that `=`; the match runs to the first `=` and then to the next `"` |
| HtmlClean.MatchLength | server/epubParser.ts:224-233 | every match of each of the nine patterns is non-empty and begins with the pattern's fixed leading text |
| HtmlClean.Strip | server/epubParser.ts:224-233 | a global deletion never lengthens the text |
| HtmlClean.StripWithoutLead | server/epubParser.ts:224-233 | a global deletion leaves unchanged any text in which the pattern's leading text never occurs |
| HtmlClean.StripLeadingMatch | server/epubParser.ts:224-233 | a match at the front is deleted and the scan resumes right after it |
| HtmlClean.StripKeepsUnmatchedPrefix | server/epubParser.ts:224-233 | characters at which the pattern does not match are kept, in order |
| HtmlClean.HtmlOpenTagDeleted | server/epubParser.ts:226 | a leading `<html>` tag is deleted, and text without another one is kept |
| HtmlClean.SplicePrefixKept | server/epubParser.ts:226 | in `<ht<html>ml>` the leading `<ht` is kept |
| HtmlClean.SpliceInnerTagDeleted | server/epubParser.ts:226 | in `<ht<html>ml>` the inner `<html>` is deleted |
| HtmlClean.HtmlOpenDeletionSplices | server/epubParser.ts:226 | deleting `<html…>` from `<ht<html>ml>` gives `<html>`, which a second deletion removes: the step is not idempotent |
| HtmlClean.StripAll | server/epubParser.ts:224-233 | the deletions applied one after another never lengthen the text |
| HtmlClean.StripAllStep | server/epubParser.ts:224-233 | applying the deletions from step k onward is step k followed by the remaining steps |
| HtmlClean.StripAllWithoutLeads | server/epubParser.ts:224-233 | text containing none of the leading texts passes all deletions unchanged |
| HtmlClean.Cleaned | server/epubParser.ts:223-236 | the cleaned chapter has no whitespace at either end and is never longer than the input |
| HtmlClean.CleanHtmlContent | server/epubParser.ts:223-236 | the nine reassignments of `clean` followed by `trim` compute `Cleaned(html)` |
| HtmlClean.CleanedWithoutWrappers | server/epubParser.ts:223-236 | markup using none of the deleted forms is only trimmed: there is no allow-list |
| HtmlClean.NoDeletedFormWithoutKeyChars | server/epubParser.ts:224-233 | text without `? ! h b u x` contains none of the nine leading texts |
| HtmlClean.CleanedKeepsMarkupWithoutKeyChars | server/epubParser.ts:223-236 | such text, already trimmed, comes out exactly as it went in |
| HtmlClean.ScriptSurvives | server/epubParser.ts:223-236 | `<script></script>` survives cleaning unchanged |
| HtmlClean.EventHandlerSurvives | server/epubParser.ts:223-236 | `<i onclick=f()>` survives cleaning unchanged |
| EpubRules.GenerateBookId | server/epubParser.ts:7-9 | the id is the first 32 characters of the hex SHA-256 digest of the file name |
| EpubRules.FirstRootfilePath | server/epubParser.ts:86-89 | there is a path iff the first `rootfile` of the first `rootfiles` exists with a non-empty `full-path`, and the path is that attribute |
| EpubRules.LocateOpf | server/epubParser.ts:77-94 | it fails with "Missing container.xml" iff that entry is absent, with a parse error when the entry does not parse, and with "Missing rootfile" iff the container parses but has no first `rootfile` with a `full-path`; when that `full-path` exists it is the result |
| EpubRules.LoadPackage | server/epubParser.ts:96-104 | it fails with "Missing OPF file" iff the entry at `opfPath` is absent; once present it succeeds iff the entry parses, with that parse as the result, and otherwise fails with a parse error |
| EpubRules.FirstValue | server/epubParser.ts:113-117 | the first value, as `values?.[0] or undefined` picks it, is the first value when it exists and is non-empty, and absent otherwise |
| EpubRules.BookTitle | server/epubParser.ts:113 | the first title when it exists and is non-empty; otherwise the file name with its first ".epub" removed |
| EpubRules.FallbackTitleIsStem | server/epubParser.ts:113 | without a usable title, `stem + ".epub"` is titled `stem` |
| EpubRules.FallbackTitleKeepsOtherNames | server/epubParser.ts:113 | without a usable title, a name that does not contain ".epub" in that exact case is kept whole |
| EpubRules.CoverCandidateIgnoresCase | server/epubParser.ts:120-125 | an image item whose id holds "cover" in any letter case is a cover candidate |
| EpubRules.DataUriOfImage | server/epubParser.ts:133-134 | the data URI of an `image/…` media type starts with `data:image/` |
| EpubRules.CoverImage | server/epubParser.ts:119-136 | a cover, when present, is a `data:image/…` URI |
| EpubRules.CoverIsFirstCandidate | server/epubParser.ts:119-136 | only the first image item whose lower-cased id or href mentions "cover" is tried; its data URI is the cover if its entry exists, and otherwise there is none |
| EpubRules.NoCandidateNoCover | server/epubParser.ts:119-136 | without a candidate there is no cover, and this is not an error |
| EpubRules.MetadataOf | server/epubParser.ts:106-148 | errors in locating or reading the package document are passed on; after both succeed it fails iff `metadata` or `manifest` is missing, and succeeds iff both are present; a book carries the id derived from the file name, the file name, the title or its fallback, the first creator, description, language and publisher, and the cover of the first candidate |
| EpubRules.BookIdIgnoresArchive | server/epubParser.ts:139 | two archives read under one file name give one book id |
| EpubRules.NavPointTitle | server/epubParser.ts:177 | when the point has a label with a text, that first text of the first label; "" when either is missing |
| EpubRules.NavPointHref | server/epubParser.ts:178-179 | a prefix of `src` that holds no `#` and stops only at a `#`; "" without a `src` |
| EpubRules.TopNavPoints | server/epubParser.ts:174 | with a `navMap`, exactly the points of the first one; none without one |
| EpubRules.TitleMapSize | server/epubParser.ts:176-181 | each `set` adds at most one href: there are at most as many titles as points |
| EpubRules.TitleMapDomain | server/epubParser.ts:174-181 | an href has a title iff some top-level navigation point names it |
| EpubRules.TitleMapLastWins | server/epubParser.ts:176-181 | when several points name one href, the label of the last of them is kept |
| EpubRules.NcxItem | server/epubParser.ts:161-163 | the first manifest item with the NCX media type, and none iff no item has it |
| EpubRules.ChapterTitles | server/epubParser.ts:160-183 | the map is empty without an NCX item or without its entry; with the entry, an NCX that does not parse is an error and otherwise the map is the title map of its top-level points |
| EpubRules.SpineSource | server/epubParser.ts:186-194 | a found document is the archive entry at `join(rootPath, href)`, and its href is that of the first manifest item with the id, whose media type is `application/xhtml+xml` |
| EpubRules.ManifestItemByIdIsFirst | server/epubParser.ts:187 | the item looked up by id is the first manifest item with that id |
| EpubRules.SpineSourceUsesFirstItem | server/epubParser.ts:185-194 | a spine item yields a document iff the first manifest item with its id exists, has media type exactly `application/xhtml+xml`, and has an archive entry |
| EpubRules.ChapterTitle | server/epubParser.ts:198 | the title read for the href when there is a non-empty one, otherwise "Chương " followed by the 1-based spine position; never empty |
| EpubRules.FallbackTitlesDistinct | server/epubParser.ts:198 | fallback titles of different spine positions differ |
| EpubRules.ChapterFor | server/epubParser.ts:197-211 | the n-th chapter pushed, for spine index `index`, has order `index + 1`, the title `ChapterTitle` gives for its href, the cleaned text of its document as content, and the n-th uuid as id |
| EpubRules.SpineChapters | server/epubParser.ts:185-214 | the walk pushes at most one chapter per spine item |
| EpubRules.SpineChaptersStep | server/epubParser.ts:185-214 | one iteration of the spine `forEach` pushes the item's chapter or nothing |
| EpubRules.SpineChaptersBuilt | server/epubParser.ts:185-214 | each chapter has order in 1..number of spine items, is the j-th one pushed, and was read for the spine item at `order - 1` |
| EpubRules.SpineChaptersIncreasing | server/epubParser.ts:204 | chapter orders strictly increase |
| EpubRules.SpineChaptersComplete | server/epubParser.ts:185-214 | every spine item that yields a document has a chapter with order `index + 1` |
| EpubRules.SpineChapterIdsDistinct | server/epubParser.ts:197 | if `randomUUID` never repeats itself, chapter ids are distinct |
| EpubRules.SkippedItemLeavesGap | server/epubParser.ts:189-204 | a skipped first item makes the only chapter have order 2 |
| EpubRules.UntitledChaptersUseFallback | server/epubParser.ts:198 | without navigation titles, every chapter is titled "Chương " followed by its order |
| EpubRules.SpineChapterTitle | server/epubParser.ts:185-198 | a chapter pushed for spine position i is titled by `ChapterTitle` under the href of the document read for position i |
| EpubRules.NavLabelTitlesChapter | server/epubParser.ts:170-198 | when a navigation point's href names the document read for a spine position, its label is non-empty and no later point names the same href, the chapter for that position carries that label as its title |
| EpubRules.CleanedChapterTrimmed | server/epubParser.ts:195 | a chapter's content neither starts nor ends with whitespace |
| EpubRules.ContentOf | server/epubParser.ts:150-221 | errors in locating or reading the package document are passed on; a missing manifest or spine fails before the NCX is read; after that the only error is an NCX that does not parse; the chapters are the spine walk's (`SpineChapters`) with the NCX titles; the table of contents is `TocOf(chapters)`; orders strictly increase; if `randomUUID` never repeats itself, chapter and entry ids are distinct |
| Parser.EpubParser.constructor | server/epubParser.ts:69-75 | a new parser holds the archive, with `opfPath` and `rootPath` empty |
| Parser.EpubParser.FindOpfPath | server/epubParser.ts:77-94 | returns `LocateOpf`; on success sets `opfPath` to `full-path` and `rootPath` to its dirname; a throw leaves both unchanged |
| Parser.EpubParser.ParseOpf | server/epubParser.ts:96-104 | returns `LoadPackage` for the current `opfPath` |
| Parser.EpubParser.ExtractMetadata | server/epubParser.ts:106-148 | returns `MetadataOf(zip, env, filename)` and leaves `opfPath` at the located path |
| Parser.EpubParser.ReadChapterTitles | server/epubParser.ts:160-183 | returns `ChapterTitles` for the current `rootPath` |
| Parser.EpubParser.SetTitles | server/epubParser.ts:176-181 | the `set` loop over the navigation points builds `TitleMap` of them |
| Parser.EpubParser.PushChapter | server/epubParser.ts:194-211 | pushes `ChapterFor` onto the chapters, and its entry onto the table of contents, which stays `TocOf(chapters)` |
| Parser.EpubParser.WalkSpine | server/epubParser.ts:185-214 | the spine loop returns `SpineChapters` and its table of contents |
| Parser.EpubParser.ExtractContent | server/epubParser.ts:150-221 | returns `ContentOf(zip, env, bookId)`, with the spine checked before the NCX step |
| Storage.InsertionOrder | server/storage.ts:39 | after `set`, the key list holds the new key and all the old ones, and nothing else |
| Storage.ListedBooks | server/storage.ts:21 | `Array.from(values())` lists the book of each key, in key order |
| Storage.NoDuplicatesCardinality | server/storage.ts:21 | a key list without repeats is as long as its set of keys |
| Storage.InsertionOrderNoDuplicates | server/storage.ts:39 | `set` never lists a key twice |
| Storage.ListingAfterSet | server/storage.ts:38-40 | a new book is listed last; an existing one is replaced in its place, and the others do not move |
| Storage.MemStorage.constructor | server/storage.ts:15-18 | a new store is empty: no books are listed and every lookup is undefined |
| Storage.MemStorage.GetBooks | server/storage.ts:20-22 | exactly the stored books, each once, in first-insertion order |
| Storage.MemStorage.GetBook | server/storage.ts:24-26 | the book under `id` if there is one, and it carries that id |
| Storage.MemStorage.GetBookContent | server/storage.ts:28-30 | the content under `id` if there is one, and it carries that book id |
| Storage.MemStorage.GetChapter | server/storage.ts:32-36 | undefined without cached content; otherwise the first chapter with the id, which belongs to that content |
| Storage.MemStorage.SetBook | server/storage.ts:38-40 | `getBook(book.id)` is the book; other ids and all contents are unchanged; the listing grows by the book or replaces it in place |
| Storage.MemStorage.SetBookContent | server/storage.ts:42-44 | `getBookContent(bookId)` is the content; other entries and the books are unchanged; chapter lookups read the new content, and with distinct ids find every chapter |
| ReaderPage.ChapterIndex | client/src/pages/Reader.tsx:76-78 | the first table-of-contents index with the current id, or -1 iff there is none or the content is not loaded |
| ReaderPage.CurrentChapter | client/src/pages/Reader.tsx:72-74 | none without content; otherwise the `find` over the chapters: the first chapter with the current id, none iff no chapter has it |
| ReaderPage.PreviousChapterId | client/src/pages/Reader.tsx:80-87 | there is a chapter to open iff the current index is above 0, and it is the table-of-contents entry at the current index minus one |
| ReaderPage.NextChapterId | client/src/pages/Reader.tsx:89-96 | there is a chapter to open iff content is loaded and the current index is below the last; it is the table-of-contents entry at the current index plus one, so from index -1 the first entry |
| ReaderPage.ControlsMatchHandlers | client/src/components/ChapterControls.tsx:17-18 | with `currentChapter = index + 1` (Reader.tsx:296), "previous" is enabled iff `handlePreviousChapter` acts, and "next" iff `handleNextChapter` acts |
| ReaderPage.UnknownChapterControls | client/src/components/ChapterControls.tsx:17-18 | at index -1 "previous" is disabled; "next" is enabled iff there are chapters, and leads to the first entry |
| ReaderPage.NextThenPrevious | client/src/pages/Reader.tsx:80-96 | with distinct ids, "next" moves one entry forward and "previous" comes back |
| ReaderPage.PreviousThenNext | client/src/pages/Reader.tsx:80-96 | with distinct ids, "previous" moves one entry back and "next" comes back |
| ReaderPage.TocIndexOfOwnId | client/src/pages/Reader.tsx:76-78 | with distinct ids, an entry's id is found at that entry's index |
| ReaderPage.AdvanceFromFirst | client/src/pages/Reader.tsx:89-96 | from the first chapter, k presses of "next" reach entry k |
| ReaderPage.SavedProgress | client/src/pages/Reader.tsx:40-45 | saved progress counts iff an entry exists under the key with a non-empty chapter id |
| ReaderPage.RestoredChapterId | client/src/pages/Reader.tsx:47-51 | a saved chapter id wins; otherwise the open chapter stays; with none open, the first entry is opened, if there is one |
| ReaderPage.RestoredScroll | client/src/pages/Reader.tsx:53-55 | there is a scroll target iff progress is saved with a non-zero offset, and it is that offset |
| ReaderPage.RestoreAfterSave | client/src/pages/Reader.tsx:36-56 | after `saveProgress(id, pos)`, restoring opens `id`, and scrolls to `pos` unless it is 0 |
| ReaderPage.FirstVisitOpensFirstChapter | client/src/pages/Reader.tsx:47-51 | with nothing saved and no chapter open, restoring opens the first entry, at index 0 |
| ReaderPage.StaleSavedChapterIsOpened | client/src/pages/Reader.tsx:47-48 | a saved id missing from the table of contents is still opened, leaving index -1 |
| ReaderPage.HeaderVisibleAfter | client/src/pages/Reader.tsx:60-64 | the header hides when scrolling down past 100, shows when scrolling up, and is otherwise unchanged |
| ChapterControls.HasPrevious | client/src/components/ChapterControls.tsx:17 | "previous" is enabled iff the index shown (`currentChapter - 1`) is past the first entry |
| ChapterControls.HasNext | client/src/components/ChapterControls.tsx:18 | "next" is enabled iff the index shown is before the last entry |
| ReaderPage.Reader.constructor | client/src/pages/Reader.tsx:18-21 | no chapter open, sidebar closed, header visible, last scroll offset 0 |
| ReaderPage.Reader.ContentLoaded | client/src/pages/Reader.tsx:30-33 | the content query sets only `bookContent` |
| ReaderPage.Reader.CurrentChapterIndex | client/src/pages/Reader.tsx:76-78 | -1 without content or without an entry with the open id; otherwise the first index whose entry has that id; always the index the page state determines (`ChapterIndex`) |
| ReaderPage.Reader.SaveProgress | client/src/pages/Reader.tsx:104-107 | stores `{chapterId, position}` under the book id and changes nothing else |
| ReaderPage.Reader.HandleChapterSelect | client/src/pages/Reader.tsx:98-102 | opens the chapter, closes the sidebar, and saves position 0 for it |
| ReaderPage.Reader.HandlePreviousChapter | client/src/pages/Reader.tsx:80-87 | opens `toc[index-1]` and saves position 0 when `index > 0`; otherwise the chapter, sidebar and storage are unchanged |
| ReaderPage.Reader.HandleNextChapter | client/src/pages/Reader.tsx:89-96 | opens `toc[index+1]` and saves position 0 when `index < length-1` (from -1, the first entry); otherwise nothing changes |
| ReaderPage.Reader.HandleScroll | client/src/pages/Reader.tsx:59-69 | the header follows `HeaderVisibleAfter`, `lastScrollY` becomes the offset, and the offset is saved for the open chapter |
| ReaderPage.Reader.RestoreProgress | client/src/pages/Reader.tsx:36-56 | the open chapter becomes `RestoredChapterId`, and the returned scroll target is the saved non-zero offset |

## Left out

- Zip decompression, the XML parser, SHA-256, base64, UTF-8 decoding and
  `randomUUID`: these are library code. They are parameters, in
  `EpubRules.Foreign`.
- `EpubParser`'s constructor opens a file path with AdmZip. The model's
  constructor takes the opened archive as a map.
- Promises and `async`: each method is modelled as running to completion.
  Errors are `Result` values, and the messages thrown are the `EpubError`
  constructors.
- `xml2js` tree shapes, reduced to the fields the parser reads:
  - Namespace-prefixed keys (`dc:title`) and text elements that carry
    attributes (which `xml2js` turns into objects) are not modelled. Each
    metadata field is a list of strings, as the parser's interface declares.
- Missing package sections:
  - In the source, a missing `metadata`, `manifest` or `spine` element
    throws a `TypeError` when it is indexed. The model gives
    `MalformedPackage`.
  - A `rootfile` without attributes also throws a `TypeError`. The model
    reads it as having no `full-path`, which gives `MissingRootfile`.
  - A manifest without `item` elements, or a spine without `itemref`
    elements, throws in the source. The model reads both as empty lists.
  - A manifest item or an `itemref` without attributes, or without the
    attribute read from it, throws a `TypeError` in the source
    (server/epubParser.ts:122, 162, 186 and 187). In the model these
    attributes are plain strings and always present, so this case cannot
    be expressed.
  - A missing spine is checked before the NCX is read, as in the source
    (server/epubParser.ts:155), so `ContentOf` gives `MalformedPackage`
    even when the NCX would not parse.
- Paths: `path.join` and `path.dirname` are modelled without Node's
  normalisation of `.`/`..` segments, repeated slashes or backslashes.
- `toLowerCase` lower-cases ASCII letters only.
- JavaScript strings are UTF-16. The model uses Dafny `char` (Unicode
  scalar values), so lone surrogates are not modelled.
- Regular expressions: there is no general regex engine. Each of the nine
  expressions gets its own matcher, which reproduces the engine's result
  for that expression.
- `Storage.MemStorage`: promises returned by the getters are not modelled.
  The module-level `storage` singleton and `server/routes.ts` (HTTP
  handlers, folder scanning, the `bookFilePaths` map) are not part of this
  model.
- `ReaderPage.Reader`, React specifics:
  - Re-rendering and effect scheduling are not modelled. The restore
    effect is a method the caller invokes once content or state changes.
  - `window.scrollTo` becomes the returned `scrollTo`.
- `ReaderPage.Reader`, the saved progress:
  - `localStorage` is a map from key to `Progress`. `JSON.parse` of
    arbitrary stored text, and the `Number(…)` conversion, are not
    modelled.
  - Scroll offsets are integers.
  - The `bookId` route parameter is always present.
- `ReaderPage.Reader.HandleScroll` is modelled as the page defines it.
  However, `ChapterContent` declares no `onScroll` property, so nothing in
  the page calls it as written (Reader.tsx:285).
- Text-to-speech, text-click selection and DOM walking (Reader.tsx:110-197),
  the `book` query, `console.log`, and all rendering are browser
  side-effects and are not modelled.
- The presentational components and `shared/schema.ts` have no behaviour
  beyond the record shapes used in `Schema`.
