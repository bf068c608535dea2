/** The records the server hands to the client: a book's listing entry, its
    chapters, its table of contents and the two bundled as the book's
    content. Shapes only; the rules that fill them live elsewhere. */
module Schema {
  import opened Core

  datatype Book = Book(
    id: string,
    filename: string,
    title: string,
    author: Option<string>,
    description: Option<string>,
    coverImage: Option<string>,
    language: Option<string>,
    publisher: Option<string>)

  datatype Chapter = Chapter(id: string, title: string, content: string, order: int)

  datatype TocEntry = TocEntry(id: string, title: string, order: int)

  datatype BookContent = BookContent(bookId: string, chapters: seq<Chapter>, toc: seq<TocEntry>)

  /** The table-of-contents entry that is pushed beside a chapter. */
  function TocEntryOf(c: Chapter): TocEntry {
    TocEntry(c.id, c.title, c.order)
  }

  /** The table of contents built beside `chapters`, one entry per chapter. */
  function TocOf(chapters: seq<Chapter>): (toc: seq<TocEntry>)
    ensures |toc| == |chapters|
    ensures forall i :: 0 <= i < |toc| ==> toc[i] == TocEntryOf(chapters[i])
  {
    seq(|chapters|, i requires 0 <= i < |chapters| => TocEntryOf(chapters[i]))
  }

  /** No two chapters share an id. */
  predicate DistinctChapterIds(chapters: seq<Chapter>) {
    forall i, j :: 0 <= i < j < |chapters| ==> chapters[i].id != chapters[j].id
  }

  /** Pushing a chapter pushes its entry onto the table of contents. */
  lemma TocOfAppend(chapters: seq<Chapter>, c: Chapter)
    ensures TocOf(chapters + [c]) == TocOf(chapters) + [TocEntryOf(c)]
  {
    assert forall i :: 0 <= i < |chapters| ==> (chapters + [c])[i] == chapters[i];
  }

  /** Chapter orders strictly increase along the list. */
  predicate OrdersIncrease(chapters: seq<Chapter>) {
    forall i, j :: 0 <= i < j < |chapters| ==> chapters[i].order < chapters[j].order
  }

  /** No two table-of-contents entries share an id. */
  predicate DistinctTocIds(toc: seq<TocEntry>) {
    forall i, j :: 0 <= i < j < |toc| ==> toc[i].id != toc[j].id
  }

  /** Distinct chapter ids give distinct table-of-contents ids. */
  lemma TocOfDistinctIds(chapters: seq<Chapter>)
    ensures DistinctChapterIds(chapters) <==> DistinctTocIds(TocOf(chapters))
  {
    var toc := TocOf(chapters);
    assert forall i :: 0 <= i < |toc| ==> toc[i].id == chapters[i].id;
  }

  /** `chapters.find(ch => ch.id === chapterId)`. */
  function FindChapter(chapters: seq<Chapter>, chapterId: string): (r: Option<Chapter>)
    ensures r.None? <==> forall i :: 0 <= i < |chapters| ==> chapters[i].id != chapterId
    ensures r.Some? ==> exists i :: 0 <= i < |chapters| && chapters[i] == r.value
                                   && r.value.id == chapterId
                                   && forall j :: 0 <= j < i ==> chapters[j].id != chapterId
  {
    Find(chapters, (c: Chapter) => c.id == chapterId)
  }

  /** When chapter ids are distinct, looking a chapter up by its own id finds it. */
  lemma FindChapterOwnId(chapters: seq<Chapter>, i: int)
    requires DistinctChapterIds(chapters) && 0 <= i < |chapters|
    ensures FindChapter(chapters, chapters[i].id) == Some(chapters[i])
  {
    var r := FindChapter(chapters, chapters[i].id);
    var k :| 0 <= k < |chapters| && chapters[k] == r.value && r.value.id == chapters[i].id
             && forall j :: 0 <= j < k ==> chapters[j].id != chapters[i].id;
    if k != i {
      assert chapters[k].id == chapters[i].id;
    }
  }
}
