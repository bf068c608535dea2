/** The reader page: which chapter is open, moving between chapters, the
    header that hides while scrolling down, and reading progress kept in
    the browser's local storage under the book id. */
module ReaderPage {
  import opened Core
  import opened Text
  import opened Schema
  import ChapterControls

  /** What `saveProgress` stores: the open chapter and the scroll offset. */
  datatype Progress = Progress(chapterId: string, position: int)

  /** Beyond this offset, scrolling down hides the header. */
  const HeaderHideOffset := 100

  /** `bookContent?.toc.findIndex(ch => ch.id === currentChapterId) ?? -1`. */
  function ChapterIndex(content: Option<BookContent>, chapterId: string): (r: int)
    ensures -1 <= r
    ensures r >= 0 ==> content.Some? && r < |content.value.toc| && content.value.toc[r].id == chapterId
    ensures r >= 0 ==> forall j :: 0 <= j < r ==> content.value.toc[j].id != chapterId
    ensures r == -1 <==> content.None? || forall j :: 0 <= j < |content.value.toc| ==> content.value.toc[j].id != chapterId
  {
    match content
    case None => -1
    case Some(c) => FindIndex(c.toc, (e: TocEntry) => e.id == chapterId)
  }

  /** `bookContent?.chapters.find(ch => ch.id === currentChapterId)`. */
  function CurrentChapter(content: Option<BookContent>, chapterId: string): (r: Option<Chapter>)
    ensures content.None? ==> r.None?
    ensures content.Some? ==> r == FindChapter(content.value.chapters, chapterId)
    ensures r.Some? ==> r.value.id == chapterId && r.value in content.value.chapters
  {
    match content
    case None => None
    case Some(c) => FindChapter(c.chapters, chapterId)
  }

  /** The chapter `handlePreviousChapter` opens, if its guard lets it. */
  function PreviousChapterId(content: Option<BookContent>, current: string): (r: Option<string>)
    ensures r.Some? <==> ChapterIndex(content, current) > 0
    ensures r.Some? ==> r.value == content.value.toc[ChapterIndex(content, current) - 1].id
  {
    var i := ChapterIndex(content, current);
    if content.Some? && i > 0 then Some(content.value.toc[i - 1].id) else None
  }

  /** The chapter `handleNextChapter` opens, if its guard lets it. */
  function NextChapterId(content: Option<BookContent>, current: string): (r: Option<string>)
    ensures r.Some? <==> content.Some? && ChapterIndex(content, current) < |content.value.toc| - 1
    ensures r.Some? && ChapterIndex(content, current) < 0 ==> r.value == content.value.toc[0].id
    ensures r.Some? ==> r.value == content.value.toc[ChapterIndex(content, current) + 1].id
  {
    var i := ChapterIndex(content, current);
    if content.Some? && i < |content.value.toc| - 1 then Some(content.value.toc[i + 1].id) else None
  }

  /** The buttons are enabled exactly when their handlers act, also when the
      open chapter is not in the table of contents (index -1). */
  lemma ControlsMatchHandlers(content: BookContent, current: string)
    ensures var i := ChapterIndex(Some(content), current);
            && (ChapterControls.HasPrevious(i + 1) <==> PreviousChapterId(Some(content), current).Some?)
            && (ChapterControls.HasNext(i + 1, |content.toc|) <==> NextChapterId(Some(content), current).Some?)
  {
  }

  /** With no entry current (the position shown is 0), "previous" is
      disabled and "next" is enabled exactly when there are chapters. */
  lemma UnknownChapterControls(content: BookContent, current: string)
    requires ChapterIndex(Some(content), current) == -1
    ensures !ChapterControls.HasPrevious(0)
    ensures ChapterControls.HasNext(0, |content.toc|) <==> |content.toc| > 0
    ensures NextChapterId(Some(content), current) == if |content.toc| > 0 then Some(content.toc[0].id) else None
  {
  }

  /** With distinct ids, "next" moves one entry forward and "previous" undoes it. */
  lemma NextThenPrevious(content: BookContent, current: string)
    requires DistinctTocIds(content.toc)
    requires ChapterIndex(Some(content), current) >= 0
    requires NextChapterId(Some(content), current).Some?
    ensures var next := NextChapterId(Some(content), current).value;
            && ChapterIndex(Some(content), next) == ChapterIndex(Some(content), current) + 1
            && PreviousChapterId(Some(content), next) == Some(current)
  {
    var i := ChapterIndex(Some(content), current);
    TocIndexOfOwnId(content, i + 1);
  }

  /** With distinct ids, "previous" moves one entry back and "next" undoes it. */
  lemma PreviousThenNext(content: BookContent, current: string)
    requires DistinctTocIds(content.toc)
    requires PreviousChapterId(Some(content), current).Some?
    ensures var prev := PreviousChapterId(Some(content), current).value;
            && ChapterIndex(Some(content), prev) == ChapterIndex(Some(content), current) - 1
            && NextChapterId(Some(content), prev) == Some(current)
  {
    var i := ChapterIndex(Some(content), current);
    TocIndexOfOwnId(content, i - 1);
  }

  /** With distinct ids, an entry's id is found at the entry's own index. */
  lemma TocIndexOfOwnId(content: BookContent, k: int)
    requires DistinctTocIds(content.toc) && 0 <= k < |content.toc|
    ensures ChapterIndex(Some(content), content.toc[k].id) == k
  {
  }

  /** The chapter reached by pressing "next" `n` times. */
  function Advance(content: BookContent, current: string, n: nat): string {
    if n == 0 then current
    else
      var here := Advance(content, current, n - 1);
      NextChapterId(Some(content), here).GetOr(here)
  }

  /** From the first chapter, `k` presses of "next" reach the `k`-th entry:
      every chapter can be reached, in table-of-contents order. */
  lemma {:induction false} AdvanceFromFirst(content: BookContent, k: nat)
    requires DistinctTocIds(content.toc) && k < |content.toc|
    ensures Advance(content, content.toc[0].id, k) == content.toc[k].id
  {
    if k > 0 {
      AdvanceFromFirst(content, k - 1);
      TocIndexOfOwnId(content, k - 1);
      assert NextChapterId(Some(content), content.toc[k - 1].id) == Some(content.toc[k].id);
    }
  }

  // ---------------------------------------------------------------------
  // Restoring progress

  /** `JSON.parse(localStorage.getItem(bookId) || '{}')` read for a saved
      chapter: an entry whose chapter id is empty counts as none. */
  function SavedProgress(storage: map<string, Progress>, key: string): (r: Option<Progress>)
    ensures r.Some? <==> key in storage && storage[key].chapterId != ""
    ensures r.Some? ==> r.value == storage[key]
  {
    if key in storage && storage[key].chapterId != "" then Some(storage[key]) else None
  }

  /** The open chapter after the restoring effect runs: the saved chapter
      when there is one, else the first entry of a loaded table of contents
      when no chapter is open yet, else the open chapter. */
  function RestoredChapterId(saved: Option<Progress>, content: Option<BookContent>, current: string): (r: string)
    ensures saved.Some? ==> r == saved.value.chapterId
    ensures saved.None? && current != "" ==> r == current
    ensures saved.None? && current == "" ==>
              r == if content.Some? && |content.value.toc| > 0 then content.value.toc[0].id else ""
  {
    if saved.Some? then saved.value.chapterId
    else if content.Some? && |content.value.toc| > 0 && current == "" then content.value.toc[0].id
    else current
  }

  /** Where the restoring effect scrolls: the saved offset, unless it is 0. */
  function RestoredScroll(saved: Option<Progress>): (r: Option<int>)
    ensures r.Some? <==> saved.Some? && saved.value.position != 0
    ensures r.Some? ==> r.value == saved.value.position
  {
    if saved.Some? && saved.value.position != 0 then Some(saved.value.position) else None
  }

  /** Progress saved for a chapter is what the next restore opens, and its
      offset is scrolled to unless it is 0. */
  lemma RestoreAfterSave(storage: map<string, Progress>, key: string, chapterId: string, position: int,
                         content: Option<BookContent>, current: string)
    requires chapterId != ""
    ensures var saved := SavedProgress(storage[key := Progress(chapterId, position)], key);
            && RestoredChapterId(saved, content, current) == chapterId
            && RestoredScroll(saved) == if position == 0 then None else Some(position)
  {
  }

  /** On a first visit the first table-of-contents entry is opened. */
  lemma FirstVisitOpensFirstChapter(storage: map<string, Progress>, key: string, content: BookContent)
    requires key !in storage && |content.toc| > 0
    ensures var shown := RestoredChapterId(SavedProgress(storage, key), Some(content), "");
            shown == content.toc[0].id && ChapterIndex(Some(content), shown) == 0
  {
  }

  /** A saved chapter id that is no longer in the table of contents (chapter
      ids are drawn afresh each time a book is extracted) is still opened:
      no entry is current, and no first-chapter fallback applies. */
  lemma StaleSavedChapterIsOpened(saved: Progress, content: BookContent, current: string)
    requires saved.chapterId != ""
    requires forall j :: 0 <= j < |content.toc| ==> content.toc[j].id != saved.chapterId
    ensures var shown := RestoredChapterId(Some(saved), Some(content), current);
            shown == saved.chapterId && ChapterIndex(Some(content), shown) == -1
  {
  }

  /** The header state after a scroll to `scrollY` from `lastScrollY`. */
  function HeaderVisibleAfter(visible: bool, lastScrollY: int, scrollY: int): (r: bool)
    ensures scrollY > lastScrollY && scrollY > HeaderHideOffset ==> !r
    ensures scrollY < lastScrollY ==> r
    ensures lastScrollY <= scrollY <= HeaderHideOffset || scrollY == lastScrollY ==> r == visible
  {
    if scrollY > lastScrollY && scrollY > HeaderHideOffset then false
    else if scrollY < lastScrollY then true
    else visible
  }

  /** The state of one open reader page. */
  class Reader {
    const bookId: string
    var bookContent: Option<BookContent>
    var currentChapterId: string
    var isSidebarOpen: bool
    var isHeaderVisible: bool
    var lastScrollY: int
    /** The browser's local storage, as this page writes it. */
    var localStorage: map<string, Progress>

    constructor(bookId: string, localStorage: map<string, Progress>)
      ensures this.bookId == bookId && this.localStorage == localStorage
      ensures bookContent.None? && currentChapterId == ""
      ensures !isSidebarOpen && isHeaderVisible && lastScrollY == 0
    {
      this.bookId := bookId;
      this.localStorage := localStorage;
      bookContent := None;
      currentChapterId := "";
      isSidebarOpen := false;
      isHeaderVisible := true;
      lastScrollY := 0;
    }

    /** `currentChapterIndex`. */
    function CurrentChapterIndex(): (r: int)
      reads this
      ensures -1 <= r
      ensures r >= 0 ==> bookContent.Some? && r < |bookContent.value.toc|
                         && bookContent.value.toc[r].id == currentChapterId
      ensures r < 0 ==> bookContent.None?
                        || forall j :: 0 <= j < |bookContent.value.toc| ==> bookContent.value.toc[j].id != currentChapterId
      ensures r >= 0 ==> forall j :: 0 <= j < r ==> bookContent.value.toc[j].id != currentChapterId
      ensures r == ChapterIndex(bookContent, currentChapterId)
    {
      ChapterIndex(bookContent, currentChapterId)
    }

    /** The content query resolves. */
    method ContentLoaded(content: BookContent)
      modifies this
      ensures bookContent == Some(content)
      ensures currentChapterId == old(currentChapterId) && localStorage == old(localStorage)
      ensures isSidebarOpen == old(isSidebarOpen) && isHeaderVisible == old(isHeaderVisible)
      ensures lastScrollY == old(lastScrollY)
    {
      bookContent := Some(content);
    }

    /** Stores the progress under the book id. */
    method SaveProgress(chapterId: string, position: int)
      modifies this
      ensures localStorage == old(localStorage)[bookId := Progress(chapterId, position)]
      ensures bookContent == old(bookContent) && currentChapterId == old(currentChapterId)
      ensures isSidebarOpen == old(isSidebarOpen) && isHeaderVisible == old(isHeaderVisible)
      ensures lastScrollY == old(lastScrollY)
    {
      localStorage := localStorage[bookId := Progress(chapterId, position)];
    }

    /** Opens `chapterId` at its top, closing the sidebar. */
    method HandleChapterSelect(chapterId: string)
      modifies this
      ensures currentChapterId == chapterId && !isSidebarOpen
      ensures localStorage == old(localStorage)[bookId := Progress(chapterId, 0)]
      ensures bookContent == old(bookContent) && isHeaderVisible == old(isHeaderVisible)
      ensures lastScrollY == old(lastScrollY)
    {
      currentChapterId := chapterId;
      isSidebarOpen := false;
      SaveProgress(chapterId, 0);
    }

    /** Opens the previous table-of-contents entry, when there is one. */
    method HandlePreviousChapter()
      modifies this
      ensures match PreviousChapterId(old(bookContent), old(currentChapterId))
              case Some(id) =>
                && currentChapterId == id && !isSidebarOpen
                && localStorage == old(localStorage)[bookId := Progress(id, 0)]
              case None =>
                && currentChapterId == old(currentChapterId) && isSidebarOpen == old(isSidebarOpen)
                && localStorage == old(localStorage)
      ensures bookContent == old(bookContent) && isHeaderVisible == old(isHeaderVisible)
      ensures lastScrollY == old(lastScrollY)
    {
      var index := CurrentChapterIndex();
      if bookContent.Some? && index > 0 {
        var chapterId := bookContent.value.toc[index - 1].id;
        currentChapterId := chapterId;
        isSidebarOpen := false;
        SaveProgress(chapterId, 0);
      }
    }

    /** Opens the next table-of-contents entry, when there is one; from a
        chapter outside the table of contents that is the first entry. */
    method HandleNextChapter()
      modifies this
      ensures match NextChapterId(old(bookContent), old(currentChapterId))
              case Some(id) =>
                && currentChapterId == id && !isSidebarOpen
                && localStorage == old(localStorage)[bookId := Progress(id, 0)]
              case None =>
                && currentChapterId == old(currentChapterId) && isSidebarOpen == old(isSidebarOpen)
                && localStorage == old(localStorage)
      ensures bookContent == old(bookContent) && isHeaderVisible == old(isHeaderVisible)
      ensures lastScrollY == old(lastScrollY)
    {
      var index := CurrentChapterIndex();
      if bookContent.Some? && index < |bookContent.value.toc| - 1 {
        var chapterId := bookContent.value.toc[index + 1].id;
        currentChapterId := chapterId;
        isSidebarOpen := false;
        SaveProgress(chapterId, 0);
      }
    }

    /** Hides or shows the header by scroll direction and saves the offset
        for the open chapter. */
    method HandleScroll(scrollY: int)
      modifies this
      ensures isHeaderVisible == HeaderVisibleAfter(old(isHeaderVisible), old(lastScrollY), scrollY)
      ensures lastScrollY == scrollY
      ensures localStorage == old(localStorage)[bookId := Progress(old(currentChapterId), scrollY)]
      ensures bookContent == old(bookContent) && currentChapterId == old(currentChapterId)
      ensures isSidebarOpen == old(isSidebarOpen)
    {
      if scrollY > lastScrollY && scrollY > HeaderHideOffset {
        isHeaderVisible := false;
      } else if scrollY < lastScrollY {
        isHeaderVisible := true;
      }
      lastScrollY := scrollY;
      SaveProgress(currentChapterId, scrollY);
    }

    /** The restoring effect: reopens the saved chapter (or the first one)
        and returns the offset to scroll to, if any. */
    method RestoreProgress() returns (scrollTo: Option<int>)
      modifies this
      ensures currentChapterId ==
                RestoredChapterId(SavedProgress(localStorage, bookId), bookContent, old(currentChapterId))
      ensures scrollTo == RestoredScroll(SavedProgress(localStorage, bookId))
      ensures bookContent == old(bookContent) && localStorage == old(localStorage)
      ensures isSidebarOpen == old(isSidebarOpen) && isHeaderVisible == old(isHeaderVisible)
      ensures lastScrollY == old(lastScrollY)
    {
      var savedChapterId := "";
      var savedScrollPosition := 0;
      if bookId in localStorage && localStorage[bookId].chapterId != "" {
        savedChapterId := localStorage[bookId].chapterId;
        savedScrollPosition := localStorage[bookId].position;
      }
      if savedChapterId != "" {
        currentChapterId := savedChapterId;
      } else if bookContent.Some? && |bookContent.value.toc| > 0 && currentChapterId == "" {
        currentChapterId := bookContent.value.toc[0].id;
      }
      scrollTo := if savedScrollPosition != 0 then Some(savedScrollPosition) else None;
    }
  }
}
