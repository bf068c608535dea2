/** The previous/next buttons under a chapter. `currentChapter` is the
    1-based position shown to the reader ("Chương 3 / 10"), which the reader
    page passes as its table-of-contents index plus one. */
module ChapterControls {

  /** The "previous" button is enabled past the first position. */
  function HasPrevious(currentChapter: int): (r: bool)
    ensures r <==> currentChapter - 1 > 0  // the index shown is past the first entry
  {
    currentChapter > 1
  }

  /** The "next" button is enabled before the last position. */
  function HasNext(currentChapter: int, totalChapters: int): (r: bool)
    ensures r <==> currentChapter - 1 < totalChapters - 1  // the index shown is before the last entry
  {
    currentChapter < totalChapters
  }
}
