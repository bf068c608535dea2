/** The server's in-memory store: books by id, and the extracted content of
    a book by book id. A JavaScript `Map` lists its values in the order
    their keys were first inserted, and setting an existing key keeps its
    place; `bookOrder` records that order for `books`. */
module Storage {
  import opened Core
  import opened Schema

  /** The key order of a `Map` after `set(key, …)`. */
  function InsertionOrder(order: seq<string>, key: string): (r: seq<string>)
    ensures key in r
    ensures forall k :: k in r <==> k in order || k == key
  {
    if key in order then order else order + [key]
  }

  /** No key is listed twice. */
  predicate NoDuplicates(order: seq<string>) {
    forall i, j :: 0 <= i < j < |order| ==> order[i] != order[j]
  }

  /** `Array.from(books.values())` for the key order `order`. */
  function ListedBooks(order: seq<string>, books: map<string, Book>): (r: seq<Book>)
    requires forall i :: 0 <= i < |order| ==> order[i] in books
    ensures |r| == |order|
    ensures forall i :: 0 <= i < |order| ==> r[i] == books[order[i]]
  {
    seq(|order|, i requires 0 <= i < |order| => books[order[i]])
  }

  /** A key list without duplicates has as many entries as distinct keys. */
  lemma {:induction false} NoDuplicatesCardinality(order: seq<string>)
    requires NoDuplicates(order)
    ensures |set k | k in order| == |order|
  {
    if order != [] {
      var front := order[..|order| - 1];
      var last := order[|order| - 1];
      NoDuplicatesCardinality(front);
      assert (set k | k in order) == (set k | k in front) + {last};
      assert last !in front;
    }
  }

  /** Inserting the order's key list again keeps it free of duplicates. */
  lemma InsertionOrderNoDuplicates(order: seq<string>, key: string)
    requires NoDuplicates(order)
    ensures NoDuplicates(InsertionOrder(order, key))
  {
  }

  /** Setting a book lists a new one last and replaces an existing one in
      its place, leaving the others where they were. */
  lemma ListingAfterSet(order: seq<string>, books: map<string, Book>, book: Book)
    requires forall i :: 0 <= i < |order| ==> order[i] in books
    requires forall k :: k in books ==> k in order
    ensures var after := ListedBooks(InsertionOrder(order, book.id), books[book.id := book]);
            var before := ListedBooks(order, books);
            && (book.id !in books ==> after == before + [book])
            && (book.id in books ==>
                  |after| == |before|
                  && forall i :: 0 <= i < |before| ==>
                       after[i] == if order[i] == book.id then book else before[i])
  {
    var after := ListedBooks(InsertionOrder(order, book.id), books[book.id := book]);
    var before := ListedBooks(order, books);
    if book.id !in books {
      assert book.id !in order;
      assert |after| == |before| + 1;
      forall i | 0 <= i < |after| ensures after[i] == (before + [book])[i] {
        if i < |order| {
          assert order[i] != book.id;
        }
      }
    }
  }

  class MemStorage {
    var books: map<string, Book>
    /** The ids of `books` in insertion order. */
    var bookOrder: seq<string>
    var bookContents: map<string, BookContent>

    /** Every entry is stored under its own id, and `bookOrder` lists the
        ids of `books` once each. */
    ghost predicate Valid()
      reads this
    {
      && (forall id :: id in books ==> books[id].id == id)
      && (forall id :: id in bookContents ==> bookContents[id].bookId == id)
      && NoDuplicates(bookOrder)
      && (forall id :: id in books <==> id in bookOrder)
    }

    constructor()
      ensures Valid()
      ensures books == map[] && bookOrder == [] && bookContents == map[]
      ensures GetBooks() == []
      ensures forall id :: GetBook(id).None? && GetBookContent(id).None?
    {
      books := map[];
      bookOrder := [];
      bookContents := map[];
    }

    /** Every stored book once, in upload order. */
    function GetBooks(): (r: seq<Book>)
      reads this
      requires Valid()
      ensures |r| == |bookOrder| == |books|
      ensures forall b :: b in r <==> b in books.Values
      ensures forall i :: 0 <= i < |r| ==> r[i].id == bookOrder[i]
      ensures forall i, j :: 0 <= i < j < |r| ==> r[i].id != r[j].id
    {
      NoDuplicatesCardinality(bookOrder);
      assert books.Keys == set k | k in bookOrder;
      var r := ListedBooks(bookOrder, books);
      assert forall b :: b in books.Values ==> exists i :: 0 <= i < |bookOrder| && books[bookOrder[i]] == b;
      r
    }

    /** The book stored under `id`. */
    function GetBook(id: string): (r: Option<Book>)
      reads this
      requires Valid()
      ensures r.Some? <==> id in books
      ensures r.Some? ==> r.value == books[id] && r.value.id == id
    {
      if id in books then Some(books[id]) else None
    }

    /** The content stored under `id`. */
    function GetBookContent(id: string): (r: Option<BookContent>)
      reads this
      requires Valid()
      ensures r.Some? <==> id in bookContents
      ensures r.Some? ==> r.value == bookContents[id] && r.value.bookId == id
    {
      if id in bookContents then Some(bookContents[id]) else None
    }

    /** The first chapter of the book's content with id `chapterId`; none
        when the content has not been extracted. */
    function GetChapter(bookId: string, chapterId: string): (r: Option<Chapter>)
      reads this
      requires Valid()
      ensures bookId !in bookContents ==> r.None?
      ensures bookId in bookContents ==> r == FindChapter(bookContents[bookId].chapters, chapterId)
      ensures r.Some? ==> r.value.id == chapterId && r.value in bookContents[bookId].chapters
    {
      match GetBookContent(bookId)
      case None => None
      case Some(content) => FindChapter(content.chapters, chapterId)
    }

    /** Stores `book` under its id, replacing an earlier book with that id
        in its place in the listing. */
    method SetBook(book: Book)
      requires Valid()
      modifies this
      ensures Valid()
      ensures books == old(books)[book.id := book]
      ensures bookOrder == InsertionOrder(old(bookOrder), book.id)
      ensures bookContents == old(bookContents)
      ensures GetBook(book.id) == Some(book)
      ensures forall id :: id != book.id ==> GetBook(id) == old(GetBook(id))
      ensures book.id !in old(books) ==> GetBooks() == old(GetBooks()) + [book]
      ensures book.id in old(books) ==>
                |GetBooks()| == |old(GetBooks())|
                && forall i :: 0 <= i < |GetBooks()| ==>
                     GetBooks()[i] == if old(GetBooks())[i].id == book.id then book else old(GetBooks())[i]
    {
      ListingAfterSet(bookOrder, books, book);
      InsertionOrderNoDuplicates(bookOrder, book.id);
      books := books[book.id := book];
      bookOrder := InsertionOrder(bookOrder, book.id);
    }

    /** Stores `content` under its book id; later chapter lookups read it. */
    method SetBookContent(content: BookContent)
      requires Valid()
      modifies this
      ensures Valid()
      ensures bookContents == old(bookContents)[content.bookId := content]
      ensures books == old(books) && bookOrder == old(bookOrder)
      ensures GetBookContent(content.bookId) == Some(content)
      ensures forall id :: id != content.bookId ==> GetBookContent(id) == old(GetBookContent(id))
      ensures forall chapterId :: GetChapter(content.bookId, chapterId) == FindChapter(content.chapters, chapterId)
      ensures DistinctChapterIds(content.chapters) ==>
                forall i :: 0 <= i < |content.chapters| ==>
                  GetChapter(content.bookId, content.chapters[i].id) == Some(content.chapters[i])
    {
      bookContents := bookContents[content.bookId := content];
      if DistinctChapterIds(content.chapters) {
        forall i | 0 <= i < |content.chapters| {
          FindChapterOwnId(content.chapters, i);
        }
      }
    }
  }
}
