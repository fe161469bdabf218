/** The book records of a search response and the local ISBN-substring
    filter over the cached results. */
module Catalog {
  import opened Wrappers
  import opened Seqs
  import opened JsStrings

  /** One record of the response's `docs` array: `title`, `author_name`,
      `first_publish_year`, `cover_i` and `isbn`, each but the title optional. */
  datatype Book = Book(
    title: string,
    authorName: Option<seq<string>>,
    firstPublishYear: Option<int>,
    coverId: Option<int>,
    isbn: Option<seq<string>>)

  /** `book.isbn || []`. */
  function Isbns(book: Book): seq<string> {
    book.isbn.GetOr([])
  }

  /** `bookIsbns.some((bookIsbn) => bookIsbn.includes(fragment))`. */
  predicate HasIsbnContaining(book: Book, fragment: string)
    ensures HasIsbnContaining(book, fragment) ==>
      book.isbn.Some? && exists j :: 0 <= j < |book.isbn.value| && |fragment| <= |book.isbn.value[j]|
  {
    exists j :: 0 <= j < |Isbns(book)| && Includes(Isbns(book)[j], fragment)
  }

  /** `previousResults.filter(...)` in `filterByISBN`. */
  function FilteredByIsbn(books: seq<Book>, fragment: string): (kept: seq<Book>)
    ensures |kept| <= |books|
    ensures forall i :: 0 <= i < |kept| ==> HasIsbnContaining(kept[i], fragment)
  {
    Filter((book: Book) => HasIsbnContaining(book, fragment), books)
  }

  /** The filter keeps the books, in their original order, that have an ISBN
      in which the fragment occurs, and every copy of each of them; a book
      without ISBNs is never kept. */
  lemma FilteredByIsbnKeepsMatches(books: seq<Book>, fragment: string)
    ensures var kept := FilteredByIsbn(books, fragment);
      && IsSubsequence(kept, books)
      && (forall i :: 0 <= i < |kept| ==>
            kept[i].isbn.Some? && exists j, k :: 0 <= j < |Isbns(kept[i])| && OccursAt(Isbns(kept[i])[j], fragment, k))
      && (forall b :: HasIsbnContaining(b, fragment) ==> multiset(kept)[b] == multiset(books)[b])
  {
    var matches := (book: Book) => HasIsbnContaining(book, fragment);
    var kept := FilteredByIsbn(books, fragment);
    FilterIsSubsequence(matches, books);
    FilterKeepsEveryMatch(matches, books);
    forall i | 0 <= i < |kept|
      ensures kept[i].isbn.Some? && exists j, k :: 0 <= j < |Isbns(kept[i])| && OccursAt(Isbns(kept[i])[j], fragment, k)
    {
      assert matches(kept[i]);
      var j :| 0 <= j < |Isbns(kept[i])| && Includes(Isbns(kept[i])[j], fragment);
      IncludesIffOccurs(Isbns(kept[i])[j], fragment);
    }
  }

  /** Filtering the filtered books again by the same fragment changes
      nothing. */
  lemma FilteredByIsbnIdempotent(books: seq<Book>, fragment: string)
    ensures FilteredByIsbn(FilteredByIsbn(books, fragment), fragment) == FilteredByIsbn(books, fragment)
  {
    FilterIdempotent((book: Book) => HasIsbnContaining(book, fragment), books);
  }

  /** The empty fragment occurs in every ISBN, so it keeps exactly the books
      that list at least one ISBN. */
  lemma EmptyFragmentKeepsBooksWithIsbn(book: Book)
    ensures HasIsbnContaining(book, []) <==> Isbns(book) != []
  {
    if Isbns(book) != [] {
      assert Includes(Isbns(book)[0], []);
    }
  }
}
