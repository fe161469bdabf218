/** Turning the session's query into the request sent to the catalogue:
    paging arithmetic, ISBN normalisation and validation. */
module Query {
  import opened Wrappers
  import opened Seqs
  import opened JsStrings
  import opened Pagination

  /** The field a search runs against (the `search-by` selector's values
      `title`, `author` and `isbn`). */
  datatype SearchField = Title | Author | Isbn

  /** A request to the search endpoint: `limit`, `offset` and one query
      parameter named after the field. The URL text and its encoding are
      not modelled. */
  datatype Request = Request(limit: int, offset: int, field: SearchField, value: string)

  datatype QueryError = InvalidIsbn

  /** The characters `/[^0-9X]/gi` does not delete: digits and `X` in either
      case, since the `i` flag makes the class case-insensitive. */
  predicate IsIsbnChar(c: char) {
    '0' <= c <= '9' || c == 'X' || c == 'x'
  }

  /** `s.replace(/[^0-9X]/gi, '')`. */
  function NormalizeIsbn(s: string): (r: string)
    ensures |r| <= |s|
    ensures forall i :: 0 <= i < |r| ==> IsIsbnChar(r[i])
  {
    Filter(IsIsbnChar, s)
  }

  /** Normalising keeps exactly the digits and `X`/`x` of `s`, every one of
      them, in their original order, and normalising again changes nothing. */
  lemma NormalizeIsbnKeepsIsbnChars(s: string)
    ensures var r := NormalizeIsbn(s);
      && IsSubsequence(r, s)
      && (forall i :: 0 <= i < |r| ==> IsIsbnChar(r[i]))
      && (forall c :: IsIsbnChar(c) ==> multiset(r)[c] == multiset(s)[c])
      && NormalizeIsbn(r) == r
  {
    FilterIsSubsequence(IsIsbnChar, s);
    FilterKeepsEveryMatch(IsIsbnChar, s);
    FilterIdempotent(IsIsbnChar, s);
  }

  /** `buildApiUrl`: the page's first result is `(currentPage - 1) *
      resultsPerPage`; an ISBN search sends the trimmed query without
      anything but digits and `X`/`x`, and is refused unless that leaves 10
      or 13 characters; any other search sends the query under the field's
      name. */
  function BuildRequest(query: string, field: SearchField, currentPage: int, resultsPerPage: int)
    : (r: Result<Request, QueryError>)
    ensures r.Failure? <==> field == Isbn && |NormalizeIsbn(Trim(query))| != 10 && |NormalizeIsbn(Trim(query))| != 13
    ensures r.Success? ==> r.value.limit == resultsPerPage && r.value.field == field
    ensures r.Success? ==> r.value.offset == (currentPage - 1) * resultsPerPage
    ensures r.Success? && currentPage >= 1 && resultsPerPage >= 1 ==> r.value.offset >= 0
    ensures r.Success? && field == Isbn ==>
      r.value.value == NormalizeIsbn(Trim(query)) && |r.value.value| in {10, 13}
    ensures r.Success? && field != Isbn ==> r.value.value == query
  {
    var startIndex := (currentPage - 1) * resultsPerPage;
    if field == Isbn then
      var isbn := NormalizeIsbn(Trim(query));
      if |isbn| != 13 && |isbn| != 10 then Failure(InvalidIsbn)
      else Success(Request(resultsPerPage, startIndex, Isbn, isbn))
    else
      Success(Request(resultsPerPage, startIndex, field, query))
  }

  /** The ISBN a request carries is accepted as it stands: searching for it
      again builds the same request. */
  lemma IsbnRequestRoundTrip(query: string, currentPage: int, resultsPerPage: int)
    requires BuildRequest(query, Isbn, currentPage, resultsPerPage).Success?
    ensures var req := BuildRequest(query, Isbn, currentPage, resultsPerPage).value;
      BuildRequest(req.value, Isbn, currentPage, resultsPerPage).Success?
      && BuildRequest(req.value, Isbn, currentPage, resultsPerPage).value == req
  {
    NormalizedIsbnIsStable(Trim(query));
  }

  /** A normalised ISBN has no whitespace to trim and nothing to delete. */
  lemma NormalizedIsbnIsStable(s: string)
    ensures var isbn := NormalizeIsbn(s); NormalizeIsbn(Trim(isbn)) == isbn
  {
    var isbn := NormalizeIsbn(s);
    FilterIdempotent(IsIsbnChar, s);
    if isbn != [] {
      assert IsIsbnChar(isbn[0]) && IsIsbnChar(isbn[|isbn| - 1]);
    }
    TrimKeepsUnpadded(isbn);
  }

  /** Whether a search is refused never depends on the page, and consecutive
      pages ask for adjacent slices of the results, starting from the first. */
  lemma RequestsTileResults(query: string, field: SearchField, currentPage: int, resultsPerPage: int)
    requires currentPage >= 1 && resultsPerPage >= 1
    ensures var here := BuildRequest(query, field, currentPage, resultsPerPage);
      var after := BuildRequest(query, field, currentPage + 1, resultsPerPage);
      && here.Success? == after.Success?
      && (here.Success? ==> after.value.offset == here.value.offset + here.value.limit)
      && (here.Success? && currentPage == 1 ==> here.value.offset == 0)
  {
  }

  /** For a non-empty result list, the request for the last page starts
      inside the results and reaches at least to their end. */
  lemma LastPageHoldsLastResult(query: string, field: SearchField, totalResults: nat, resultsPerPage: int)
    requires totalResults >= 1 && resultsPerPage >= 1
    requires BuildRequest(query, field, 1, resultsPerPage).Success?
    ensures var last := BuildRequest(query, field, TotalPages(totalResults, resultsPerPage), resultsPerPage);
      last.Success? && 0 <= last.value.offset < totalResults <= last.value.offset + last.value.limit
  {
    var pages := TotalPages(totalResults, resultsPerPage);
    assert pages >= 1;
    assert (pages - 1) * resultsPerPage + resultsPerPage == pages * resultsPerPage;
    RequestsTileResults(query, field, 1, resultsPerPage);
  }

  /** A separator such as a hyphen or a space between two parts of an ISBN
      is dropped, and the parts are normalised on their own. */
  lemma SeparatorDropped(a: string, c: char, b: string)
    requires !IsIsbnChar(c)
    ensures NormalizeIsbn(a + [c] + b) == NormalizeIsbn(a) + NormalizeIsbn(b)
  {
    FilterConcat(IsIsbnChar, a + [c], b);
    FilterConcat(IsIsbnChar, a, [c]);
  }

  /** Both `X` and a lower-case `x` survive as a check digit. */
  lemma CheckDigitKept(s: string)
    ensures NormalizeIsbn(s + ['X']) == NormalizeIsbn(s) + ['X']
    ensures NormalizeIsbn(s + ['x']) == NormalizeIsbn(s) + ['x']
  {
    FilterConcat(IsIsbnChar, s, ['X']);
    FilterConcat(IsIsbnChar, s, ['x']);
  }

  /** Three digits are not an ISBN. */
  lemma ShortIsbnRefused()
    ensures BuildRequest("123", Isbn, 1, 10) == Failure(InvalidIsbn)
  {
  }
}
