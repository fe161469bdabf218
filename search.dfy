/** The page's state and its event handlers (the form submission, the
    resize handler and the pagination controls), the handling of a search
    response, and the ISBN filter over the cached results. app.js defines
    `filterByISBN` without attaching or calling it; the model gives it a
    method for a caller to use. */
module Search {
  import opened Wrappers
  import opened JsStrings
  import opened Pagination
  import opened Query
  import opened Catalog

  /** How a call to the search endpoint ended: a response with `ok` set and
      its parsed body (`docs` and `numFound`), a response without `ok`, or an
      exception (the network failed or the body was not the expected JSON). */
  datatype FetchOutcome =
    | Ok(docs: seq<Book>, numFound: nat)
    | HttpError(status: int, statusText: string)
    | TransportError

  /** The messages the results area can hold once a handler has finished. */
  datatype Notice =
    | EnterSearchTerm
    | EnterValidIsbn
    | HttpFailure(status: int, statusText: string)
    | NoResults
    | SearchFailed
    | NoIsbnMatch(fragment: string)

  /** What the results area shows. */
  datatype ResultsView = Blank | Message(notice: Notice) | Books(books: seq<Book>)

  /** What the pagination area shows. */
  datatype PaginationView = Cleared | Shown(layout: Layout)

  /** The module-level variables of the page and the two areas it draws. */
  class Session {
    var currentPage: int
    var currentQuery: string
    var currentSearchBy: SearchField
    var resultsPerPage: int
    var previousResults: seq<Book>
    var results: ResultsView
    var pagination: PaginationView

    /** Every page holds at least one result. */
    ghost predicate Valid()
      reads this
    {
      resultsPerPage >= 1
    }

    /** The state when the page loads. */
    constructor (resultsPerPage: int)
      requires resultsPerPage >= 1
      ensures Valid()
      ensures currentPage == 1 && currentQuery == [] && currentSearchBy == Title
      ensures this.resultsPerPage == resultsPerPage && previousResults == []
      ensures results == Blank && pagination == Cleared
    {
      currentPage := 1;
      currentQuery := [];
      currentSearchBy := Title;
      this.resultsPerPage := resultsPerPage;
      previousResults := [];
      results := Blank;
      pagination := Cleared;
    }

    /** The `resize` handler: a new page size, used from the next request on;
        what is on screen stays as it is. */
    method Resize(resultsPerPage: int)
      requires resultsPerPage >= 1
      modifies this`resultsPerPage
      ensures Valid() && this.resultsPerPage == resultsPerPage
    {
      this.resultsPerPage := resultsPerPage;
    }

    /** What the page shows after a search for the current query, field,
        page and page size ended with `outcome`, given the cached results and
        the pagination area from before. */
    ghost predicate ShowsFetch(outcome: FetchOutcome, cacheBefore: seq<Book>, paginationBefore: PaginationView)
      reads this
      requires Valid()
    {
      Displays(BuildRequest(currentQuery, currentSearchBy, currentPage, resultsPerPage), outcome,
               resultsPerPage, currentPage, cacheBefore, paginationBefore, previousResults, results, pagination)
    }

    /** `fetchAndDisplayResults`: builds the request for the current state
        (none when the ISBN is refused) and shows how it ended. */
    method FetchAndDisplay(outcome: FetchOutcome) returns (request: Option<Request>)
      requires Valid()
      modifies this`results, this`pagination, this`previousResults
      ensures Valid()
      ensures request == BuildRequest(currentQuery, currentSearchBy, currentPage, resultsPerPage).ToOption()
      ensures ShowsFetch(outcome, old(previousResults), old(pagination))
    {
      var built := BuildRequest(currentQuery, currentSearchBy, currentPage, resultsPerPage);
      var cache, shown, bar := previousResults, results, pagination;
      if built.Failure? {
        shown := Message(EnterValidIsbn);
        request := None;
      } else {
        request := Some(built.value);
        match outcome
        case HttpError(status, statusText) =>
          shown := Message(HttpFailure(status, statusText));
        case TransportError =>
          shown := Message(SearchFailed);
        case Ok(docs, numFound) =>
          if docs == [] {
            shown := Message(NoResults);
            bar := Cleared;
          } else {
            cache := docs;
            shown := Books(docs);
            var layout := DisplayPagination(numFound, resultsPerPage, currentPage);
            bar := Shown(layout);
          }
      }
      assert Displays(built, outcome, resultsPerPage, currentPage, previousResults, pagination, cache, shown, bar);
      previousResults, results, pagination := cache, shown, bar;
    }

    /** The `submit` handler: clears both areas, goes back to page 1 and
        takes the trimmed input and the selected field as the new search; a
        blank input only asks for a search term, anything else is searched
        for. */
    method Submit(input: string, searchBy: SearchField, outcome: FetchOutcome) returns (request: Option<Request>)
      requires Valid()
      modifies this`currentPage, this`currentQuery, this`currentSearchBy
      modifies this`results, this`pagination, this`previousResults
      ensures Valid()
      ensures currentPage == 1 && currentQuery == Trim(input) && currentSearchBy == searchBy
      ensures IsBlank(input) ==>
        && request == None && results == Message(EnterSearchTerm)
        && pagination == Cleared && previousResults == old(previousResults)
      ensures !IsBlank(input) ==>
        && request == BuildRequest(currentQuery, searchBy, 1, resultsPerPage).ToOption()
        && ShowsFetch(outcome, old(previousResults), Cleared)
    {
      results := Blank;
      pagination := Cleared;
      currentPage := 1;
      currentQuery := Trim(input);
      currentSearchBy := searchBy;
      TrimEmptyIffBlank(input);
      if currentQuery == [] {
        results := Message(EnterSearchTerm);
        return None;
      }
      request := FetchAndDisplay(outcome);
    }

    /** The « control as written: it steps back from whatever the current
        page is when it is clicked and searches again. */
    method Prev(outcome: FetchOutcome) returns (request: Option<Request>)
      requires Valid()
      requires pagination.Shown? && pagination.layout.prev
      modifies this`currentPage, this`results, this`pagination, this`previousResults
      ensures Valid()
      ensures currentPage == old(currentPage) - 1
      ensures request == BuildRequest(currentQuery, currentSearchBy, currentPage, resultsPerPage).ToOption()
      ensures ShowsFetch(outcome, old(previousResults), old(pagination))
    {
      currentPage := currentPage - 1;
      request := FetchAndDisplay(outcome);
    }

    /** The « control as evidently intended: it only steps back while there
        is an earlier page, so the page never drops below 1 and no request
        asks for results before the first. */
    method PrevGuarded(outcome: FetchOutcome) returns (request: Option<Request>)
      requires Valid()
      requires pagination.Shown? && pagination.layout.prev
      modifies this`currentPage, this`results, this`pagination, this`previousResults
      ensures Valid()
      ensures old(currentPage) >= 1 ==> currentPage >= 1
      ensures request.Some? ==> request.value.offset >= 0
      ensures old(currentPage) > 1 ==>
        && currentPage == old(currentPage) - 1
        && request == BuildRequest(currentQuery, currentSearchBy, currentPage, resultsPerPage).ToOption()
        && ShowsFetch(outcome, old(previousResults), old(pagination))
      ensures old(currentPage) <= 1 ==>
        && request == None && currentPage == old(currentPage)
        && results == old(results) && pagination == old(pagination) && previousResults == old(previousResults)
    {
      if currentPage > 1 {
        currentPage := currentPage - 1;
        request := FetchAndDisplay(outcome);
      } else {
        request := None;
      }
    }

    /** The » control: it steps forward from the current page and searches
        again. */
    method Next(outcome: FetchOutcome) returns (request: Option<Request>)
      requires Valid()
      requires pagination.Shown? && pagination.layout.next
      modifies this`currentPage, this`results, this`pagination, this`previousResults
      ensures Valid()
      ensures currentPage == old(currentPage) + 1
      ensures request == BuildRequest(currentQuery, currentSearchBy, currentPage, resultsPerPage).ToOption()
      ensures ShowsFetch(outcome, old(previousResults), old(pagination))
    {
      currentPage := currentPage + 1;
      request := FetchAndDisplay(outcome);
    }

    /** A numbered button: it goes to the page it was drawn for and searches
        again. */
    method GoToPage(page: int, outcome: FetchOutcome) returns (request: Option<Request>)
      requires Valid()
      requires pagination.Shown? && page in PagesOf(pagination.layout.entries)
      modifies this`currentPage, this`results, this`pagination, this`previousResults
      ensures Valid()
      ensures currentPage == page
      ensures request == BuildRequest(currentQuery, currentSearchBy, page, resultsPerPage).ToOption()
      ensures ShowsFetch(outcome, old(previousResults), old(pagination))
    {
      currentPage := page;
      request := FetchAndDisplay(outcome);
    }

    /** `filterByISBN`, which app.js defines but never attaches to an
        event or calls: with nothing cached it searches again; otherwise it
        keeps the cached books with an ISBN containing `fragment` and shows
        them with a bar for that many results, or says that none matched and
        clears the bar. The cache itself is not changed by filtering. */
    method FilterByIsbn(fragment: string, outcome: FetchOutcome) returns (request: Option<Request>)
      requires Valid()
      modifies this`results, this`pagination, this`previousResults
      ensures Valid()
      ensures old(previousResults) == [] ==>
        && request == BuildRequest(currentQuery, currentSearchBy, currentPage, resultsPerPage).ToOption()
        && ShowsFetch(outcome, old(previousResults), old(pagination))
      ensures old(previousResults) != [] ==>
        var kept := FilteredByIsbn(old(previousResults), fragment);
        && request == None && previousResults == old(previousResults)
        && (kept == [] ==> results == Message(NoIsbnMatch(fragment)) && pagination == Cleared)
        && (kept != [] ==>
              && results == Books(kept) && pagination.Shown?
              && IsLayout(pagination.layout, |kept|, resultsPerPage, currentPage))
    {
      if previousResults == [] {
        request := FetchAndDisplay(outcome);
        return;
      }
      request := None;
      var kept := FilteredByIsbn(previousResults, fragment);
      if kept == [] {
        results := Message(NoIsbnMatch(fragment));
        pagination := Cleared;
      } else {
        results := Books(kept);
        var layout := DisplayPagination(|kept|, resultsPerPage, currentPage);
        pagination := Shown(layout);
      }
    }
  }

  /** What the page shows after the request `built` (or the refusal to
      build one) ended with `outcome`, on page `currentPage` with
      `resultsPerPage` results to a page: a refused ISBN and a failed call
      leave the pagination area and the cache as they were and only show a
      message; an empty result list clears the pagination area; otherwise the
      results are cached and shown, with the bar for `numFound` results seen
      from the current page. */
  ghost predicate Displays(built: Result<Request, QueryError>, outcome: FetchOutcome,
                           resultsPerPage: int, currentPage: int,
                           cacheBefore: seq<Book>, paginationBefore: PaginationView,
                           cache: seq<Book>, results: ResultsView, pagination: PaginationView)
    requires resultsPerPage >= 1
  {
    match built
    case Failure(_) =>
      results == Message(EnterValidIsbn) && pagination == paginationBefore && cache == cacheBefore
    case Success(_) =>
      match outcome
      case HttpError(status, statusText) =>
        results == Message(HttpFailure(status, statusText)) && pagination == paginationBefore && cache == cacheBefore
      case TransportError =>
        results == Message(SearchFailed) && pagination == paginationBefore && cache == cacheBefore
      case Ok(docs, numFound) =>
        if docs == [] then
          results == Message(NoResults) && pagination == Cleared && cache == cacheBefore
        else
          && cache == docs && results == Books(docs)
          && pagination.Shown? && IsLayout(pagination.layout, numFound, resultsPerPage, currentPage)
  }

  /** The outcome of a search pins down what the page shows: the cache,
      the results area and the pagination area. */
  lemma DisplaysDetermined(built: Result<Request, QueryError>, outcome: FetchOutcome,
                           resultsPerPage: int, currentPage: int,
                           cacheBefore: seq<Book>, paginationBefore: PaginationView,
                           cache: seq<Book>, results: ResultsView, pagination: PaginationView,
                           cache': seq<Book>, results': ResultsView, pagination': PaginationView)
    requires resultsPerPage >= 1
    requires Displays(built, outcome, resultsPerPage, currentPage, cacheBefore, paginationBefore, cache, results, pagination)
    requires Displays(built, outcome, resultsPerPage, currentPage, cacheBefore, paginationBefore, cache', results', pagination')
    ensures cache == cache' && results == results' && pagination == pagination'
  {
    if built.Success? && outcome.Ok? && outcome.docs != [] {
      LayoutDetermined(pagination.layout, pagination'.layout, outcome.numFound, resultsPerPage, currentPage);
    }
  }

  /** A search result used by the scenarios below. */
  function SampleBook(): Book {
    Book("Dune", None, None, None, None)
  }

  /** With the « control as written, a bar that survives a failed request
      keeps offering «: on page 2 of a 30-result search, two clicks that both
      meet a server error take the page to 0, and the second click asks for
      results before the first one. */
  method StalePrevReachesPageZero() returns (page: int, request: Option<Request>)
    ensures page == 0
    ensures request == Some(Request(10, -10, Title, "dune"))
  {
    var session := new Session(10);
    TrimKeepsUnpadded("dune");
    var found := Ok([SampleBook()], 30);
    var _ := session.Submit("dune", Title, found);
    assert session.currentPage == 1 && TotalPages(30, 10) == 3;
    var _ := session.Next(found);
    var failed := HttpError(503, "Service Unavailable");
    var _ := session.Prev(failed);
    request := session.Prev(failed);
    page := session.currentPage;
  }

  /** The same clicks with the guarded « control: the second click finds
      the first page and does nothing. */
  method GuardedPrevStaysOnFirstPage() returns (page: int, request: Option<Request>)
    ensures page == 1
    ensures request == None
  {
    var session := new Session(10);
    TrimKeepsUnpadded("dune");
    var found := Ok([SampleBook()], 30);
    var _ := session.Submit("dune", Title, found);
    assert session.currentPage == 1 && TotalPages(30, 10) == 3;
    var _ := session.Next(found);
    var failed := HttpError(503, "Service Unavailable");
    var _ := session.PrevGuarded(failed);
    request := session.PrevGuarded(failed);
    page := session.currentPage;
  }
}
