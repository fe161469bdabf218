# Book search page: pagination planner, request builder, ISBN filter and session

This Dafny project models the decision logic of `app.js`, a single-page book
search over the Open Library search endpoint. It covers:

- **Pagination** (`pagination.dfy`): the page count (`Math.ceil` of results
  over page size) and `calculateIntervals`. The planner is a method with the
  source's push loop and `includes` guards followed by the numeric sort. It is
  proved against `IsPlan`: strictly ascending, and exactly the first page, the
  last page and the window around the current page. `Plan` is a closed form
  shown to be the only sequence meeting that description. `displayPagination`
  is a method that builds the bar from the plan: the « and » controls, a
  "..." gap in front of every button that skips pages, and the active mark.
  It is proved against `IsLayout`, which pins the bar down uniquely.
- **Query** (`query.dfy`): `buildApiUrl` as a request descriptor (limit,
  offset, field, value) or a refusal. ISBN normalisation is
  `replace(/[^0-9X]/gi, '')`, which keeps both `X` and `x`. A normalised ISBN
  is refused unless it has 10 or 13 characters.
- **Catalog** (`catalog.dfy`): the book records of a response, and the
  `filterByISBN` substring filter over the cached results.
- **JavaScript strings** (`js_strings.dfy`): `String.prototype.trim` with the
  ECMAScript whitespace set, and `String.prototype.includes`.
- **Session** (`search.dfy`): the page's module-level variables as a
  `Session` class. It has one method per event handler: submit, «, », a
  numbered button and resize. app.js also defines `filterByISBN` but never
  attaches it to an event or calls it; the model gives it a Session method
  for a caller to use. `fetchAndDisplayResults`
  takes the outcome of the call as a parameter. `Displays` states what the
  page shows after each outcome. `DisplaysDetermined` shows that the outcome
  fixes the screen.
- **Seqs** and **Wrappers**: order-preserving filtering, and the option and
  result types.

Some behaviours of the code that are easy to miss, all modelled as written:

- With one page, `calculateIntervals` returns `[1]`, not an empty list. With
  zero pages (a response with records but `numFound` 0), it returns `[0]`.
- The ISBN pattern has the `i` flag, so a lower-case `x` is kept along with
  digits and `X`.
- Submitting a new search never clears `previousResults` (app.js:18-38). Only
  a successful response with records replaces it.
- The current page can reach 0 (see Findings).

## Model

| member | source | states |
|---|---|---|
| Pagination.TotalPages | app.js:143 | the page count is the smallest number of pages of the given size that holds every result |
| Pagination.SortNumeric | app.js:202 | the numeric sort returns the same elements (as a multiset) in ascending order |
| Pagination.SortNumericKeepsSorted | app.js:202 | sorting a sequence that is already ascending leaves it unchanged |
| Pagination.PlanIsPlan | app.js:192-201 | the closed-form plan is strictly ascending and holds exactly the first page (when there are at least two), the last page and the window pages |
| Pagination.PlanCharacterised | app.js:188-203 | a sequence meets the plan description if and only if it equals the closed form, so the description fixes the plan |
| Pagination.PlanShape | app.js:192-201 | a plan ends on the last page; it starts on page 1 when there are at least two pages; it is `[totalPages]` for one page or none; its entries lie in `[1, totalPages]`; window entries lie in `[max(2, currentPage-2), min(totalPages-1, start+3)]`; it has at most 6 entries; and it contains the current page whenever `1 <= currentPage <= totalPages` |
| Pagination.CalculateIntervals | app.js:188-203 | the push loop with its `includes` guards, followed by the sort, returns a plan: strictly ascending, no duplicates, exactly the pages that get a button |
| Pagination.SortingKeepsPlan | app.js:202 | the pages come out of the loop already in order, so the sort leaves them unchanged |
| Pagination.EntriesFollowPages | app.js:154-168 | under the gap and active rules, each button is determined by the page sequence and the current page |
| Pagination.LayoutDetermined | app.js:141-178 | only one bar meets the layout description for a given result count, page size and current page |
| Pagination.CurrentPagePlanned | app.js:192-201 | the current page gets a button if and only if it is a page that exists, or it equals a page count of zero |
| Pagination.OneActiveButton | app.js:166 | at most one button is active, and one is active if and only if the current page gets a button |
| Pagination.DisplayPagination | app.js:141-178 | « appears if and only if `currentPage > 1`; » appears if and only if `currentPage < totalPages`; the buttons follow the plan; a gap precedes button `i` if and only if `intervals[i] - intervals[i-1] > 1`; exactly the button equal to the current page is active |
| Query.NormalizeIsbn | app.js:103 | the normalised ISBN is no longer than the input and holds only digits, `X` and `x`; NormalizeIsbnKeepsIsbnChars characterises it fully |
| Query.NormalizeIsbnKeepsIsbnChars | app.js:103 | normalisation keeps only digits, `X` and `x`, keeps every copy of them in their original order, and is idempotent |
| Query.BuildRequest | app.js:98-115 | the request is refused if and only if the field is ISBN and the normalised trimmed query has neither 10 nor 13 characters; otherwise the limit is the page size, the offset is `(currentPage-1)*resultsPerPage` (non-negative for page >= 1), an ISBN search sends the normalised ISBN, and other searches send the query |
| Query.IsbnRequestRoundTrip | app.js:102-108 | building a request from the ISBN a request carries gives the same request |
| Query.NormalizedIsbnIsStable | app.js:103 | a normalised ISBN has nothing left to trim or delete |
| Query.RequestsTileResults | app.js:99-100 | refusal does not depend on the page; consecutive pages request adjacent slices; page 1 starts at offset 0 |
| Query.LastPageHoldsLastResult | app.js:99-100 | the request for the last page starts inside the results and reaches their end |
| Query.SeparatorDropped | app.js:103 | a hyphen, space or other non-ISBN character between two parts is removed, and each part is normalised separately |
| Query.CheckDigitKept | app.js:103 | a trailing `X` or `x` survives normalisation |
| Query.ShortIsbnRefused | app.js:104-106 | a three-digit ISBN query is refused |
| JsStrings.Trim | app.js:23 | the trimmed string neither starts nor ends with whitespace |
| JsStrings.TrimIsSlice | app.js:23 | trimming cuts out a contiguous slice, and everything removed is whitespace |
| JsStrings.TrimEmptyIffBlank | app.js:23-26 | the trimmed query is empty if and only if the input is all whitespace |
| JsStrings.TrimKeepsUnpadded | app.js:103 | a string with no whitespace at either end is unchanged by trimming |
| JsStrings.TrimIdempotent | app.js:23 | for every string, trimming twice is the same as trimming once |
| JsStrings.Includes | app.js:80 | `includes` only holds for a fragment no longer than the string, and always holds for the empty fragment; IncludesIffOccurs characterises it fully |
| JsStrings.IncludesIffOccurs | app.js:80 | `includes` holds if and only if the fragment occurs at some position |
| Seqs.FilterIsSubsequence | app.js:78-81 | filtering only deletes elements and keeps the rest in order |
| Seqs.FilterKeepsEveryMatch | app.js:78-81 | filtering keeps every copy of every element that passes the test |
| Seqs.FilterIdempotent | app.js:78-81 | filtering twice with the same test gives the same result as filtering once |
| Seqs.FilterConcat | app.js:103 | filtering a concatenation is the same as filtering each part |
| Catalog.HasIsbnContaining | app.js:79-80 | a book matches only if it has an `isbn` list with an entry at least as long as the fragment, so a book without the `isbn` field never matches |
| Catalog.FilteredByIsbn | app.js:78-81 | the filtered list is no longer than the cache and every book in it matches; FilteredByIsbnKeepsMatches characterises it fully |
| Catalog.FilteredByIsbnKeepsMatches | app.js:78-81 | the filtered list is an order-preserving subsequence of the cache; every kept book has an ISBN list with an entry containing the fragment; every matching book is kept with all its copies |
| Catalog.FilteredByIsbnIdempotent | app.js:78-81 | filtering the filtered books again by the same fragment changes nothing |
| Catalog.EmptyFragmentKeepsBooksWithIsbn | app.js:79-80 | the empty fragment keeps exactly the books that list at least one ISBN |
| Search.Session.constructor | app.js:7-11 | the page starts on page 1, with an empty query, the title field, an empty cache and both areas blank |
| Search.Session.Resize | app.js:14-16 | only the page size changes |
| Search.Session.FetchAndDisplay | app.js:40-69 | the request is the one built from the current state (none if refused); what is shown follows `Displays`: a refused ISBN or a failed call only shows a message and keeps the cache and the bar; empty `docs` clears the bar; otherwise the docs are cached and shown with the bar for `numFound` |
| Search.Session.Submit | app.js:18-38 | the page becomes 1 and the query becomes the trimmed input; blank input asks for a search term, sends no request and clears the bar; otherwise the page-1 request is made and its outcome shown over a cleared bar |
| Search.Session.Prev | app.js:146-149 | « as written: the page drops by one from its value at click time, and the request for that page is made |
| Search.Session.PrevGuarded | app.js:145-149 | « as evidently intended: it only steps back from a page above 1, so the page stays at least 1 and any request has a non-negative offset |
| Search.Session.Next | app.js:171-175 | » raises the page by one and makes the request for that page |
| Search.Session.GoToPage | app.js:162-165 | a numbered button sets the page it was drawn for and makes that request |
| Search.Session.FilterByIsbn | app.js:71-90 | with an empty cache it searches again; otherwise it sends no request, leaves the cache as it is, and shows either a no-match message with a cleared bar, or the filtered books with the bar for their count |
| Search.DisplaysDetermined | app.js:48-64 | the outcome of a request fixes the cache, the results area and the pagination area |
| Search.StalePrevReachesPageZero | app.js:146-149 | after a failed request leaves « in place, two clicks from page 2 reach page 0 and request offset -10 |
| Search.GuardedPrevStaysOnFirstPage | app.js:145-149 | with the guarded «, the same clicks stop at page 1 and the second sends no request |

## Left out

- The network call, JSON parsing and timing: the outcome of a call (a response with `docs` and `numFound`, an HTTP error, or an exception) is a parameter. A handler that sends no request ignores it.
- Overlapping requests: the model runs each handler to completion before the next event.
- HTML rendering (`displayResults`, cover URLs, author lists, button elements) and `console` logging: the results area is modelled as the message or the list of books it shows.
- The URL text and `encodeURIComponent`: a request is a descriptor of its parameters.
- `calculateResultsPerPage`: it depends on the window height. The page size is a parameter, and every handler requires it to be at least 1. The source can compute 0 or less in a short window; that case is not modelled.
- The "loading" message and the "no previous results" message: the same handler always overwrites them.
- The three identical branches of the submit handler (app.js:31-37) are modelled as one call.
- An exception thrown while rendering after `previousResults` was assigned: in the source the `catch` shows the generic message and keeps the new cache. The model only raises exceptions from the call itself.
- Pagination.SortNumeric: it models `Array.prototype.sort` as a function on a sequence, not an in-place sort on the array.
- JavaScript strings are sequences of UTF-16 code units; the model's strings are sequences of Unicode scalar values. Lone surrogates and code-unit lengths of text outside the Basic Multilingual Plane are not modelled. No modelled decision depends on this: the whitespace set of `trim` lies in that plane, and a normalised ISBN is ASCII.
- Numbers are unbounded integers. JavaScript doubles and their rounding for very large page counts are not modelled.

## Findings

| source | as written | input that shows it | evidently intended | confidence | as-written member | corrected member |
|---|---|---|---|---|---|---|
| app.js:146-148 | « decrements `currentPage` from its value at click time. A failed request (app.js:48-51, 65-67) leaves the bar, and its «, in place. | Search "dune" with 30 results at 10 per page. Click ». Then click « twice, with both requests answered 503. The page becomes 0 and the request asks for offset -10. | « only steps back while the page is above 1, so the page never drops below 1 and the offset never below 0. | medium, not executed | Search.Session.Prev, Search.StalePrevReachesPageZero | Search.Session.PrevGuarded, Search.GuardedPrevStaysOnFirstPage |
