/** The pagination window planner of the search page: how many pages the
    results span, which page numbers get a button, where "..." gaps go,
    whether the « and » controls appear and which button is active. */
module Pagination {

  /** How many consecutive page buttons the window around the current page
      holds at most (`maxVisiblePages`). */
  const MaxVisiblePages: int := 4

  function Max(a: int, b: int): int { if a >= b then a else b }

  function Min(a: int, b: int): int { if a <= b then a else b }

  /** `Math.ceil(totalResults / resultsPerPage)`: the fewest pages of
      `resultsPerPage` results that hold `totalResults` results. */
  function TotalPages(totalResults: nat, resultsPerPage: int): (pages: nat)
    requires resultsPerPage >= 1
    ensures totalResults <= pages * resultsPerPage
    ensures pages == 0 || (pages - 1) * resultsPerPage < totalResults
  {
    (totalResults + resultsPerPage - 1) / resultsPerPage
  }

  ghost predicate Ascending(s: seq<int>) {
    forall i, j :: 0 <= i < j < |s| ==> s[i] <= s[j]
  }

  ghost predicate StrictlyAscending(s: seq<int>) {
    forall i, j :: 0 <= i < j < |s| ==> s[i] < s[j]
  }

  /** Inserts `x` into the ascending sequence `s` in front of the first
      element not below it. */
  function Insert(x: int, s: seq<int>): (r: seq<int>)
    requires Ascending(s)
    ensures Ascending(r) && multiset(r) == multiset(s) + multiset{x}
  {
    if s == [] || x <= s[0] then [x] + s
    else
      var rest := Insert(x, s[1..]);
      InsertBehindHead(x, s, rest);
      [s[0]] + rest
  }

  lemma InsertBehindHead(x: int, s: seq<int>, rest: seq<int>)
    requires Ascending(s) && s != [] && s[0] < x
    requires Ascending(rest) && multiset(rest) == multiset(s[1..]) + multiset{x}
    ensures Ascending([s[0]] + rest)
    ensures multiset([s[0]] + rest) == multiset(s) + multiset{x}
  {
    assert s == [s[0]] + s[1..];
    forall k | 0 <= k < |rest| ensures s[0] <= rest[k] {
      assert rest[k] in multiset(rest);
      if rest[k] != x {
        assert rest[k] in multiset(s[1..]);
        var m :| 0 <= m < |s[1..]| && s[1..][m] == rest[k];
        assert s[m + 1] == rest[k];
      }
    }
    var r := [s[0]] + rest;
    forall i, j | 0 <= i < j < |r| ensures r[i] <= r[j] {
      if i > 0 {
        assert r[i] == rest[i - 1] && r[j] == rest[j - 1];
      } else {
        assert r[j] == rest[j - 1];
      }
    }
  }

  /** `array.sort((a, b) => a - b)` on an array of numbers: the elements of
      `s` rearranged into ascending order. */
  function SortNumeric(s: seq<int>): (r: seq<int>)
    ensures Ascending(r) && multiset(r) == multiset(s)
  {
    if s == [] then []
    else
      assert s == [s[0]] + s[1..];
      Insert(s[0], SortNumeric(s[1..]))
  }

  /** Sorting a sequence that is already in order leaves it as it is. */
  lemma {:induction false} SortNumericKeepsSorted(s: seq<int>)
    requires Ascending(s)
    ensures SortNumeric(s) == s
  {
    if s != [] {
      SortNumericKeepsSorted(s[1..]);
      assert s == [s[0]] + s[1..];
    }
  }

  /** The integers `lo`, `lo + 1`, ..., `hi`; empty when `lo > hi`. */
  function Range(lo: int, hi: int): (r: seq<int>)
    ensures |r| == if lo <= hi then hi - lo + 1 else 0
    ensures forall i :: 0 <= i < |r| ==> r[i] == lo + i
    decreases hi - lo + 1
  {
    if lo > hi then []
    else
      Range(lo, hi - 1) + [hi]
  }

  /** `Range(lo, hi)` holds exactly the integers from `lo` to `hi`. */
  lemma RangeMembers(lo: int, hi: int)
    ensures forall x :: x in Range(lo, hi) <==> lo <= x <= hi
  {
    var r := Range(lo, hi);
    forall x | lo <= x <= hi ensures x in r {
      assert r[x - lo] == x;
    }
  }

  /** First page of the window: two before the current page, but never
      below page 2. */
  function WindowStart(currentPage: int): int {
    Max(2, currentPage - MaxVisiblePages / 2)
  }

  /** Last page of the window: at most `MaxVisiblePages` pages from its start,
      and never the last page itself. */
  function WindowEnd(totalPages: int, currentPage: int): int {
    Min(totalPages - 1, WindowStart(currentPage) + MaxVisiblePages - 1)
  }

  /** Whether page `p` gets a button: the first page when there are at least
      two, the last page, and every page of the window. */
  predicate InPlan(p: int, totalPages: nat, currentPage: int) {
    (totalPages > 1 && p == 1) || p == totalPages
    || WindowStart(currentPage) <= p <= WindowEnd(totalPages, currentPage)
  }

  /** `s` lists, without repetition and in ascending order, exactly the pages
      that get a button. */
  ghost predicate IsPlan(s: seq<int>, totalPages: nat, currentPage: int) {
    StrictlyAscending(s) && forall p :: p in s <==> InPlan(p, totalPages, currentPage)
  }

  /** Reference definition of the planned pages, written out in closed form. */
  function Plan(totalPages: nat, currentPage: int): seq<int> {
    if totalPages <= 1 then [totalPages]
    else [1] + Range(WindowStart(currentPage), WindowEnd(totalPages, currentPage)) + [totalPages]
  }

  lemma PlanIsPlan(totalPages: nat, currentPage: int)
    ensures IsPlan(Plan(totalPages, currentPage), totalPages, currentPage)
  {
    if totalPages > 1 {
      var lo, hi := WindowStart(currentPage), WindowEnd(totalPages, currentPage);
      var w := Range(lo, hi);
      var s := [1] + w + [totalPages];
      RangeMembers(lo, hi);
      assert forall i :: 0 <= i < |s| ==> s[i] == if i == 0 then 1 else if i <= |w| then lo + i - 1 else totalPages;
    }
  }

  /** In a strictly ascending sequence the tail holds every element but the
      first. The body is a hint that keeps the proof fast and stable. */
  lemma TailElements(s: seq<int>)
    requires StrictlyAscending(s) && s != []
    ensures forall x :: x in s[1..] <==> x in s && x != s[0]
  {
    forall x ensures x in s[1..] <==> x in s && x != s[0] {
      if x in s && x != s[0] {
        var k :| 0 <= k < |s| && s[k] == x;
        assert s[1..][k - 1] == x;
      }
    }
  }

  /** A non-empty sequence holds its first element. Stated as a lemma rather
      than an assertion so that it can be used where `s` is empty without
      checking anything under contradictory facts. */
  lemma FirstIsElement(s: seq<int>)
    ensures s == [] || s[0] in s
  {
  }

  /** Two strictly ascending sequences with the same elements are equal. */
  lemma {:induction false} AscendingDeterminedByElements(s: seq<int>, t: seq<int>)
    requires StrictlyAscending(s) && StrictlyAscending(t)
    requires forall x :: x in s <==> x in t
    ensures s == t
  {
    if s == [] {
      FirstIsElement(t);
    } else {
      assert s[0] in s;
      assert s[0] in t && t[0] in s;
      assert s[0] == t[0];
      TailElements(s);
      TailElements(t);
      AscendingDeterminedByElements(s[1..], t[1..]);
      assert s == [s[0]] + s[1..] && t == [t[0]] + t[1..];
    }
  }

  /** The planner's output is pinned down by its description: a sequence is a
      plan exactly when it is the closed form. */
  lemma PlanCharacterised(s: seq<int>, totalPages: nat, currentPage: int)
    ensures IsPlan(s, totalPages, currentPage) <==> s == Plan(totalPages, currentPage)
  {
    PlanIsPlan(totalPages, currentPage);
    if IsPlan(s, totalPages, currentPage) {
      AscendingDeterminedByElements(s, Plan(totalPages, currentPage));
    }
  }

  /** What a plan looks like: it ends on the last page and starts on page 1
      when there are two pages or more; a single page gives `[1]`; with at
      least one page every entry is a page that exists; entries other than
      the first and last page lie in the window; there are at most
      `MaxVisiblePages + 2` of them; and the current page is among them
      whenever it exists. */
  lemma PlanShape(s: seq<int>, totalPages: nat, currentPage: int)
    requires IsPlan(s, totalPages, currentPage)
    ensures totalPages in s && s[|s| - 1] == totalPages
    ensures totalPages > 1 ==> s[0] == 1
    ensures totalPages <= 1 ==> s == [totalPages]
    ensures totalPages >= 1 ==> forall p :: p in s ==> 1 <= p <= totalPages
    ensures forall p :: p in s && p != 1 && p != totalPages ==>
      Max(2, currentPage - 2) <= p <= Min(totalPages - 1, WindowStart(currentPage) + 3)
    ensures |s| <= MaxVisiblePages + 2
    ensures 1 <= currentPage <= totalPages ==> currentPage in s
  {
    PlanCharacterised(s, totalPages, currentPage);
  }

  /** `calculateIntervals`: pushes page 1 when there are at least two pages,
      then every window page not yet present, then the last page if not yet
      present, and sorts the array numerically. */
  method CalculateIntervals(totalPages: nat, currentPage: int) returns (intervals: seq<int>)
    ensures IsPlan(intervals, totalPages, currentPage)
  {
    var pushed: seq<int> := [];
    if totalPages > 1 {
      pushed := pushed + [1];
    }
    ghost var first := pushed;
    var start := Max(2, currentPage - MaxVisiblePages / 2);
    var end := Min(totalPages - 1, start + MaxVisiblePages - 1);
    var i := start;
    while i <= end
      invariant start <= i <= Max(start, end + 1)
      invariant pushed == first + Range(start, i - 1)
    {
      WindowStep(first, start, i);
      if i !in pushed {
        pushed := pushed + [i];
      }
      i := i + 1;
    }
    LastPageStep(totalPages, currentPage, i);
    if totalPages !in pushed {
      pushed := pushed + [totalPages];
    }
    assert pushed == Plan(totalPages, currentPage);
    SortingKeepsPlan(totalPages, currentPage);
    intervals := SortNumeric(pushed);
  }

  /** One pass of the window loop: page `i` is not yet present, and pushing
      it extends the window by one page. The body is a hint that keeps the
      proof fast and stable. */
  lemma WindowStep(first: seq<int>, start: int, i: int)
    requires first == [] || first == [1]
    requires 2 <= start <= i
    ensures i !in first + Range(start, i - 1)
    ensures first + Range(start, i - 1) + [i] == first + Range(start, i)
  {
    RangeMembers(start, i - 1);
  }

  /** After the window loop the last page is not yet present, and pushing it
      gives the reference plan. The body is a hint that keeps the proof fast
      and stable. */
  lemma LastPageStep(totalPages: nat, currentPage: int, i: int)
    requires var start := WindowStart(currentPage);
      start <= i <= Max(start, WindowEnd(totalPages, currentPage) + 1)
      && !(i <= WindowEnd(totalPages, currentPage))
    ensures var pushed := (if totalPages > 1 then [1] else []) + Range(WindowStart(currentPage), i - 1);
      totalPages !in pushed && pushed + [totalPages] == Plan(totalPages, currentPage)
  {
    assert Range(WindowStart(currentPage), i - 1) == Range(WindowStart(currentPage), WindowEnd(totalPages, currentPage));
    RangeMembers(WindowStart(currentPage), i - 1);
  }

  /** The pages come out of the loop already in order, so the final sort
      leaves them as they are. */
  lemma SortingKeepsPlan(totalPages: nat, currentPage: int)
    ensures var plan := Plan(totalPages, currentPage);
      SortNumeric(plan) == plan && IsPlan(plan, totalPages, currentPage)
  {
    PlanIsPlan(totalPages, currentPage);
    SortNumericKeepsSorted(Plan(totalPages, currentPage));
  }

  /** One numbered button: the page it leads to, whether a "..." gap is shown
      in front of it, and whether it carries the active mark. */
  datatype PageEntry = PageEntry(dotsBefore: bool, page: int, active: bool)

  /** The pagination bar: an optional « control, the numbered buttons with
      their gaps, and an optional » control. */
  datatype Layout = Layout(prev: bool, entries: seq<PageEntry>, next: bool)

  function PagesOf(entries: seq<PageEntry>): (pages: seq<int>)
    ensures |pages| == |entries|
    ensures forall i :: 0 <= i < |entries| ==> pages[i] == entries[i].page
  {
    seq(|entries|, i requires 0 <= i < |entries| => entries[i].page)
  }

  /** The bar shown for `totalResults` results, `resultsPerPage` to a page,
      seen from `currentPage`: « exactly when there is an earlier page, »
      exactly when there is a later one, the planned pages in order, a gap
      in front of a button exactly when it does not follow its predecessor
      directly, and the active mark on exactly the current page. */
  ghost predicate IsLayout(layout: Layout, totalResults: nat, resultsPerPage: int, currentPage: int)
    requires resultsPerPage >= 1
  {
    var totalPages := TotalPages(totalResults, resultsPerPage);
    && layout.prev == (currentPage > 1)
    && layout.next == (currentPage < totalPages)
    && IsPlan(PagesOf(layout.entries), totalPages, currentPage)
    && Marked(layout.entries, currentPage)
  }

  /** A gap in front of a button exactly when it does not follow its
      predecessor directly, and the active mark on exactly the current page. */
  ghost predicate Marked(entries: seq<PageEntry>, currentPage: int) {
    && (forall i :: 0 <= i < |entries| ==>
          entries[i].dotsBefore == (i > 0 && entries[i].page - entries[i - 1].page > 1))
    && (forall i :: 0 <= i < |entries| ==> entries[i].active == (entries[i].page == currentPage))
  }

  /** The button at position `i` for the planned pages `intervals`. */
  function EntryAt(intervals: seq<int>, i: nat, currentPage: int): PageEntry
    requires i < |intervals|
  {
    PageEntry(i > 0 && intervals[i] - intervals[i - 1] > 1, intervals[i], intervals[i] == currentPage)
  }

  /** Under the gap and active rules every button is determined by the
      sequence of pages. */
  lemma EntriesFollowPages(entries: seq<PageEntry>, currentPage: int)
    requires Marked(entries, currentPage)
    ensures forall i :: 0 <= i < |entries| ==> entries[i] == EntryAt(PagesOf(entries), i, currentPage)
  {
    var pages := PagesOf(entries);
    forall i | 0 <= i < |entries| ensures entries[i] == EntryAt(pages, i, currentPage) {
      if i == 0 {
        assert !entries[i].dotsBefore;
      } else {
        assert entries[i].dotsBefore == (entries[i].page - entries[i - 1].page > 1);
        assert pages[i] - pages[i - 1] == entries[i].page - entries[i - 1].page;
      }
    }
  }

  /** Only one bar fits the description. */
  lemma LayoutDetermined(a: Layout, b: Layout, totalResults: nat, resultsPerPage: int, currentPage: int)
    requires resultsPerPage >= 1
    requires IsLayout(a, totalResults, resultsPerPage, currentPage)
    requires IsLayout(b, totalResults, resultsPerPage, currentPage)
    ensures a == b
  {
    var totalPages := TotalPages(totalResults, resultsPerPage);
    PlanCharacterised(PagesOf(a.entries), totalPages, currentPage);
    PlanCharacterised(PagesOf(b.entries), totalPages, currentPage);
    assert a.entries == b.entries by {
      var pages := PagesOf(a.entries);
      assert pages == PagesOf(b.entries);
      EntriesFollowPages(a.entries, currentPage);
      EntriesFollowPages(b.entries, currentPage);
    }
  }

  /** The current page gets a button exactly when it is a page that exists,
      or when it equals a page count of zero. */
  lemma CurrentPagePlanned(totalPages: nat, currentPage: int)
    ensures InPlan(currentPage, totalPages, currentPage)
      <==> (1 <= currentPage <= totalPages || currentPage == totalPages)
  {
  }

  /** At most one button carries the active mark, and one does exactly
      when the current page gets a button. */
  lemma OneActiveButton(layout: Layout, totalResults: nat, resultsPerPage: int, currentPage: int)
    requires resultsPerPage >= 1
    requires IsLayout(layout, totalResults, resultsPerPage, currentPage)
    ensures var totalPages := TotalPages(totalResults, resultsPerPage);
      (exists i :: 0 <= i < |layout.entries| && layout.entries[i].active)
      <==> (1 <= currentPage <= totalPages || currentPage == totalPages)
    ensures forall i, j ::
      (0 <= i < |layout.entries| && 0 <= j < |layout.entries|
       && layout.entries[i].active && layout.entries[j].active) ==> i == j
  {
    var totalPages := TotalPages(totalResults, resultsPerPage);
    var entries, pages := layout.entries, PagesOf(layout.entries);
    assert IsPlan(pages, totalPages, currentPage) && Marked(entries, currentPage);
    CurrentPagePlanned(totalPages, currentPage);
    assert (exists i :: 0 <= i < |entries| && entries[i].active) <==> currentPage in pages by {
      if currentPage in pages {
        var i :| 0 <= i < |pages| && pages[i] == currentPage;
        assert entries[i].active;
      }
    }
    forall i, j | 0 <= i < |entries| && 0 <= j < |entries| && entries[i].active && entries[j].active
      ensures i == j
    {
      assert pages[i] == pages[j];
    }
  }

  /** The decisions of `displayPagination`: the page count, the « control,
      the buttons of `calculateIntervals` with a gap in front of each one
      that skips pages, the active mark, and the » control. */
  method DisplayPagination(totalResults: nat, resultsPerPage: int, currentPage: int) returns (layout: Layout)
    requires resultsPerPage >= 1
    ensures IsLayout(layout, totalResults, resultsPerPage, currentPage)
  {
    var totalPages := TotalPages(totalResults, resultsPerPage);
    var prev := currentPage > 1;
    var intervals := CalculateIntervals(totalPages, currentPage);
    var entries: seq<PageEntry> := [];
    for index := 0 to |intervals|
      invariant |entries| == index
      invariant forall i :: 0 <= i < index ==> entries[i] == EntryAt(intervals, i, currentPage)
    {
      var page := intervals[index];
      var dots := index > 0 && page - intervals[index - 1] > 1;
      assert PageEntry(dots, page, page == currentPage) == EntryAt(intervals, index, currentPage);
      entries := entries + [PageEntry(dots, page, page == currentPage)];
    }
    assert PagesOf(entries) == intervals;
    layout := Layout(prev, entries, currentPage < totalPages);
  }
}
