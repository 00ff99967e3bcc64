/** The station table page (src/pages/StationsPage.tsx): the search filter,
    the page window, the Previous/Next buttons, the "Showing a - b of n" line
    and the Active/Offline tiles, plus the component's three state cells. */
module StationsPage {
  import opened Types
  import opened Seqs
  import opened Text

  function Min(a: int, b: int): int {
    if a <= b then a else b
  }

  // ---------------------------------------------------------------------
  // Search

  /** The search test: the lower-cased name or the lower-cased id contains
      the lower-cased term. */
  predicate Matches(st: Station, term: string) {
    Includes(Lower(st.name), Lower(term)) || Includes(Lower(st.id), Lower(term))
  }

  /** `filteredStations`: exactly the stations that match, in their order. */
  function FilteredStations(stations: seq<Station>, term: string): (r: seq<Station>)
    ensures |r| <= |stations|
    ensures forall i :: 0 <= i < |r| ==> r[i] in stations && Matches(r[i], term)
    ensures forall i :: 0 <= i < |stations| && Matches(stations[i], term) ==> stations[i] in r
  {
    Filter(stations, st => Matches(st, term))
  }

  /** The filter keeps order: the matches of a prefix all come before the
      matches of the rest. */
  lemma FilteredStationsAppend(a: seq<Station>, b: seq<Station>, term: string)
    ensures FilteredStations(a + b, term) == FilteredStations(a, term) + FilteredStations(b, term)
  {
    FilterAppend(a, b, st => Matches(st, term));
  }

  /** An empty search box shows every station. */
  lemma FilteredStationsEmptyTerm(stations: seq<Station>)
    ensures FilteredStations(stations, "") == stations
  {
    forall i | 0 <= i < |stations|
      ensures Matches(stations[i], "")
    {
      IncludesEmpty(Lower(stations[i].name));
    }
    FilterAll(stations, st => Matches(st, ""));
  }

  /** Two terms that differ only in the case of their letters select the
      same stations. */
  lemma FilteredStationsIgnoreCase(stations: seq<Station>, t1: string, t2: string)
    requires Lower(t1) == Lower(t2)
    ensures FilteredStations(stations, t1) == FilteredStations(stations, t2)
  {
    FilterCongruent(stations, st => Matches(st, t1), st => Matches(st, t2));
  }

  /** In particular, typing the term in lower case changes nothing. */
  lemma FilteredStationsLowerTerm(stations: seq<Station>, term: string)
    ensures FilteredStations(stations, Lower(term)) == FilteredStations(stations, term)
  {
    LowerIdempotent(term);
    FilteredStationsIgnoreCase(stations, Lower(term), term);
  }

  // ---------------------------------------------------------------------
  // The page window

  /** `Array.prototype.slice(from, to)` for non-negative bounds: both bounds
      are clamped to the length and an empty range gives []. */
  function Slice<T>(s: seq<T>, from: nat, to: nat): (r: seq<T>)
    ensures from <= to ==> |r| == Min(to, |s|) - Min(from, |s|)
    ensures forall k :: 0 <= k < |r| ==> from + k < |s| && r[k] == s[from + k]
  {
    var lo := Min(from, |s|);
    var hi := Min(to, |s|);
    if lo < hi then s[lo..hi] else []
  }

  /** Index of the first row of a page. */
  function PageStart(page: nat, rowsPerPage: nat): nat {
    page * rowsPerPage
  }

  /** `paginatedStations`: the contiguous window of the filtered list that
      starts at `page * rowsPerPage` and holds at most `rowsPerPage` rows;
      it is empty exactly when the start is at or past the end. */
  function PaginatedStations(filtered: seq<Station>, page: nat, rowsPerPage: nat): (r: seq<Station>)
    ensures |r| <= rowsPerPage
    ensures r == [] <==> rowsPerPage == 0 || |filtered| <= PageStart(page, rowsPerPage)
    ensures PageStart(page, rowsPerPage) <= |filtered| ==>
              |r| == Min(rowsPerPage, |filtered| - PageStart(page, rowsPerPage))
    ensures forall k :: 0 <= k < |r| ==>
              PageStart(page, rowsPerPage) + k < |filtered| && r[k] == filtered[PageStart(page, rowsPerPage) + k]
  {
    var start := PageStart(page, rowsPerPage);
    Slice(filtered, start, start + rowsPerPage)
  }

  /** Every filtered station is shown on some page: row `i` of the list is
      row `i % rowsPerPage` of page `i / rowsPerPage`. */
  lemma PageOfIndex(filtered: seq<Station>, rowsPerPage: nat, i: nat)
    requires rowsPerPage > 0 && i < |filtered|
    ensures i % rowsPerPage < |PaginatedStations(filtered, i / rowsPerPage, rowsPerPage)|
    ensures PaginatedStations(filtered, i / rowsPerPage, rowsPerPage)[i % rowsPerPage] == filtered[i]
  {
    var page, k := i / rowsPerPage, i % rowsPerPage;
    assert PageStart(page, rowsPerPage) + k == i;
  }

  // ---------------------------------------------------------------------
  // Previous / Next

  /** `Math.ceil(n / rowsPerPage)`, the number of pages. */
  function PageCount(n: nat, rowsPerPage: nat): (c: nat)
    requires rowsPerPage > 0
    ensures n <= c * rowsPerPage
    ensures c > 0 ==> (c - 1) * rowsPerPage < n
  {
    var c := (n + rowsPerPage - 1) / rowsPerPage;
    assert c * rowsPerPage + (n + rowsPerPage - 1) % rowsPerPage == n + rowsPerPage - 1;
    c
  }

  /** The index of the last page; -1 when there is nothing to show. */
  function LastPage(n: nat, rowsPerPage: nat): int
    requires rowsPerPage > 0
  {
    PageCount(n, rowsPerPage) - 1
  }

  /** The Previous button is disabled exactly when clicking it would not
      move the page. */
  predicate PreviousDisabled(page: nat): (r: bool)
    ensures r <==> PreviousTarget(page) == page
  {
    page == 0
  }

  /** `Math.max(page - 1, 0)`: one page back, never below page 0. */
  function PreviousTarget(page: nat): (r: nat)
    ensures page > 0 ==> r + 1 == page
    ensures page == 0 ==> r == 0
  {
    if page - 1 > 0 then page - 1 else 0
  }

  /** The Next button is disabled exactly when clicking it would not move
      the page forward. */
  predicate NextDisabled(page: nat, n: nat, rowsPerPage: nat): (r: bool)
    requires rowsPerPage > 0
    ensures r <==> NextTarget(page, n, rowsPerPage) <= page
  {
    page >= LastPage(n, rowsPerPage)
  }

  /** `Math.min(page + 1, ceil(n / rowsPerPage) - 1)`: one page on, never
      past the last page. */
  function NextTarget(page: nat, n: nat, rowsPerPage: nat): (r: int)
    requires rowsPerPage > 0
    ensures r <= page + 1
    ensures r <= LastPage(n, rowsPerPage)
  {
    Min(page + 1, LastPage(n, rowsPerPage))
  }

  /** Next is enabled exactly when the following page has rows, and then it
      moves forward by one page. */
  lemma NextEnabledIffNextPageHasRows(filtered: seq<Station>, page: nat, rowsPerPage: nat)
    requires rowsPerPage > 0
    ensures !NextDisabled(page, |filtered|, rowsPerPage) <==> PaginatedStations(filtered, page + 1, rowsPerPage) != []
    ensures !NextDisabled(page, |filtered|, rowsPerPage) ==> NextTarget(page, |filtered|, rowsPerPage) == page + 1
  {
    var c := PageCount(|filtered|, rowsPerPage);
    var next := PaginatedStations(filtered, page + 1, rowsPerPage);
    if page + 1 < c {
      MulMonotonic(page + 1, c - 1, rowsPerPage);
      assert next != [];
    } else {
      MulMonotonic(c, page + 1, rowsPerPage);
      assert next == [];
    }
  }

  lemma MulMonotonic(a: nat, b: nat, k: nat)
    requires a <= b
    ensures a * k <= b * k
  {
    assert b * k == a * k + (b - a) * k;
  }

  /** With no matching stations Next is always disabled. */
  lemma NextDisabledWhenEmpty(page: nat, rowsPerPage: nat)
    requires rowsPerPage > 0
    ensures NextDisabled(page, 0, rowsPerPage)
  {
    assert PageCount(0, rowsPerPage) == 0;
  }

  // ---------------------------------------------------------------------
  // "Showing a - b of n"

  /** `page * rowsPerPage + 1`: the lower end of the range, never below 1. */
  function ShowingFrom(page: nat, rowsPerPage: nat): (r: int)
    ensures r >= 1
  {
    PageStart(page, rowsPerPage) + 1
  }

  /** On a page with rows, the lower end of "Showing" is the 1-based
      position of the page's first row in the filtered list. */
  lemma ShowingFromIsFirstRow(filtered: seq<Station>, page: nat, rowsPerPage: nat)
    requires PaginatedStations(filtered, page, rowsPerPage) != []
    ensures ShowingFrom(page, rowsPerPage) <= |filtered|
    ensures PaginatedStations(filtered, page, rowsPerPage)[0] == filtered[ShowingFrom(page, rowsPerPage) - 1]
  {
  }

  /** `Math.min((page + 1) * rowsPerPage, n)`. */
  function ShowingTo(page: nat, rowsPerPage: nat, n: nat): (r: nat)
    ensures r <= n
  {
    Min((page + 1) * rowsPerPage, n)
  }

  /** The range names the visible rows by their 1-based positions: it holds
      as many numbers as the page holds rows; past the end of the list it
      is inverted ("Showing 1 - 0 of 0"). */
  lemma ShowingMatchesPage(filtered: seq<Station>, page: nat, rowsPerPage: nat)
    ensures PageStart(page, rowsPerPage) <= |filtered| ==>
              ShowingTo(page, rowsPerPage, |filtered|) - ShowingFrom(page, rowsPerPage) + 1
                == |PaginatedStations(filtered, page, rowsPerPage)|
    ensures |filtered| <= PageStart(page, rowsPerPage) ==>
              ShowingTo(page, rowsPerPage, |filtered|) < ShowingFrom(page, rowsPerPage)
  {
    assert (page + 1) * rowsPerPage == PageStart(page, rowsPerPage) + rowsPerPage;
  }

  // ---------------------------------------------------------------------
  // Active / Offline tiles

  /** A station counts as active when its `lastUpdate` is truthy. */
  predicate IsActive(st: Station) {
    Truthy(st.lastUpdate)
  }

  /** The Active tile: the number of stations with a truthy `lastUpdate`;
      zero exactly when no station has one. */
  function ActiveCount(stations: seq<Station>): (r: nat)
    ensures r <= |stations|
    ensures r == 0 <==> forall i :: 0 <= i < |stations| ==> !IsActive(stations[i])
  {
    var kept := Filter(stations, st => IsActive(st));
    assert forall i :: 0 <= i < |stations| && IsActive(stations[i]) ==> stations[i] in kept;
    assert |kept| > 0 ==> IsActive(kept[0]) && exists i :: 0 <= i < |stations| && stations[i] == kept[0];
    |kept|
  }

  /** The Offline tile: the number of stations without a truthy
      `lastUpdate`; zero exactly when every station has one. */
  function OfflineCount(stations: seq<Station>): (r: nat)
    ensures r <= |stations|
    ensures r == 0 <==> forall i :: 0 <= i < |stations| ==> IsActive(stations[i])
  {
    var kept := Filter(stations, st => !IsActive(st));
    assert forall i :: 0 <= i < |stations| && !IsActive(stations[i]) ==> stations[i] in kept;
    assert |kept| > 0 ==> !IsActive(kept[0]) && exists i :: 0 <= i < |stations| && stations[i] == kept[0];
    |kept|
  }

  /** The Active and Offline tiles add up to the Total tile. */
  lemma ActiveOfflinePartition(stations: seq<Station>)
    ensures ActiveCount(stations) + OfflineCount(stations) == |stations|
  {
    FilterPartition(stations, st => IsActive(st), st => !IsActive(st));
  }

  /** Stations without a truthy `lastUpdate` are all counted offline. */
  lemma NoneActive(stations: seq<Station>)
    requires forall i :: 0 <= i < |stations| ==> !Truthy(stations[i].lastUpdate)
    ensures ActiveCount(stations) == 0
    ensures OfflineCount(stations) == |stations|
  {
    FilterNone(stations, st => IsActive(st));
    ActiveOfflinePartition(stations);
  }

  // ---------------------------------------------------------------------
  // The component's state

  /** The choices of the rows-per-page selector. */
  const RowsPerPageOptions: seq<nat> := [5, 10, 25, 50]

  /** The state cells `page`, `rowsPerPage` and `searchTerm`; the station
      list itself is a prop and is passed to the members that need it. */
  class StationsTable {
    var page: nat
    var rowsPerPage: nat
    var searchTerm: string

    ghost predicate Valid()
      reads this
    {
      rowsPerPage in RowsPerPageOptions
    }

    constructor ()
      ensures Valid()
      ensures page == 0 && rowsPerPage == 10 && searchTerm == ""
    {
      page, rowsPerPage, searchTerm := 0, 10, "";
    }

    /** The table body: the current page of the matching stations. When it
        is empty the table shows "No stations found.". */
    function Visible(stations: seq<Station>): (r: seq<Station>)
      requires Valid()
      reads this
      ensures |r| <= rowsPerPage
      ensures forall i :: 0 <= i < |r| ==> r[i] in stations && Matches(r[i], searchTerm)
      ensures r == [] <==> |FilteredStations(stations, searchTerm)| <= page * rowsPerPage
    {
      var r := PaginatedStations(FilteredStations(stations, searchTerm), page, rowsPerPage);
      assert forall i :: 0 <= i < |r| ==> r[i] in FilteredStations(stations, searchTerm);
      r
    }

    /** `handleChangePage`. */
    method HandleChangePage(newPage: nat)
      modifies this
      ensures page == newPage
      ensures rowsPerPage == old(rowsPerPage) && searchTerm == old(searchTerm)
    {
      page := newPage;
    }

    /** `handleChangeRowsPerPage`: a new page size always returns to page 0. */
    method HandleChangeRowsPerPage(rows: nat)
      requires rows in RowsPerPageOptions
      modifies this
      ensures Valid()
      ensures rowsPerPage == rows && page == 0
      ensures searchTerm == old(searchTerm)
    {
      rowsPerPage := rows;
      page := 0;
    }

    /** Typing in the search box: only the term changes, the page stays. */
    method ChangeSearchTerm(term: string)
      modifies this
      ensures searchTerm == term
      ensures page == old(page) && rowsPerPage == old(rowsPerPage)
    {
      searchTerm := term;
    }

    /** The Previous button: disabled on page 0, otherwise one page back. */
    method ClickPrevious()
      modifies this
      ensures old(page) == 0 ==> page == 0
      ensures old(page) > 0 ==> page == old(page) - 1
      ensures rowsPerPage == old(rowsPerPage) && searchTerm == old(searchTerm)
    {
      if !PreviousDisabled(page) {
        HandleChangePage(PreviousTarget(page));
      }
    }

    /** The Next button: disabled on or past the last page (and whenever
        nothing matches); otherwise one page on, to a page that has rows. */
    method ClickNext(stations: seq<Station>)
      requires Valid()
      modifies this
      ensures Valid()
      ensures rowsPerPage == old(rowsPerPage) && searchTerm == old(searchTerm)
      ensures NextDisabled(old(page), |FilteredStations(stations, searchTerm)|, rowsPerPage) ==> page == old(page)
      ensures !NextDisabled(old(page), |FilteredStations(stations, searchTerm)|, rowsPerPage) ==>
                page == old(page) + 1 &&
                page <= LastPage(|FilteredStations(stations, searchTerm)|, rowsPerPage) &&
                Visible(stations) != []
    {
      var filtered := FilteredStations(stations, searchTerm);
      if !NextDisabled(page, |filtered|, rowsPerPage) {
        NextEnabledIffNextPageHasRows(filtered, page, rowsPerPage);
        HandleChangePage(NextTarget(page, |filtered|, rowsPerPage));
      }
    }
  }
}
