/**
 * The pager under the display table: a page number kept across reruns,
 * stepped by the Previous and Next buttons, and the slice of rows it shows.
 */
module Pagination {
  import opened Options

  /** `math.ceil(total_rows / page_size)`. */
  function TotalPages(totalRows: nat, pageSize: nat): (r: nat)
    requires pageSize > 0
    ensures totalRows <= r * pageSize
    ensures r == 0 || (r - 1) * pageSize < totalRows
  {
    (totalRows + pageSize - 1) / pageSize
  }

  /** The only `ceil` there is: fewer pages would not hold the rows, more would leave a page empty. */
  lemma TotalPagesUnique(totalRows: nat, pageSize: nat, pages: nat)
    requires pageSize > 0
    requires totalRows <= pages * pageSize && (pages == 0 || (pages - 1) * pageSize < totalRows)
    ensures pages == TotalPages(totalRows, pageSize)
  {
    var r := TotalPages(totalRows, pageSize);
    if pages < r {
      MulMonotone(pages, r - 1, pageSize);
    } else if pages > r {
      MulMonotone(r, pages - 1, pageSize);
    }
  }

  lemma MulMonotone(a: nat, b: nat, c: nat)
    requires a <= b
    ensures a * c <= b * c
  {
  }

  /** `df_for_display.iloc[start_idx:end_idx]`: past the end, iloc gives fewer rows or none. */
  function PageSlice<T>(rows: seq<T>, pageNumber: nat, pageSize: nat): (r: seq<T>)
    ensures |r| <= pageSize
    ensures pageNumber * pageSize <= |rows| ==> |r| == if |rows| - pageNumber * pageSize < pageSize then |rows| - pageNumber * pageSize else pageSize
    ensures pageNumber * pageSize >= |rows| ==> r == []
    ensures forall k :: 0 <= k < |r| ==> pageNumber * pageSize + k < |rows| && r[k] == rows[pageNumber * pageSize + k]
  {
    var start := pageNumber * pageSize;
    if start >= |rows| then []
    else if start + pageSize <= |rows| then rows[start..start + pageSize]
    else rows[start..]
  }

  /** Every page below `TotalPages` shows at least one row. */
  lemma PageInRangeNonEmpty<T>(rows: seq<T>, pageNumber: nat, pageSize: nat)
    requires pageSize > 0 && pageNumber < TotalPages(|rows|, pageSize)
    ensures PageSlice(rows, pageNumber, pageSize) != []
  {
    var pages := TotalPages(|rows|, pageSize);
    assert pageNumber <= pages - 1;
    assert pageNumber * pageSize <= (pages - 1) * pageSize;
  }

  /** The Previous handler: steps back only from a page above the first. */
  function AfterPrevious(pageNumber: nat): (r: nat)
    ensures pageNumber > 0 ==> r == pageNumber - 1
    ensures pageNumber == 0 ==> r == 0
  {
    if pageNumber > 0 then pageNumber - 1 else pageNumber
  }

  /** The Next handler: steps forward only while there is a later page. */
  function AfterNext(pageNumber: nat, totalPages: nat): (r: nat)
    ensures pageNumber + 1 < totalPages ==> r == pageNumber + 1
    ensures pageNumber + 1 >= totalPages ==> r == pageNumber
  {
    if pageNumber < totalPages - 1 then pageNumber + 1 else pageNumber
  }

  /** The buttons only move within range: a page number below `totalPages` stays below it. */
  lemma StepsStayInRange(pageNumber: nat, totalPages: nat)
    requires pageNumber < totalPages
    ensures AfterPrevious(pageNumber) < totalPages
    ensures AfterNext(pageNumber, totalPages) < totalPages
  {
  }

  /** Which button, if any, triggered this rerun. */
  datatype Click = NoClick | PreviousClicked | NextClicked

  class Pager {
    /** `st.session_state.page_number`. */
    var pageNumber: nat

    /** The first run of the session. */
    constructor()
      ensures pageNumber == 0
    {
      pageNumber := 0;
    }

    method Previous()
      modifies this
      ensures pageNumber == AfterPrevious(old(pageNumber))
    {
      if pageNumber > 0 {
        pageNumber := pageNumber - 1;
      }
    }

    method Next(totalPages: nat)
      modifies this
      ensures pageNumber == AfterNext(old(pageNumber), totalPages)
    {
      if pageNumber < totalPages - 1 {
        pageNumber := pageNumber + 1;
      }
    }

    /**
     * One rerun of the pagination block as written: nothing is paged and the
     * cursor stays put when there are no rows; otherwise the click is applied
     * and the page at the (possibly stale) cursor is shown.
     */
    method Show<T>(rows: seq<T>, pageSize: nat, click: Click) returns (page: Option<seq<T>>)
      requires pageSize > 0
      modifies this
      ensures rows == [] ==> page == None && pageNumber == old(pageNumber)
      ensures rows != [] ==> pageNumber == Step(old(pageNumber), TotalPages(|rows|, pageSize), click)
      ensures rows != [] ==> page == Some(PageSlice(rows, pageNumber, pageSize))
    {
      var totalPages := TotalPages(|rows|, pageSize);
      if |rows| > 0 {
        if click == PreviousClicked {
          Previous();
        } else if click == NextClicked {
          Next(totalPages);
        }
        page := Some(PageSlice(rows, pageNumber, pageSize));
      } else {
        page := None;
      }
    }

    /**
     * The pagination block with the cursor first brought back onto the last
     * page when the table has shrunk below it; every non-empty table then
     * shows a non-empty page.
     */
    method ShowClamped<T>(rows: seq<T>, pageSize: nat, click: Click) returns (page: Option<seq<T>>)
      requires pageSize > 0
      modifies this
      ensures rows == [] ==> page == None && pageNumber == old(pageNumber)
      ensures rows != [] ==> pageNumber == Step(Clamp(old(pageNumber), TotalPages(|rows|, pageSize)), TotalPages(|rows|, pageSize), click)
      ensures rows != [] ==> pageNumber < TotalPages(|rows|, pageSize)
      ensures rows != [] ==> page == Some(PageSlice(rows, pageNumber, pageSize)) && page.value != []
    {
      var totalPages := TotalPages(|rows|, pageSize);
      if |rows| > 0 {
        pageNumber := Clamp(pageNumber, totalPages);
        if click == PreviousClicked {
          Previous();
        } else if click == NextClicked {
          Next(totalPages);
        }
        StepsStayInRange(Clamp(old(pageNumber), totalPages), totalPages);
        PageInRangeNonEmpty(rows, pageNumber, pageSize);
        page := Some(PageSlice(rows, pageNumber, pageSize));
      } else {
        page := None;
      }
    }
  }

  /** The page number after one click. */
  function Step(pageNumber: nat, totalPages: nat, click: Click): (r: nat)
    ensures click == NoClick ==> r == pageNumber
    ensures click == PreviousClicked ==> r == AfterPrevious(pageNumber)
    ensures click == NextClicked ==> r == AfterNext(pageNumber, totalPages)
    ensures pageNumber < totalPages ==> r < totalPages
  {
    match click
    case NoClick => pageNumber
    case PreviousClicked => AfterPrevious(pageNumber)
    case NextClicked => AfterNext(pageNumber, totalPages)
  }

  /** The cursor moved back onto the last page when it has run past it. */
  function Clamp(pageNumber: nat, totalPages: nat): (r: nat)
    requires totalPages > 0
    ensures pageNumber < totalPages ==> r == pageNumber
    ensures pageNumber >= totalPages ==> r == totalPages - 1
  {
    if pageNumber < totalPages then pageNumber else totalPages - 1
  }

  /**
   * As written, a cursor left on page 4 by an earlier, larger table stays
   * there when a filter shrinks the table to five rows: Next cannot move it,
   * and the page shown is empty though there are rows to show.
   */
  lemma StaleCursorShowsEmptyPage()
    ensures var rows := [1, 2, 3, 4, 5];
      && TotalPages(|rows|, 20) == 1
      && Step(3, TotalPages(|rows|, 20), NoClick) == 3
      && Step(3, TotalPages(|rows|, 20), NextClicked) == 3
      && PageSlice(rows, 3, 20) == []
  {
  }
}
