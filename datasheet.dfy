/** The state the `DataSheet` component of src/dataSheet.tsx keeps and the handlers that
    change it: the sort toggle, the column-criterion map, the debounced search term,
    the page size and the previous/next page buttons. The working array
    (`csvData.content`) is held here too; `original` is the frozen `originalArray`. */
module DataSheetView {
  import opened Table
  import opened Criteria
  import opened Sorting
  import opened Pipeline

  /** The sizes the rows-per-page selector offers. */
  predicate IsPageSize(n: int) {
    n == 10 || n == 25 || n == 50 || n == 100
  }

  /** The sort column and mode the component stores (`sortCol`, `sortMode`). */
  datatype SortState = SortState(col: Option<int>, mode: SortMode)

  /** The state before any click: no column, mode null. */
  const Unsorted0 := SortState(None, Unsorted)

  /** `newMode` of `handleSortClick`: on the sorted column "asc" goes to "desc", "desc"
      to "original" and anything else to "asc"; any other column starts at "asc". */
  function NextMode(s: SortState, col: int): (m: SortMode)
    ensures s.col != Some(col) ==> m == Asc
    ensures s.col == Some(col) && s.mode == Asc ==> m == Desc
    ensures s.col == Some(col) && s.mode == Desc ==> m == Original
    ensures s.col == Some(col) && s.mode != Asc && s.mode != Desc ==> m == Asc
  {
    if s.col == Some(col) then
      (if s.mode == Asc then Desc else if s.mode == Desc then Original else Asc)
    else Asc
  }

  /** The state stored after a click: "original" is stored as no column and mode null. */
  function AfterClick(s: SortState, col: int): SortState {
    var m := NextMode(s, col);
    if m == Original then Unsorted0 else SortState(Some(col), m)
  }

  /** The states a sequence of clicks can reach from `Unsorted0`. */
  predicate IsStoredSort(s: SortState) {
    (s.col == None <==> s.mode == Unsorted) && (s.mode == Unsorted || s.mode == Asc || s.mode == Desc)
  }

  /** Stored states stay of that shape; a click never stores "original". */
  lemma AfterClickStored(s: SortState, col: int)
    ensures IsStoredSort(AfterClick(s, col))
    ensures AfterClick(s, col).mode != Original
  {
  }

  /** Three clicks on one column from any unsorted state run asc, desc and back to unsorted,
      so the fourth click is "asc" again. */
  lemma ClickCycle(col: int)
    ensures AfterClick(Unsorted0, col) == SortState(Some(col), Asc)
    ensures AfterClick(AfterClick(Unsorted0, col), col) == SortState(Some(col), Desc)
    ensures AfterClick(AfterClick(AfterClick(Unsorted0, col), col), col) == Unsorted0
  {
  }

  /** A click on column `col` when another column (or none) is sorted starts at "asc". */
  lemma OtherColumnStartsAscending(s: SortState, col: int)
    requires s.col != Some(col)
    ensures AfterClick(s, col) == SortState(Some(col), Asc)
  {
  }

  /** `handleSortClick`'s new array: the header of `original` followed by its body sorted
      afresh for a non-"original" mode, or an exact copy of `original`. */
  ghost predicate RebuiltFrom(original: seq<Row>, rows: seq<Row>, col: int, mode: SortMode, env: Env)
    requires |original| > 0
  {
    if mode == Asc || mode == Desc then
      |rows| > 0 && rows[0] == original[0] &&
      multiset(rows[1..]) == multiset(original[1..]) && Sorted(rows[1..], col, mode, env)
    else
      rows == original
  }

  /** The array `handleSortClick` builds: the header row of `original` on top of a freshly
      sorted copy of its body, or `original` itself for "original" and null. */
  method Rebuild(original: seq<Row>, col: int, mode: SortMode, env: Env) returns (rows: seq<Row>)
    requires |original| > 0 && SignAntisymmetric(env.localeCompare)
    ensures RebuiltFrom(original, rows, col, mode, env)
  {
    if mode != Original && mode != Unsorted {
      var sorted := SortRows(original[1..], col, mode, env);
      rows := [original[0]] + sorted;
      assert rows[1..] == sorted;
    } else {
      rows := original;
    }
  }

  class DataSheet {
    /** `originalArray`: the deep copy taken when the component mounts. */
    const original: seq<Row>
    /** The host behaviour the comparator uses. */
    const env: Env
    /** `applyFilter(row, colIndex, criteria)`, which is not part of this model. */
    const applyFilter: (Row, int, Criterion) -> bool

    /** `csvData.content.array` and `csvData.content.json`. */
    var rows: seq<Row>
    var json: seq<Record>
    var page: int
    var rowsPerPage: int
    var sortCol: Option<int>
    var sortMode: SortMode
    var debouncedSearch: string
    var columnFilters: map<int, Criterion>

    /** `cleanedBody`: the body of the working array without fully-empty rows. */
    function CleanedBody(): seq<Row>
      reads this
    {
      DataCleaner(if |rows| == 0 then [] else rows[1..])
    }

    /** `filteredBody`. */
    function Filtered(): seq<Row>
      reads this
    {
      FilteredBody(CleanedBody(), debouncedSearch, columnFilters, applyFilter)
    }

    /** `totalPages`. */
    function PageCount(): nat
      reads this
      requires rowsPerPage > 0
    {
      TotalPages(|Filtered()|, rowsPerPage)
    }

    /** The page is between 1 and the page count (page 1 when nothing is left to show). */
    predicate PageInRange()
      reads this
    {
      rowsPerPage > 0 && 1 <= page <= (if PageCount() == 0 then 1 else PageCount())
    }

    /** The sheet is non-empty, the collation is sign-antisymmetric, the page size is one
        the selector offers, and the working array
        is the one the stored sort state rebuilds from `original`. */
    ghost predicate Valid()
      reads this
    {
      && |original| > 0 && |rows| > 0
      && SignAntisymmetric(env.localeCompare)
      && IsPageSize(rowsPerPage)
      && IsStoredSort(SortState(sortCol, sortMode))
      && RebuiltFrom(original, rows, if sortCol.Some? then sortCol.value else 0, sortMode, env)
    }

    /** The component as it mounts over the loaded sheet: page 1 of 10 rows, unsorted,
        no search and no criteria; `originalArray` is a copy of the array. */
    constructor (sheet: seq<Row>, sheetJson: seq<Record>, env: Env, applyFilter: (Row, int, Criterion) -> bool)
      requires |sheet| > 0
      requires SignAntisymmetric(env.localeCompare)
      ensures Valid() && PageInRange()
      ensures original == sheet && rows == sheet && json == sheetJson
      ensures this.env == env && this.applyFilter == applyFilter
      ensures page == 1 && rowsPerPage == 10
      ensures sortCol == None && sortMode == Unsorted
      ensures debouncedSearch == "" && columnFilters == map[]
    {
      original := sheet;
      this.env := env;
      this.applyFilter := applyFilter;
      rows := sheet;
      json := sheetJson;
      page := 1;
      rowsPerPage := 10;
      sortCol := None;
      sortMode := Unsorted;
      debouncedSearch := "";
      columnFilters := map[];
    }

    /** The rows shown on the current page: the window `[(page-1)*n, page*n)` of the filtered rows. */
    function VisibleRows(): (r: seq<Row>)
      reads this
      requires PageInRange()
      ensures IsPageOf(r, Filtered(), page, rowsPerPage)
    {
      PageContents(Filtered(), page, rowsPerPage);
      PageRows(Filtered(), page, rowsPerPage)
    }

    /** `handleSortClick(colIndex)`. */
    method SortClick(col: int)
      requires Valid()
      modifies this
      ensures Valid() && PageInRange()
      ensures SortState(sortCol, sortMode) == AfterClick(old(SortState(sortCol, sortMode)), col)
      ensures RebuiltFrom(original, rows, col, NextMode(old(SortState(sortCol, sortMode)), col), env)
      ensures json == ArrayToJson(rows[0], rows[1..])
      ensures page == 1
      ensures rowsPerPage == old(rowsPerPage) && debouncedSearch == old(debouncedSearch)
      ensures columnFilters == old(columnFilters)
    {
      var newMode := NextMode(SortState(sortCol, sortMode), col);
      var newArray := Rebuild(original, col, newMode, env);
      var newJson := ArrayToJson(newArray[0], newArray[1..]);
      sortCol, sortMode := if newMode == Original then None else Some(col), if newMode == Original then Unsorted else newMode;
      rows, json, page := newArray, newJson, 1;
    }

    /** `handleFilterChange(colIndex)(criteria)`, followed by the page reset that a change
        of `columnFilters` triggers: a removal deletes the column's key, anything else
        stores the criterion under it. */
    method FilterChange(col: int, criteria: Criterion)
      requires Valid()
      modifies this
      ensures Valid() && PageInRange()
      ensures IsCleared(criteria) ==> columnFilters == old(columnFilters) - {col}
      ensures !IsCleared(criteria) ==> columnFilters == old(columnFilters)[col := criteria]
      ensures forall k :: k != col ==>
        (k in columnFilters <==> k in old(columnFilters)) &&
        (k in columnFilters ==> columnFilters[k] == old(columnFilters)[k])
      ensures page == 1
      ensures rows == old(rows) && json == old(json) && sortCol == old(sortCol) && sortMode == old(sortMode)
      ensures rowsPerPage == old(rowsPerPage) && debouncedSearch == old(debouncedSearch)
    {
      if IsCleared(criteria) {
        columnFilters := columnFilters - {col};
      } else {
        columnFilters := columnFilters[col := criteria];
      }
      page := 1;
    }

    /** `isColumnFiltered(colIndex)`: agrees with the activity test the filtering uses. */
    function IsColumnFiltered(col: int): (r: bool)
      reads this
      ensures r <==> col in ActiveColumns(columnFilters)
    {
      if col !in columnFilters then false
      else
        var c := columnFilters[col];
        c.kind == "empty" || c.kind == "not empty" ||
        (c.value != NoValue && match c.value { case Many(xs) => |xs| > 0 case Single(t) => |t| > 0 case NoValue => false })
    }

    /** The debounced search term settling on `term`; the page returns to 1 when it changed. */
    method SearchSettled(term: string)
      requires Valid() && PageInRange()
      modifies this
      ensures Valid() && PageInRange()
      ensures debouncedSearch == term
      ensures page == if term != old(debouncedSearch) then 1 else old(page)
      ensures rows == old(rows) && json == old(json) && sortCol == old(sortCol) && sortMode == old(sortMode)
      ensures rowsPerPage == old(rowsPerPage) && columnFilters == old(columnFilters)
    {
      if term != debouncedSearch {
        debouncedSearch, page := term, 1;
      }
    }

    /** The rows-per-page selector: a new size and page 1. */
    method SetRowsPerPage(n: int)
      requires Valid() && IsPageSize(n)
      modifies this
      ensures Valid() && PageInRange()
      ensures rowsPerPage == n && page == 1
      ensures rows == old(rows) && json == old(json) && sortCol == old(sortCol) && sortMode == old(sortMode)
      ensures debouncedSearch == old(debouncedSearch) && columnFilters == old(columnFilters)
    {
      rowsPerPage := n;
      page := 1;
    }

    /** The "Previous" button: disabled on page 1, otherwise `max(1, page - 1)`. */
    method PreviousPage()
      requires Valid() && PageInRange()
      modifies this`page
      ensures Valid() && PageInRange()
      ensures page == if old(page) == 1 then 1 else old(page) - 1
    {
      if page != 1 {
        page := if page - 1 < 1 then 1 else page - 1;
      }
    }

    /** The "Next" button: disabled when `page >= totalPages`, otherwise `min(totalPages, page + 1)`. */
    method NextPage()
      requires Valid() && PageInRange()
      modifies this`page
      ensures Valid() && PageInRange()
      ensures page == if old(page) < PageCount() then old(page) + 1 else old(page)
    {
      var total := PageCount();
      if !(page >= total) {
        page := if total < page + 1 then total else page + 1;
      }
    }
  }
}
