/** The derived views of src/dataSheet.tsx: the cleaned body, the searched and
    filtered body, the page slice, the page count and the JSON projection.
    All of them are pure functions of the working array and the view state. */
module Pipeline {
  import opened Table
  import opened Seqs
  import opened Criteria

  // ---------------------------------------------------------------------------
  // Cleaning

  /** A cell that counts as empty: null or the empty string. */
  predicate IsBlank(c: Cell) {
    c == Null || c == Str("")
  }

  /** The test of `dataCleaner`: some cell of the row is neither null nor the empty string. */
  predicate HasContent(row: Row) {
    exists k :: 0 <= k < |row| && !IsBlank(row[k])
  }

  /** `dataCleaner`: drops the rows all of whose cells are empty. */
  function DataCleaner(data: seq<Row>): (r: seq<Row>)
    ensures IsSubsequence(r, data)
    ensures forall row :: row in r ==> HasContent(row)
    ensures forall row :: row in data && HasContent(row) ==> row in r
  {
    FilterIsSubsequence(data, HasContent);
    Filter(data, HasContent)
  }

  /** Cleaning keeps every occurrence of a row with content and no occurrence of an empty one. */
  lemma DataCleanerMultiplicity(data: seq<Row>, row: Row)
    ensures multiset(DataCleaner(data))[row] == if HasContent(row) then multiset(data)[row] else 0
  {
    FilterMultiplicity(data, HasContent, row);
  }

  // ---------------------------------------------------------------------------
  // Global search

  /** Some non-null cell of the row, stringified and lowercased, contains `lower`. */
  predicate MatchesSearch(row: Row, lower: string) {
    exists k :: 0 <= k < |row| && row[k] != Null && Contains(Lower(Text(row[k])), lower)
  }

  /** Step 1 of `filteredBody`: an empty term keeps every row; otherwise a row stays
      when one of its non-null cells contains the term, ignoring case. */
  function Search(body: seq<Row>, term: string): (r: seq<Row>)
    ensures term == "" ==> r == body
    ensures IsSubsequence(r, body)
    ensures term != "" ==> forall row :: row in r <==> row in body && MatchesSearch(row, Lower(term))
  {
    if term == "" then
      SubsequenceReflexive(body);
      body
    else
      var lower := Lower(term);
      var keep := (row: Row) => MatchesSearch(row, lower);
      FilterIsSubsequence(body, keep);
      Filter(body, keep)
  }

  /** The search keeps every occurrence of a matching row and none of a row that does not match. */
  lemma SearchMultiplicity(body: seq<Row>, term: string, row: Row)
    ensures multiset(Search(body, term))[row] ==
      if term == "" || MatchesSearch(row, Lower(term)) then multiset(body)[row] else 0
  {
    if term != "" {
      var lower := Lower(term);
      FilterMultiplicity(body, (row: Row) => MatchesSearch(row, lower), row);
    }
  }

  // ---------------------------------------------------------------------------
  // Column criteria

  /** The columns whose stored criterion is active (`filterCols`). */
  function ActiveColumns(filters: map<int, Criterion>): set<int> {
    set k | k in filters && IsActive(filters[k])
  }

  /** The row passes `applyFilter` for every column whose stored criterion is active. */
  predicate PassesCriteria(row: Row, filters: map<int, Criterion>, applyFilter: (Row, int, Criterion) -> bool) {
    forall k :: k in filters && IsActive(filters[k]) ==> applyFilter(row, k, filters[k])
  }

  /** Step 2 of `filteredBody`: when some criterion is active, keep the rows that pass all of them. */
  function ApplyCriteria(body: seq<Row>, filters: map<int, Criterion>, applyFilter: (Row, int, Criterion) -> bool): (r: seq<Row>)
    ensures IsSubsequence(r, body)
    ensures forall row :: row in r <==> row in body && PassesCriteria(row, filters, applyFilter)
  {
    if ActiveColumns(filters) != {} then
      var keep := (row: Row) => PassesCriteria(row, filters, applyFilter);
      FilterIsSubsequence(body, keep);
      Filter(body, keep)
    else
      forall k | k in filters ensures !IsActive(filters[k]) {
        assert k !in ActiveColumns(filters);
      }
      SubsequenceReflexive(body);
      body
  }

  /** The criteria keep every occurrence of a row that passes them all and none of any other row. */
  lemma ApplyCriteriaMultiplicity(body: seq<Row>, filters: map<int, Criterion>,
                                  applyFilter: (Row, int, Criterion) -> bool, row: Row)
    ensures multiset(ApplyCriteria(body, filters, applyFilter))[row] ==
      if PassesCriteria(row, filters, applyFilter) then multiset(body)[row] else 0
  {
    if ActiveColumns(filters) != {} {
      FilterMultiplicity(body, (row: Row) => PassesCriteria(row, filters, applyFilter), row);
    } else {
      forall k | k in filters ensures !IsActive(filters[k]) {
        assert k !in ActiveColumns(filters);
      }
    }
  }

  /** `filteredBody`: the search, then the column criteria, over the cleaned body. */
  function FilteredBody(cleaned: seq<Row>, term: string, filters: map<int, Criterion>,
                        applyFilter: (Row, int, Criterion) -> bool): (r: seq<Row>)
    ensures IsSubsequence(r, cleaned)
    ensures term == "" ==> forall row :: row in r <==> row in cleaned && PassesCriteria(row, filters, applyFilter)
    ensures term != "" ==> forall row :: row in r <==>
      row in cleaned && MatchesSearch(row, Lower(term)) && PassesCriteria(row, filters, applyFilter)
  {
    var searched := Search(cleaned, term);
    var r := ApplyCriteria(searched, filters, applyFilter);
    SubsequenceTransitive(r, searched, cleaned);
    r
  }

  /** `filteredBody` holds each row of the cleaned body as often as the cleaned body does when
      it matches the search (or there is none) and passes every active criterion, and otherwise not at all. */
  lemma FilteredBodyMultiplicity(cleaned: seq<Row>, term: string, filters: map<int, Criterion>,
                                 applyFilter: (Row, int, Criterion) -> bool, row: Row)
    ensures multiset(FilteredBody(cleaned, term, filters, applyFilter))[row] ==
      if (term == "" || MatchesSearch(row, Lower(term))) && PassesCriteria(row, filters, applyFilter)
      then multiset(cleaned)[row] else 0
  {
    SearchMultiplicity(cleaned, term, row);
    ApplyCriteriaMultiplicity(Search(cleaned, term), filters, applyFilter, row);
  }

  /** Dropping a column's criterion never hides a row that was shown: the result
      with fewer criteria contains the result with more, in order. */
  lemma RemovingCriterionWidens(cleaned: seq<Row>, term: string, filters: map<int, Criterion>,
                                applyFilter: (Row, int, Criterion) -> bool, col: int)
    ensures IsSubsequence(FilteredBody(cleaned, term, filters, applyFilter),
                          FilteredBody(cleaned, term, filters - {col}, applyFilter))
  {
    var searched := Search(cleaned, term);
    var strong := (row: Row) => PassesCriteria(row, filters, applyFilter);
    var weak := (row: Row) => PassesCriteria(row, filters - {col}, applyFilter);
    forall row | strong(row) ensures weak(row) {
      forall k | k in filters - {col} && IsActive((filters - {col})[k])
        ensures applyFilter(row, k, (filters - {col})[k])
      {
        assert k in filters && IsActive(filters[k]);
      }
    }
    var a := ApplyCriteria(searched, filters, applyFilter);
    var b := ApplyCriteria(searched, filters - {col}, applyFilter);
    if ActiveColumns(filters - {col}) != {} {
      assert ActiveColumns(filters - {col}) <= ActiveColumns(filters);
      FilterMonotone(searched, strong, weak);
    } else if ActiveColumns(filters) != {} {
      FilterIsSubsequence(searched, strong);
    } else {
      SubsequenceReflexive(a);
    }
  }

  // ---------------------------------------------------------------------------
  // Pagination

  /** The position `Array.prototype.slice` resolves an index to: negative counts from the end. */
  function SliceIndex(len: nat, i: int): (r: nat)
    ensures r <= len
  {
    if i < 0 then (if len + i < 0 then 0 else len + i) else (if i <= len then i else len)
  }

  /** `s.slice(start, end)`. */
  function JsSlice<T>(s: seq<T>, start: int, end: int): seq<T> {
    var from, to := SliceIndex(|s|, start), SliceIndex(|s|, end);
    if from < to then s[from..to] else []
  }

  /** `paginatedRows`: the slice of the filtered rows from `(page - 1) * rowsPerPage` up to
      `page * rowsPerPage`. */
  function PageRows<T>(filtered: seq<T>, page: int, rowsPerPage: int): seq<T> {
    JsSlice(filtered, (page - 1) * rowsPerPage, page * rowsPerPage)
  }

  function Min(a: int, b: int): int {
    if a <= b then a else b
  }

  /** `Math.ceil(totalRows / rowsPerPage)`: the fewest pages of `rowsPerPage` rows that hold `total` rows. */
  function TotalPages(total: nat, rowsPerPage: int): (r: nat)
    requires rowsPerPage > 0
    ensures r * rowsPerPage >= total
    ensures r > 0 ==> (r - 1) * rowsPerPage < total
    ensures r == 0 <==> total == 0
  {
    var q := (total + rowsPerPage - 1) / rowsPerPage;
    assert total + rowsPerPage - 1 == q * rowsPerPage + (total + rowsPerPage - 1) % rowsPerPage;
    assert (q - 1) * rowsPerPage == q * rowsPerPage - rowsPerPage;
    q
  }

  /** Page `p` (1-based) holds the rows from `(p-1)*n` up to `p*n`, cut at the end of the list. */
  lemma PageIsWindow<T>(s: seq<T>, p: int, n: int)
    requires p >= 1 && n > 0
    ensures (p - 1) * n <= |s| ==> PageRows(s, p, n) == s[(p - 1) * n..Min(p * n, |s|)]
    ensures (p - 1) * n >= |s| ==> PageRows(s, p, n) == []
  {
    assert p * n == (p - 1) * n + n;
    assert (p - 1) * n >= 0;
  }

  /** A page number between 1 and the page count (1 when there are no rows) starts
      inside the rows, so its page is not cut off before its start. */
  lemma PageStartInRange(total: nat, p: int, n: int)
    requires n > 0
    requires 1 <= p <= (if TotalPages(total, n) == 0 then 1 else TotalPages(total, n))
    ensures (p - 1) * n <= total
    ensures total > 0 ==> (p - 1) * n < total
  {
    var t := TotalPages(total, n);
    if t > 0 {
      assert (p - 1) * n <= (t - 1) * n;
    }
  }

  /** `r` is page `p` of `s` at `n` rows per page: the up to `n` rows that follow the
      `(p-1)*n` rows of the earlier pages. */
  predicate IsPageOf<T(==)>(r: seq<T>, s: seq<T>, p: int, n: int) {
    && 0 <= (p - 1) * n <= |s|
    && |r| == Min(n, |s| - (p - 1) * n)
    && forall i :: 0 <= i < |r| ==> r[i] == s[(p - 1) * n + i]
  }

  /** A page number in range selects exactly its window of rows. */
  lemma PageContents<T>(s: seq<T>, p: int, n: int)
    requires n > 0
    requires 1 <= p <= (if TotalPages(|s|, n) == 0 then 1 else TotalPages(|s|, n))
    ensures IsPageOf(PageRows(s, p, n), s, p, n)
  {
    PageStartInRange(|s|, p, n);
    var a := (p - 1) * n;
    assert p * n == a + n;
    SliceWindow(s, a, a + n);
  }

  /** Slicing from a start inside the list to an end past the start. */
  lemma SliceWindow<T>(s: seq<T>, a: int, b: int)
    requires 0 <= a <= |s| && a <= b
    ensures |JsSlice(s, a, b)| == Min(b - a, |s| - a)
    ensures forall i :: 0 <= i < |JsSlice(s, a, b)| ==> JsSlice(s, a, b)[i] == s[a + i]
  {
  }

  /** The concatenation of pages 1..k. */
  function Pages<T>(s: seq<T>, n: int, k: nat): seq<T> {
    if k == 0 then [] else Pages(s, n, k - 1) + PageRows(s, k, n)
  }

  lemma {:induction false} PagesArePrefix<T>(s: seq<T>, n: int, k: nat)
    requires n > 0
    ensures Pages(s, n, k) == s[..Min(k * n, |s|)]
  {
    if k > 0 {
      PagesArePrefix(s, n, k - 1);
      PageIsWindow(s, k, n);
      assert (k - 1) * n >= 0;
      if (k - 1) * n <= |s| {
        assert s[..Min((k - 1) * n, |s|)] + s[(k - 1) * n..Min(k * n, |s|)] == s[..Min(k * n, |s|)];
      } else {
        assert k * n >= (k - 1) * n;
      }
    }
  }

  /** Pages 1..totalPages, put end to end, give back exactly the filtered rows. */
  lemma PagesCoverAll<T>(s: seq<T>, n: int)
    requires n > 0
    ensures Pages(s, n, TotalPages(|s|, n)) == s
  {
    PagesArePrefix(s, n, TotalPages(|s|, n));
  }

  // ---------------------------------------------------------------------------
  // JSON projection

  /** What `row[i]` yields: a cell, or `undefined` past the end of a short row. */
  datatype Slot = Undefined | Value(cell: Cell)

  function SlotAt(row: Row, i: int): (v: Slot)
    ensures v.Value? <==> 0 <= i < |row|
    ensures v.Value? ==> v.cell == row[i]
  {
    if 0 <= i < |row| then Value(row[i]) else Undefined
  }

  /** One record of `arrayToJson`: header cell names mapped to what the row holds there. */
  type Record = map<string, Slot>

  /** The one name under which an assignment to a fresh object literal does not create a
      property: it reaches the `__proto__` accessor of `Object.prototype` instead. */
  const ProtoKey: string := "__proto__"

  /** The accessor is still reachable after the first `n` columns: no earlier `__proto__`
      column assigned null, which would have set the object's prototype to null. Assigning
      a string, a number or `undefined` through the accessor changes nothing. */
  predicate SetterLive(header: Row, row: Row, n: int)
    requires 0 <= n <= |header|
  {
    forall j :: 0 <= j < n ==> !(Text(header[j]) == ProtoKey && SlotAt(row, j) == Value(Null))
  }

  /** The assignment of column `i` creates or overwrites an own key of the record. */
  predicate CreatesKey(header: Row, row: Row, i: int)
    requires 0 <= i < |header|
  {
    !(Text(header[i]) == ProtoKey && SetterLive(header, row, i))
  }

  /** The reduce of `arrayToJson` over the first `n` header cells: each column in turn
      assigns the row's slot under its name, as the record's own keys. */
  function RecordPrefix(header: Row, row: Row, n: nat): Record
    requires n <= |header|
  {
    if n == 0 then map[]
    else if CreatesKey(header, row, n - 1) then
      RecordPrefix(header, row, n - 1)[Text(header[n - 1]) := SlotAt(row, n - 1)]
    else RecordPrefix(header, row, n - 1)
  }

  /** The header cell at `i` is the last one carrying its name. */
  predicate LastWithName(header: Row, i: int)
    requires 0 <= i < |header|
  {
    forall j :: i < j < |header| ==> Text(header[j]) != Text(header[i])
  }

  lemma {:induction false} RecordPrefixKeys(header: Row, row: Row, n: nat)
    requires n <= |header|
    ensures RecordPrefix(header, row, n).Keys == set i | 0 <= i < n && CreatesKey(header, row, i) :: Text(header[i])
  {
    if n > 0 {
      RecordPrefixKeys(header, row, n - 1);
      var prev := set i | 0 <= i < n - 1 && CreatesKey(header, row, i) :: Text(header[i]);
      if CreatesKey(header, row, n - 1) {
        assert (set i | 0 <= i < n && CreatesKey(header, row, i) :: Text(header[i])) == prev + {Text(header[n - 1])};
      } else {
        assert (set i | 0 <= i < n && CreatesKey(header, row, i) :: Text(header[i])) == prev;
      }
    }
  }

  lemma {:induction false} RecordPrefixValue(header: Row, row: Row, n: nat, i: int)
    requires 0 <= i < n <= |header| && CreatesKey(header, row, i)
    requires forall j :: i < j < n ==> Text(header[j]) != Text(header[i])
    ensures Text(header[i]) in RecordPrefix(header, row, n)
    ensures RecordPrefix(header, row, n)[Text(header[i])] == SlotAt(row, i)
  {
    if i < n - 1 {
      RecordPrefixValue(header, row, n - 1, i);
    }
  }

  /** The record built for one row. */
  function RecordOf(header: Row, row: Row): Record {
    RecordPrefix(header, row, |header|)
  }

  /** The names of the columns whose assignment creates an own key. */
  function OwnKeys(header: Row, row: Row): set<string> {
    set i | 0 <= i < |header| && CreatesKey(header, row, i) :: Text(header[i])
  }

  /** A row's record has one key per distinct `String(header cell)`, except a `__proto__`
      column that still reaches the accessor (so a header without `__proto__` gives every
      name), and under each key what the row holds in the last column with that name (a
      later column overwrites an earlier one of the same name): its cell, or `undefined`
      past the end of a short row. */
  lemma RecordOfFields(header: Row, row: Row)
    ensures RecordOf(header, row).Keys == OwnKeys(header, row)
    ensures (forall i :: 0 <= i < |header| ==> Text(header[i]) != ProtoKey) ==>
      RecordOf(header, row).Keys == set i | 0 <= i < |header| :: Text(header[i])
    ensures forall i :: 0 <= i < |header| && LastWithName(header, i) && CreatesKey(header, row, i) ==>
      RecordOf(header, row)[Text(header[i])] == SlotAt(row, i)
  {
    RecordPrefixKeys(header, row, |header|);
    forall i | 0 <= i < |header| && LastWithName(header, i) && CreatesKey(header, row, i)
      ensures RecordPrefix(header, row, |header|)[Text(header[i])] == SlotAt(row, i)
    {
      RecordPrefixValue(header, row, |header|, i);
    }
  }

  /** `undefined` never reaches the accessor's prototype change: when every `__proto__`
      column lies past the end of the row, the record has no `__proto__` key at all. */
  lemma ProtoPastShortRow(header: Row, row: Row)
    requires forall i :: 0 <= i < |header| && Text(header[i]) == ProtoKey ==> |row| <= i
    ensures ProtoKey !in RecordOf(header, row)
  {
    RecordOfFields(header, row);
    forall i | 0 <= i < |header| && Text(header[i]) == ProtoKey
      ensures !CreatesKey(header, row, i)
    {
      assert SetterLive(header, row, i);
    }
  }

  /** The JSON view of the sheet. */
  function ArrayToJson(header: Row, rows: seq<Row>): seq<Record> {
    seq(|rows|, i requires 0 <= i < |rows| => RecordOf(header, rows[i]))
  }

  /** The JSON view has one record per row, in row order, each keyed by the names its
      row's assignments create. */
  lemma ArrayToJsonRecords(header: Row, rows: seq<Row>)
    ensures |ArrayToJson(header, rows)| == |rows|
    ensures forall i :: 0 <= i < |rows| ==> ArrayToJson(header, rows)[i] == RecordOf(header, rows[i])
    ensures forall i :: 0 <= i < |rows| ==> ArrayToJson(header, rows)[i].Keys == OwnKeys(header, rows[i])
  {
    forall i | 0 <= i < |rows|
      ensures ArrayToJson(header, rows)[i].Keys == OwnKeys(header, rows[i])
    {
      RecordOfFields(header, rows[i]);
    }
  }
}
