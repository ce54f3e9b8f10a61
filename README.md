# CSV-Tool tabular engine, modelled in Dafny

CSV-Tool is a React front end. You upload a CSV or Excel sheet, and it shows the sheet as a table you can sort, search, filter by column and page through. This project models the logic behind that table and proves properties of it:

- **Sort engine and sort toggle** (`src/dataSheet.tsx`). `sortCSVRows` sorts a copy of the rows with a null-aware comparator: nulls first in "asc", last otherwise; numbers numerically; everything else by collation. Each click on a column goes asc → desc → original and rebuilds the working array from the frozen `originalArray`, never from the current view.
- **Query pipeline** (`src/dataSheet.tsx`). The stages run in this order:
  - remove fully-empty rows (`dataCleaner`);
  - apply the case-insensitive global search;
  - AND together the active column criteria;
  - take the page slice.
  The page count is `ceil(rows / rowsPerPage)`. `arrayToJson` projects rows to header-keyed records.
- **Criterion bookkeeping** (`src/dataSheet.tsx`). It decides which stored criteria are active, how `handleFilterChange` adds or removes a column's criterion, and how `isColumnFiltered` answers.
- **Column classifier** (`filterClassifier` in `src/components/filterOnHoverOrClick.tsx`). It picks the text, number, date or category widget for a column from the column's cells.
- **Filter widgets** (`src/components/filterOnHoverOrClick.tsx`, repeated in `src/components/filterToolTips.tsx`). Each widget holds an operator and an entered text, or a selection list. The model covers the criterion each widget emits and the operator change, typing, "Clear Filter" and the category toggle.
- **Upload screen** (`src/App.tsx`). It covers extension extraction, the MIME/extension acceptance rule, the read mode, the simulated progress bar and `resetFile`.

Modules, one file each:

| file | module | what it holds |
|---|---|---|
| `table.dfy` | `Table` | cells (`Null`, `Num`, `Str`), rows, `String(...)`, ASCII `toLowerCase`, `includes`, and the host behaviour record `Env` |
| `seqs.dfy` | `Seqs` | `Array.prototype.filter` and the order-preserving subsequence relation |
| `criteria.dfy` | `Criteria` | `FilterCriteria`, plus the "active" and "cleared" tests |
| `sorting.dfy` | `Sorting` | the comparator of `sortCSVRows` and an insertion sort over an array copy |
| `pipeline.dfy` | `Pipeline` | `dataCleaner`, search, criteria, `filteredBody`, JS `slice`, pagination, `arrayToJson` |
| `datasheet.dfy` | `DataSheetView` | the `DataSheet` component as a class, with its state fields and handlers |
| `classifier.dfy` | `Classifier` | `isString`, `trim`, `new Set` order, `filterClassifier` |
| `widgets.dfy` | `FilterWidgets` | the operator widgets and the category widget as classes |
| `tooltips.dfy` | `ToolTipFilters` | the tooltip category widget over the fixed mock categories (the tooltip operator widgets are the `FilterWidgets` class) |
| `upload.dfy` | `Upload` | acceptance, read mode, and the progress state machine (`Uploader`) |

Modelling choices:

- **Host behaviour.** The JavaScript built-ins whose meaning lies outside the program are not interpreted. They are fields of an `Env` value passed to the operations that use them:
  - `localeCompare` with `{numeric: true, sensitivity: "base"}`;
  - `Number(...)`, where `None` stands for `NaN`;
  - the success of `Date.parse`.
- **Collation.** The only assumption about the collation is sign antisymmetry (`Sorting.SignAntisymmetric`). The comparator mixes numeric and string comparison, so it is not transitive in general. "Sorted" therefore means that every neighbouring pair is in order. The lemmas show that this gives:
  - the nulls as a prefix in "asc" and a suffix in "desc";
  - a globally ordered result when every cell of the column parses as a number.
- **Sort algorithm.** The model sorts with its own deterministic insertion sort on an `array` copy. `Array.prototype.sort` is implementation-defined for an inconsistent comparator.
- **Classifier ratios.** The ratios are compared by cross-multiplying:
  - `dates / total > 0.9` is `10 * dates > 9 * total`;
  - `strings / total > 0.8` is `5 * strings > 4 * total`;
  - `unique / strings < 0.2` is `5 * unique < strings`.
  These agree with the floating-point tests of the source for counts far below 2^50.
- **Widget emissions.** The React effects that send a widget's criterion become a function of the widget's fields (`Emitted()`).
- **Page reset.** The page-reset effect after a search, criterion or page-size change is folded into the handler that changes that state.

Two points about the code itself:

- **Classifier tests.** The code tests, in order: no values; every value numeric; more than 90% date-parseable; more than 80% non-blank strings with more than one distinct value and fewer than a fifth as many distinct values as strings. It applies no date-serial range test and no fixed cap on the number of categories.
- **An inconsistency in the classifier's wiring.** `src/dataSheet.tsx:390-394` calls `filterClassifier` with three arguments (column data, the stored criterion, the callback), but the function takes two (column data, callback). The widget it returns therefore gets the stored criterion, or `undefined`, as its `onFilterChange`. Neither can be called, so the widget's mount effect (for example src/components/filterOnHoverOrClick.tsx:42-48) throws, and as written no criterion reaches `handleFilterChange` through the column menu. `src/dataSheet.tsx` also imports `filterClassifier` and `applyFilter` by name, while src/components/filterOnHoverOrClick.tsx only has a default export. The model takes the classifier and the widgets as defined: `Classifier.Classify(column, env)`, whose column comes from `Classifier.ColumnData`, and widgets whose callback is the criterion handler.

## Model

| member | source | states |
|---|---|---|
| Table.CellAt | src/dataSheet.tsx:63 | the reading of `row[i]` the comparator and the classifier use: a position past the row (`undefined`) reads as null, which `== null` and `!== undefined` treat alike; what this means for the classifier's values is stated by `Classifier.ColumnNonNullValues` |
| Table.NumberOf | src/dataSheet.tsx:71 | `Number(val)` of a cell: null reads as 0, a number as itself, a string through the host's `Number`; only a string can give `NaN` |
| Table.Text | src/dataSheet.tsx:77 | definition of `String(val)`, used also at src/dataSheet.tsx:85 and :151 and src/components/filterOnHoverOrClick.tsx:306: `"null"`, the string itself, or a number in decimal digits; the decimal form agrees with JavaScript only for magnitudes below 10^21, since from there JavaScript writes exponent form; `Table.IntTextValue` states what the digits mean |
| Table.NatText | src/dataSheet.tsx:77 | the digits of a natural number are non-empty, all decimal digits, and without a leading zero except for 0 itself |
| Table.IntText | src/dataSheet.tsx:77 | the text of an integer starts with a minus sign exactly when it is negative |
| Table.IntTextValue | src/dataSheet.tsx:77 | reading the text of an integer back as a decimal numeral gives the integer, so different numbers have different texts |
| Table.Lower | src/dataSheet.tsx:150 | lowercasing keeps the length, leaves no capital A-Z, keeps every other character and turns each capital into its small letter |
| Table.LowerIdempotent | src/dataSheet.tsx:150 | lowercasing an already lowercased string changes nothing |
| Table.LowerIgnoresCase | src/dataSheet.tsx:150 | two strings lowercase alike exactly when they have the same length and differ only in ASCII case at each position |
| Table.ContainsIffOccurs | src/dataSheet.tsx:151 | `s.includes(t)` holds exactly when `t` occurs in `s` at some index |
| Seqs.Filter | src/dataSheet.tsx:119 | `filter` returns only elements of the input satisfying the predicate, and every satisfying element of the input appears |
| Seqs.FilterMultiplicity | src/dataSheet.tsx:119 | `filter` keeps each satisfying element as often as it occurs, and drops the rest entirely |
| Seqs.FilterLength | src/components/filterOnHoverOrClick.tsx:306 | the length of `s.filter(p)` is the number of positions of `s` whose element satisfies `p` |
| Seqs.FilterFirstIndex | src/components/filterOnHoverOrClick.tsx:296 | filtering keeps the order in which the kept elements first occur |
| Criteria.IsActive | src/dataSheet.tsx:155-162 | definition of an active criterion (a non-empty value, or the operator `empty`/`not empty`); its relation to a removal is `Criteria.ClearedAndActive`, its agreement with the button highlight `DataSheetView.DataSheet.IsColumnFiltered` |
| Criteria.IsCleared | src/dataSheet.tsx:259 | definition of a removal (null value under an operator that takes an operand); `Criteria.ClearedAndActive` shows it is never active, and `FilterWidgets.Emit` and `FilterWidgets.EmitSelection` say exactly when a widget sends one |
| Criteria.ClearedAndActive | src/dataSheet.tsx:155-162 | a criterion `handleFilterChange` treats as a removal is never active; one that is neither is exactly an empty operand under an operator that needs one |
| Sorting.Compare | src/dataSheet.tsx:62-79 | definition of the comparator of `sortCSVRows`; what it does on nulls, on numbers and on other texts is stated by `Sorting.CompareNulls`, `Sorting.CompareNumbers` and `Sorting.CompareTexts` |
| Sorting.CompareAntisymmetric | src/dataSheet.tsx:62-79 | the comparator says "after" for `(a, b)` exactly when it says "before" for `(b, a)`, provided the collation behaves the same way |
| Sorting.CompareNulls | src/dataSheet.tsx:65-67 | two nulls tie; a null sorts before any other cell in "asc" and after it in every other mode |
| Sorting.CompareNumbers | src/dataSheet.tsx:71-74 | two non-null cells that both parse as numbers compare by their numbers: smaller first in "asc", larger first in every other mode, tying exactly on equal numbers |
| Sorting.CompareTexts | src/dataSheet.tsx:76-78 | two non-null cells of which one does not parse as a number compare by the collation of their texts, with the sign reversed outside "asc" |
| Sorting.SortRows | src/dataSheet.tsx:61-80 | the result is a permutation of the input rows (multiset equality) in which every neighbouring pair is in comparator order; the input sequence is a value and stays untouched |
| Sorting.Insert | src/dataSheet.tsx:62 | one insertion pass leaves the first `i + 1` rows in order and keeps the array's multiset |
| Sorting.InsertStep | src/dataSheet.tsx:62 | swapping an out-of-order neighbour pair moves the inserted row one place left and keeps the insertion invariant |
| Sorting.Swap | src/dataSheet.tsx:62 | exchanging two neighbours changes exactly those two places and keeps the multiset |
| Sorting.AscendingNullsFirst | src/dataSheet.tsx:65-66 | in an "asc"-sorted list, every row before a null-celled row is null-celled too (nulls form a prefix) |
| Sorting.DescendingNullsLast | src/dataSheet.tsx:65-67 | in a "desc"-sorted list, every row after a null-celled row is null-celled too (nulls form a suffix) |
| Sorting.NumericColumnOrdered | src/dataSheet.tsx:71-74 | when every sorted cell parses as a number, the numbers are non-decreasing across the whole list in "asc" and non-increasing in "desc" |
| Pipeline.DataCleaner | src/dataSheet.tsx:119 | the cleaned body is an order-preserving subsequence of the body, holds only rows with a cell that is neither null nor `''`, and holds every such row |
| Pipeline.DataCleanerMultiplicity | src/dataSheet.tsx:119 | cleaning keeps every occurrence of a row with content and no occurrence of a fully-empty row |
| Pipeline.Search | src/dataSheet.tsx:149-152 | an empty term changes nothing; otherwise the result is an order-preserving subsequence whose members are the rows with some non-null cell whose lowercased text contains the lowercased term |
| Pipeline.SearchMultiplicity | src/dataSheet.tsx:149-152 | the search keeps every occurrence of a matching row (all rows for an empty term) and none of a row that does not match |
| Pipeline.ApplyCriteria | src/dataSheet.tsx:155-170 | the result is an order-preserving subsequence, and a row is in it exactly when `applyFilter` accepts it for every active criterion (all rows when none is active) |
| Pipeline.ApplyCriteriaMultiplicity | src/dataSheet.tsx:164-170 | the criteria keep every occurrence of a row that passes all active criteria and none of any other row |
| Pipeline.FilteredBody | src/dataSheet.tsx:145-173 | `filteredBody` is an order-preserving subsequence of the cleaned body; membership is search match (when a term is set) and passing every active criterion |
| Pipeline.FilteredBodyMultiplicity | src/dataSheet.tsx:145-173 | `filteredBody` holds a row as often as the cleaned body does when it matches the search and passes every active criterion, and otherwise not at all |
| Pipeline.RemovingCriterionWidens | src/dataSheet.tsx:258-273 | deleting a column's criterion yields a result that contains the previous result as a subsequence |
| Pipeline.SliceIndex | src/dataSheet.tsx:288 | a `slice` index resolves to a position within the list |
| Pipeline.JsSlice | src/dataSheet.tsx:288 | definition of `Array.prototype.slice` with its index resolution; `Pipeline.SliceWindow` states the elements it returns |
| Pipeline.PageRows | src/dataSheet.tsx:288 | definition of `paginatedRows`; `Pipeline.PageIsWindow`, `Pipeline.PageContents` and `Pipeline.PagesCoverAll` state which rows a page holds |
| Pipeline.TotalPages | src/dataSheet.tsx:197 | `Math.ceil(total / n)` is the fewest pages of `n` rows that hold `total` rows, and is 0 only for no rows |
| Pipeline.PageIsWindow | src/dataSheet.tsx:288 | page `p` is the rows from `(p-1)*n` up to `p*n`, cut at the end, and is empty past the end |
| Pipeline.PageStartInRange | src/dataSheet.tsx:375 | a page between 1 and the displayed page count starts inside the rows (at their end only when there are none) |
| Pipeline.PageContents | src/dataSheet.tsx:288 | a page in range holds `min(n, rows left)` rows, each the row at offset `(p-1)*n` plus its position |
| Pipeline.SliceWindow | src/dataSheet.tsx:288 | slicing from a start inside the list gives the elements from that start, up to the end index or the list's end |
| Pipeline.PagesArePrefix | src/dataSheet.tsx:288 | pages 1..k put end to end are the first `min(k*n, total)` rows |
| Pipeline.PagesCoverAll | src/dataSheet.tsx:196-197 | pages 1..totalPages put end to end are exactly the filtered rows |
| Pipeline.RecordOf | src/dataSheet.tsx:84-85 | definition of one record of `arrayToJson` (the `reduce` over the header), storing under each name the row's cell or `undefined` past a short row's end; its keys and values are stated by `Pipeline.RecordOfFields` |
| Pipeline.RecordOfFields | src/dataSheet.tsx:85 | a row's record has one own key per distinct `String(header cell)`, except a `__proto__` column while the `Object.prototype` accessor is still reached (no earlier `__proto__` column held a null cell; `undefined`, strings and numbers leave it in place), so a header without `__proto__` gives every name; under each key is what the row holds in the last column with that name: its cell, or `undefined` past the row's end |
| Pipeline.ProtoPastShortRow | src/dataSheet.tsx:85 | when every `__proto__` column lies past the end of the row, the record has no `__proto__` key |
| Pipeline.ArrayToJsonRecords | src/dataSheet.tsx:83-86 | `arrayToJson` gives one record per row, in row order, each the row's record, with the own keys its assignments create and `undefined` under the names past a short row's end |
| DataSheetView.NextMode | src/dataSheet.tsx:203-205 | on the sorted column asc goes to desc, desc to original and anything else to asc; another column always starts at asc |
| DataSheetView.AfterClickStored | src/dataSheet.tsx:218-219 | the stored state never holds "original": a column is stored exactly when the mode is asc or desc |
| DataSheetView.ClickCycle | src/dataSheet.tsx:203-219 | three clicks on one column from the unsorted state give asc, desc, then unsorted again, so the next click is asc |
| DataSheetView.OtherColumnStartsAscending | src/dataSheet.tsx:205 | clicking a column other than the sorted one stores that column with "asc" |
| DataSheetView.Rebuild | src/dataSheet.tsx:209-216 | for asc/desc the new array is `originalArray[0]` followed by a sorted permutation of `originalArray`'s body; otherwise it is `originalArray` exactly |
| DataSheetView.DataSheet.constructor | src/dataSheet.tsx:91-98 | mounting starts on page 1 of 10 rows, unsorted, with no search and no criteria, and `originalArray` equal to the loaded array |
| DataSheetView.DataSheet.CleanedBody | src/dataSheet.tsx:117-120 | definition of `cleanedBody` over the working array's body; its properties are `Pipeline.DataCleaner` and `Pipeline.DataCleanerMultiplicity` |
| DataSheetView.DataSheet.Filtered | src/dataSheet.tsx:145-173 | definition of `filteredBody` over the component's state; its properties are `Pipeline.FilteredBody` and `Pipeline.FilteredBodyMultiplicity` |
| DataSheetView.DataSheet.PageCount | src/dataSheet.tsx:196-197 | definition of `totalPages` over the component's state; its properties are `Pipeline.TotalPages` and `Pipeline.PagesCoverAll` |
| DataSheetView.DataSheet.VisibleRows | src/dataSheet.tsx:288 | the shown rows are page `page` of the filtered rows at `rowsPerPage` per page |
| DataSheetView.DataSheet.SortClick | src/dataSheet.tsx:199-230 | the stored sort state follows the click cycle; the working array is rebuilt from `originalArray` for the new mode; the JSON is `arrayToJson` of its header and body; page 1; search, criteria and page size unchanged |
| DataSheetView.DataSheet.FilterChange | src/dataSheet.tsx:258-273 | a removal deletes the column's key and anything else stores the criterion under it; no other key changes; page 1; nothing else changes |
| DataSheetView.DataSheet.IsColumnFiltered | src/dataSheet.tsx:276-281 | the button highlight agrees exactly with the activity test the filtering uses |
| DataSheetView.DataSheet.SearchSettled | src/dataSheet.tsx:176-182 | the settled search term is stored; the page returns to 1 exactly when the term changed |
| DataSheetView.DataSheet.SetRowsPerPage | src/dataSheet.tsx:367-369 | the chosen size (one of 10, 25, 50, 100) is stored and the page returns to 1 |
| DataSheetView.DataSheet.PreviousPage | src/dataSheet.tsx:374 | the page drops by one, except on page 1 where the button is disabled; the page stays in range |
| DataSheetView.DataSheet.NextPage | src/dataSheet.tsx:376 | the page rises by one while it is below the page count, otherwise stays; the page stays in range |
| Classifier.ColumnData | src/dataSheet.tsx:127-129 | definition of `getColumnData` (one cell per cleaned row); the values the classifier keeps from it are stated by `Classifier.ColumnNonNullValues` |
| Classifier.ColumnNonNullValues | src/components/filterOnHoverOrClick.tsx:296 | the values the classifier works on are, in row order and with repeats, the non-null cells of the rows long enough to have one in the column: a short row's missing cell is dropped like a null |
| Classifier.Trim | src/components/filterOnHoverOrClick.tsx:294 | definition of `trim` as both ends stripped; `Classifier.TrimStart`, `Classifier.TrimEnd` and `Classifier.TrimEmptyIffBlank` state what is stripped |
| Classifier.TrimStart | src/components/filterOnHoverOrClick.tsx:294 | the result is a suffix, everything dropped is whitespace, and it does not start with whitespace |
| Classifier.TrimEnd | src/components/filterOnHoverOrClick.tsx:294 | the result is a prefix, everything dropped is whitespace, and it does not end with whitespace |
| Classifier.TrimEmptyIffBlank | src/components/filterOnHoverOrClick.tsx:294 | a string trims to nothing exactly when all its characters are whitespace |
| Classifier.IsString | src/components/filterOnHoverOrClick.tsx:294 | definition of `isString`; `Classifier.IsStringIff` states it without `trim` |
| Classifier.IsStringIff | src/components/filterOnHoverOrClick.tsx:294 | `isString` holds exactly of a string cell with some non-whitespace character |
| Classifier.NonNull | src/components/filterOnHoverOrClick.tsx:296 | the non-null values are an order-preserving subsequence of the column whose members are the non-null cells |
| Classifier.NonNullMultiplicity | src/components/filterOnHoverOrClick.tsx:296 | removing nulls keeps every occurrence of every other cell |
| Classifier.NonNullCount | src/components/filterOnHoverOrClick.tsx:297 | `total` is the number of non-null positions of the column |
| Classifier.DateCount | src/components/filterOnHoverOrClick.tsx:306 | the number of date-parseable values is at most the number of values; `Classifier.DateCountPositions` says exactly what it counts |
| Classifier.DateCountPositions | src/components/filterOnHoverOrClick.tsx:306 | the date count is the number of positions of the values whose `String(val)` `Date.parse` accepts |
| Classifier.StringsOf | src/components/filterOnHoverOrClick.tsx:310 | the members of the string values are the non-blank string cells; their order is stated by `Classifier.StringsOfInOrder` |
| Classifier.StringsOfInOrder | src/components/filterOnHoverOrClick.tsx:310 | the string values are, position by position, the cells `values.filter(isString)` keeps, so they follow the column's order |
| Classifier.StringsOfFirstIndex | src/components/filterOnHoverOrClick.tsx:310 | two strings that first occur in one order among the string values first occur in the same order among the cells |
| Classifier.StringsOfCount | src/components/filterOnHoverOrClick.tsx:311 | `stringCount` is the number of positions of the values holding a non-blank string |
| Classifier.StringsOfMultiplicity | src/components/filterOnHoverOrClick.tsx:310 | the string values keep every occurrence of each non-blank string and nothing else |
| Classifier.Distinct | src/components/filterOnHoverOrClick.tsx:314 | `Array.from(new Set(xs))` has no repeats, the same members as `xs`, and is a subsequence of `xs` |
| Classifier.DistinctFirstOccurrenceOrder | src/components/filterOnHoverOrClick.tsx:314 | the distinct values are listed in order of their first occurrence |
| Classifier.Classify | src/components/filterOnHoverOrClick.tsx:295-320 | no values gives text; number exactly when every value is numeric; date exactly when some value is non-numeric and more than 90% parse as dates; category exactly when in addition not more than 90% are dates, more than 80% are non-blank strings and the distinct strings number more than 1 and fewer than a fifth of them; text otherwise |
| Classifier.CategoryOptions | src/components/filterOnHoverOrClick.tsx:310-317 | the category options are more than one, without repeats, exactly the non-blank string cells of the column, listed in the order in which they first occur in the column |
| FilterWidgets.DefaultOperator | src/components/filterOnHoverOrClick.tsx:35 | the default operator (`equals`, or `contains` for text) is one of the widget's options and takes an operand |
| FilterWidgets.NullaryOperators | src/components/filterOnHoverOrClick.tsx:67-72 | every dropdown offers `empty` and `not empty`, and every other option takes an operand |
| FilterWidgets.Emit | src/components/filterOnHoverOrClick.tsx:39-48 | the emitted criterion carries the operator; `empty` and `not empty` always send null; any other operator sends the text, or null for an empty text; so it is a removal exactly for an operand operator with empty text, and active exactly otherwise |
| FilterWidgets.OperatorFilter.constructor | src/components/filterOnHoverOrClick.tsx:35-37 | an absent prop takes its default, and a widget mounted without props first emits a removal |
| FilterWidgets.OperatorFilter.SetOperator | src/components/filterOnHoverOrClick.tsx:64 | choosing an operator stores it and empties the text, so the next criterion carries null |
| FilterWidgets.OperatorFilter.SetValue | src/components/filterOnHoverOrClick.tsx:80-82 | typing stores the text and keeps the operator; the criterion carries the text, or null for an empty one |
| FilterWidgets.OperatorFilter.Clear | src/components/filterOnHoverOrClick.tsx:51-54 | clearing restores the default operator and empty text, which emits a removal |
| FilterWidgets.Toggled | src/components/filterOnHoverOrClick.tsx:244-250 | an absent category is appended at the end; a present one is removed, keeping the order of the rest; no other category's membership changes |
| FilterWidgets.ToggleTwiceRestores | src/components/filterOnHoverOrClick.tsx:244-250 | toggling an absent category twice gives back the original list |
| FilterWidgets.ToggleKeepsNoDuplicates | src/components/filterOnHoverOrClick.tsx:244-250 | toggling keeps a selection free of repeats |
| FilterWidgets.EmitSelection | src/components/filterOnHoverOrClick.tsx:236-241 | the category widget always sends `in`, with the selection, or null exactly when nothing is selected |
| FilterWidgets.CategoryFilter.constructor | src/components/filterOnHoverOrClick.tsx:230-233 | the widget starts with the given options, no selection, and emits a removal |
| FilterWidgets.CategoryFilter.Toggle | src/components/filterOnHoverOrClick.tsx:244-250 | ticking an offered category flips its membership and keeps the selection repeat-free and among the options |
| FilterWidgets.CategoryFilter.Clear | src/components/filterOnHoverOrClick.tsx:252-254 | clearing empties the selection, which emits a removal |
| ToolTipFilters.NewCategoryFilter | src/components/filterToolTips.tsx:232-236 | the tooltip category widget offers the mock categories, whatever the data, with no selection |
| Upload.LastSegment | src/App.tsx:43 | `name.split(".").pop()` is the suffix after the last dot: it holds no dot, is preceded by a dot when shorter than the name, and is the whole name when there is no dot |
| Upload.ExtensionAfterLastDot | src/App.tsx:43 | the extension of `base + "." + ext` (no dot in `ext`) is `ext` lowercased, whatever `base` holds |
| Upload.Extension | src/App.tsx:43 | definition of `ext` as the last segment lowercased; `Upload.ExtensionAfterLastDot` states it for a dotted name |
| Upload.Accepts | src/App.tsx:44-47 | definition of acceptance as a listed MIME type or a listed extension; `Upload.AcceptsDotted` states it for a dotted name |
| Upload.AcceptsDotted | src/App.tsx:43-47 | a file named `base.ext` (no dot in `ext`) is accepted exactly when its MIME type is one of the five listed or `ext` lowercased is csv, xlsx or xls, whatever `base` holds |
| Upload.Uploader.constructor | src/App.tsx:16-26 | the screen starts with no file, an empty bar, not uploading and not ready |
| Upload.Uploader.HandleFile | src/App.tsx:40-56 | a file is read exactly when present and accepted by MIME type or extension; it is read as text exactly for extension "csv"; acceptance stores the file with an empty bar, uploading and not ready; a missing or rejected file leaves the state unchanged |
| Upload.Uploader.Step | src/App.tsx:92-99 | each tick adds 10 to the bar; the interval stops exactly when the sum reaches 100, leaving the bar at exactly 100, not uploading and ready |
| Upload.Uploader.ParseFailed | src/App.tsx:103-105 | a parse failure empties the upload state and leaves readiness as it was |
| Upload.Uploader.Reset | src/App.tsx:129-135 | `resetFile` restores no file, an empty bar, not uploading and not ready |
| Upload.NextProgress | src/App.tsx:93-99 | one tick keeps the bar within 0..100 and on multiples of 10, and adds exactly 10 below the top |
| Upload.ProgressAfterTicks | src/App.tsx:92-99 | after `k` ticks from an empty bar the progress is `min(10k, 100)` |
| Upload.TenthTickCompletes | src/App.tsx:92-99 | after an accepted file, the tenth tick is the first one to fill the bar |

## Left out

- JSX rendering, icons, CSS and the "Showing rows" text: presentation only.
- Filter-menu positioning with `getBoundingClientRect`, the outside-click `mousedown` listener and the `activeFilterCol`/`filterPosition` menu state cleared by a sort click: DOM and menu bookkeeping with no effect on the data shown.
- The 500 ms debounce timer: only its outcome is modelled, as `DataSheet.SearchSettled`. The raw `searchTerm` keystrokes are not.
- `gsheetsToDate`/`displayDateValue` date rendering, `columnTypes`/`isDateColumn` and `getComponentName`: the first two rely on JavaScript `Date` and floating point. `columnTypes` inspects the type names of rendered React elements.
- The semantics of `localeCompare`, `Number(...)` and `Date.parse`: these are host behaviour and are passed in as the `Env` record.
- The body of `applyFilter`, which is imported by `src/dataSheet.tsx` but is not part of this model. It is a parameter of the data sheet.
- `FileReader`, XLSX workbook parsing, `setCSVData`, toasts and navigation: I/O and third-party libraries. A successful parse is the caller's choice to start ticking `Uploader.Step`, and a failed one is `Uploader.ParseFailed`.
- `formatFileSize` and `getFileIcon`: presentation, with `Math.log` and floating-point rounding.
- src/context/CSVContext.tsx, src/layout.tsx and src/main.tsx: React context, layout and router plumbing with no logic.
- Number representation: numbers are unbounded integers, not IEEE doubles. Fractional cells, `NaN` and the rounding in `aNum - bNum` are not modelled. Only the sign of a comparison matters, and integer subtraction gives it exactly.
- Boolean and `Date` cells are not modelled. The declared `RowType` holds strings, numbers and nulls, so under the model the classifier's `typeof val !== 'boolean'` test is always true.
- `Table.Text`: writes every integer in plain decimal digits. JavaScript writes a number of magnitude 10^21 or more in exponent form (`1e+21`), which the model does not produce.
- `Table.Lower`: lowercases ASCII letters only. Unicode case mapping is not modelled.
- `RecordOfFields`: the record's prototype is not tracked. It tracks only which own keys exist and their values: a null cell under a `__proto__` column makes the prototype null, and the only effect the model keeps is that later `__proto__` columns then create an own key.
- `Sorting.SortRows`: promises permutation and neighbour-by-neighbour order, not stability. It does not reproduce the engine-specific order that `Array.prototype.sort` gives under a non-transitive comparator. Global order is proved only for null cells and all-numeric columns.
- `DataSheetView.DataSheet.constructor`: requires a non-empty sheet. For an empty array the source's header is `undefined`, and `header.map` fails when the column types are computed. The "No data available" screen for a missing `csvData` is presentation.
- `Upload.Uploader.Valid`: does not tie `ready` to a full bar. In the source this happens in one scenario: a second file is accepted before the first file's interval finishes; the first interval then completes and sets `ready`; then the second file fails to parse, which empties the bar but leaves `ready` true. The model allows that state.
- `Upload.Uploader.Step`: an interval started for an earlier file keeps ticking after `resetFile` or a new file, because nothing clears it. The model allows a step in any state, and the caller decides how many intervals run.
