/** `filterClassifier` of src/components/filterOnHoverOrClick.tsx: picks the filter widget
    for a column from a sample of its cells. The widget is returned as a `FilterKind`
    value instead of a rendered element. */
module Classifier {
  import opened Table
  import opened Seqs

  /** The widget the classifier picks; a category widget carries its options. */
  datatype FilterKind = StringFilter | NumberFilter | DateFilter | CategoryFilter(categories: seq<string>)

  /** `getColumnData`: the cell of each cleaned row in the column; a missing cell reads as null. */
  function ColumnData(body: seq<Row>, col: int): (r: seq<Cell>)
    ensures |r| == |body|
    ensures forall i :: 0 <= i < |body| ==> r[i] == CellAt(body[i], col)
  {
    seq(|body|, i requires 0 <= i < |body| => CellAt(body[i], col))
  }

  /** The cells row by row of the rows that reach column `col` with a non-null cell there. */
  function PresentCells(body: seq<Row>, col: int): seq<Cell> {
    if body == [] then []
    else (if 0 <= col < |body[0]| && body[0][col] != Null then [body[0][col]] else []) + PresentCells(body[1..], col)
  }

  /** The values the classifier looks at (`columnData` without null and undefined) are, in
      row order and with repeats, the non-null cells of the rows long enough to have one in
      that column: a short row's missing cell is dropped like a null. */
  lemma {:induction false} ColumnNonNullValues(body: seq<Row>, col: int)
    ensures NonNull(ColumnData(body, col)) == PresentCells(body, col)
    decreases |body|
  {
    if body != [] {
      ColumnNonNullValues(body[1..], col);
      var d := ColumnData(body, col);
      assert d[0] == CellAt(body[0], col);
      assert d[1..] == ColumnData(body[1..], col);
    }
  }

  // ---------------------------------------------------------------------------
  // Trimming

  /** The characters `String.prototype.trim` strips: the ECMAScript WhiteSpace and
      LineTerminator code points. */
  predicate IsWhitespace(c: char) {
    c == '\t' || c == '\n' || c == '\U{B}' || c == '\U{C}' || c == '\r' || c == ' ' ||
    c == '\U{A0}' || c == '\U{1680}' || ('\U{2000}' <= c <= '\U{200A}') ||
    c == '\U{2028}' || c == '\U{2029}' || c == '\U{202F}' || c == '\U{205F}' ||
    c == '\U{3000}' || c == '\U{FEFF}'
  }

  /** `s` without its leading whitespace. */
  function TrimStart(s: string): (r: string)
    ensures |r| <= |s| && r == s[|s| - |r|..]
    ensures forall k :: 0 <= k < |s| - |r| ==> IsWhitespace(s[k])
    ensures r != [] ==> !IsWhitespace(r[0])
  {
    if s != [] && IsWhitespace(s[0]) then TrimStart(s[1..]) else s
  }

  /** `s` without its trailing whitespace. */
  function TrimEnd(s: string): (r: string)
    ensures |r| <= |s| && r == s[..|r|]
    ensures forall k :: |r| <= k < |s| ==> IsWhitespace(s[k])
    ensures r != [] ==> !IsWhitespace(r[|r| - 1])
  {
    if s != [] && IsWhitespace(s[|s| - 1]) then TrimEnd(s[..|s| - 1]) else s
  }

  /** `s.trim()`. */
  function Trim(s: string): string {
    TrimEnd(TrimStart(s))
  }

  /** A string trims to nothing exactly when all its characters are whitespace. */
  lemma TrimEmptyIffBlank(s: string)
    ensures Trim(s) == [] <==> forall k :: 0 <= k < |s| ==> IsWhitespace(s[k])
  {
    var t := TrimStart(s);
    if t != [] {
      assert t[0] == s[|s| - |t|];
    }
  }

  /** `isString(val)`: a string with something left after trimming. */
  predicate IsString(c: Cell) {
    c.Str? && |Trim(c.s)| > 0
  }

  /** `isString` holds of a cell exactly when it is a string with a non-whitespace character. */
  lemma IsStringIff(c: Cell)
    ensures IsString(c) <==> c.Str? && exists k :: 0 <= k < |c.s| && !IsWhitespace(c.s[k])
  {
    if c.Str? {
      TrimEmptyIffBlank(c.s);
    }
  }

  // ---------------------------------------------------------------------------
  // Distinct values in first-occurrence order (`Array.from(new Set(xs))`)

  /** The distinct strings of `s`, each where it first occurs. */
  function Distinct(s: seq<string>): (r: seq<string>)
    ensures NoDuplicates(r)
    ensures forall x :: x in r <==> x in s
    ensures IsSubsequence(r, s)
    ensures |r| <= |s|
  {
    if s == [] then []
    else
      var p := s[..|s| - 1];
      var d := Distinct(p);
      assert s == p + [s[|s| - 1]];
      SubsequenceAppend(d, p, s[|s| - 1]);
      if s[|s| - 1] in d then d else d + [s[|s| - 1]]
  }

  /** Appending an element to the longer list keeps a subsequence; appending it to both does too. */
  lemma {:induction false} SubsequenceAppend(a: seq<string>, b: seq<string>, x: string)
    requires IsSubsequence(a, b)
    ensures IsSubsequence(a, b + [x])
    ensures IsSubsequence(a + [x], b + [x])
    decreases |b|
  {
    if a == [] {
      assert IsSubsequence([], b + [x]);
      if b == [] {
        assert IsSubsequence([x][1..], [x][1..]);
      } else {
        assert (b + [x])[1..] == b[1..] + [x];
        SubsequenceAppend(a, b[1..], x);
      }
    } else {
      assert b != [];
      assert (b + [x])[1..] == b[1..] + [x];
      assert (a + [x])[1..] == a[1..] + [x];
      if a[0] == b[0] && IsSubsequence(a[1..], b[1..]) {
        SubsequenceAppend(a[1..], b[1..], x);
      } else {
        SubsequenceAppend(a, b[1..], x);
      }
    }
  }

  /** Appending to a list does not move the first occurrence of what it already held;
      a new element first occurs at the end. */
  lemma FirstIndexAppend(p: seq<string>, x: string, y: string)
    requires y in p + [x]
    ensures y in p ==> FirstIndex(p + [x], y) == FirstIndex(p, y)
    ensures y !in p ==> FirstIndex(p + [x], y) == |p|
  {
    var s := p + [x];
    if y in p {
      var k := FirstIndex(p, y);
      assert s[k] == y;
      assert forall j :: 0 <= j < k ==> s[j] == p[j];
    } else {
      assert forall j :: 0 <= j < |p| ==> s[j] == p[j];
    }
  }

  /** The options list in order of first occurrence: an earlier option occurs first earlier. */
  lemma {:induction false} DistinctFirstOccurrenceOrder(s: seq<string>)
    ensures forall i, j :: 0 <= i < j < |Distinct(s)| ==>
      FirstIndex(s, Distinct(s)[i]) < FirstIndex(s, Distinct(s)[j])
  {
    if s != [] {
      var p, x := s[..|s| - 1], s[|s| - 1];
      assert s == p + [x];
      DistinctFirstOccurrenceOrder(p);
      var d := Distinct(p);
      var r := Distinct(s);
      assert r == if x in d then d else d + [x];
      forall i, j | 0 <= i < j < |r|
        ensures FirstIndex(s, r[i]) < FirstIndex(s, r[j])
      {
        assert r[i] == d[i];
        FirstIndexAppend(p, x, r[i]);
        FirstIndexAppend(p, x, r[j]);
        if j < |d| {
          assert r[j] == d[j];
        }
      }
    }
  }

  // ---------------------------------------------------------------------------
  // Classification

  predicate NotNull(c: Cell) {
    c != Null
  }

  /** The classifier's values: the column's cells without the null and missing ones. */
  function NonNull(column: seq<Cell>): (r: seq<Cell>)
    ensures IsSubsequence(r, column)
    ensures forall i :: 0 <= i < |r| ==> r[i] != Null && r[i] in column
    ensures forall i :: 0 <= i < |column| && column[i] != Null ==> column[i] in r
  {
    FilterIsSubsequence(column, NotNull);
    Filter(column, NotNull)
  }

  /** Removing null keeps every occurrence of every other cell. */
  lemma NonNullMultiplicity(column: seq<Cell>, c: Cell)
    ensures multiset(NonNull(column))[c] == if c != Null then multiset(column)[c] else 0
  {
    FilterMultiplicity(column, NotNull, c);
  }

  /** `total` counts the non-null positions of the column. */
  lemma NonNullCount(column: seq<Cell>)
    ensures |NonNull(column)| == |set i | 0 <= i < |column| && column[i] != Null|
  {
    FilterLength(column, NotNull);
    assert Positions(column, NotNull) == set i | 0 <= i < |column| && column[i] != Null;
  }

  /** `!isNaN(Number(val))`; no cell is a boolean. */
  predicate IsNumeric(c: Cell, env: Env) {
    NumberOf(c, env).Some?
  }

  /** How many of the values `Date.parse(String(val))` accepts. */
  function DateCount(values: seq<Cell>, env: Env): (n: nat)
    ensures n <= |values|
  {
    |Filter(values, (c: Cell) => env.parsesAsDate(Text(c)))|
  }

  /** The date count the 90% test uses counts the positions whose text `Date.parse` accepts. */
  lemma DateCountPositions(values: seq<Cell>, env: Env)
    ensures DateCount(values, env) == |set i | 0 <= i < |values| && env.parsesAsDate(Text(values[i]))|
  {
    var parses := (c: Cell) => env.parsesAsDate(Text(c));
    FilterLength(values, parses);
    assert Positions(values, parses) == set i | 0 <= i < |values| && env.parsesAsDate(Text(values[i]));
  }

  /** The values that pass `isString`, as the strings themselves. */
  function StringsOf(values: seq<Cell>): (r: seq<string>)
    ensures |r| <= |values|
    ensures forall x :: x in r <==> Str(x) in values && IsString(Str(x))
  {
    if values == [] then []
    else
      var rest := StringsOf(values[1..]);
      assert forall c :: c in values <==> c == values[0] || c in values[1..];
      if IsString(values[0]) then [values[0].s] + rest else rest
  }

  lemma {:induction false} StringsOfLength(values: seq<Cell>)
    ensures |StringsOf(values)| == |Filter(values, IsString)|
    decreases |values|
  {
    if values != [] {
      StringsOfLength(values[1..]);
    }
  }

  /** `stringCount` counts the positions holding a non-blank string. */
  lemma StringsOfCount(values: seq<Cell>)
    ensures |StringsOf(values)| == |set i | 0 <= i < |values| && IsString(values[i])|
  {
    StringsOfLength(values);
    FilterLength(values, IsString);
    assert Positions(values, IsString) == set i | 0 <= i < |values| && IsString(values[i]);
  }

  /** The string values element by element: they are the non-blank
      string cells in the column's order. */
  lemma {:induction false} StringsOfInOrder(values: seq<Cell>)
    ensures |StringsOf(values)| == |Filter(values, IsString)|
    ensures forall i :: 0 <= i < |StringsOf(values)| ==> Filter(values, IsString)[i] == Str(StringsOf(values)[i])
    decreases |values|
  {
    if values != [] {
      var c, tail := values[0], values[1..];
      StringsOfInOrder(tail);
      var r, f := StringsOf(values), Filter(values, IsString);
      var r', f' := StringsOf(tail), Filter(tail, IsString);
      if IsString(c) {
        assert r == [c.s] + r';
        assert f == [c] + f';
        forall i | 0 <= i < |r| ensures f[i] == Str(r[i]) {
          if i > 0 {
            assert r[i] == r'[i - 1];
            assert f[i] == f'[i - 1];
          }
        }
      } else {
        assert r == r';
        assert f == f';
      }
    }
  }

  /** Two string values that first occur in one order among the string values first occur
      in the same order among the cells. */
  lemma {:induction false} StringsOfFirstIndex(values: seq<Cell>, x: string, y: string)
    requires x in StringsOf(values) && y in StringsOf(values)
    requires FirstIndex(StringsOf(values), x) < FirstIndex(StringsOf(values), y)
    ensures Str(x) in values && Str(y) in values
    ensures FirstIndex(values, Str(x)) < FirstIndex(values, Str(y))
    decreases |values|
  {
    var c, tail := values[0], values[1..];
    var r, rest := StringsOf(values), StringsOf(tail);
    if IsString(c) {
      assert r == [c.s] + rest;
      if c.s != x {
        assert c.s != y;
        assert x in rest && y in rest;
        assert FirstIndex(r, x) == 1 + FirstIndex(rest, x);
        assert FirstIndex(r, y) == 1 + FirstIndex(rest, y);
        StringsOfFirstIndex(tail, x, y);
      }
    } else {
      assert r == rest;
      assert c != Str(x) && c != Str(y);
      StringsOfFirstIndex(tail, x, y);
    }
  }

  /** The string values keep every occurrence of each non-blank string and nothing else. */
  lemma {:induction false} StringsOfMultiplicity(values: seq<Cell>, x: string)
    ensures multiset(StringsOf(values))[x] == if IsString(Str(x)) then multiset(values)[Str(x)] else 0
    decreases |values|
  {
    if values != [] {
      var c, tail := values[0], values[1..];
      StringsOfMultiplicity(tail, x);
      assert values == [c] + tail;
      assert multiset(values)[Str(x)] == multiset([c])[Str(x)] + multiset(tail)[Str(x)];
      if IsString(c) {
        assert StringsOf(values) == [c.s] + StringsOf(tail);
        assert multiset(StringsOf(values))[x] == multiset([c.s])[x] + multiset(StringsOf(tail))[x];
      } else {
        assert StringsOf(values) == StringsOf(tail);
      }
    }
  }

  /** `filterClassifier(columnData)`, in its order of tests: no values gives the text
      widget; all values numeric the number widget; more than 90% date-parseable the
      date widget; more than 80% non-blank strings with more than one and fewer than a
      fifth distinct strings the category widget; anything else the text widget.
      The ratios are compared by cross-multiplying. */
  function Classify(column: seq<Cell>, env: Env): (k: FilterKind)
    ensures NonNull(column) == [] ==> k == StringFilter
    ensures k == NumberFilter <==>
      NonNull(column) != [] && forall i :: 0 <= i < |column| && column[i] != Null ==> IsNumeric(column[i], env)
    ensures k == DateFilter <==>
      (exists i :: 0 <= i < |column| && column[i] != Null && !IsNumeric(column[i], env)) &&
      10 * DateCount(NonNull(column), env) > 9 * |NonNull(column)|
    ensures k.CategoryFilter? <==>
      (exists i :: 0 <= i < |column| && column[i] != Null && !IsNumeric(column[i], env)) &&
      10 * DateCount(NonNull(column), env) <= 9 * |NonNull(column)| &&
      5 * |StringsOf(NonNull(column))| > 4 * |NonNull(column)| &&
      |Distinct(StringsOf(NonNull(column)))| > 1 &&
      5 * |Distinct(StringsOf(NonNull(column)))| < |StringsOf(NonNull(column))|
    ensures k.CategoryFilter? ==> k.categories == Distinct(StringsOf(NonNull(column)))
  {
    var values := NonNull(column);
    var total := |values|;
    if total == 0 then StringFilter
    else if forall i :: 0 <= i < total ==> IsNumeric(values[i], env) then
      NumberFilter
    else if 10 * DateCount(values, env) > 9 * total then
      DateFilter
    else
      var strings := StringsOf(values);
      var count := |strings|;
      if 5 * count > 4 * total then
        var unique := Distinct(strings);
        if |unique| > 1 && 5 * |unique| < count then CategoryFilter(unique) else StringFilter
      else StringFilter
  }

  /** The category widget's options: more than one, no repeats, every one a non-blank
      string cell of the column, every non-blank string cell of the column among them,
      listed in order of first occurrence. */
  lemma CategoryOptions(column: seq<Cell>, env: Env)
    requires Classify(column, env).CategoryFilter?
    ensures var cats := Classify(column, env).categories;
      && |cats| > 1
      && NoDuplicates(cats)
      && (forall x :: x in cats <==> Str(x) in column && IsString(Str(x)))
      && (forall i, j :: 0 <= i < j < |cats| ==>
            FirstIndex(StringsOf(NonNull(column)), cats[i]) < FirstIndex(StringsOf(NonNull(column)), cats[j]))
      && (forall i, j :: 0 <= i < j < |cats| ==>
            FirstIndex(column, Str(cats[i])) < FirstIndex(column, Str(cats[j])))
  {
    var values := NonNull(column);
    var cats := Classify(column, env).categories;
    DistinctFirstOccurrenceOrder(StringsOf(values));
    forall i, j | 0 <= i < j < |cats|
      ensures FirstIndex(column, Str(cats[i])) < FirstIndex(column, Str(cats[j]))
    {
      StringsOfFirstIndex(values, cats[i], cats[j]);
      FilterFirstIndex(column, NotNull, Str(cats[i]), Str(cats[j]));
    }
    forall x ensures Str(x) in values <==> Str(x) in column {
      if Str(x) in column {
        var i :| 0 <= i < |column| && column[i] == Str(x);
        assert column[i] in values;
      }
    }
  }
}
