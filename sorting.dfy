/** The sort engine of src/dataSheet.tsx (`sortCSVRows`): a null-aware comparator over
    one column, applied by sorting a fresh copy of the rows. */
module Sorting {
  import opened Table

  /** `SortMode`: "asc" | "desc" | "original" | null. */
  datatype SortMode = Asc | Desc | Original | Unsorted

  /** The sign discipline of a collation: `a` sorts after `b` exactly when `b` sorts before `a`. */
  ghost predicate SignAntisymmetric(cmp: (string, string) -> int) {
    forall x, y :: cmp(x, y) > 0 <==> cmp(y, x) < 0
  }

  /** The comparator of `sortCSVRows` on the two cells of the sorted column.
      Every mode other than "asc" takes the descending branches, as `mode === "asc"` does. */
  function Compare(a: Cell, b: Cell, mode: SortMode, env: Env): int {
    if a == Null && b == Null then 0
    else if a == Null then (if mode == Asc then -1 else 1)
    else if b == Null then (if mode == Asc then 1 else -1)
    else
      match (NumberOf(a, env), NumberOf(b, env))
      case (Some(x), Some(y)) => if mode == Asc then x - y else y - x
      case _ =>
        var c := env.localeCompare(Text(a), Text(b));
        if mode == Asc then c else -c
  }

  /** The comparator inherits the collation's sign discipline. */
  lemma CompareAntisymmetric(a: Cell, b: Cell, mode: SortMode, env: Env)
    requires SignAntisymmetric(env.localeCompare)
    ensures Compare(a, b, mode, env) > 0 <==> Compare(b, a, mode, env) < 0
  {
  }

  /** Two nulls tie; a null sorts before any other cell in "asc" and after it otherwise. */
  lemma CompareNulls(c: Cell, mode: SortMode, env: Env)
    requires c != Null
    ensures Compare(Null, Null, mode, env) == 0
    ensures mode == Asc ==> Compare(Null, c, mode, env) < 0 && Compare(c, Null, mode, env) > 0
    ensures mode != Asc ==> Compare(Null, c, mode, env) > 0 && Compare(c, Null, mode, env) < 0
  {
  }

  /** Two non-null cells that both parse as numbers compare by their numbers: "asc" puts
      the smaller first, every other mode the larger. */
  lemma CompareNumbers(a: Cell, b: Cell, mode: SortMode, env: Env)
    requires a != Null && b != Null && NumberOf(a, env).Some? && NumberOf(b, env).Some?
    ensures var x, y := NumberOf(a, env).value, NumberOf(b, env).value;
      && (mode == Asc ==> (Compare(a, b, mode, env) < 0 <==> x < y) && (Compare(a, b, mode, env) == 0 <==> x == y))
      && (mode != Asc ==> (Compare(a, b, mode, env) < 0 <==> x > y) && (Compare(a, b, mode, env) == 0 <==> x == y))
  {
  }

  /** Two non-null cells of which one does not parse as a number compare by the collation
      of their texts, reversed outside "asc". */
  lemma CompareTexts(a: Cell, b: Cell, mode: SortMode, env: Env)
    requires a != Null && b != Null && (NumberOf(a, env).None? || NumberOf(b, env).None?)
    ensures mode == Asc ==> Compare(a, b, mode, env) == env.localeCompare(Text(a), Text(b))
    ensures mode != Asc ==> Compare(a, b, mode, env) == -env.localeCompare(Text(a), Text(b))
  {
  }

  /** Row `r1` may stand immediately before row `r2`. */
  predicate InOrder(r1: Row, r2: Row, col: int, mode: SortMode, env: Env) {
    Compare(CellAt(r1, col), CellAt(r2, col), mode, env) <= 0
  }

  /** Every neighbouring pair of `s[lo..hi]` is in order. */
  predicate SortedRange(s: seq<Row>, lo: int, hi: int, col: int, mode: SortMode, env: Env)
    requires 0 <= lo <= hi <= |s|
  {
    forall k :: lo < k < hi ==> InOrder(s[k - 1], s[k], col, mode, env)
  }

  predicate Sorted(s: seq<Row>, col: int, mode: SortMode, env: Env) {
    SortedRange(s, 0, |s|, col, mode, env)
  }

  /** Out-of-order neighbours are in order once swapped. */
  lemma InOrderTotal(r1: Row, r2: Row, col: int, mode: SortMode, env: Env)
    requires SignAntisymmetric(env.localeCompare)
    requires !InOrder(r1, r2, col, mode, env)
    ensures InOrder(r2, r1, col, mode, env)
  {
    CompareAntisymmetric(CellAt(r1, col), CellAt(r2, col), mode, env);
  }

  /** `sortCSVRows(rows, col, mode)`: sorts a copy of `rows`, so the input is untouched;
      the result is a permutation of it in which every neighbouring pair is in order.
      The sort is an insertion sort on the copy. */
  method SortRows(rows: seq<Row>, col: int, mode: SortMode, env: Env) returns (sorted: seq<Row>)
    requires SignAntisymmetric(env.localeCompare)
    ensures multiset(sorted) == multiset(rows)
    ensures Sorted(sorted, col, mode, env)
  {
    var a := new Row[|rows|](k requires 0 <= k < |rows| => rows[k]);
    assert a[..] == rows;
    var i := 0;
    while i < a.Length
      invariant 0 <= i <= a.Length
      invariant SortedRange(a[..], 0, i, col, mode, env)
      invariant multiset(a[..]) == multiset(rows)
    {
      Insert(a, i, col, mode, env);
      i := i + 1;
    }
    sorted := a[..];
  }

  /** One insertion step: moves `a[i]` left past every neighbour it must precede. */
  method Insert(a: array<Row>, i: int, col: int, mode: SortMode, env: Env)
    requires SignAntisymmetric(env.localeCompare)
    requires 0 <= i < a.Length && SortedRange(a[..], 0, i, col, mode, env)
    modifies a
    ensures SortedRange(a[..], 0, i + 1, col, mode, env)
    ensures multiset(a[..]) == old(multiset(a[..]))
  {
    var j := i;
    while 0 < j && !InOrder(a[j - 1], a[j], col, mode, env)
      invariant 0 <= j <= i
      invariant InsertInvariant(a[..], j, i, col, mode, env)
      invariant multiset(a[..]) == old(multiset(a[..]))
    {
      InsertStep(a[..], j, i, col, mode, env);
      Swap(a, j - 1);
      j := j - 1;
    }
    InsertDone(a[..], j, i, col, mode, env);
  }

  /** `s` with the neighbours at `k` and `k + 1` exchanged. */
  function SwapAt(s: seq<Row>, k: int): seq<Row>
    requires 0 <= k < |s| - 1
  {
    s[k := s[k + 1]][k + 1 := s[k]]
  }

  /** While `s[j]` travels left: the rows before it and the rows from it up to `i` are
      each in order, and its two neighbours are in order with each other. */
  predicate InsertInvariant(s: seq<Row>, j: int, i: int, col: int, mode: SortMode, env: Env)
    requires 0 <= j <= i < |s|
  {
    && SortedRange(s, 0, j, col, mode, env)
    && SortedRange(s, j, i + 1, col, mode, env)
    && (0 < j < i ==> InOrder(s[j - 1], s[j + 1], col, mode, env))
  }

  /** Swapping an out-of-order pair moves the travelling row one place left and keeps the invariant. */
  lemma InsertStep(s: seq<Row>, j: int, i: int, col: int, mode: SortMode, env: Env)
    requires SignAntisymmetric(env.localeCompare)
    requires 0 < j <= i < |s| && InsertInvariant(s, j, i, col, mode, env)
    requires !InOrder(s[j - 1], s[j], col, mode, env)
    ensures InsertInvariant(SwapAt(s, j - 1), j - 1, i, col, mode, env)
  {
    InOrderTotal(s[j - 1], s[j], col, mode, env);
    var t := SwapAt(s, j - 1);
    forall k | j - 1 < k < i + 1 ensures InOrder(t[k - 1], t[k], col, mode, env) {
      if k == j + 1 {
        assert t[k - 1] == s[j - 1] && t[k] == s[j + 1];
      } else if k > j + 1 {
        assert t[k - 1] == s[k - 1] && t[k] == s[k];
      }
    }
    if 1 < j {
      assert InOrder(s[j - 2], s[j - 1], col, mode, env);
    }
  }

  /** When the travelling row stops, the rows up to `i` are in order. */
  lemma InsertDone(s: seq<Row>, j: int, i: int, col: int, mode: SortMode, env: Env)
    requires 0 <= j <= i < |s| && InsertInvariant(s, j, i, col, mode, env)
    requires j == 0 || InOrder(s[j - 1], s[j], col, mode, env)
    ensures SortedRange(s, 0, i + 1, col, mode, env)
  {
  }

  /** Exchanges `a[k]` and `a[k + 1]`. */
  method Swap(a: array<Row>, k: int)
    requires 0 <= k < a.Length - 1
    modifies a
    ensures a[..] == SwapAt(old(a[..]), k)
    ensures multiset(a[..]) == old(multiset(a[..]))
  {
    a[k], a[k + 1] := a[k + 1], a[k];
  }

  lemma {:induction false} NullPrecedesNull(s: seq<Row>, col: int, env: Env, i: int, j: int)
    requires Sorted(s, col, Asc, env)
    requires 0 <= i < j < |s| && CellAt(s[j], col) == Null
    ensures CellAt(s[i], col) == Null
    decreases j - i
  {
    assert InOrder(s[j - 1], s[j], col, Asc, env);
    if i < j - 1 {
      NullPrecedesNull(s, col, env, i, j - 1);
    }
  }

  lemma {:induction false} NullFollowsNull(s: seq<Row>, col: int, mode: SortMode, env: Env, i: int, j: int)
    requires mode != Asc && Sorted(s, col, mode, env)
    requires 0 <= i < j < |s| && CellAt(s[i], col) == Null
    ensures CellAt(s[j], col) == Null
    decreases j - i
  {
    assert InOrder(s[i], s[i + 1], col, mode, env);
    if i + 1 < j {
      NullFollowsNull(s, col, mode, env, i + 1, j);
    }
  }

  /** In "asc" order the rows whose sorted cell is null form a prefix. */
  lemma AscendingNullsFirst(s: seq<Row>, col: int, env: Env)
    requires Sorted(s, col, Asc, env)
    ensures forall i, j :: 0 <= i < j < |s| && CellAt(s[j], col) == Null ==> CellAt(s[i], col) == Null
  {
    forall i, j | 0 <= i < j < |s| && CellAt(s[j], col) == Null
      ensures CellAt(s[i], col) == Null
    {
      NullPrecedesNull(s, col, env, i, j);
    }
  }

  /** In "desc" order the rows whose sorted cell is null form a suffix. */
  lemma DescendingNullsLast(s: seq<Row>, col: int, env: Env)
    requires Sorted(s, col, Desc, env)
    ensures forall i, j :: 0 <= i < j < |s| && CellAt(s[i], col) == Null ==> CellAt(s[j], col) == Null
  {
    forall i, j | 0 <= i < j < |s| && CellAt(s[i], col) == Null
      ensures CellAt(s[j], col) == Null
    {
      NullFollowsNull(s, col, Desc, env, i, j);
    }
  }

  /** Every row's sorted cell is present and parses as a number. */
  predicate AllNumeric(s: seq<Row>, col: int, env: Env) {
    forall k :: 0 <= k < |s| ==> CellAt(s[k], col) != Null && NumberOf(CellAt(s[k], col), env).Some?
  }

  /** The number `Number(...)` reads from a row's sorted cell. */
  function NumberAt(r: Row, col: int, env: Env): int
    requires NumberOf(CellAt(r, col), env).Some?
  {
    NumberOf(CellAt(r, col), env).value
  }

  lemma {:induction false} NumericOrderBetween(s: seq<Row>, col: int, mode: SortMode, env: Env, i: int, j: int)
    requires (mode == Asc || mode == Desc) && Sorted(s, col, mode, env) && AllNumeric(s, col, env)
    requires 0 <= i <= j < |s|
    ensures mode == Asc ==> NumberAt(s[i], col, env) <= NumberAt(s[j], col, env)
    ensures mode == Desc ==> NumberAt(s[i], col, env) >= NumberAt(s[j], col, env)
    decreases j - i
  {
    if i < j {
      assert InOrder(s[j - 1], s[j], col, mode, env);
      NumericOrderBetween(s, col, mode, env, i, j - 1);
    }
  }

  /** A column whose cells all parse as numbers comes out numerically non-decreasing
      in "asc" and non-increasing in "desc". */
  lemma NumericColumnOrdered(s: seq<Row>, col: int, mode: SortMode, env: Env)
    requires (mode == Asc || mode == Desc) && Sorted(s, col, mode, env) && AllNumeric(s, col, env)
    ensures mode == Asc ==> forall i, j :: 0 <= i < j < |s| ==> NumberAt(s[i], col, env) <= NumberAt(s[j], col, env)
    ensures mode == Desc ==> forall i, j :: 0 <= i < j < |s| ==> NumberAt(s[i], col, env) >= NumberAt(s[j], col, env)
  {
    forall i, j | 0 <= i < j < |s|
      ensures mode == Asc ==> NumberAt(s[i], col, env) <= NumberAt(s[j], col, env)
      ensures mode == Desc ==> NumberAt(s[i], col, env) >= NumberAt(s[j], col, env)
    {
      NumericOrderBetween(s, col, mode, env, i, j);
    }
  }
}
