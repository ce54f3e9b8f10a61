/** Cells, rows and the host behaviour the engine leans on.

    A spreadsheet row holds strings, numbers or nulls (`RowType` in src/dataSheet.tsx).
    Numbers are modelled as integers. The JavaScript built-ins whose semantics are
    foreign to the engine (`localeCompare`, `Number(...)`, `Date.parse`) are not
    interpreted: they are fields of an `Env` value handed to every operation that uses them. */
module Table {

  datatype Option<T> = None | Some(value: T)

  datatype Cell = Null | Num(n: int) | Str(s: string)

  type Row = seq<Cell>

  /** The host's foreign behaviour.
      - `localeCompare(a, b)`: `a.localeCompare(b, undefined, {sensitivity: "base", numeric: true})`;
        only its sign matters.
      - `toNumber(s)`: `Number(s)`; `None` stands for `NaN`.
      - `parsesAsDate(s)`: `!isNaN(Date.parse(s))`. */
  datatype Env = Env(
    localeCompare: (string, string) -> int,
    toNumber: string -> Option<int>,
    parsesAsDate: string -> bool)

  /** `row[i]`, where an index past the row (JavaScript `undefined`) reads as null. */
  function CellAt(row: Row, i: int): (c: Cell)
    ensures 0 <= i < |row| ==> c == row[i]
    ensures !(0 <= i < |row|) ==> c == Null
  {
    if 0 <= i < |row| then row[i] else Null
  }

  /** `Number(v)` for a cell value; `Number(null)` is 0. Only a string can give `NaN`. */
  function NumberOf(c: Cell, env: Env): (r: Option<int>)
    ensures !c.Str? ==> r.Some?
    ensures c.Num? ==> r == Some(c.n)
  {
    match c
    case Null => Some(0)
    case Num(n) => Some(n)
    case Str(s) => env.toNumber(s)
  }

  predicate IsDigit(c: char) {
    '0' <= c <= '9'
  }

  function DigitChar(d: int): (c: char)
    requires 0 <= d < 10
    ensures IsDigit(c)
  {
    ('0' as int + d) as char
  }

  /** Decimal rendering of a natural number, without leading zeros. */
  function NatText(n: nat): (r: string)
    ensures |r| > 0
    ensures forall i :: 0 <= i < |r| ==> IsDigit(r[i])
    ensures r[0] == '0' ==> n == 0
  {
    if n < 10 then [DigitChar(n)] else NatText(n / 10) + [DigitChar(n % 10)]
  }

  /** `String(n)` for an integer: a minus sign for a negative number, then its digits. */
  function IntText(n: int): (r: string)
    ensures n < 0 <==> |r| > 0 && r[0] == '-'
  {
    if n < 0 then "-" + NatText(-n) else NatText(n)
  }

  /** `String(v)` for a cell value. */
  function Text(c: Cell): string {
    match c
    case Null => "null"
    case Num(n) => IntText(n)
    case Str(s) => s
  }

  /** The number a string of decimal digits denotes. */
  function DigitsValue(s: string): nat
    requires forall i :: 0 <= i < |s| ==> IsDigit(s[i])
  {
    if s == [] then 0
    else
      assert IsDigit(s[|s| - 1]);
      10 * DigitsValue(s[..|s| - 1]) + (s[|s| - 1] as int - '0' as int)
  }

  /** The number a decimal numeral with an optional minus sign denotes. */
  function NumeralValue(s: string): int
    requires |s| > 0 && s[0] == '-' ==> forall i :: 1 <= i < |s| ==> IsDigit(s[i])
    requires !(|s| > 0 && s[0] == '-') ==> forall i :: 0 <= i < |s| ==> IsDigit(s[i])
  {
    if |s| > 0 && s[0] == '-' then -(DigitsValue(s[1..]) as int) else DigitsValue(s)
  }

  /** Reading the digits of a natural number back gives the number. */
  lemma {:induction false} NatTextValue(n: nat)
    ensures DigitsValue(NatText(n)) == n
    decreases n
  {
    if n >= 10 {
      NatTextValue(n / 10);
      var r := NatText(n);
      assert r[..|r| - 1] == NatText(n / 10);
    }
  }

  /** `String(n)` of an integer reads back as `n`, so distinct numbers have distinct texts. */
  lemma IntTextValue(n: int)
    ensures NumeralValue(IntText(n)) == n
  {
    if n < 0 {
      NatTextValue(-n);
      assert IntText(n)[1..] == NatText(-n);
    } else {
      NatTextValue(n);
    }
  }

  function LowerChar(c: char): char {
    if 'A' <= c <= 'Z' then (c as int + 32) as char else c
  }

  predicate IsUpper(c: char) {
    'A' <= c <= 'Z'
  }

  /** `s.toLowerCase()`, on the ASCII letters: no capital is left, every other character
      stays, and each capital becomes its small letter. */
  function Lower(s: string): (r: string)
    ensures |r| == |s|
    ensures forall i :: 0 <= i < |r| ==> !IsUpper(r[i])
    ensures forall i :: 0 <= i < |s| && !IsUpper(s[i]) ==> r[i] == s[i]
    ensures forall i :: 0 <= i < |s| && IsUpper(s[i]) ==> r[i] as int == s[i] as int + 32
  {
    seq(|s|, i requires 0 <= i < |s| => LowerChar(s[i]))
  }

  /** Lowercasing twice is lowercasing once. */
  lemma LowerIdempotent(s: string)
    ensures Lower(Lower(s)) == Lower(s)
  {
  }

  /** Two characters that differ at most in ASCII case. */
  predicate CaseVariants(c: char, d: char) {
    c == d || (IsUpper(c) && d as int == c as int + 32) || (IsUpper(d) && c as int == d as int + 32)
  }

  /** Two strings lowercase alike exactly when they differ only in ASCII case, character
      by character: this is what makes the search case-insensitive. */
  lemma LowerIgnoresCase(s: string, t: string)
    ensures Lower(s) == Lower(t) <==> |s| == |t| && forall i :: 0 <= i < |s| ==> CaseVariants(s[i], t[i])
  {
    if |s| == |t| && forall i :: 0 <= i < |s| ==> CaseVariants(s[i], t[i]) {
      forall i | 0 <= i < |s| ensures Lower(s)[i] == Lower(t)[i] {
        assert CaseVariants(s[i], t[i]);
      }
    }
    if Lower(s) == Lower(t) {
      forall i | 0 <= i < |s| ensures CaseVariants(s[i], t[i]) {
        assert Lower(s)[i] == Lower(t)[i];
      }
    }
  }

  predicate IsPrefix(p: string, s: string) {
    |p| <= |s| && s[..|p|] == p
  }

  /** `s.includes(t)`: some suffix of `s` starts with `t`. */
  predicate Contains(s: string, t: string)
    decreases |s|
  {
    IsPrefix(t, s) || (s != [] && Contains(s[1..], t))
  }

  /** `t` occurs in `s` starting at index `i`. */
  predicate OccursAt(s: string, t: string, i: int) {
    0 <= i <= |s| - |t| && s[i..i + |t|] == t
  }

  /** `Contains` holds exactly when `t` occurs in `s` at some position. */
  lemma {:induction false} ContainsIffOccurs(s: string, t: string)
    ensures Contains(s, t) <==> exists i :: OccursAt(s, t, i)
    decreases |s|
  {
    if Contains(s, t) {
      if IsPrefix(t, s) {
        assert OccursAt(s, t, 0);
      } else {
        ContainsIffOccurs(s[1..], t);
        var i :| OccursAt(s[1..], t, i);
        assert s[1..][i..i + |t|] == s[i + 1..i + 1 + |t|];
        assert OccursAt(s, t, i + 1);
      }
    } else {
      forall i | OccursAt(s, t, i)
        ensures false
      {
        if i != 0 {
          ContainsIffOccurs(s[1..], t);
          assert s[1..][i - 1..i - 1 + |t|] == s[i..i + |t|];
          assert OccursAt(s[1..], t, i - 1);
        }
      }
    }
  }
}
