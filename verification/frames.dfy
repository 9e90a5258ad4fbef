/**
 * The part of pandas the cleaning rules lean on: a cell is missing (NaN or
 * None), a finite number, an infinity, or text; a frame is a list of column
 * names and rows of cells. Comparisons follow pandas on a numeric column: a
 * missing value makes every comparison false.
 */
module Frames {
  import opened Wrappers
  import opened Strings

  datatype Cell = Missing | Num(v: real) | Inf(positive: bool) | Text(s: string)

  /** `pd.notna(c)` */
  predicate NotNa(c: Cell) {
    !c.Missing?
  }

  predicate IsNumeric(c: Cell) {
    c.Num? || c.Inf?
  }

  /** `c >= x` */
  predicate Ge(c: Cell, x: real) {
    match c
    case Num(v) => v >= x
    case Inf(positive) => positive
    case _ => false
  }

  /** `c <= x` */
  predicate Le(c: Cell, x: real) {
    match c
    case Num(v) => v <= x
    case Inf(positive) => !positive
    case _ => false
  }

  /** `Series.between(lo, hi)`, inclusive at both ends. */
  predicate Between(c: Cell, lo: real, hi: real) {
    Ge(c, lo) && Le(c, hi)
  }

  /** `a + eps < b` on two numeric cells (an infinity absorbs `eps`). */
  predicate LessBy(a: Cell, eps: real, b: Cell) {
    match (a, b)
    case (Num(x), Num(y)) => x + eps < y
    case (Inf(false), Num(_)) => true
    case (Num(_), Inf(true)) => true
    case (Inf(false), Inf(true)) => true
    case _ => false
  }

  /** `pd.to_numeric(c, errors="coerce")`: numbers and missing values pass
      through, text becomes the number it spells or missing. The parser
      skips only ASCII whitespace around the number. */
  function ToNumeric(c: Cell): (r: Cell)
    ensures !r.Text?
    ensures !c.Text? ==> r == c
  {
    match c
    case Text(s) =>
      (match ParseDecimal(StripAscii(s))
       case Some(v) => Num(v)
       case None => Missing)
    case _ => c
  }

  /** Coercion is idempotent: a coerced cell coerces to itself. */
  lemma ToNumericIdempotent(c: Cell)
    ensures ToNumeric(ToNumeric(c)) == ToNumeric(c)
  {
  }

  /** Python's `int(x)` on a float: drops the fraction, rounding toward zero. */
  function Trunc(x: real): (n: int)
    ensures x >= 0.0 ==> n as real <= x < n as real + 1.0
    ensures x < 0.0 ==> n as real - 1.0 < x <= n as real
  {
    if x >= 0.0 then x.Floor else -((-x).Floor)
  }

  /** Python's `int(c)` on a cell: a float drops its fraction; text must
      spell an integer; a missing value or an infinity raises. */
  function IntOf(c: Cell): Option<int> {
    match c
    case Num(v) => Some(Trunc(v))
    case Text(s) => ParseInteger(Strip(s))
    case _ => None
  }

  predicate IsIntegral(x: real) {
    x == x.Floor as real
  }

  /** `str(c)` for a cell of a text column. A number is rendered by its
      integer part; Python would print the float's shortest repr. */
  function CellText(c: Cell): string {
    match c
    case Text(s) => s
    case Missing => "nan"
    case Inf(positive) => if positive then "inf" else "-inf"
    case Num(v) => IntText(Trunc(v))
  }

  type Cells = seq<Cell>

  /** A DataFrame: column names in order and rows of cells, positionally. */
  datatype Frame = Frame(columns: seq<string>, rows: seq<Cells>)

  /** Every row has one cell per column. */
  ghost predicate WellFormed(f: Frame) {
    forall k :: 0 <= k < |f.rows| ==> |f.rows[k]| == |f.columns|
  }

  /** Position of the first column called `name` at or after `i`. */
  function ColumnFrom(columns: seq<string>, name: string, i: nat): (r: Option<nat>)
    requires i <= |columns|
    ensures r.Some? ==> i <= r.value < |columns| && columns[r.value] == name
    decreases |columns| - i
  {
    if i == |columns| then None
    else if columns[i] == name then Some(i)
    else ColumnFrom(columns, name, i + 1)
  }

  /** The search finds the first occurrence at or after `i`, and nothing
      only when there is none. */
  lemma {:induction false} ColumnFromFirst(columns: seq<string>, name: string, i: nat)
    requires i <= |columns|
    ensures var r := ColumnFrom(columns, name, i);
      && (r.Some? ==> forall k :: i <= k < r.value ==> columns[k] != name)
      && (r.None? ==> forall k :: i <= k < |columns| ==> columns[k] != name)
    decreases |columns| - i
  {
    if i < |columns| && columns[i] != name {
      ColumnFromFirst(columns, name, i + 1);
    }
  }

  /** Position of the first column called `name`. */
  function ColumnIndex(columns: seq<string>, name: string): (r: Option<nat>)
    ensures r.Some? ==> r.value < |columns| && columns[r.value] == name
  {
    ColumnFrom(columns, name, 0)
  }

  /** A column is found exactly when the frame has it, at its first occurrence. */
  lemma ColumnIndexFirst(columns: seq<string>, name: string)
    ensures ColumnIndex(columns, name).Some? <==> name in columns
    ensures ColumnIndex(columns, name).Some? ==>
              forall k :: 0 <= k < ColumnIndex(columns, name).value ==> columns[k] != name
  {
    ColumnFromFirst(columns, name, 0);
  }

  /** The names of `required[i..]` that `columns` lacks, in order. */
  function AbsentFrom(required: seq<string>, columns: seq<string>, i: nat): seq<string>
    requires i <= |required|
    decreases |required| - i
  {
    if i == |required| then []
    else (if required[i] in columns then [] else [required[i]]) + AbsentFrom(required, columns, i + 1)
  }

  lemma {:induction false} AbsentFromMembers(required: seq<string>, columns: seq<string>, i: nat)
    requires i <= |required|
    ensures forall c :: c in AbsentFrom(required, columns, i) <==> c in required[i..] && c !in columns
    decreases |required| - i
  {
    if i < |required| {
      AbsentFromMembers(required, columns, i + 1);
      assert required[i..] == [required[i]] + required[i + 1..];
    }
  }

  /** The required names a frame lacks, in the order they are required. */
  function Absent(required: seq<string>, columns: seq<string>): seq<string> {
    AbsentFrom(required, columns, 0)
  }

  /** A name is reported absent exactly when it is required and the frame lacks it. */
  lemma AbsentMembers(required: seq<string>, columns: seq<string>)
    ensures forall c :: c in Absent(required, columns) <==> c in required && c !in columns
  {
    AbsentFromMembers(required, columns, 0);
    assert required[0..] == required;
  }

  /** `row.get(name)`: the cell under the first column called `name`, or
      missing when the frame has no such column. */
  function Lookup(columns: seq<string>, row: Cells, name: string): Cell {
    match ColumnIndex(columns, name)
    case Some(i) => if i < |row| then row[i] else Missing
    case None => Missing
  }

  /** Appending a column leaves the search for every other name alone. */
  lemma {:induction false} ColumnFromAppend(columns: seq<string>, name: string, x: string, i: nat)
    requires i <= |columns|
    ensures ColumnFrom(columns + [name], x, i) ==
      if ColumnFrom(columns, x, i).Some? then ColumnFrom(columns, x, i)
      else if x == name then Some(|columns|) else None
    decreases |columns| - i
  {
    var cs := columns + [name];
    if i < |columns| {
      assert cs[i] == columns[i];
      if columns[i] != x {
        ColumnFromAppend(columns, name, x, i + 1);
      }
    } else {
      assert cs[i] == name;
      if name != x {
        assert ColumnFrom(cs, x, i + 1) == None;
      }
    }
  }

  /** `df[name] = c` for a column the frame lacks: the new cell is found
      under `name`, and every other lookup is unchanged. */
  lemma LookupAppend(columns: seq<string>, row: Cells, name: string, c: Cell, x: string)
    requires |row| == |columns|
    ensures Lookup(columns + [name], row + [c], x) ==
      if x !in columns && x == name then c else Lookup(columns, row, x)
  {
    ColumnFromAppend(columns, name, x, 0);
    ColumnIndexFirst(columns, x);
    match ColumnFrom(columns, x, 0)
    case Some(i) => assert (row + [c])[i] == row[i];
    case None => assert (row + [c])[|columns|] == c;
  }

  /** `row[name] = c`: the row with the cell under `name` replaced. */
  function Store(columns: seq<string>, row: Cells, name: string, c: Cell): (r: Cells)
    requires |row| == |columns|
    ensures |r| == |row|
    ensures name in columns ==> Lookup(columns, r, name) == c
    ensures forall other :: other != name ==> Lookup(columns, r, other) == Lookup(columns, row, other)
  {
    ColumnIndexFirst(columns, name);
    match ColumnIndex(columns, name)
    case Some(i) => row[i := c]
    case None => row
  }

  /** `df[name] = g(df[name])` when the column exists. */
  function MapColumn(f: Frame, name: string, g: Cell -> Cell): (r: Frame)
    requires WellFormed(f)
    ensures WellFormed(r) && r.columns == f.columns && |r.rows| == |f.rows|
    ensures forall k :: 0 <= k < |f.rows| && name in f.columns ==>
              Lookup(r.columns, r.rows[k], name) == g(Lookup(f.columns, f.rows[k], name))
    ensures forall k, other :: 0 <= k < |f.rows| && other != name ==>
              Lookup(r.columns, r.rows[k], other) == Lookup(f.columns, f.rows[k], other)
  {
    if name !in f.columns then f
    else
      var rows := seq(|f.rows|, k requires 0 <= k < |f.rows| =>
        Store(f.columns, f.rows[k], name, g(Lookup(f.columns, f.rows[k], name))));
      assert forall k :: 0 <= k < |rows| ==>
        rows[k] == Store(f.columns, f.rows[k], name, g(Lookup(f.columns, f.rows[k], name)));
      assert forall k :: 0 <= k < |rows| ==> |rows[k]| == |f.rows[k]| == |f.columns|;
      Frame(f.columns, rows)
  }

  // ---------------------------------------------------------------------
  // Row selection
  // ---------------------------------------------------------------------

  /** `df[mask]`: the elements satisfying `p`, in their original order. */
  function Filter<T>(s: seq<T>, p: T -> bool): (r: seq<T>)
    ensures |r| <= |s|
  {
    if s == [] then []
    else if p(s[0]) then [s[0]] + Filter(s[1..], p) else Filter(s[1..], p)
  }

  /** The selection holds exactly the elements satisfying `p`. */
  lemma {:induction false} FilterMembers<T(!new)>(s: seq<T>, p: T -> bool)
    ensures forall x :: x in Filter(s, p) <==> x in s && p(x)
  {
    if s != [] {
      FilterMembers(s[1..], p);
      assert s == [s[0]] + s[1..];
    }
  }

  /** The selection keeps every occurrence of a selected element and no
      occurrence of another. */
  lemma {:induction false} FilterMultiset<T(!new)>(s: seq<T>, p: T -> bool)
    ensures forall x :: multiset(Filter(s, p))[x] == if p(x) then multiset(s)[x] else 0
  {
    if s != [] {
      FilterMultiset(s[1..], p);
      assert s == [s[0]] + s[1..];
    }
  }

  /** `a` is `b` with some elements removed and the rest kept in order. */
  predicate IsSubsequence<T(==)>(a: seq<T>, b: seq<T>)
    decreases |b|
  {
    a == [] || (b != [] && ((a[0] == b[0] && IsSubsequence(a[1..], b[1..])) || IsSubsequence(a, b[1..])))
  }

  lemma {:induction false} FilterIsSubsequence<T(!new)>(s: seq<T>, p: T -> bool)
    ensures IsSubsequence(Filter(s, p), s)
  {
    if s != [] {
      FilterIsSubsequence(s[1..], p);
      if p(s[0]) {
        assert Filter(s, p)[1..] == Filter(s[1..], p);
      }
    }
  }

  lemma {:induction false} SubsequenceTransitive<T>(a: seq<T>, b: seq<T>, c: seq<T>)
    requires IsSubsequence(a, b) && IsSubsequence(b, c)
    ensures IsSubsequence(a, c)
    decreases |c|
  {
    if a != [] {
      if b[0] == c[0] && IsSubsequence(b[1..], c[1..]) {
        if a[0] == b[0] && IsSubsequence(a[1..], b[1..]) {
          SubsequenceTransitive(a[1..], b[1..], c[1..]);
        } else {
          SubsequenceTransitive(a, b[1..], c[1..]);
        }
      } else {
        SubsequenceTransitive(a, b, c[1..]);
      }
    }
  }

  lemma {:induction false} SubsequenceReflexive<T>(a: seq<T>)
    ensures IsSubsequence(a, a)
  {
    if a != [] {
      SubsequenceReflexive(a[1..]);
    }
  }

  /** A non-empty sequence is its front followed by its last element. */
  lemma SplitLast<T>(s: seq<T>)
    requires s != []
    ensures s == s[..|s| - 1] + [s[|s| - 1]]
  {
  }

  /** The first `i` elements of the first `i + 1`. */
  lemma PrefixOfPrefix<T>(s: seq<T>, i: nat)
    requires i < |s|
    ensures s[..i + 1][..i] == s[..i] && s[..i + 1] == s[..i] + [s[i]]
  {
  }

  /** Selecting from a longer sequence extends the earlier selection. */
  lemma {:induction false} FilterAppend<T(!new)>(s: seq<T>, x: T, p: T -> bool)
    ensures Filter(s + [x], p) == Filter(s, p) + (if p(x) then [x] else [])
  {
    if s == [] {
      assert s + [x] == [x];
      assert [x][1..] == [];
    } else {
      assert (s + [x])[0] == s[0] && (s + [x])[1..] == s[1..] + [x];
      FilterAppend(s[1..], x, p);
    }
  }

  /** Nothing is selected when no element qualifies. */
  lemma {:induction false} FilterNone<T(!new)>(s: seq<T>, p: T -> bool)
    requires forall k :: 0 <= k < |s| ==> !p(s[k])
    ensures Filter(s, p) == []
  {
    if s != [] {
      FilterNone(s[1..], p);
    }
  }

  /** Everything is selected when every element qualifies. */
  lemma {:induction false} FilterAll<T(!new)>(s: seq<T>, p: T -> bool)
    requires forall k :: 0 <= k < |s| ==> p(s[k])
    ensures Filter(s, p) == s
  {
    if s != [] {
      FilterAll(s[1..], p);
    }
  }

  /** Two successive selections select what their conjunction selects. */
  lemma {:induction false} FilterFilter<T(!new)>(s: seq<T>, p: T -> bool, q: T -> bool)
    ensures Filter(Filter(s, p), q) == Filter(s, x => p(x) && q(x))
  {
    if s != [] {
      FilterFilter(s[1..], p, q);
    }
  }

  /** A selection and its complement together account for every element. */
  lemma {:induction false} FilterComplement<T(!new)>(s: seq<T>, p: T -> bool, q: T -> bool)
    requires forall x :: q(x) == !p(x)
    ensures |Filter(s, p)| + |Filter(s, q)| == |s|
  {
    if s != [] {
      FilterComplement(s[1..], p, q);
    }
  }

  /** Applies `g` to every element. */
  function MapSeq<T, U>(s: seq<T>, g: T -> U): (r: seq<U>)
    ensures |r| == |s| && forall k :: 0 <= k < |s| ==> r[k] == g(s[k])
  {
    seq(|s|, k requires 0 <= k < |s| => g(s[k]))
  }
}
