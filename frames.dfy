/**
 * pandas DataFrames as values: a header of distinct column names and
 * rectangular rows of cells. Holds the two DataFrame operations the cleansing
 * code builds on: selecting positions, and `df[name] = values`.
 */
module Frames {

  /** A cell: pandas' null (`None` or `NaN`), a string, or a number. */
  datatype Cell = Null | Str(text: string) | Num(number: real)

  datatype Frame = Frame(columns: seq<string>, rows: seq<seq<Cell>>)

  predicate Distinct<T(==)>(s: seq<T>) {
    forall i, j :: 0 <= i < j < |s| ==> s[i] != s[j]
  }

  /** Every row has one cell per column, and no column name occurs twice. */
  predicate WellFormed(f: Frame) {
    && Distinct(f.columns)
    && forall i :: 0 <= i < |f.rows| ==> |f.rows[i]| == |f.columns|
  }

  /** The positions below `n` that satisfy `p`, in increasing order. */
  function Positions(n: nat, p: nat -> bool): (r: seq<nat>)
    ensures |r| <= n
    ensures forall k :: 0 <= k < |r| ==> r[k] < n && p(r[k])
    ensures forall k, l :: 0 <= k < l < |r| ==> r[k] < r[l]
    ensures forall j :: 0 <= j < n && p(j) ==> j in r
  {
    if n == 0 then [] else Positions(n - 1, p) + (if p(n - 1) then [n - 1] else [])
  }

  /** When every position satisfies `p`, `Positions` lists them all. */
  lemma {:induction false} PositionsOfAll(n: nat, p: nat -> bool)
    requires forall j :: 0 <= j < n ==> p(j)
    ensures |Positions(n, p)| == n
    ensures forall k :: 0 <= k < n ==> Positions(n, p)[k] == k
  {
    if n > 0 {
      PositionsOfAll(n - 1, p);
    }
  }

  /** `Positions` only looks at `p` below `n`. */
  lemma {:induction false} PositionsAgree(n: nat, p: nat -> bool, q: nat -> bool)
    requires forall j :: 0 <= j < n ==> p(j) == q(j)
    ensures Positions(n, p) == Positions(n, q)
  {
    if n > 0 {
      PositionsAgree(n - 1, p, q);
    }
  }

  /** The elements of `s` at the positions `idx`, in that order. */
  function Select<T>(s: seq<T>, idx: seq<nat>): (r: seq<T>)
    requires forall k :: 0 <= k < |idx| ==> idx[k] < |s|
    ensures |r| == |idx|
    ensures forall k :: 0 <= k < |idx| ==> r[k] == s[idx[k]]
  {
    seq(|idx|, k requires 0 <= k < |idx| => s[idx[k]])
  }

  /** The position of column `name`. */
  function IndexOf(columns: seq<string>, name: string): (r: nat)
    requires name in columns
    ensures r < |columns| && columns[r] == name
    ensures forall j :: 0 <= j < r ==> columns[j] != name
  {
    if columns[0] == name then 0 else 1 + IndexOf(columns[1..], name)
  }

  /** In a header without repeats, a name is found exactly where it stands. */
  lemma IndexOfDistinct(columns: seq<string>, j: nat)
    requires Distinct(columns) && j < |columns|
    ensures IndexOf(columns, columns[j]) == j
  {
  }

  /** The cells of column `name`, top to bottom (`df[name]`). */
  function Column(f: Frame, name: string): (r: seq<Cell>)
    requires WellFormed(f) && name in f.columns
    ensures |r| == |f.rows|
  {
    var j := IndexOf(f.columns, name);
    seq(|f.rows|, i requires 0 <= i < |f.rows| => f.rows[i][j])
  }

  /** The header after `df[name] = ...`: a new name goes at the end. */
  function Appended(columns: seq<string>, name: string): seq<string> {
    if name in columns then columns else columns + [name]
  }

  /**
   * `df[name] = values`: overwrite column `name` where it stands, or add it
   * as the last column.
   */
  function SetColumn(f: Frame, name: string, values: seq<Cell>): (r: Frame)
    requires WellFormed(f) && |values| == |f.rows|
    ensures WellFormed(r)
    ensures r.columns == Appended(f.columns, name)
    ensures |r.rows| == |f.rows|
    ensures forall i, j :: 0 <= i < |f.rows| && 0 <= j < |f.columns| && f.columns[j] != name
                        ==> r.rows[i][j] == f.rows[i][j]
    ensures Column(r, name) == values
  {
    if name in f.columns then
      var j := IndexOf(f.columns, name);
      var rows := seq(|f.rows|, i requires 0 <= i < |f.rows| => f.rows[i][j := values[i]]);
      IndexOfDistinct(f.columns, j);
      Frame(f.columns, rows)
    else
      var r := Frame(f.columns + [name], seq(|f.rows|, i requires 0 <= i < |f.rows| => f.rows[i] + [values[i]]));
      assert IndexOf(r.columns, name) == |f.columns| by {
        IndexOfDistinct(r.columns, |f.columns|);
      }
      r
  }

  /** Reading a column back after writing another leaves it as it was. */
  lemma ColumnAfterSetColumn(f: Frame, name: string, values: seq<Cell>, other: string)
    requires WellFormed(f) && |values| == |f.rows|
    requires other in f.columns && other != name
    ensures Column(SetColumn(f, name, values), other) == Column(f, other)
  {
    var r := SetColumn(f, name, values);
    var j := IndexOf(f.columns, other);
    IndexOfDistinct(r.columns, j);
  }

  /** Writing back the values a column already holds changes nothing. */
  lemma SetColumnSame(f: Frame, name: string, values: seq<Cell>)
    requires WellFormed(f) && name in f.columns && Column(f, name) == values
    ensures SetColumn(f, name, values) == f
  {
    var j := IndexOf(f.columns, name);
    var rows := seq(|f.rows|, i requires 0 <= i < |f.rows| => f.rows[i][j := values[i]]);
    forall i | 0 <= i < |f.rows|
      ensures rows[i] == f.rows[i]
    {
      assert values[i] == f.rows[i][j];
    }
  }

  /**
   * A DataFrame the cleansing functions change in place: `df[name] = values`
   * rebinds one column of the object every caller holds.
   */
  class Table {
    var columns: seq<string>
    var rows: seq<seq<Cell>>

    ghost predicate Valid()
      reads this
    {
      WellFormed(Frame(columns, rows))
    }

    /** The frame the table currently holds. */
    function Value(): Frame
      reads this
    {
      Frame(columns, rows)
    }

    constructor (f: Frame)
      requires WellFormed(f)
      ensures Valid() && Value() == f
    {
      columns := f.columns;
      rows := f.rows;
    }

    /** `df[name] = values`, in place. */
    method Assign(name: string, values: seq<Cell>)
      requires Valid() && |values| == |rows|
      modifies this
      ensures Valid()
      ensures Value() == SetColumn(old(Value()), name, values)
    {
      var r := SetColumn(Frame(columns, rows), name, values);
      columns, rows := r.columns, r.rows;
    }
  }
}
