/**
 * The data frames the reconciliation works on: a table is an ordered list of
 * column names and an ordered list of rows, each row a map from column name
 * to a cell.
 */
module Frames {

  /** A cell as pandas holds it, reduced to text, a number, or missing (NaN). */
  datatype Cell = Text(s: string) | Num(n: int) | Null

  type Row = map<string, Cell>

  datatype Table = Table(columns: seq<string>, rows: seq<Row>)

  /** The exceptions the request handler tells apart: KeyError and everything else. */
  datatype Exception = KeyError(key: string) | Error(message: string)

  predicate Distinct<T(==)>(s: seq<T>)
  {
    forall i, j :: 0 <= i < j < |s| ==> s[i] != s[j]
  }

  /** Column labels are unique and every row holds exactly the table's columns. */
  ghost predicate Valid(t: Table)
  {
    && Distinct(t.columns)
    && forall r :: r in t.rows ==> r.Keys == set c | c in t.columns
  }

  /** A cell of a row; a label the row does not hold reads as missing. */
  function Get(r: Row, c: string): Cell
  {
    if c in r then r[c] else Null
  }

  /** DataFrame.empty: true when either axis has length zero, so the table holds no cell. */
  predicate IsEmpty(t: Table): (empty: bool)
    ensures empty <==> |t.rows| * |t.columns| == 0
  {
    |t.rows| == 0 || |t.columns| == 0
  }
}
