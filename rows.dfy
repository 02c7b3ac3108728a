/** The rows the migrator writes: fixed-order tuples of numbers and strings. */
module Rows {
  import opened Js

  /** One row of a table. */
  type Row = seq<Value>

  /** The kind of value a column holds. */
  datatype Kind = NumberCell | StringCell

  /** A row with one cell per column, each of its column's kind. */
  predicate Fits(r: Row, shape: seq<Kind>) {
    |r| == |shape| && forall i :: 0 <= i < |r| ==> (r[i].Number? <==> shape[i] == NumberCell)
  }
}
