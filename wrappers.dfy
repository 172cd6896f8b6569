/** Optional values: a spreadsheet cell that may be empty (pandas NaN). */
module Wrappers {

  datatype Option<+T> = None | Some(value: T)

  /** The present values of a column, in row order, missing cells dropped. */
  function Present<T(==,!new)>(col: seq<Option<T>>): (r: seq<T>)
    ensures |r| <= |col|
    ensures forall v :: v in r <==> Some(v) in col
  {
    if col == [] then []
    else
      var rest := Present(col[1..]);
      assert forall v :: Some(v) in col <==> col[0] == Some(v) || Some(v) in col[1..];
      match col[0]
      case None => rest
      case Some(v) => [v] + rest
  }
}
