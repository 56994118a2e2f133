/** Option and Result values, and the positional-row check shared by both CSV loaders. */
module Base {

  datatype Option<+T> = None | Some(value: T)

  datatype Result<+R, +E> = Success(value: R) | Failure(error: E)

  /** A CSV row as the reader yields it: its fields already split. */
  type Row = seq<string>

  /** The index of the first row with fewer than `width` fields, where indexing
      a field at position `width - 1` would raise IndexError; None if every row
      is wide enough. */
  function FirstShortRow(rows: seq<Row>, width: nat): (r: Option<nat>)
    ensures r.None? <==> forall i :: 0 <= i < |rows| ==> |rows[i]| >= width
    ensures r.Some? ==> r.value < |rows| && |rows[r.value]| < width
    ensures r.Some? ==> forall j :: 0 <= j < r.value ==> |rows[j]| >= width
    decreases |rows|
  {
    if rows == [] then None
    else if |rows[0]| < width then Some(0)
    else
      match FirstShortRow(rows[1..], width)
      case None => None
      case Some(i) => Some(i + 1)
  }

  /** A short row preceded only by wide enough rows is the first short row. */
  lemma FirstShortRowAt(rows: seq<Row>, width: nat, i: nat)
    requires i < |rows| && |rows[i]| < width
    requires forall j :: 0 <= j < i ==> |rows[j]| >= width
    ensures FirstShortRow(rows, width) == Some(i)
  {
    var r := FirstShortRow(rows, width);
    assert r.Some? && !(r.value < i) && !(i < r.value);
  }
}
