/** The NAICS code lookup table: built from (code, label) rows by writing each
    row into a dict, and read with a "tbd" fallback when a code is missing. */
module Naics {
  import opened Base

  type Table = map<string, string>

  /** The label the enrichment uses when a code is not in the table. */
  const TBD := "tbd"

  /** Every row of the structure file is at least (code, label). */
  ghost predicate AllPairs(rows: seq<Row>)
  {
    forall i :: 0 <= i < |rows| ==> |rows[i]| >= 2
  }

  /** The dict after `table[row[0]] = row[1]` for every row in turn, starting empty. */
  function TableOf(rows: seq<Row>): Table
    requires AllPairs(rows)
  {
    if rows == [] then map[]
    else
      var last := rows[|rows| - 1];
      TableOf(rows[..|rows| - 1])[last[0] := last[1]]
  }

  /** Row `i` is the last row that carries `code`. */
  ghost predicate LastRowFor(rows: seq<Row>, code: string, i: int)
    requires AllPairs(rows)
  {
    0 <= i < |rows| && rows[i][0] == code
    && forall j :: i < j < |rows| ==> rows[j][0] != code
  }

  /** The keys of the table are exactly the first columns of the rows. */
  lemma {:induction false} TableOfKeys(rows: seq<Row>, code: string)
    requires AllPairs(rows)
    ensures code in TableOf(rows) <==> exists i :: 0 <= i < |rows| && rows[i][0] == code
  {
    if rows != [] {
      var n := |rows| - 1;
      var front := rows[..n];
      assert TableOf(rows) == TableOf(front)[rows[n][0] := rows[n][1]];
      TableOfKeys(front, code);
      if i :| 0 <= i < |rows| && rows[i][0] == code {
        if i < n {
          assert front[i][0] == code;
        }
      }
      if i :| 0 <= i < |front| && front[i][0] == code {
        assert rows[i][0] == code;
      }
    }
  }

  /** Each code holds the label of the last row carrying it: later duplicates
      overwrite earlier ones. */
  lemma {:induction false} TableOfLastWriteWins(rows: seq<Row>, code: string, i: nat)
    requires AllPairs(rows) && LastRowFor(rows, code, i)
    ensures code in TableOf(rows) && TableOf(rows)[code] == rows[i][1]
  {
    var n := |rows| - 1;
    var front := rows[..n];
    assert TableOf(rows) == TableOf(front)[rows[n][0] := rows[n][1]];
    if i < n {
      assert rows[n][0] != code;
      assert LastRowFor(front, code, i);
      TableOfLastWriteWins(front, code, i);
    }
  }

  /** `table[code]`, with the KeyError caught and replaced by "tbd". */
  function Label(table: Table, code: string): string
  {
    if code in table then table[code] else TBD
  }

  /** The label found for a code after loading the whole file: the last row's
      label when some row carries the code, "tbd" when none does. */
  lemma LabelAfterLoad(rows: seq<Row>, code: string)
    requires AllPairs(rows)
    ensures (forall i :: 0 <= i < |rows| ==> rows[i][0] != code) ==> Label(TableOf(rows), code) == TBD
    ensures forall i :: LastRowFor(rows, code, i) ==> Label(TableOf(rows), code) == rows[i][1]
  {
    TableOfKeys(rows, code);
    forall i | LastRowFor(rows, code, i)
      ensures Label(TableOf(rows), code) == rows[i][1]
    {
      TableOfLastWriteWins(rows, code, i);
    }
  }

  /** The loading loop of the NAICS preparation step. A row with fewer than two
      fields raises IndexError and aborts the load; the result names that row. */
  method BuildTable(rows: seq<Row>) returns (r: Result<Table, nat>)
    ensures FirstShortRow(rows, 2).Some? ==> r == Failure(FirstShortRow(rows, 2).value)
    ensures FirstShortRow(rows, 2).None? ==> AllPairs(rows) && r == Success(TableOf(rows))
  {
    var table: Table := map[];
    for i := 0 to |rows|
      invariant forall j :: 0 <= j < i ==> |rows[j]| >= 2
      invariant table == TableOf(rows[..i])
    {
      if |rows[i]| < 2 {
        FirstShortRowAt(rows, 2, i);
        return Failure(i);
      }
      assert rows[..i + 1][..i] == rows[..i];
      table := table[rows[i][0] := rows[i][1]];
    }
    assert rows[..|rows|] == rows;
    return Success(table);
  }
}
