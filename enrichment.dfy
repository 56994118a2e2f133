/** The row enricher of the PPP loader: each raw 16-field row becomes an
    18-field record carrying the NAICS label and the loan-range estimate. */
module Enrichment {
  import opened Base
  import opened Naics
  import opened LoanBands

  /** One cell of an output record: a text field, or the estimate, which is
      None when the loan range matched no band. */
  datatype Cell = Field(text: string) | Average(amount: Option<nat>)

  const RAW_WIDTH := 16
  const RECORD_WIDTH := 18

  /** Position of the NAICS label and of the estimate in an output record. */
  const LABEL_INDEX := 6
  const ESTIMATE_INDEX := 17

  type Record = r: seq<Cell> | |r| == RECORD_WIDTH
    witness seq(RECORD_WIDTH, _ => Field(""))

  /** The sixteen columns of the PPP disclosure file. */
  datatype Column =
    | LoanRange | BusinessName | Address | City | State | Zip | NaicsCode
    | BusinessType | RaceEthnicity | Gender | Veteran | NonProfit
    | JobsRetained | DateApproved | Lender | CD

  /** Where a column sits in a raw row (the column list at the head of the loader). */
  function InputIndex(c: Column): nat
  {
    match c
    case LoanRange => 0
    case BusinessName => 1
    case Address => 2
    case City => 3
    case State => 4
    case Zip => 5
    case NaicsCode => 6
    case BusinessType => 7
    case RaceEthnicity => 8
    case Gender => 9
    case Veteran => 10
    case NonProfit => 11
    case JobsRetained => 12
    case DateApproved => 13
    case Lender => 14
    case CD => 15
  }

  /** Where a column sits in an output record (the header row of the CSV writer). */
  function OutputIndex(c: Column): nat
  {
    match c
    case BusinessName => 0
    case Address => 1
    case City => 2
    case State => 3
    case Zip => 4
    case NaicsCode => 5
    case BusinessType => 7
    case RaceEthnicity => 8
    case Gender => 9
    case Veteran => 10
    case NonProfit => 11
    case JobsRetained => 12
    case DateApproved => 13
    case Lender => 14
    case CD => 15
    case LoanRange => 16
  }

  /** The column whose output position is `i`, for every position other than the
      label and the estimate. */
  function ColumnAtOutput(i: nat): (c: Column)
    requires i < RECORD_WIDTH && i != LABEL_INDEX && i != ESTIMATE_INDEX
    ensures OutputIndex(c) == i
  {
    if i == 0 then BusinessName else if i == 1 then Address
    else if i == 2 then City else if i == 3 then State
    else if i == 4 then Zip else if i == 5 then NaicsCode
    else if i == 7 then BusinessType else if i == 8 then RaceEthnicity
    else if i == 9 then Gender else if i == 10 then Veteran
    else if i == 11 then NonProfit else if i == 12 then JobsRetained
    else if i == 13 then DateApproved else if i == 14 then Lender
    else if i == 15 then CD else LoanRange
  }

  /** Every raw column lands at exactly one output position, distinct from the
      label's and the estimate's, and it came from its own input position. */
  lemma LayoutIsPermutation(c: Column, d: Column)
    ensures InputIndex(c) < RAW_WIDTH
    ensures OutputIndex(c) < RECORD_WIDTH
    ensures OutputIndex(c) != LABEL_INDEX && OutputIndex(c) != ESTIMATE_INDEX
    ensures OutputIndex(c) == OutputIndex(d) ==> c == d
    ensures InputIndex(c) == InputIndex(d) ==> c == d
  {
  }

  /** The per-row body of the loading loop: read sixteen positional fields,
      look up the label, estimate the loan range, and lay the record out. */
  function Enrich(row: Row, table: Table): Record
    requires |row| >= RAW_WIDTH
  {
    var loanRange := row[0];
    var naicsCode := row[6];
    [Field(row[1]), Field(row[2]), Field(row[3]), Field(row[4]), Field(row[5]),
     Field(naicsCode), Field(Label(table, naicsCode)),
     Field(row[7]), Field(row[8]), Field(row[9]), Field(row[10]), Field(row[11]),
     Field(row[12]), Field(row[13]), Field(row[14]), Field(row[15]),
     Field(loanRange), Average(Estimate(loanRange))]
  }

  /** Every raw column is copied verbatim to its output position; the label of
      the row's NAICS code sits at position 6 and the estimate of its loan range
      at position 17. */
  lemma EnrichLayout(row: Row, table: Table, c: Column)
    requires |row| >= RAW_WIDTH
    ensures Enrich(row, table)[OutputIndex(c)] == Field(row[InputIndex(c)])
    ensures Enrich(row, table)[LABEL_INDEX] == Field(Label(table, row[InputIndex(NaicsCode)]))
    ensures Enrich(row, table)[ESTIMATE_INDEX] == Average(Estimate(row[InputIndex(LoanRange)]))
  {
  }

  ghost predicate AllWide(rows: seq<Row>)
  {
    forall i :: 0 <= i < |rows| ==> |rows[i]| >= RAW_WIDTH
  }

  /** The `results` list after the loading loop has appended one record per row. */
  function EnrichAll(rows: seq<Row>, table: Table): seq<Record>
    requires AllWide(rows)
  {
    if rows == [] then []
    else EnrichAll(rows[..|rows| - 1], table) + [Enrich(rows[|rows| - 1], table)]
  }

  /** One record per input row, in input order; no row (a header included) is skipped. */
  lemma {:induction false} EnrichAllPointwise(rows: seq<Row>, table: Table)
    requires AllWide(rows)
    ensures |EnrichAll(rows, table)| == |rows|
    ensures forall i :: 0 <= i < |rows| ==> EnrichAll(rows, table)[i] == Enrich(rows[i], table)
  {
    if rows != [] {
      var n := |rows| - 1;
      var front := rows[..n];
      EnrichAllPointwise(front, table);
      var all := EnrichAll(rows, table);
      assert all == EnrichAll(front, table) + [Enrich(rows[n], table)];
      forall i | 0 <= i < |rows|
        ensures all[i] == Enrich(rows[i], table)
      {
        if i < n {
          assert all[i] == EnrichAll(front, table)[i];
          assert front[i] == rows[i];
        }
      }
    }
  }

  /** The loading loop's step: one more row appends its record. */
  lemma EnrichAllStep(rows: seq<Row>, i: nat, table: Table)
    requires i < |rows| && forall j :: 0 <= j <= i ==> |rows[j]| >= RAW_WIDTH
    ensures AllWide(rows[..i]) && AllWide(rows[..i + 1])
    ensures EnrichAll(rows[..i + 1], table) == EnrichAll(rows[..i], table) + [Enrich(rows[i], table)]
  {
    assert rows[..i + 1][..i] == rows[..i];
  }

  /** The loading loop. A row with fewer than sixteen fields raises IndexError
      and aborts the whole load: the result names that row and nothing is kept. */
  method ProcessRows(rows: seq<Row>, table: Table) returns (r: Result<seq<Record>, nat>)
    ensures FirstShortRow(rows, RAW_WIDTH).Some? ==> r == Failure(FirstShortRow(rows, RAW_WIDTH).value)
    ensures FirstShortRow(rows, RAW_WIDTH).None? ==> AllWide(rows) && r == Success(EnrichAll(rows, table))
  {
    var results: seq<Record> := [];
    for i := 0 to |rows|
      invariant forall j :: 0 <= j < i ==> |rows[j]| >= RAW_WIDTH
      invariant results == EnrichAll(rows[..i], table)
    {
      if |rows[i]| < RAW_WIDTH {
        FirstShortRowAt(rows, RAW_WIDTH, i);
        return Failure(i);
      }
      EnrichAllStep(rows, i, table);
      results := results + [Enrich(rows[i], table)];
    }
    assert rows[..|rows|] == rows;
    return Success(results);
  }

  /** Why a load aborted: a short row in the NAICS file or in the PPP file. */
  datatype LoadError = ShortNaicsRow(naicsRow: nat) | ShortPppRow(pppRow: nat)

  /** The whole load: the NAICS table is built first, then the PPP rows are
      enriched with it. */
  method ProcessPppData(naicsRows: seq<Row>, pppRows: seq<Row>) returns (r: Result<seq<Record>, LoadError>)
    ensures FirstShortRow(naicsRows, 2).Some? ==> r == Failure(ShortNaicsRow(FirstShortRow(naicsRows, 2).value))
    ensures FirstShortRow(naicsRows, 2).None? && FirstShortRow(pppRows, RAW_WIDTH).Some? ==>
      r == Failure(ShortPppRow(FirstShortRow(pppRows, RAW_WIDTH).value))
    ensures FirstShortRow(naicsRows, 2).None? && FirstShortRow(pppRows, RAW_WIDTH).None? ==>
      AllPairs(naicsRows) && AllWide(pppRows) && r == Success(EnrichAll(pppRows, TableOf(naicsRows)))
  {
    var table := BuildTable(naicsRows);
    if table.Failure? {
      return Failure(ShortNaicsRow(table.error));
    }
    var records := ProcessRows(pppRows, table.value);
    if records.Failure? {
      return Failure(ShortPppRow(records.error));
    }
    return Success(records.value);
  }
}
