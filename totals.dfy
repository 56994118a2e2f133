/** The total of a result set: the sum of every record's estimate, rendered as
    a dollar amount. */
module Totals {
  import opened Base
  import opened Strings
  import opened Naics
  import opened LoanBands
  import opened Enrichment
  import opened Filters
  import opened Money

  /** The record's last field holds an estimate. Adding a missing estimate
      (None) to the running total raises TypeError. */
  predicate HasEstimate(rec: Record)
  {
    rec[ESTIMATE_INDEX].Average? && rec[ESTIMATE_INDEX].amount.Some?
  }

  ghost predicate AllEstimated(rs: seq<Record>)
  {
    forall i :: 0 <= i < |rs| ==> HasEstimate(rs[i])
  }

  function EstimateOf(rec: Record): nat
    requires HasEstimate(rec)
  {
    rec[ESTIMATE_INDEX].amount.value
  }

  /** The sum of the last field over the records, in whole dollars. */
  function SumEstimates(rs: seq<Record>): nat
    requires AllEstimated(rs)
  {
    if rs == [] then 0 else SumEstimates(rs[..|rs| - 1]) + EstimateOf(rs[|rs| - 1])
  }

  /** The summing loop of `get_total_value`, followed by the currency format. */
  method TotalValue(records: seq<Record>) returns (total: string)
    requires AllEstimated(records)
    ensures total == FormatDollars(SumEstimates(records))
  {
    var totalDollarsAverage: nat := 0;
    for i := 0 to |records|
      invariant totalDollarsAverage == SumEstimates(records[..i])
    {
      assert records[..i + 1][..i] == records[..i];
      totalDollarsAverage := totalDollarsAverage + EstimateOf(records[i]);
    }
    assert records[..|records|] == records;
    total := FormatDollars(totalDollarsAverage);
  }

  /** The total of two result sets together is the sum of their totals. */
  lemma {:induction false} SumEstimatesAppend(a: seq<Record>, b: seq<Record>)
    requires AllEstimated(a) && AllEstimated(b)
    ensures AllEstimated(a + b)
    ensures SumEstimates(a + b) == SumEstimates(a) + SumEstimates(b)
    decreases |b|
  {
    if b == [] {
      assert a + b == a;
    } else {
      var n := |b| - 1;
      SumEstimatesAppend(a, b[..n]);
      assert (a + b)[..|a + b| - 1] == a + b[..n];
    }
  }

  /** Filtering never raises the total. */
  lemma {:induction false} FilterNeverRaisesTotal(field: int, terms: seq<string>, rs: seq<Record>)
    requires ValidField(field) && AllEstimated(rs)
    ensures AllEstimated(Filter(field, terms, rs))
    ensures SumEstimates(Filter(field, terms, rs)) <= SumEstimates(rs)
  {
    if rs != [] {
      var n := |rs| - 1;
      var front := Filter(field, terms, rs[..n]);
      FilterNeverRaisesTotal(field, terms, rs[..n]);
      var last := rs[n];
      var kept := if Matches(last, field, terms) then [last] else [];
      assert Filter(field, terms, rs) == front + kept;
      assert [last][..0] == [];
      assert SumEstimates(kept) <= EstimateOf(last);
      SumEstimatesAppend(front, kept);
    }
  }

  /** An empty result set totals "$0.00". */
  lemma TotalOfNothing()
    ensures FormatDollars(SumEstimates([])) == "$0.00"
  {
  }

  /** Estimates of 250000 and 675000 total "$925,000.00". */
  lemma TotalOfTwo(a: Record, b: Record)
    requires HasEstimate(a) && EstimateOf(a) == 250000
    requires HasEstimate(b) && EstimateOf(b) == 675000
    ensures FormatDollars(SumEstimates([a, b])) == "$925,000.00"
  {
    assert [a, b][..1] == [a] && [a][..0] == [];
    assert SumEstimates([a]) == 250000;
    assert SumEstimates([a, b]) == 925000;
    assert Group(925000) == "925,000";
  }

  /** An enriched record has an estimate exactly when its loan range mentions a band. */
  lemma EnrichedHasEstimate(row: Row, table: Table)
    requires |row| >= RAW_WIDTH
    ensures HasEstimate(Enrich(row, table))
      <==> exists k :: 0 <= k < |BAND_TEXTS| && Contains(row[0], BAND_TEXTS[k])
    ensures HasEstimate(Enrich(row, table)) ==> EstimateOf(Enrich(row, table)) in MIDPOINTS
  {
  }

  /** Over an enriched result set with every estimate present, the total lies
      between the smallest and the largest midpoint times the number of records. */
  lemma {:induction false} EnrichedTotalBounds(rs: seq<Record>, rows: seq<Row>, table: Table)
    requires AllWide(rows) && rs == EnrichAll(rows, table) && AllEstimated(rs)
    ensures 250000 * |rs| <= SumEstimates(rs) <= 7500000 * |rs|
  {
    if rows != [] {
      var n := |rows| - 1;
      var front := EnrichAll(rows[..n], table);
      assert rs == front + [Enrich(rows[n], table)];
      assert rs[..|rs| - 1] == front;
      EnrichedTotalBounds(front, rows[..n], table);
      EnrichedHasEstimate(rows[n], table);
    }
  }
}
