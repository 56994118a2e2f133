# PPP loan analysis: a verified model of the in-memory pipeline

`ppp_analysis.py` loads the SBA's Paycheck Protection Program disclosure file
(loans of $150,000 and more) and a NAICS structure file, and enriches every
loan row. Its `main` then narrows the loans with up to four command-line
searches and writes them out. Only with `-v` does `main` print the results and
a report of their 20 most common NAICS codes. The file also defines
`get_total_value`, which totals a result set, although `main` never calls it.
This project models the in-memory part of the program in Dafny and proves what
each step promises:

- **NAICS table** (`naics.dfy`, module `Naics`): the `(code, label)` rows are
  written into a dict one after another. `BuildTable` is that loop. `TableOf`
  is the dict it leaves, and `Label` reads it with the `"tbd"` fallback.
- **Loan-range estimate** (`loan_bands.dfy`, module `LoanBands`): the
  `if/elif` chain of substring tests against the five band texts. Its result
  is an `Option`, because no match leaves `None`.
- **Row enrichment** (`enrichment.dfy`, module `Enrichment`): a raw 16-field
  row becomes an 18-field record.
  - `ProcessRows` is the loading loop and `ProcessPppData` is the whole load.
  - A short row raises IndexError and aborts the load. The model returns it as
    an error value naming the row.
- **Filter** (`filters.dfy`, module `Filters`):
  `get_company_ppp_requests_filter` with its nested loops and `break`
  (`FilterRecords`), proved against the function `Filter`.
- **Search chain** (`queries.dfy`, module `Queries`): the four `if args.x:`
  blocks of `main`, each one filter call on the previous output.
- **Total** (`money.dfy` and `totals.dfy`, modules `Money` and `Totals`): the
  summing loop of `get_total_value` (defined, but not called by `main`) and
  the `"${:,.2f}"` rendering of a whole-dollar total.
- **NAICS report** (`counts.dfy`, module `NaicsReport`): the Counter over
  field 5 and its `most_common(n)` ranking, which `main` requests under `-v`.
- `base.dfy` (module `Base`) holds `Option`, `Result` and the short-row search
  that both loaders share. `strings.dfy` (module `Strings`) holds Python's
  `in` on strings, `.lower()` and integer rendering.

A record is a list of 18 `Cell`s, as in the source: 17 text fields and the
estimate. Fields are addressed by position, as the source does, with Python's
negative indices allowed.

## Model

| member | source | states |
|---|---|---|
| Base.FirstShortRow | ppp_analysis.py:47-48 | the first row too short to index, or None iff every row is wide enough; every earlier row is wide enough |
| Base.FirstShortRowAt | ppp_analysis.py:144-159 | a short row preceded only by wide rows is the row the IndexError comes from |
| Naics.TableOfKeys | ppp_analysis.py:47-48 | a code is a key of the built dict iff some row has it in its first column |
| Naics.TableOfLastWriteWins | ppp_analysis.py:47-48 | a code maps to the label of the last row carrying it: later duplicates overwrite earlier ones |
| Naics.LabelAfterLoad | ppp_analysis.py:161-165 | the label found is "tbd" when no row carries the code, and otherwise the last such row's label |
| Naics.BuildTable | ppp_analysis.py:44-48 | the loading loop either fails at the first short row, or every row is a pair and the dict is the one built by writing the rows in order |
| LoanBands.Estimate | ppp_analysis.py:167-178 | None iff no band text occurs; otherwise the midpoint of the first band, in chain order, whose text occurs |
| LoanBands.EarlierBandAbsent | ppp_analysis.py:169-177 | no band text contains an earlier band text, so the chain order never shadows a band |
| LoanBands.EstimateOfBand | ppp_analysis.py:167-178 | each band text gets its own midpoint: 250000, 675000, 1500000, 3500000, 7500000 |
| Enrichment.ColumnAtOutput | ppp_analysis.py:88-93 | every output position other than the label's and the estimate's holds one raw column |
| Enrichment.LayoutIsPermutation | ppp_analysis.py:57-72 | the 16 raw columns map one-to-one onto 16 of the 18 output positions, avoiding the label and estimate positions |
| Enrichment.EnrichLayout | ppp_analysis.py:143-182 | every raw field is copied verbatim to its output position; position 6 is the label of the row's code; position 17 is the estimate of its loan range |
| Enrichment.EnrichAllPointwise | ppp_analysis.py:136-184 | one record per input row, in input order, with no row skipped |
| Enrichment.ProcessRows | ppp_analysis.py:136-184 | the loading loop fails at the first row with fewer than 16 fields; otherwise its result is the enrichment of every row, in order |
| Enrichment.ProcessPppData | ppp_analysis.py:136-143 | the table is built first: a short NAICS row fails the load, then a short PPP row does, and otherwise the records are enriched with the whole table |
| Filters.Position | ppp_analysis.py:214 | Python list indexing on 18 fields: a non-negative index as is, a negative one counted from the end |
| Filters.FilterRecords | ppp_analysis.py:205-219 | the nested loop with `break` returns the matching records in order, each at most once |
| Filters.KeptPositionsRead | ppp_analysis.py:211-219 | the output is the input read at the kept positions |
| Filters.KeptPositionsIncreasing | ppp_analysis.py:211-219 | the kept positions are strictly increasing positions of the input: order is kept and no record is taken twice |
| Filters.KeptPositionsExact | ppp_analysis.py:213-218 | a position is kept iff some term occurs in the lower-cased field of its record |
| Filters.FilterSelectsMatches | ppp_analysis.py:205-219 | the output is an order-preserving subsequence of the input, and its positions are exactly those whose record matches |
| Filters.FilterShrinks | ppp_analysis.py:211-219 | the output is no longer than the input |
| Filters.FilterMembership | ppp_analysis.py:211-219 | a record is in the output iff it is in the input and matches |
| Filters.FilterNoTerms | ppp_analysis.py:213 | an empty term list keeps nothing |
| Filters.FilterEmptyTermKeepsAll | ppp_analysis.py:214 | a term list holding "" keeps every record |
| Filters.FilterIdempotent | ppp_analysis.py:205-219 | filtering the output again with the same field and terms changes nothing |
| Filters.FilterUpperTermsKeepNothing | ppp_analysis.py:214 | terms that hold an upper-case letter never match, since only the field is lower-cased |
| Queries.FilterAfterFilterAll | ppp_analysis.py:267-300 | one more filter on the records passing some queries leaves the records passing those queries and the new one |
| Queries.ChainIsConjunction | ppp_analysis.py:267-300 | chained filters keep exactly the records that pass every query, in input order |
| Queries.FilterCommutes | ppp_analysis.py:267-300 | the order of two chained filters does not matter |
| Queries.ChainAppend | ppp_analysis.py:267-300 | running a chain on the output of another chain is the concatenated chain |
| Queries.QueriesOf | ppp_analysis.py:267-300 | the queries the entry point runs use valid field indices |
| Queries.LowerTerms | ppp_analysis.py:269-271 | the loop lower-cases every term, keeping their order |
| Queries.SearchOption | ppp_analysis.py:267-275 | a given option narrows the records by one filter on its (lower-cased) terms; an option not given changes nothing |
| Queries.RunQueries | ppp_analysis.py:267-300 | the search step keeps exactly the records that pass every given option |
| Queries.FilterAllOneQuery | ppp_analysis.py:211-219 | one query on one record keeps it iff it matches |
| Queries.MainNaicsCodeSearchMissesCode | ppp_analysis.py:289-290 | as written, searching code 541511 drops a record whose NAICS code is 541511, and the corrected index keeps it |
| Queries.MainNaicsSearchFields | ppp_analysis.py:289-300 | as written, the NAICS code option reads the ZIP code and the NAICS label option reads the NAICS code |
| Queries.IntendedSearchFields | ppp_analysis.py:267-300 | with the output layout's indices, each option reads its own column: state, name, NAICS code, NAICS label |
| Strings.ContainsIff | ppp_analysis.py:169 | Python's `t in s` holds iff `t` occurs at some position of `s` |
| Strings.EmptyTermOccurs | ppp_analysis.py:214 | the empty string occurs in every string |
| Strings.UpperTermNeverOccursInLower | ppp_analysis.py:214 | a term with an upper-case letter never occurs in lower-cased text |
| Money.GroupDigits | ppp_analysis.py:231 | removing the thousands separators from the rendering gives exactly the amount's decimal rendering, with no leading zero |
| Money.GroupCommas | ppp_analysis.py:231 | the rendering's length is not a multiple of four and a comma stands exactly at every fourth place from the end, so it never starts with a comma and the digits come in groups of three after a leading group of one to three |
| Money.FormatRoundTrip | ppp_analysis.py:231 | reading the "$d,ddd.00" rendering back gives the amount |
| Money.FormatInjective | ppp_analysis.py:231 | different totals render differently |
| Totals.TotalValue | ppp_analysis.py:222-232 | the summing loop returns the rendering of the sum of the estimates |
| Totals.SumEstimatesAppend | ppp_analysis.py:229-230 | the total of two result sets together is the sum of their totals |
| Totals.FilterNeverRaisesTotal | ppp_analysis.py:211-232 | filtering never raises the total |
| Totals.TotalOfNothing | ppp_analysis.py:228-231 | an empty result set totals "$0.00" |
| Totals.TotalOfTwo | ppp_analysis.py:228-231 | estimates of 250000 and 675000 total "$925,000.00" |
| Totals.EnrichedHasEstimate | ppp_analysis.py:167-182 | an enriched record has an estimate iff its loan range mentions a band, and that estimate is one of the five midpoints |
| Totals.EnrichedTotalBounds | ppp_analysis.py:222-232 | over enriched records that all have an estimate, the total lies between 250000 and 7500000 times their number |
| NaicsReport.FirstSeen | ppp_analysis.py:196-198 | the first position at which a key occurs in field 5 |
| NaicsReport.DistinctSpec | ppp_analysis.py:196-198 | the Counter's keys are the field-5 values that occur, each once; a key has a positive count iff it is listed |
| NaicsReport.DistinctInFirstSeenOrder | ppp_analysis.py:196-198 | the keys are listed in the order in which they are first seen |
| NaicsReport.CountsSumToLength | ppp_analysis.py:196-198 | the counts add up to the number of records |
| NaicsReport.CountNaics | ppp_analysis.py:196-198 | the loop leaves a count for every key seen, equal to the number of records carrying it |
| NaicsReport.FirstMaxIsMax | ppp_analysis.py:200 | the chosen item has the largest count, and every earlier item a smaller one |
| NaicsReport.MostCommonLength | ppp_analysis.py:200 | `most_common(n)` returns n items, or all of them when there are fewer, and nothing for n <= 0 |
| NaicsReport.MostCommonFrom | ppp_analysis.py:200 | every returned item is one of the Counter's items |
| NaicsReport.MostCommonSubMultiset | ppp_analysis.py:200 | no item is returned more often than it occurs |
| NaicsReport.MostCommonSorted | ppp_analysis.py:200 | the returned counts never increase |
| NaicsReport.MostCommonTiesInOrder | ppp_analysis.py:200 | returned items with equal counts keep their insertion order |
| NaicsReport.MostCommonTop | ppp_analysis.py:200 | an item left out has a smaller count than each returned item, or an equal count and a later position |
| NaicsReport.ReportUniqueNaics | ppp_analysis.py:194-203 | the report returns the Counter and ranks at most n of its items, with non-increasing counts, each paired with its count over the records |

## Left out

- Downloads from S3, file-existence checks and file writes are I/O with no
  logic. `ppp_csv_prep`, the download half of `naics_csv_prep`, and
  `write_csv_out` with its timestamped name are not modelled.
- CSV parsing and writing are library calls. Rows enter the model already
  split into fields.
- `argparse`, `print` and the timing calls are command-line and logging only.
  `RunQueries` stops where `main` writes the results to a file. The `-v`
  printing of every result is left out. The report that `-v` then requests is
  `ReportUniqueNaics`, with its count of 20 as a parameter; its printing of
  the ranked items becomes the returned `top`.
- The NAICS dict is a module-level global that the loader fills in place.
  The model treats it as the value the load returns and starts it empty. A
  second call of the loader would add to the entries already there; the model
  does not capture that.
- `.lower()` is modelled for ASCII letters only. Python lower-cases every
  Unicode letter, and a few of them change length.
- `str()` of an estimate is modelled by `Filters.Show`. `Show` renders every
  whole number as its digits followed by ".0" ("250000.0"). That matches
  Python's float rendering only below 10^16, a range that covers the five
  midpoints. Exponent forms and non-whole floats are not modelled.
- The total is summed as an exact integer: every estimate is a whole number of
  dollars, well inside a double's exact range. A missing estimate makes the
  source raise TypeError; `TotalValue` requires every estimate to be present.
- `most_common(n)` is a library call with no loop in the source. It is
  modelled as the selection `MostCommon`: repeatedly take the first largest
  count. Its results are proved rather than its heap-based algorithm.
  `most_common(None)` is not modelled, because the only caller passes 20.
- Filters.FilterRecords: requires an index valid for 18 fields (-18 to 17),
  even for an empty term list or no records, where the source would not index
  at all.
- Records are positional, as in the source, rather than named fields.
- Where descriptions of the program and the code differ, the code is followed.
  - A row with fewer than 16 fields aborts the whole load; it is not skipped.
  - An unmatched loan range leaves `None`, not 0.0.
- The header row of each CSV file is loaded like any other row, as the code
  does.

## Findings

| source | as written | input that shows it | evidently intended | confidence | as-written member | corrected member |
|---|---|---|---|---|---|---|
| ppp_analysis.py:290, 300 | `-naics_code` searches index 4 (the ZIP code) and `-naics_human` searches index 5 (the NAICS code) of the enriched record | the record of a business in ZIP code 10001 with NAICS code 541511, searched with `-naics_code 541511`, is dropped | index 5 for `-naics_code` and index 6, the label column of the layout at line 180, for `-naics_human` | not executed | Queries.MainNaicsCodeSearchMissesCode | Queries.IntendedSearchFields |
