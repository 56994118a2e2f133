/** The search step of the command-line entry point: up to four filters, each
    applied to the previous one's output, so that together they act as an AND. */
module Queries {
  import opened Base
  import opened Strings
  import opened Naics
  import opened Enrichment
  import opened Filters

  /** One filter call: the record index it reads and the terms it searches for. */
  datatype Query = Query(field: int, terms: seq<string>)

  predicate ValidQueries(qs: seq<Query>)
  {
    forall i :: 0 <= i < |qs| ==> ValidField(qs[i].field)
  }

  /** The record passes every query. */
  predicate MatchesAll(rec: Record, qs: seq<Query>)
    requires ValidQueries(qs)
  {
    qs == []
    || (MatchesAll(rec, qs[..|qs| - 1]) && Matches(rec, qs[|qs| - 1].field, qs[|qs| - 1].terms))
  }

  /** The records that pass every query, in input order. */
  function FilterAll(qs: seq<Query>, rs: seq<Record>): seq<Record>
    requires ValidQueries(qs)
  {
    if rs == [] then []
    else
      var last := rs[|rs| - 1];
      FilterAll(qs, rs[..|rs| - 1]) + (if MatchesAll(last, qs) then [last] else [])
  }

  /** The queries applied one after another, the first one first, each to the
      previous one's output. */
  function Chain(qs: seq<Query>, rs: seq<Record>): seq<Record>
    requires ValidQueries(qs)
  {
    if qs == [] then rs
    else
      var q := qs[|qs| - 1];
      Filter(q.field, q.terms, Chain(qs[..|qs| - 1], rs))
  }

  lemma {:induction false} FilterAllNoQueries(rs: seq<Record>)
    ensures FilterAll([], rs) == rs
  {
    if rs != [] {
      FilterAllNoQueries(rs[..|rs| - 1]);
      assert rs[..|rs| - 1] + [rs[|rs| - 1]] == rs;
    }
  }

  /** Filtering the records that pass `ps` by one more query `q` leaves the
      records that pass `ps + [q]`. */
  lemma {:induction false} FilterAfterFilterAll(ps: seq<Query>, q: Query, rs: seq<Record>)
    requires ValidQueries(ps) && ValidField(q.field)
    ensures ValidQueries(ps + [q])
    ensures Filter(q.field, q.terms, FilterAll(ps, rs)) == FilterAll(ps + [q], rs)
  {
    var qs := ps + [q];
    assert qs[..|qs| - 1] == ps;
    if rs != [] {
      var n := |rs| - 1;
      var x := rs[n];
      var front := FilterAll(ps, rs[..n]);
      FilterAfterFilterAll(ps, q, rs[..n]);
      assert MatchesAll(x, qs) == (MatchesAll(x, ps) && Matches(x, q.field, q.terms));
      if MatchesAll(x, ps) {
        var once := front + [x];
        assert FilterAll(ps, rs) == once;
        assert once[..|once| - 1] == front;
        assert Filter(q.field, q.terms, once)
          == Filter(q.field, q.terms, front) + (if Matches(x, q.field, q.terms) then [x] else []);
      } else {
        assert FilterAll(ps, rs) == front;
      }
    }
  }

  /** Chained filters keep exactly the records that satisfy every filter. */
  lemma {:induction false} ChainIsConjunction(qs: seq<Query>, rs: seq<Record>)
    requires ValidQueries(qs)
    ensures Chain(qs, rs) == FilterAll(qs, rs)
  {
    if qs == [] {
      FilterAllNoQueries(rs);
    } else {
      var n := |qs| - 1;
      ChainIsConjunction(qs[..n], rs);
      FilterAfterFilterAll(qs[..n], qs[n], rs);
      assert qs[..n] + [qs[n]] == qs;
    }
  }

  /** The order of two chained filters does not matter. */
  lemma {:induction false} FilterCommutes(f: int, ts: seq<string>, g: int, us: seq<string>, rs: seq<Record>)
    requires ValidField(f) && ValidField(g)
    ensures Filter(g, us, Filter(f, ts, rs)) == Filter(f, ts, Filter(g, us, rs))
  {
    if rs != [] {
      var n := |rs| - 1;
      var x := rs[n];
      FilterCommutes(f, ts, g, us, rs[..n]);
      var a := Filter(f, ts, rs[..n]);
      var b := Filter(g, us, rs[..n]);
      var mf, mg := Matches(x, f, ts), Matches(x, g, us);
      assert Filter(f, ts, rs) == a + (if mf then [x] else []);
      assert Filter(g, us, rs) == b + (if mg then [x] else []);
      assert (a + [x])[..|a|] == a;
      assert (b + [x])[..|b|] == b;
      var lhs := Filter(g, us, Filter(f, ts, rs));
      var rhs := Filter(f, ts, Filter(g, us, rs));
      if mf {
        assert lhs == Filter(g, us, a) + (if mg then [x] else []);
      } else {
        assert Filter(f, ts, rs) == a;
      }
      if mg {
        assert rhs == Filter(f, ts, b) + (if mf then [x] else []);
      } else {
        assert Filter(g, us, rs) == b;
      }
    }
  }

  /** The search options of the command line; an empty list stands for an
      option that was not given (the entry point tests each with `if args.x:`). */
  datatype SearchArgs = SearchArgs(state: seq<string>, name: seq<string>, naicsCode: seq<string>, naicsHuman: seq<string>)

  /** The record index each option is searched in. */
  datatype SearchFields = SearchFields(state: int, name: int, naicsCode: int, naicsHuman: int)

  /** The indices the entry point passes: 3, 0, 4 and 5. */
  const MAIN_FIELDS := SearchFields(3, 0, 4, 5)

  /** The indices of the state, name, NAICS code and NAICS label columns of the
      output layout: 3, 0, 5 and 6. */
  const INTENDED_FIELDS := SearchFields(OutputIndex(State), OutputIndex(BusinessName), OutputIndex(NaicsCode), LABEL_INDEX)

  predicate ValidFields(fs: SearchFields)
  {
    ValidField(fs.state) && ValidField(fs.name) && ValidField(fs.naicsCode) && ValidField(fs.naicsHuman)
  }

  function LowerAll(terms: seq<string>): seq<string>
  {
    seq(|terms|, i requires 0 <= i < |terms| => Lower(terms[i]))
  }

  /** The query for one option, or none when the option was not given. */
  function OptionQuery(terms: seq<string>, field: int, lowered: bool): seq<Query>
  {
    if terms == [] then [] else [Query(field, if lowered then LowerAll(terms) else terms)]
  }

  /** The queries the entry point runs, in its order. The NAICS code terms are
      not lower-cased; the other three option lists are. */
  function QueriesOf(args: SearchArgs, fs: SearchFields): (qs: seq<Query>)
    requires ValidFields(fs)
    ensures ValidQueries(qs)
  {
    OptionQuery(args.state, fs.state, true) + OptionQuery(args.name, fs.name, true)
    + OptionQuery(args.naicsCode, fs.naicsCode, false) + OptionQuery(args.naicsHuman, fs.naicsHuman, true)
  }

  /** The loop that lower-cases an option's terms before they are searched for. */
  method LowerTerms(terms: seq<string>) returns (lowered: seq<string>)
    ensures lowered == LowerAll(terms)
  {
    lowered := [];
    for i := 0 to |terms|
      invariant |lowered| == i
      invariant forall k :: 0 <= k < i ==> lowered[k] == Lower(terms[k])
    {
      lowered := lowered + [Lower(terms[i])];
    }
  }

  /** One `if args.x:` block of the entry point: when the option was given,
      lower-case its terms (unless told not to) and narrow `results` by one
      filter call; otherwise leave `results` as it was. */
  method SearchOption(terms: seq<string>, field: int, lowered: bool, results: seq<Record>)
    returns (narrowed: seq<Record>)
    requires ValidField(field)
    ensures ValidQueries(OptionQuery(terms, field, lowered))
    ensures narrowed == Chain(OptionQuery(terms, field, lowered), results)
  {
    narrowed := results;
    if terms != [] {
      var searchTerms := terms;
      if lowered {
        searchTerms := LowerTerms(terms);
      }
      narrowed := FilterRecords(field, searchTerms, results);
      ChainOne(Query(field, searchTerms), results);
    }
  }

  /** The search step of the entry point: each given option narrows `results`
      by one filter call. The outcome keeps exactly the records that satisfy
      every given option. */
  method RunQueries(args: SearchArgs, fs: SearchFields, records: seq<Record>) returns (results: seq<Record>)
    requires ValidFields(fs)
    ensures results == FilterAll(QueriesOf(args, fs), records)
  {
    var o1, o2 := OptionQuery(args.state, fs.state, true), OptionQuery(args.name, fs.name, true);
    var o3, o4 := OptionQuery(args.naicsCode, fs.naicsCode, false), OptionQuery(args.naicsHuman, fs.naicsHuman, true);
    results := SearchOption(args.state, fs.state, true, records);
    results := SearchOption(args.name, fs.name, true, results);
    ChainAppend(o1, o2, records);
    results := SearchOption(args.naicsCode, fs.naicsCode, false, results);
    ChainAppend(o1 + o2, o3, records);
    results := SearchOption(args.naicsHuman, fs.naicsHuman, true, results);
    ChainAppend(o1 + o2 + o3, o4, records);
    ChainIsConjunction(QueriesOf(args, fs), records);
  }

  /** A chain of one query is one filter call. */
  lemma ChainOne(q: Query, rs: seq<Record>)
    requires ValidField(q.field)
    ensures ValidQueries([q]) && Chain([q], rs) == Filter(q.field, q.terms, rs)
  {
    assert [q][..0] == [];
  }

  /** Running the chain `qs` on the output of the chain `ps` is the chain `ps + qs`. */
  lemma {:induction false} ChainAppend(ps: seq<Query>, qs: seq<Query>, rs: seq<Record>)
    requires ValidQueries(ps) && ValidQueries(qs)
    ensures ValidQueries(ps + qs)
    ensures Chain(ps + qs, rs) == Chain(qs, Chain(ps, rs))
  {
    if qs == [] {
      assert ps + qs == ps;
    } else {
      var n := |qs| - 1;
      ChainAppend(ps, qs[..n], rs);
      assert (ps + qs)[..|ps + qs| - 1] == ps + qs[..n];
    }
  }

  /** One query on one record keeps it iff it matches. */
  lemma FilterAllOneQuery(q: Query, rec: Record)
    requires ValidField(q.field)
    ensures FilterAll([q], [rec]) == if Matches(rec, q.field, q.terms) then [rec] else []
  {
    assert [q][..0] == [];
    assert MatchesAll(rec, [q]) == Matches(rec, q.field, q.terms);
    assert [rec][..0] == [];
    assert FilterAll([q], [rec]) == FilterAll([q], []) + (if MatchesAll(rec, [q]) then [rec] else []);
  }

  /** As written, the NAICS code option is searched in index 4, the ZIP code:
      the query for code 541511 drops the record of a business in ZIP code
      10001 whose NAICS code is 541511, while the same query on the NAICS code
      column keeps it. */
  lemma MainNaicsCodeSearchMissesCode(rec: Record)
    requires rec[OutputIndex(Zip)] == Field("10001") && rec[OutputIndex(NaicsCode)] == Field("541511")
    ensures var args := SearchArgs([], [], ["541511"], []);
      && FilterAll(QueriesOf(args, MAIN_FIELDS), [rec]) == []
      && FilterAll(QueriesOf(args, INTENDED_FIELDS), [rec]) == [rec]
  {
    var args := SearchArgs([], [], ["541511"], []);
    var terms := ["541511"];
    assert QueriesOf(args, MAIN_FIELDS) == [Query(4, terms)];
    assert QueriesOf(args, INTENDED_FIELDS) == [Query(5, terms)];
    assert FieldText(rec, 4) == Lower("10001");
    assert FieldText(rec, 5) == Lower("541511");
    ShorterTextNeverContains(Lower("10001"), "541511");
    LowerKeepsNonUpper("541511");
    assert Contains("541511", "541511") by { assert "541511"[..6] == "541511"; }
    assert !Matches(rec, 4, terms);
    assert Matches(rec, 5, terms);
    FilterAllOneQuery(Query(4, terms), rec);
    FilterAllOneQuery(Query(5, terms), rec);
  }

  /** As written, the two NAICS options read the ZIP code and the NAICS code
      of the raw row rather than the NAICS code and its label. */
  lemma MainNaicsSearchFields(row: Row, table: Table, terms: seq<string>)
    requires |row| >= RAW_WIDTH
    ensures Matches(Enrich(row, table), MAIN_FIELDS.naicsCode, terms)
      <==> exists t :: t in terms && Contains(Lower(row[InputIndex(Zip)]), t)
    ensures Matches(Enrich(row, table), MAIN_FIELDS.naicsHuman, terms)
      <==> exists t :: t in terms && Contains(Lower(row[InputIndex(NaicsCode)]), t)
  {
    EnrichLayout(row, table, Zip);
    EnrichLayout(row, table, NaicsCode);
  }

  /** With the indices of the output layout, every option reads its own column:
      state and name as the entry point already does, the NAICS code option
      the raw NAICS code, and the NAICS label option the looked-up label. */
  lemma IntendedSearchFields(row: Row, table: Table, terms: seq<string>)
    requires |row| >= RAW_WIDTH
    ensures INTENDED_FIELDS.state == MAIN_FIELDS.state && INTENDED_FIELDS.name == MAIN_FIELDS.name
    ensures Matches(Enrich(row, table), INTENDED_FIELDS.state, terms)
      <==> exists t :: t in terms && Contains(Lower(row[InputIndex(State)]), t)
    ensures Matches(Enrich(row, table), INTENDED_FIELDS.name, terms)
      <==> exists t :: t in terms && Contains(Lower(row[InputIndex(BusinessName)]), t)
    ensures Matches(Enrich(row, table), INTENDED_FIELDS.naicsCode, terms)
      <==> exists t :: t in terms && Contains(Lower(row[InputIndex(NaicsCode)]), t)
    ensures Matches(Enrich(row, table), INTENDED_FIELDS.naicsHuman, terms)
      <==> exists t :: t in terms && Contains(Lower(Label(table, row[InputIndex(NaicsCode)])), t)
  {
    EnrichLayout(row, table, State);
    EnrichLayout(row, table, BusinessName);
    EnrichLayout(row, table, NaicsCode);
  }
}
