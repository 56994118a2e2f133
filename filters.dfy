/** The record filter of the query layer: keep the records in which some search
    term occurs in the lower-cased text of one field; chained filters narrow. */
module Filters {
  import opened Base
  import opened Strings
  import opened Enrichment

  /** Python's `str()` of a cell: the text itself, "None" for a missing
      estimate, and the float rendering "250000.0" of a whole-dollar estimate. */
  function Show(c: Cell): string
  {
    match c
    case Field(s) => s
    case Average(None) => "None"
    case Average(Some(n)) => Decimal(n) + ".0"
  }

  /** The index can be used on an 18-field list without IndexError. */
  predicate ValidField(field: int)
  {
    -RECORD_WIDTH <= field < RECORD_WIDTH
  }

  /** Python list indexing: a negative index counts from the end. */
  function Position(field: int): (i: nat)
    requires ValidField(field)
    ensures i < RECORD_WIDTH
    ensures field >= 0 ==> i == field
    ensures field < 0 ==> i + (-field) == RECORD_WIDTH
  {
    if field < 0 then field + RECORD_WIDTH else field
  }

  /** `str(company[field_name]).lower()` */
  function FieldText(rec: Record, field: int): string
    requires ValidField(field)
  {
    Lower(Show(rec[Position(field)]))
  }

  /** Some search term occurs in the field's text. The terms are used as given:
      lower-casing them is the caller's job. */
  predicate Matches(rec: Record, field: int, terms: seq<string>)
    requires ValidField(field)
  {
    exists t :: t in terms && Contains(FieldText(rec, field), t)
  }

  /** The result of `get_company_ppp_requests_filter`: the matching records, in order. */
  function Filter(field: int, terms: seq<string>, rs: seq<Record>): seq<Record>
    requires ValidField(field)
  {
    if rs == [] then []
    else
      var last := rs[|rs| - 1];
      Filter(field, terms, rs[..|rs| - 1]) + (if Matches(last, field, terms) then [last] else [])
  }

  /** The filter loop: for each record, try the terms in turn; on the first hit
      append the record and `break`, so a record is appended at most once. */
  method FilterRecords(field: int, terms: seq<string>, records: seq<Record>) returns (results: seq<Record>)
    requires ValidField(field)
    ensures results == Filter(field, terms, records)
  {
    results := [];
    for i := 0 to |records|
      invariant results == Filter(field, terms, records[..i])
    {
      var company := records[i];
      var text := FieldText(company, field);
      assert records[..i + 1][..i] == records[..i];
      ghost var before := results;
      for j := 0 to |terms|
        invariant results == before
        invariant forall k :: 0 <= k < j ==> !Contains(text, terms[k])
      {
        if Contains(text, terms[j]) {
          results := results + [company];
          break;
        }
      }
    }
    assert records[..|records|] == records;
  }

  /** The positions of the kept records in the input. */
  ghost function KeptPositions(field: int, terms: seq<string>, rs: seq<Record>): seq<nat>
    requires ValidField(field)
  {
    if rs == [] then []
    else
      var n := |rs| - 1;
      KeptPositions(field, terms, rs[..n]) + (if Matches(rs[n], field, terms) then [n] else [])
  }

  /** The output is the input read at the kept positions. */
  lemma {:induction false} KeptPositionsRead(field: int, terms: seq<string>, rs: seq<Record>)
    requires ValidField(field)
    ensures var out, pos := Filter(field, terms, rs), KeptPositions(field, terms, rs);
      |pos| == |out| && forall k :: 0 <= k < |pos| ==> pos[k] < |rs| && out[k] == rs[pos[k]]
  {
    if rs != [] {
      var n := |rs| - 1;
      var front := rs[..n];
      KeptPositionsRead(field, terms, front);
      var pos' := KeptPositions(field, terms, front);
      var out := Filter(field, terms, rs);
      var pos := KeptPositions(field, terms, rs);
      assert out == Filter(field, terms, front) + (if Matches(rs[n], field, terms) then [rs[n]] else []);
      assert pos == pos' + (if Matches(rs[n], field, terms) then [n] else []);
      forall k | 0 <= k < |pos|
        ensures pos[k] < |rs| && out[k] == rs[pos[k]]
      {
        if k < |pos'| {
          assert front[pos'[k]] == rs[pos'[k]];
        }
      }
    }
  }

  /** Positions below `bound`, each larger than the one before. */
  predicate IncreasingBelow(pos: seq<nat>, bound: nat)
  {
    && (forall k :: 0 <= k < |pos| ==> pos[k] < bound)
    && (forall k, l :: 0 <= k < l < |pos| ==> pos[k] < pos[l])
  }

  /** The kept positions are strictly increasing positions of the input. */
  lemma {:induction false} KeptPositionsIncreasing(field: int, terms: seq<string>, rs: seq<Record>)
    requires ValidField(field)
    ensures IncreasingBelow(KeptPositions(field, terms, rs), |rs|)
  {
    if rs != [] {
      var n := |rs| - 1;
      KeptPositionsIncreasing(field, terms, rs[..n]);
      var pos' := KeptPositions(field, terms, rs[..n]);
      var pos := KeptPositions(field, terms, rs);
      assert pos == pos' + (if Matches(rs[n], field, terms) then [n] else []);
    }
  }

  /** The kept positions are exactly the positions whose record matches. */
  lemma {:induction false} KeptPositionsExact(field: int, terms: seq<string>, rs: seq<Record>)
    requires ValidField(field)
    ensures forall i :: 0 <= i < |rs| ==> (i in KeptPositions(field, terms, rs) <==> Matches(rs[i], field, terms))
  {
    if rs != [] {
      var n := |rs| - 1;
      var front := rs[..n];
      KeptPositionsExact(field, terms, front);
      KeptPositionsIncreasing(field, terms, front);
      var pos' := KeptPositions(field, terms, front);
      var pos := KeptPositions(field, terms, rs);
      var last := Matches(rs[n], field, terms);
      assert pos == pos' + (if last then [n] else []);
      assert n !in pos';
      forall i | 0 <= i < |rs|
        ensures i in pos <==> Matches(rs[i], field, terms)
      {
        if i < n {
          assert front[i] == rs[i];
          assert i in pos <==> i in pos';
        } else {
          assert i in pos <==> last;
        }
      }
    }
  }

  /** The filter keeps exactly the matching records, once each, in input order:
      its output is the input read at strictly increasing positions, and those
      positions are precisely the ones whose record matches. */
  lemma FilterSelectsMatches(field: int, terms: seq<string>, rs: seq<Record>)
    requires ValidField(field)
    ensures var out, pos := Filter(field, terms, rs), KeptPositions(field, terms, rs);
      && |pos| == |out| <= |rs|
      && (forall k :: 0 <= k < |pos| ==> pos[k] < |rs| && out[k] == rs[pos[k]])
      && (forall k, l :: 0 <= k < l < |pos| ==> pos[k] < pos[l])
      && (forall i :: 0 <= i < |rs| ==> (i in pos <==> Matches(rs[i], field, terms)))
  {
    KeptPositionsRead(field, terms, rs);
    KeptPositionsIncreasing(field, terms, rs);
    KeptPositionsExact(field, terms, rs);
    FilterShrinks(field, terms, rs);
  }

  lemma {:induction false} FilterShrinks(field: int, terms: seq<string>, rs: seq<Record>)
    requires ValidField(field)
    ensures |Filter(field, terms, rs)| <= |rs|
  {
    if rs != [] {
      FilterShrinks(field, terms, rs[..|rs| - 1]);
    }
  }

  /** Membership: a record is in the output iff it is in the input and matches. */
  lemma FilterMembership(field: int, terms: seq<string>, rs: seq<Record>, rec: Record)
    requires ValidField(field)
    ensures rec in Filter(field, terms, rs) <==> rec in rs && Matches(rec, field, terms)
  {
    FilterSelectsMatches(field, terms, rs);
    var out, pos := Filter(field, terms, rs), KeptPositions(field, terms, rs);
    if rec in out {
      var k :| 0 <= k < |out| && out[k] == rec;
      assert rs[pos[k]] == rec;
      assert pos[k] in pos;
    }
    if rec in rs && Matches(rec, field, terms) {
      var i :| 0 <= i < |rs| && rs[i] == rec;
      assert i in pos;
      var k :| 0 <= k < |pos| && pos[k] == i;
      assert out[k] == rec;
    }
  }

  /** An empty term list keeps nothing. */
  lemma {:induction false} FilterNoTerms(field: int, rs: seq<Record>)
    requires ValidField(field)
    ensures Filter(field, [], rs) == []
  {
    if rs != [] {
      FilterNoTerms(field, rs[..|rs| - 1]);
    }
  }

  /** An empty term matches every text, so a term list holding "" keeps everything. */
  lemma {:induction false} FilterEmptyTermKeepsAll(field: int, terms: seq<string>, rs: seq<Record>)
    requires ValidField(field) && "" in terms
    ensures Filter(field, terms, rs) == rs
  {
    if rs != [] {
      var n := |rs| - 1;
      FilterEmptyTermKeepsAll(field, terms, rs[..n]);
      EmptyTermOccurs(FieldText(rs[n], field));
      assert rs[..n] + [rs[n]] == rs;
    }
  }

  /** Filtering what a filter kept, with the same field and terms, changes nothing. */
  lemma {:induction false} FilterIdempotent(field: int, terms: seq<string>, rs: seq<Record>)
    requires ValidField(field)
    ensures Filter(field, terms, Filter(field, terms, rs)) == Filter(field, terms, rs)
  {
    if rs != [] {
      var n := |rs| - 1;
      var front := Filter(field, terms, rs[..n]);
      FilterIdempotent(field, terms, rs[..n]);
      if Matches(rs[n], field, terms) {
        var once := front + [rs[n]];
        assert Filter(field, terms, rs) == once;
        assert once[..|once| - 1] == front && once[|once| - 1] == rs[n];
        assert Filter(field, terms, once) == Filter(field, terms, front) + [rs[n]];
      } else {
        assert Filter(field, terms, rs) == front;
      }
    }
  }

  /** A term with an upper-case letter never matches, because only the field
      text is lower-cased; a term list made of such terms keeps nothing. */
  lemma {:induction false} FilterUpperTermsKeepNothing(field: int, terms: seq<string>, rs: seq<Record>)
    requires ValidField(field)
    requires forall t :: t in terms ==> exists i :: 0 <= i < |t| && IsUpper(t[i])
    ensures Filter(field, terms, rs) == []
  {
    if rs != [] {
      var n := |rs| - 1;
      FilterUpperTermsKeepNothing(field, terms, rs[..n]);
      forall t | t in terms
        ensures !Contains(FieldText(rs[n], field), t)
      {
        var i :| 0 <= i < |t| && IsUpper(t[i]);
        UpperTermNeverOccursInLower(Show(rs[n][Position(field)]), t, i);
      }
    }
  }
}
