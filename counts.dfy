/** The NAICS report: a Counter over field 5 of every record (a dict whose keys
    keep the order in which they were first seen), and its `most_common(n)`
    ranking. */
module NaicsReport {
  import opened Enrichment

  /** The index the report counts: field 5, the NAICS code in the output layout. */
  const COUNT_INDEX := 5

  function Key(rec: Record): Cell
  {
    rec[COUNT_INDEX]
  }

  /** How many records carry `key`. */
  function Occurrences(rs: seq<Record>, key: Cell): nat
  {
    if rs == [] then 0
    else Occurrences(rs[..|rs| - 1], key) + (if Key(rs[|rs| - 1]) == key then 1 else 0)
  }

  /** The keys in the order the Counter first sees them. */
  function Distinct(rs: seq<Record>): seq<Cell>
  {
    if rs == [] then []
    else
      var seen := Distinct(rs[..|rs| - 1]);
      var key := Key(rs[|rs| - 1]);
      if key in seen then seen else seen + [key]
  }

  ghost predicate Occurs(rs: seq<Record>, key: Cell)
  {
    exists i :: 0 <= i < |rs| && Key(rs[i]) == key
  }

  /** The position at which `key` is first seen. */
  ghost function FirstSeen(rs: seq<Record>, key: Cell): (i: nat)
    requires Occurs(rs, key)
    ensures i < |rs| && Key(rs[i]) == key
    ensures forall j :: 0 <= j < i ==> Key(rs[j]) != key
  {
    var n := |rs| - 1;
    if Occurs(rs[..n], key) then
      var i := FirstSeen(rs[..n], key);
      assert rs[i] == rs[..n][i];
      i
    else
      assert forall j :: 0 <= j < n ==> Key(rs[j]) != key by {
        forall j | 0 <= j < n ensures Key(rs[j]) != key {
          assert rs[..n][j] == rs[j];
        }
      }
      n
  }

  /** The keys are exactly the values that occur, each once, ordered by where
      they are first seen; a key has a positive count iff it is listed. */
  lemma {:induction false} DistinctSpec(rs: seq<Record>)
    ensures var d := Distinct(rs);
      && (forall k, l :: 0 <= k < l < |d| ==> d[k] != d[l])
      && (forall key :: key in d <==> Occurs(rs, key))
      && (forall key :: key in d <==> Occurrences(rs, key) > 0)
  {
    if rs != [] {
      var n := |rs| - 1;
      var front := rs[..n];
      DistinctSpec(front);
      forall key
        ensures Occurs(rs, key) <==> Occurs(front, key) || Key(rs[n]) == key
      {
        if Occurs(rs, key) {
          var i :| 0 <= i < |rs| && Key(rs[i]) == key;
          if i < n { assert Key(front[i]) == key; }
        }
        if Occurs(front, key) {
          var i :| 0 <= i < |front| && Key(front[i]) == key;
          assert Key(rs[i]) == key;
        }
      }
    }
  }

  /** Keys listed earlier were first seen earlier. */
  lemma {:induction false} DistinctInFirstSeenOrder(rs: seq<Record>, k: nat, l: nat)
    requires k < l < |Distinct(rs)|
    ensures Occurs(rs, Distinct(rs)[k]) && Occurs(rs, Distinct(rs)[l])
    ensures FirstSeen(rs, Distinct(rs)[k]) < FirstSeen(rs, Distinct(rs)[l])
  {
    DistinctSpec(rs);
    var d := Distinct(rs);
    assert d[k] in d && d[l] in d;
    var n := |rs| - 1;
    var front := rs[..n];
    var d' := Distinct(front);
    DistinctSpec(front);
    if l < |d'| {
      assert d == d' || d == d' + [Key(rs[n])];
      assert d[k] == d'[k] && d[l] == d'[l];
      DistinctInFirstSeenOrder(front, k, l);
      assert d'[k] in d' && d'[l] in d';
    } else {
      assert d[k] == d'[k];
      assert d'[k] in d';
      assert !Occurs(front, d[l]);
    }
  }

  /** The sum of the counts of `keys`. */
  function SumCounts(keys: seq<Cell>, rs: seq<Record>): nat
  {
    if keys == [] then 0 else SumCounts(keys[..|keys| - 1], rs) + Occurrences(rs, keys[|keys| - 1])
  }

  /** One more record adds one to the sum of the counts iff its key is listed. */
  lemma {:induction false} SumCountsStep(keys: seq<Cell>, rs: seq<Record>, rec: Record)
    requires forall k, l :: 0 <= k < l < |keys| ==> keys[k] != keys[l]
    ensures SumCounts(keys, rs + [rec]) == SumCounts(keys, rs) + (if Key(rec) in keys then 1 else 0)
  {
    if keys != [] {
      var n := |keys| - 1;
      SumCountsStep(keys[..n], rs, rec);
      assert (rs + [rec])[..|rs|] == rs;
      assert Key(rec) in keys <==> Key(rec) in keys[..n] || Key(rec) == keys[n];
      assert keys[n] !in keys[..n];
    }
  }

  /** The counts add up to the number of records. */
  lemma {:induction false} CountsSumToLength(rs: seq<Record>)
    ensures SumCounts(Distinct(rs), rs) == |rs|
  {
    if rs != [] {
      var n := |rs| - 1;
      var front := rs[..n];
      var d' := Distinct(front);
      CountsSumToLength(front);
      DistinctSpec(front);
      assert front + [rs[n]] == rs;
      SumCountsStep(d', front, rs[n]);
      if Key(rs[n]) !in d' {
        var d := d' + [Key(rs[n])];
        assert d[..|d| - 1] == d';
        assert Occurrences(front, Key(rs[n])) == 0;
      }
    }
  }

  /** The counting loop: `cnt[item[5]] += 1` for every record, where a missing
      key counts as 0. The returned keys are the dict's keys in insertion order. */
  method CountNaics(records: seq<Record>) returns (keys: seq<Cell>, cnt: map<Cell, nat>)
    ensures keys == Distinct(records)
    ensures forall key :: key in cnt <==> key in keys
    ensures forall key :: key in cnt ==> cnt[key] == Occurrences(records, key)
  {
    keys, cnt := [], map[];
    for i := 0 to |records|
      invariant keys == Distinct(records[..i])
      invariant forall key :: key in cnt <==> key in keys
      invariant forall key :: key in cnt ==> cnt[key] == Occurrences(records[..i], key)
    {
      var item := records[i];
      assert records[..i + 1][..i] == records[..i];
      DistinctSpec(records[..i]);
      if Key(item) !in cnt {
        keys := keys + [Key(item)];
      }
      cnt := cnt[Key(item) := (if Key(item) in cnt then cnt[Key(item)] else 0) + 1];
    }
    assert records[..|records|] == records;
  }

  /** The dict's items in insertion order. */
  function Items(keys: seq<Cell>, cnt: map<Cell, nat>): seq<(Cell, nat)>
    requires forall key :: key in keys ==> key in cnt
  {
    seq(|keys|, i requires 0 <= i < |keys| => (keys[i], cnt[keys[i]]))
  }

  /** The position of the first largest count. */
  function FirstMax(items: seq<(Cell, nat)>): (k: nat)
    requires items != []
    ensures k < |items|
  {
    if |items| == 1 then 0
    else
      var k := FirstMax(items[..|items| - 1]);
      if items[|items| - 1].1 > items[k].1 then |items| - 1 else k
  }

  /** No count exceeds the one at FirstMax, and every count before it is smaller. */
  lemma {:induction false} FirstMaxIsMax(items: seq<(Cell, nat)>)
    requires items != []
    ensures forall j :: 0 <= j < |items| ==> items[j].1 <= items[FirstMax(items)].1
    ensures forall j :: 0 <= j < FirstMax(items) ==> items[j].1 < items[FirstMax(items)].1
  {
    if |items| > 1 {
      var front := items[..|items| - 1];
      FirstMaxIsMax(front);
      assert forall j :: 0 <= j < |front| ==> front[j] == items[j];
    }
  }

  /** `most_common(n)`: the n items with the largest counts, largest first,
      items with equal counts in their insertion order; nothing for n <= 0. */
  function MostCommon(items: seq<(Cell, nat)>, n: int): seq<(Cell, nat)>
    decreases |items|
  {
    if n <= 0 || items == [] then []
    else
      var k := FirstMax(items);
      [items[k]] + MostCommon(Without(items, k), n - 1)
  }

  /** The input without position k. */
  function Without(items: seq<(Cell, nat)>, k: nat): (rest: seq<(Cell, nat)>)
    requires k < |items|
    ensures |rest| == |items| - 1
  {
    items[..k] + items[k + 1..]
  }

  /** Where each item of the input without position k sits in the input. */
  lemma WithoutAt(items: seq<(Cell, nat)>, k: nat, m: nat)
    requires k < |items| && m < |items| - 1
    ensures Without(items, k)[m] == items[Unskip(k, m)]
  {
  }

  /** Removing position k removes one copy of its item. */
  lemma WithoutMultiset(items: seq<(Cell, nat)>, k: nat)
    requires k < |items|
    ensures multiset(items) == multiset(Without(items, k)) + multiset{items[k]}
  {
    assert items == items[..k] + [items[k]] + items[k + 1..];
  }

  /** Where an item of the input without position k sits in the input. */
  function Unskip(k: nat, m: nat): nat
  {
    if m < k then m else m + 1
  }

  /** At most n items: n of them when there are that many. */
  lemma {:induction false} MostCommonLength(items: seq<(Cell, nat)>, n: int)
    ensures |MostCommon(items, n)| == if n <= 0 then 0 else if n < |items| then n else |items|
    decreases |items|
  {
    if n > 0 && items != [] {
      var rest := Without(items, FirstMax(items));
      MostCommonLength(rest, n - 1);
      MostCommonUnfold(items, n);
      assert |MostCommon(items, n)| == 1 + |MostCommon(rest, n - 1)|;
    } else {
      assert MostCommon(items, n) == [];
    }
  }

  /** Each returned item is drawn from the input. */
  lemma {:induction false} MostCommonFrom(items: seq<(Cell, nat)>, n: int)
    ensures forall x :: x in MostCommon(items, n) ==> x in items
    decreases |items|
  {
    if n > 0 && items != [] {
      var k := FirstMax(items);
      var rest := Without(items, k);
      MostCommonFrom(rest, n - 1);
      var top' := MostCommon(rest, n - 1);
      assert MostCommon(items, n) == [items[k]] + top';
      forall x | x in top'
        ensures x in items
      {
        var m :| 0 <= m < |rest| && rest[m] == x;
        WithoutAt(items, k, m);
      }
    }
  }

  /** No item occurs in `top` more often than in `items`. */
  predicate Within(top: seq<(Cell, nat)>, items: seq<(Cell, nat)>)
  {
    multiset(top) <= multiset(items)
  }

  /** No item is returned more often than it occurs in the input. */
  lemma {:induction false} MostCommonSubMultiset(items: seq<(Cell, nat)>, n: int)
    ensures Within(MostCommon(items, n), items)
    decreases |items|
  {
    if n > 0 && items != [] {
      MostCommonSubMultiset(Without(items, FirstMax(items)), n - 1);
      SubMultisetStep(items, n);
    }
  }

  /** The step of the induction above: selecting the first largest item keeps
      the result within the input when the rest of the selection is within the
      rest of the input. */
  lemma SubMultisetStep(items: seq<(Cell, nat)>, n: int)
    requires n > 0 && items != []
    requires Within(MostCommon(Without(items, FirstMax(items)), n - 1), Without(items, FirstMax(items)))
    ensures Within(MostCommon(items, n), items)
  {
    var k := FirstMax(items);
    var below := multiset(MostCommon(Without(items, k), n - 1));
    WithoutMultiset(items, k);
    MostCommonUnfold(items, n);
    assert multiset(MostCommon(items, n)) == below + multiset{items[k]};
  }

  /** One step of the selection. */
  lemma MostCommonUnfold(items: seq<(Cell, nat)>, n: int)
    requires n > 0 && items != []
    ensures MostCommon(items, n) == [items[FirstMax(items)]] + MostCommon(Without(items, FirstMax(items)), n - 1)
  {
  }

  /** Counts that never increase along the sequence. */
  predicate NonIncreasing(items: seq<(Cell, nat)>)
  {
    forall i, j :: 0 <= i < j < |items| ==> items[i].1 >= items[j].1
  }

  /** The returned counts never increase. */
  lemma {:induction false} MostCommonSorted(items: seq<(Cell, nat)>, n: int)
    ensures NonIncreasing(MostCommon(items, n))
    decreases |items|
  {
    if n > 0 && items != [] {
      var k := FirstMax(items);
      var rest := Without(items, k);
      MostCommonSorted(rest, n - 1);
      MostCommonFrom(items, n);
      FirstMaxIsMax(items);
      var top, top' := MostCommon(items, n), MostCommon(rest, n - 1);
      assert top == [items[k]] + top';
      forall j | 0 <= j < |top'|
        ensures top'[j].1 <= items[k].1
      {
        assert top'[j] == top[j + 1];
        assert top[j + 1] in items;
        var p :| 0 <= p < |items| && items[p] == top'[j];
      }
      forall i, j | 0 <= i < j < |top|
        ensures top[i].1 >= top[j].1
      {
        if i > 0 {
          assert top[i] == top'[i - 1] && top[j] == top'[j - 1];
          assert top'[i - 1].1 >= top'[j - 1].1;
        } else {
          assert top[j] == top'[j - 1];
        }
      }
    }
  }

  /** The first returned item comes before every later returned item with the
      same count. */
  lemma MostCommonFirstTie(items: seq<(Cell, nat)>, n: int, j: nat)
    requires 0 < j < |MostCommon(items, n)|
    requires MostCommon(items, n)[0].1 == MostCommon(items, n)[j].1
    ensures exists q :: (FirstMax(items) < q < |items| && items[q] == MostCommon(items, n)[j])
  {
    var k := FirstMax(items);
    var rest := Without(items, k);
    var top, top' := MostCommon(items, n), MostCommon(rest, n - 1);
    assert top == [items[k]] + top';
    assert top[j] == top'[j - 1];
    MostCommonFrom(rest, n - 1);
    assert top'[j - 1] in rest;
    var m :| 0 <= m < |rest| && rest[m] == top'[j - 1];
    WithoutAt(items, k, m);
    FirstMaxIsMax(items);
    assert items[Unskip(k, m)] == top[j];
  }

  /** Ties keep insertion order: of two returned items with equal counts, the
      earlier one comes from an earlier position of the input. */
  lemma {:induction false} MostCommonTiesInOrder(items: seq<(Cell, nat)>, n: int, i: nat, j: nat)
    requires i < j < |MostCommon(items, n)|
    requires MostCommon(items, n)[i].1 == MostCommon(items, n)[j].1
    ensures exists p, q :: (0 <= p < q < |items|
      && items[p] == MostCommon(items, n)[i] && items[q] == MostCommon(items, n)[j])
    decreases |items|
  {
    var k := FirstMax(items);
    var top := MostCommon(items, n);
    if i == 0 {
      MostCommonFirstTie(items, n, j);
      var q :| k < q < |items| && items[q] == top[j];
      assert items[k] == top[i];
    } else {
      var rest := Without(items, k);
      var top' := MostCommon(rest, n - 1);
      MostCommonUnfold(items, n);
      assert top[i] == top'[i - 1] && top[j] == top'[j - 1];
      MostCommonTiesInOrder(rest, n - 1, i - 1, j - 1);
      var p', q' :| 0 <= p' < q' < |rest| && rest[p'] == top'[i - 1] && rest[q'] == top'[j - 1];
      var p, q := WithoutOrder(items, k, p', q');
      assert items[p] == top[i] && items[q] == top[j];
    }
  }

  /** Removing position k keeps the relative order of the other positions. */
  lemma WithoutOrder(items: seq<(Cell, nat)>, k: nat, p': nat, q': nat) returns (p: nat, q: nat)
    requires k < |items| && p' < q' < |items| - 1
    ensures p < q < |items|
    ensures items[p] == Without(items, k)[p'] && items[q] == Without(items, k)[q']
  {
    WithoutAt(items, k, p');
    WithoutAt(items, k, q');
    p, q := Unskip(k, p'), Unskip(k, q');
  }

  /** Where an item other than the first largest sits once that one is removed. */
  lemma SkipOther(items: seq<(Cell, nat)>, k: nat, q: nat) returns (m: nat)
    requires k < |items| && q < |items| && q != k
    ensures m < |Without(items, k)| && Unskip(k, m) == q && Without(items, k)[m] == items[q]
  {
    m := if q < k then q else q - 1;
    WithoutAt(items, k, m);
  }

  /** `x` ranks ahead of the item at position q: a larger count, or the same
      count at an earlier position. */
  ghost predicate RanksAhead(items: seq<(Cell, nat)>, x: (Cell, nat), q: nat)
    requires q < |items|
  {
    items[q].1 < x.1 || (items[q].1 == x.1 && exists p :: 0 <= p < q && items[p] == x)
  }

  /** Nothing left out outranks what is returned: an item not returned has a
      smaller count than each returned item, or an equal count and a later
      position than it. */
  lemma {:induction false} MostCommonTop(items: seq<(Cell, nat)>, n: int, q: nat, i: nat)
    requires q < |items| && items[q] !in MostCommon(items, n)
    requires i < |MostCommon(items, n)|
    ensures RanksAhead(items, MostCommon(items, n)[i], q)
    decreases |items|
  {
    var k := FirstMax(items);
    var rest := Without(items, k);
    var top, top' := MostCommon(items, n), MostCommon(rest, n - 1);
    MostCommonUnfold(items, n);
    assert top[0] == items[k];
    if i == 0 {
      FirstMaxIsMax(items);
      assert q != k;
    } else {
      var m := SkipOther(items, k, q);
      assert top[i] == top'[i - 1];
      assert items[q] !in top' by {
        assert forall x :: x in top' ==> x in top;
      }
      MostCommonTop(rest, n - 1, m, i - 1);
      RanksAheadUnskip(items, k, m, top[i]);
    }
  }

  /** Ranking ahead survives putting the removed position back. */
  lemma RanksAheadUnskip(items: seq<(Cell, nat)>, k: nat, m: nat, x: (Cell, nat))
    requires k < |items| && m < |items| - 1
    requires RanksAhead(Without(items, k), x, m)
    ensures RanksAhead(items, x, Unskip(k, m))
  {
    var rest := Without(items, k);
    WithoutAt(items, k, m);
    if rest[m].1 == x.1 {
      var p' :| 0 <= p' < m && rest[p'] == x;
      WithoutAt(items, k, p');
      assert Unskip(k, p') < Unskip(k, m) && items[Unskip(k, p')] == x;
    }
  }

  /** The report: count field 5 of every record, then rank the Counter's items
      with `most_common(highestValues)`. The ranked items are what the report
      prints; the Counter is what it returns. */
  method ReportUniqueNaics(highestValues: int, records: seq<Record>)
    returns (keys: seq<Cell>, cnt: map<Cell, nat>, top: seq<(Cell, nat)>)
    ensures keys == Distinct(records)
    ensures forall key :: key in cnt <==> key in keys
    ensures forall key :: key in cnt ==> cnt[key] == Occurrences(records, key)
    ensures top == MostCommon(Items(keys, cnt), highestValues)
    ensures |top| == if highestValues <= 0 then 0
      else if highestValues < |keys| then highestValues else |keys|
    ensures NonIncreasing(top)
    ensures forall i :: 0 <= i < |top| ==>
      top[i].0 in keys && top[i].1 == Occurrences(records, top[i].0)
  {
    keys, cnt := CountNaics(records);
    var items := Items(keys, cnt);
    top := MostCommon(items, highestValues);
    MostCommonLength(items, highestValues);
    MostCommonSorted(items, highestValues);
    MostCommonFrom(items, highestValues);
    forall i | 0 <= i < |top|
      ensures top[i].0 in keys && top[i].1 == Occurrences(records, top[i].0)
    {
      assert top[i] in items;
      var p :| 0 <= p < |items| && items[p] == top[i];
      assert items[p] == (keys[p], cnt[keys[p]]);
    }
  }
}
