/** The loan-range estimator: an ordered chain of substring tests against the
    five disclosed loan bands, each giving that band's midpoint in whole dollars. */
module LoanBands {
  import opened Base
  import opened Strings

  /** The band texts, in the order the chain tests them. */
  const BAND_TEXTS: seq<string> :=
    ["$150,000-350,000", "$350,000-1 million", "$1-2 million", "$2-5 million", "$5-10 million"]

  /** The estimate for each band, position by position with BAND_TEXTS. */
  const MIDPOINTS: seq<nat> := [250000, 675000, 1500000, 3500000, 7500000]

  /** Band `k` is the first band whose text occurs in `loanRange`. */
  ghost predicate FirstBand(loanRange: string, k: int)
  {
    0 <= k < |BAND_TEXTS| && Contains(loanRange, BAND_TEXTS[k])
    && forall j :: 0 <= j < k ==> !Contains(loanRange, BAND_TEXTS[j])
  }

  /** The `if/elif` chain; None when no band occurs (there is no 0.0 fallback). */
  function Estimate(loanRange: string): (r: Option<nat>)
    ensures r.None? <==> forall k :: 0 <= k < |BAND_TEXTS| ==> !Contains(loanRange, BAND_TEXTS[k])
    ensures r.Some? ==> exists k :: FirstBand(loanRange, k) && r.value == MIDPOINTS[k]
  {
    if Contains(loanRange, "$150,000-350,000") then
      assert FirstBand(loanRange, 0); Some(250000)
    else if Contains(loanRange, "$350,000-1 million") then
      assert FirstBand(loanRange, 1); Some(675000)
    else if Contains(loanRange, "$1-2 million") then
      assert FirstBand(loanRange, 2); Some(1500000)
    else if Contains(loanRange, "$2-5 million") then
      assert FirstBand(loanRange, 3); Some(3500000)
    else if Contains(loanRange, "$5-10 million") then
      assert FirstBand(loanRange, 4); Some(7500000)
    else None
  }

  /** No earlier band text occurs inside a later one. Position 1 tells the
      bands apart, except "$1-2 million" against "$150,000-350,000", which
      differ at position 2. */
  lemma EarlierBandAbsent(k: nat, j: nat)
    requires j < k < |BAND_TEXTS|
    ensures !Contains(BAND_TEXTS[k], BAND_TEXTS[j])
  {
    var b := BAND_TEXTS;
    DollarOnlyAtStart(k);
    DollarOnlyAtStart(j);
    if k == 2 && j == 0 {
      NotContainsAnchored(b[2], b[0], 2);
    } else {
      NotContainsAnchored(b[k], b[j], 1);
    }
  }

  /** Every band text starts with its only dollar sign. */
  lemma DollarOnlyAtStart(k: nat)
    requires k < |BAND_TEXTS|
    ensures |BAND_TEXTS[k]| > 2 && BAND_TEXTS[k][0] == '$' && '$' !in BAND_TEXTS[k][1..]
  {
    if k == 0 {
      assert BAND_TEXTS[0][1..] == "150,000-350,000";
    } else if k == 1 {
      assert BAND_TEXTS[1][1..] == "350,000-1 million";
    } else if k == 2 {
      assert BAND_TEXTS[2][1..] == "1-2 million";
    } else if k == 3 {
      assert BAND_TEXTS[3][1..] == "2-5 million";
    } else {
      assert BAND_TEXTS[4][1..] == "5-10 million";
    }
  }

  /** Each band text on its own gets its own midpoint: the order of the chain
      never shadows a band. */
  lemma EstimateOfBand(k: nat)
    requires k < |BAND_TEXTS|
    ensures Estimate(BAND_TEXTS[k]) == Some(MIDPOINTS[k])
  {
    var b := BAND_TEXTS[k];
    assert b[..|b|] == b;
    assert Contains(b, b);
    forall j | 0 <= j < k
      ensures !Contains(b, BAND_TEXTS[j])
    {
      EarlierBandAbsent(k, j);
    }
    assert FirstBand(b, k);
  }
}
