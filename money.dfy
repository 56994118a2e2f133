/** The currency rendering of the total, `"${:,.2f}".format(total)`, for a
    whole-dollar total, and a reader that inverts it. */
module Money {
  import opened Base
  import opened Strings

  /** Three decimal digits, with leading zeros. */
  function Pad3(m: nat): string
    requires m < 1000
  {
    [DigitChar(m / 100), DigitChar(m / 10 % 10), DigitChar(m % 10)]
  }

  /** The `,` format option: decimal digits in groups of three, separated by commas. */
  function Group(n: nat): string
  {
    if n < 1000 then Decimal(n) else Group(n / 1000) + "," + Pad3(n % 1000)
  }

  /** `"${:,.2f}".format(n)` for a whole number of dollars: the cents are always ".00". */
  function FormatDollars(n: nat): string
  {
    "$" + Group(n) + ".00"
  }

  predicate IsDigit(c: char)
  {
    '0' <= c <= '9'
  }

  predicate AllDigits(s: string)
  {
    forall i :: 0 <= i < |s| ==> IsDigit(s[i])
  }

  /** The number a string of decimal digits denotes. */
  function DigitsValue(s: string): nat
    requires AllDigits(s)
  {
    if s == [] then 0
    else DigitsValue(s[..|s| - 1]) * 10 + (s[|s| - 1] as int - '0' as int)
  }

  function RemoveCommas(s: string): string
  {
    if s == [] then []
    else RemoveCommas(s[..|s| - 1]) + (if s[|s| - 1] == ',' then [] else [s[|s| - 1]])
  }

  /** Reads an amount in the shape "$" digits-and-commas ".00" back to dollars. */
  function ParseDollars(s: string): Option<nat>
  {
    if |s| >= 4 && s[0] == '$' && s[|s| - 3..] == ".00" then
      var digits := RemoveCommas(s[1..|s| - 3]);
      if digits != [] && AllDigits(digits) then Some(DigitsValue(digits)) else None
    else None
  }

  lemma {:induction false} RemoveCommasAppend(a: string, b: string)
    ensures RemoveCommas(a + b) == RemoveCommas(a) + RemoveCommas(b)
    decreases |b|
  {
    if b == [] {
      assert a + b == a;
    } else {
      var n := |b| - 1;
      RemoveCommasAppend(a, b[..n]);
      assert (a + b)[..|a + b| - 1] == a + b[..n];
    }
  }

  lemma {:induction false} RemoveCommasKeepsDigits(s: string)
    requires AllDigits(s)
    ensures RemoveCommas(s) == s
  {
    if s != [] {
      RemoveCommasKeepsDigits(s[..|s| - 1]);
      assert s[..|s| - 1] + [s[|s| - 1]] == s;
    }
  }

  lemma {:induction false} DigitsValueAppend3(a: string, b: string)
    requires AllDigits(a) && AllDigits(b) && |b| == 3
    ensures AllDigits(a + b)
    ensures DigitsValue(a + b) == DigitsValue(a) * 1000 + DigitsValue(b)
  {
    var ab := a + b;
    var v0, v1, v2 := b[0] as int - '0' as int, b[1] as int - '0' as int, b[2] as int - '0' as int;
    var va := DigitsValue(a);
    assert ab[..|ab| - 1] == a + b[..2];
    assert (a + b[..2])[..|a| + 1] == a + b[..1];
    assert (a + b[..1])[..|a|] == a;
    assert DigitsValue(a + b[..1]) == va * 10 + v0;
    assert DigitsValue(a + b[..2]) == (va * 10 + v0) * 10 + v1;
    assert DigitsValue(ab) == ((va * 10 + v0) * 10 + v1) * 10 + v2;
    assert b[..|b| - 1] == b[..2] && b[..2][..1] == b[..1] && b[..1][..0] == [];
    assert DigitsValue(b[..1]) == v0;
    assert DigitsValue(b[..2]) == v0 * 10 + v1;
    assert DigitsValue(b) == (v0 * 10 + v1) * 10 + v2;
  }

  lemma {:induction false} DecimalDigits(n: nat)
    ensures AllDigits(Decimal(n)) && Decimal(n) != []
    ensures DigitsValue(Decimal(n)) == n
  {
    if n >= 10 {
      DecimalDigits(n / 10);
      var d := Decimal(n);
      assert d[..|d| - 1] == Decimal(n / 10);
    }
  }

  /** `digits` is a non-empty string of decimal digits denoting `n`. */
  predicate Denotes(digits: string, n: nat)
  {
    digits != [] && AllDigits(digits) && DigitsValue(digits) == n
  }

  /** The value of a string of digits, one more digit at a time. */
  lemma DigitsValueLast(s: string, c: char)
    requires AllDigits(s) && IsDigit(c)
    ensures AllDigits(s + [c]) && DigitsValue(s + [c]) == DigitsValue(s) * 10 + (c as int - '0' as int)
  {
    assert (s + [c])[..|s|] == s;
  }

  lemma Pad3Digits(m: nat)
    requires m < 1000
    ensures |Pad3(m)| == 3 && Denotes(Pad3(m), m)
  {
    var h, t, u := DigitChar(m / 100), DigitChar(m / 10 % 10), DigitChar(m % 10);
    DigitsValueLast([], h);
    assert [] + [h] == [h];
    DigitsValueLast([h], t);
    assert [h] + [t] == [h, t];
    DigitsValueLast([h, t], u);
    assert [h, t] + [u] == Pad3(m);
    assert m / 10 == m / 100 * 10 + m / 10 % 10;
    assert m == m / 10 * 10 + m % 10;
  }

  /** The decimal rendering of an amount of four or more digits ends in its
      last three digits, after the rendering of the thousands. */
  lemma DecimalSplit(n: nat)
    requires n >= 1000
    ensures Decimal(n) == Decimal(n / 1000) + Pad3(n % 1000)
  {
    var m := n % 1000;
    assert n / 10 / 10 == n / 100 && n / 100 / 10 == n / 1000;
    assert m / 100 == n / 100 % 10 by {
      assert n == n / 1000 * 1000 + m;
      assert n / 100 == n / 1000 * 10 + m / 100;
    }
    assert m / 10 % 10 == n / 10 % 10 by {
      assert n == n / 1000 * 1000 + m;
      assert n / 10 == n / 1000 * 100 + m / 10;
    }
    assert m % 10 == n % 10;
    assert Decimal(n / 10) == Decimal(n / 100) + [DigitChar(n / 10 % 10)];
    assert Decimal(n / 100) == Decimal(n / 1000) + [DigitChar(n / 100 % 10)];
  }

  /** Below a thousand the rendering has at most three digits. */
  lemma DecimalShort(n: nat)
    requires n < 1000
    ensures AllDigits(Decimal(n)) && 1 <= |Decimal(n)| <= 3
  {
    DecimalDigits(n);
    if n >= 10 {
      assert |Decimal(n / 10)| == (if n / 10 < 10 then 1 else 2);
    }
  }

  /** Without its commas the grouped rendering is the plain decimal number. */
  lemma {:induction false} GroupDigits(n: nat)
    ensures RemoveCommas(Group(n)) == Decimal(n)
    ensures Denotes(RemoveCommas(Group(n)), n)
  {
    DecimalDigits(n);
    if n < 1000 {
      RemoveCommasKeepsDigits(Decimal(n));
    } else {
      GroupDigits(n / 1000);
      assert AllDigits(Pad3(n % 1000));
      GroupStep(Group(n / 1000), Pad3(n % 1000), Decimal(n / 1000));
      DecimalSplit(n);
    }
  }

  /** The step of the induction above: one more comma and group of digits. */
  lemma GroupStep(high: string, low: string, digits: string)
    requires RemoveCommas(high) == digits && AllDigits(low)
    ensures RemoveCommas(high + "," + low) == digits + low
  {
    RemoveCommasAppend(high + ",", low);
    RemoveCommasAppend(high, ",");
    RemoveCommasKeepsDigits(low);
    assert RemoveCommas(",") == [] by { assert ","[..0] == []; }
  }

  /** A comma sits exactly at every fourth place counted from the end: the
      digits come in groups of three, with a leading group of one to three. */
  predicate CommasEveryThird(g: string)
  {
    && |g| % 4 != 0
    && forall i :: 0 <= i < |g| ==> (g[i] == ',' <==> (|g| - i) % 4 == 0)
  }

  /** The `,` option separates the thousands and nothing else; in particular
      the rendering never starts with a comma. */
  lemma {:induction false} GroupCommas(n: nat)
    ensures CommasEveryThird(Group(n))
    ensures Group(n) != [] && Group(n)[0] != ','
  {
    if n < 1000 {
      DecimalShort(n);
    } else {
      GroupCommas(n / 1000);
      assert AllDigits(Pad3(n % 1000));
      CommasStep(Group(n / 1000), Pad3(n % 1000));
    }
  }

  /** The step of the induction above: one more comma and group of three digits. */
  lemma CommasStep(high: string, low: string)
    requires CommasEveryThird(high)
    requires |low| == 3 && AllDigits(low)
    ensures CommasEveryThird(high + "," + low)
  {
    var g := high + "," + low;
    assert |g| % 4 == |high| % 4;
    forall i | 0 <= i < |g|
      ensures g[i] == ',' <==> (|g| - i) % 4 == 0
    {
      if i < |high| {
        assert g[i] == high[i];
        assert (|g| - i) % 4 == (|high| - i) % 4;
      } else if i > |high| {
        assert g[i] == low[i - |high| - 1];
      }
    }
  }

  /** Reading a rendered amount back gives the amount: the rendering loses nothing. */
  lemma FormatRoundTrip(n: nat)
    ensures ParseDollars(FormatDollars(n)) == Some(n)
  {
    var g := Group(n);
    var s := FormatDollars(n);
    assert s[|s| - 3..] == ".00";
    assert s[1..|s| - 3] == g;
    GroupDigits(n);
  }

  /** Distinct totals are rendered differently. */
  lemma FormatInjective(m: nat, n: nat)
    requires FormatDollars(m) == FormatDollars(n)
    ensures m == n
  {
    FormatRoundTrip(m);
    FormatRoundTrip(n);
  }
}
