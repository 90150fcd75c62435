/** The output table: each group of the grouped sum becomes a row whose
    'Year' is the group code formatted with "20%02d" and whose 'Loss Area'
    is the group's sum. */
module Formatting {
  import opened AnnualLoss

  predicate IsDigit(ch: char) {
    '0' <= ch <= '9'
  }

  predicate AllDigits(s: string) {
    forall i :: 0 <= i < |s| ==> IsDigit(s[i])
  }

  function DigitChar(d: nat): (ch: char)
    requires d < 10
    ensures IsDigit(ch) && (ch as int) - ('0' as int) == d
  {
    (('0' as int) + d) as char
  }

  /** `n` in decimal, without leading zeros. */
  function Decimal(n: nat): (s: string)
    ensures |s| >= 1 && AllDigits(s)
    ensures n >= 10 ==> |s| >= 2
    ensures n > 0 ==> s[0] != '0'
  {
    if n < 10 then [DigitChar(n)] else Decimal(n / 10) + [DigitChar(n % 10)]
  }

  /** The number a string of decimal digits denotes. */
  function ParseDigits(s: string): nat
    requires AllDigits(s)
  {
    if s == [] then 0
    else ParseDigits(s[..|s| - 1]) * 10 + ((s[|s| - 1] as int) - ('0' as int))
  }

  /** `s` padded on the left with zeros to at least `width` characters, the
      `%0<width>d` of a format string. */
  function ZeroPad(s: string, width: nat): (r: string)
    ensures |r| == if |s| >= width then |s| else width
    decreases width - |s|
  {
    if |s| >= width then s else ZeroPad("0" + s, width)
  }

  /** ee.Number(code).format("20%02d"): the loss year of a group code. */
  function YearLabel(code: nat): string {
    "20" + ZeroPad(Decimal(code), 2)
  }

  lemma {:induction false} DecimalRoundTrip(n: nat)
    ensures ParseDigits(Decimal(n)) == n
  {
    var s := Decimal(n);
    if n >= 10 {
      DecimalRoundTrip(n / 10);
      assert s[..|s| - 1] == Decimal(n / 10);
    }
  }

  /** A leading zero does not change the value. */
  lemma {:induction false} LeadingZero(s: string)
    requires AllDigits(s)
    ensures AllDigits("0" + s) && ParseDigits("0" + s) == ParseDigits(s)
    decreases |s|
  {
    if s != [] {
      var t := "0" + s;
      assert t[..|t| - 1] == "0" + s[..|s| - 1];
      LeadingZero(s[..|s| - 1]);
    }
  }

  lemma {:induction false} ZeroPadValue(s: string, width: nat)
    requires AllDigits(s)
    ensures AllDigits(ZeroPad(s, width)) && ParseDigits(ZeroPad(s, width)) == ParseDigits(s)
    decreases width - |s|
  {
    if |s| < width {
      LeadingZero(s);
      ZeroPadValue("0" + s, width);
    }
  }

  /** The value of two digits after a prefix. */
  lemma ParseTwoMore(a: string, b: string)
    requires AllDigits(a) && AllDigits(b) && |b| == 2
    ensures AllDigits(a + b)
    ensures ParseDigits(a + b) == ParseDigits(a) * 100 + ParseDigits(b)
  {
    var t := a + b;
    var d0 := (b[0] as int) - ('0' as int);
    var d1 := (b[1] as int) - ('0' as int);
    assert t[..|t| - 1] == a + [b[0]];
    assert (a + [b[0]])[..|a|] == a;
    assert ParseDigits(a + [b[0]]) == ParseDigits(a) * 10 + d0;
    assert ParseDigits(t) == ParseDigits(a + [b[0]]) * 10 + d1;
    assert b[..1] == [b[0]];
    assert [b[0]][..0] == [];
    assert ParseDigits([b[0]]) == d0;
    assert ParseDigits(b) == d0 * 10 + d1;
  }

  /** The label starts with "20" and the digits after it give back the
      code; for codes 0 to 99 it is the four-digit year 2000 + code. */
  lemma YearLabelMeaning(code: nat)
    ensures |YearLabel(code)| >= 4 && YearLabel(code)[..2] == "20"
    ensures AllDigits(YearLabel(code)[2..]) && ParseDigits(YearLabel(code)[2..]) == code
    ensures code < 100 ==>
      |YearLabel(code)| == 4 && AllDigits(YearLabel(code)) && ParseDigits(YearLabel(code)) == 2000 + code
    ensures code >= 100 ==> YearLabel(code) == "20" + Decimal(code)
  {
    YearLabelDigits(code);
    if code < 100 {
      YearLabelTwoDigitCode(code);
    }
  }

  lemma YearLabelDigits(code: nat)
    ensures |YearLabel(code)| >= 4 && YearLabel(code)[..2] == "20"
    ensures YearLabel(code)[2..] == ZeroPad(Decimal(code), 2)
    ensures AllDigits(YearLabel(code)[2..]) && ParseDigits(YearLabel(code)[2..]) == code
  {
    assert YearLabel(code)[2..] == ZeroPad(Decimal(code), 2);
    DecimalRoundTrip(code);
    ZeroPadValue(Decimal(code), 2);
  }

  lemma YearLabelTwoDigitCode(code: nat)
    requires code < 100
    requires YearLabel(code)[2..] == ZeroPad(Decimal(code), 2)
    requires AllDigits(YearLabel(code)[2..]) && ParseDigits(YearLabel(code)[2..]) == code
    ensures |YearLabel(code)| == 4 && AllDigits(YearLabel(code)) && ParseDigits(YearLabel(code)) == 2000 + code
  {
    var digits := ZeroPad(Decimal(code), 2);
    assert |Decimal(code)| <= 2 by {
      if code >= 10 {
        assert Decimal(code) == Decimal(code / 10) + [DigitChar(code % 10)];
      }
    }
    ParseTwoMore("20", digits);
    assert ParseDigits("20") == 20 by {
      assert "20"[..1] == "2";
      assert "2"[..0] == "";
    }
  }

  /** Different codes give different labels. */
  lemma YearLabelInjective(a: nat, b: nat)
    requires YearLabel(a) == YearLabel(b)
    ensures a == b
  {
    YearLabelMeaning(a);
    YearLabelMeaning(b);
  }

  /** Two worked values: code 3 is "2003" and code 22 is "2022". */
  lemma YearLabelExamples()
    ensures YearLabel(3) == "2003" && YearLabel(22) == "2022"
  {
    assert Decimal(3) == "3";
    assert ZeroPad("3", 2) == "03";
    assert Decimal(22) == "22" by {
      assert Decimal(2) == "2";
    }
  }

  // ---------------------------------------------------------------------
  // Rows.

  /** ee.Feature(null, {'Year': ..., 'Loss Area': ...}). */
  datatype Row = Row(year: string, lossArea: nat)

  /** statsFormatted: one row per group, in the groups' order. */
  function StatsFormatted(gs: seq<Group>): (rows: seq<Row>) {
    seq(|gs|, i requires 0 <= i < |gs| => Row(YearLabel(gs[i].group), gs[i].sum))
  }

  function RowsTotal(rows: seq<Row>): nat {
    if rows == [] then 0 else rows[0].lossArea + RowsTotal(rows[1..])
  }

  /** Row `i` is group `i`: its year is "20" followed by digits that read
      back as the group's code, and its loss area is the group's sum. */
  lemma StatsFormattedRows(gs: seq<Group>)
    ensures |StatsFormatted(gs)| == |gs|
    ensures forall i :: 0 <= i < |gs| ==>
      && |StatsFormatted(gs)[i].year| >= 4
      && StatsFormatted(gs)[i].year[..2] == "20"
      && AllDigits(StatsFormatted(gs)[i].year[2..])
      && ParseDigits(StatsFormatted(gs)[i].year[2..]) == gs[i].group
      && StatsFormatted(gs)[i].lossArea == gs[i].sum
  {
    forall i | 0 <= i < |gs|
      ensures |YearLabel(gs[i].group)| >= 4 && AllDigits(YearLabel(gs[i].group)[2..])
      ensures YearLabel(gs[i].group)[..2] == "20" && ParseDigits(YearLabel(gs[i].group)[2..]) == gs[i].group
    {
      YearLabelMeaning(gs[i].group);
    }
  }

  /** The rows' loss areas add up to the groups' total. */
  lemma {:induction false} StatsFormattedTotal(gs: seq<Group>)
    ensures RowsTotal(StatsFormatted(gs)) == Total(gs)
  {
    if gs != [] {
      StatsFormattedTotal(gs[1..]);
      assert StatsFormatted(gs)[1..] == StatsFormatted(gs[1..]);
    }
  }

  /** Groups with distinct codes give rows with distinct years. */
  lemma StatsFormattedDistinctYears(gs: seq<Group>)
    requires Sorted(gs)
    ensures forall i, j :: 0 <= i < j < |StatsFormatted(gs)| ==>
      StatsFormatted(gs)[i].year != StatsFormatted(gs)[j].year
  {
    StatsFormattedRows(gs);
  }
}
