/**
 * Financial years, which run from April to March (src/common/schemas/project/important-dates.js), and the
 * years and rates that the carbon figures use (src/plugins/projects/services/carbon-impact-calculator.js,
 * src/plugins/projects/carbon-impact/carbon-impact.js).
 */
module FinancialYears {
  import opened Wrappers
  import Decimal
  import Texts

  const START_MONTH: int := 4
  const END_MONTH: int := 3

  datatype Date = Date(month: int, year: int)

  function ToFinancialYear(d: Date): int {
    if d.month >= START_MONTH then d.year else d.year - 1
  }

  /** A date's place among all months. */
  function Rank(d: Date): int {
    12 * d.year + d.month
  }

  function CompareMonthYear(a: Date, b: Date): int {
    if a.year < b.year then -1
    else if a.year > b.year then 1
    else if a.month < b.month then -1
    else if a.month > b.month then 1
    else 0
  }

  /** Zero stands for a financial year that is not set. */
  predicate IsWithinFinancialYearRange(d: Date, start: int, end: int) {
    if start == 0 || end == 0 then true
    else if d.year < start || (d.year == start && d.month < START_MONTH) then false
    else !(d.year > end + 1 || (d.year == end + 1 && d.month > END_MONTH))
  }

  /** A financial year holds the twelve months from its April on. */
  lemma YearHoldsItsMonths(d: Date, year: int)
    requires 1 <= d.month <= 12
    ensures ToFinancialYear(d) == year <==> Rank(Date(4, year)) <= Rank(d) <= Rank(Date(3, year + 1))
  {
  }

  /** The comparison is the one of places among all months. */
  lemma CompareExactly(a: Date, b: Date)
    requires 1 <= a.month <= 12 && 1 <= b.month <= 12
    ensures CompareMonthYear(a, b) ==
            if Rank(a) < Rank(b) then -1 else if Rank(a) > Rank(b) then 1 else 0
  {
  }

  /** The range check is a comparison of financial years. */
  lemma WithinExactly(d: Date, start: int, end: int)
    ensures IsWithinFinancialYearRange(d, start, end) <==>
            start == 0 || end == 0 || start <= ToFinancialYear(d) <= end
  {
  }

  lemma LaterDateLaterYear(a: Date, b: Date)
    requires CompareMonthYear(a, b) <= 0
    ensures ToFinancialYear(a) <= ToFinancialYear(b)
  {
  }

  /** The placeholders that stand in for funding values: one per financial year of the window, in order. */
  method BuildPlaceholderFundingValues(start: Date, end: Date) returns (rows: seq<(int, int)>)
    ensures var s, e := ToFinancialYear(start), ToFinancialYear(end);
            && |rows| == (if s <= e then e - s + 1 else 0)
            && forall i :: 0 <= i < |rows| ==> rows[i] == (s + i, 0)
  {
    var startFY := ToFinancialYear(start);
    var endFY := ToFinancialYear(end);
    rows := [];
    var fy := startFY;
    while fy <= endFY
      invariant startFY <= fy && (fy <= endFY + 1 || fy == startFY)
      invariant |rows| == fy - startFY
      invariant forall i :: 0 <= i < |rows| ==> rows[i] == (startFY + i, 0)
      decreases endFY - fy
    {
      rows := rows + [(fy, 0)];
      fy := fy + 1;
    }
  }

  // ---------- Rates ----------

  /** One rate of one row of the table; a null, missing or blank rate is none. */
  datatype RateRow = RateRow(year: string, rate: Option<real>)

  const EARLIEST_RATE_YEAR: int := 2019

  function TextOf(n: int): string {
    if n < 0 then "-" + Decimal.ToString(-n) else Decimal.ToString(n)
  }

  function Slice(s: string, from: nat): string {
    if |s| <= from then "" else s[from..]
  }

  /** The label of a financial year, as in 2025/26. */
  function YearLabel(year: int): string {
    TextOf(year) + "/" + Slice(TextOf(year + 1), 2)
  }

  lemma TextOfInjective(m: int, n: int)
    requires TextOf(m) == TextOf(n)
    ensures m == n
  {
    assert TextOf(m)[0] == '-' <==> m < 0;
    assert TextOf(n)[0] == '-' <==> n < 0;
    if m < 0 {
      assert TextOf(m)[1..] == Decimal.ToString(-m) && TextOf(n)[1..] == Decimal.ToString(-n);
      Decimal.ToStringInjective(-m, -n);
    } else {
      Decimal.ToStringInjective(m, n);
    }
  }

  /** No two years share a label, so that a row is a rate for one year only. */
  lemma YearLabelInjective(m: int, n: int)
    requires YearLabel(m) == YearLabel(n)
    ensures m == n
  {
    TextOfHasNoSlash(m);
    TextOfHasNoSlash(n);
    Texts.SplitAtFirst(TextOf(m), Slice(TextOf(m + 1), 2), TextOf(n), Slice(TextOf(n + 1), 2), '/');
    TextOfInjective(m, n);
  }

  lemma TextOfHasNoSlash(n: int)
    ensures '/' !in TextOf(n)
  {
  }

  lemma FourDigits(n: nat)
    requires 1000 <= n < 10_000
    ensures |Decimal.ToString(n)| == 4 && Decimal.Value(Decimal.ToString(n)[2..]) == n % 100
  {
    var c, d := Decimal.DigitChar(n / 10 % 10), Decimal.DigitChar(n % 10);
    assert Decimal.ToString(n) == Decimal.ToString(n / 10 / 10) + [c] + [d];
    Decimal.ToStringLength(n / 10 / 10);
    assert Decimal.ToString(n)[2..] == [c, d];
    assert [c, d][..1] == [c] && [c][..0] == [];
    assert Decimal.Value([c]) == n / 10 % 10 && Decimal.DigitValue(d) == n % 10;
    assert n % 100 == 10 * (n / 10 % 10) + n % 10;
  }

  lemma LabelParts(a: string, b: string)
    requires |a| == |b| == 4
    ensures var text := a + "/" + Slice(b, 2);
            |text| == 7 && text[4] == '/' && text[..4] == a && text[5..] == b[2..]
  {
  }

  /** A label is the four digits of the year, a slash and the last two digits of the next. */
  lemma YearLabelMeans(year: nat)
    requires 1000 <= year < 9999
    ensures var text := YearLabel(year);
            && |text| == 7 && text[4] == '/' && Decimal.AllDigits(text[..4]) && Decimal.AllDigits(text[5..])
            && Decimal.Value(text[..4]) == year && Decimal.Value(text[5..]) == (year + 1) % 100
  {
    FourDigits(year);
    FourDigits(year + 1);
    Decimal.ValueOfToString(year);
    LabelParts(Decimal.ToString(year), Decimal.ToString(year + 1));
  }

  /** find: the first row with a label. */
  function RateUnder(rows: seq<RateRow>, text: string): Option<real> {
    if rows == [] then None
    else if rows[0].year == text then rows[0].rate
    else RateUnder(rows[1..], text)
  }

  function RateAt(rows: seq<RateRow>, year: int): Option<real> {
    RateUnder(rows, YearLabel(year))
  }

  lemma {:induction false} FirstRowIsFound(rows: seq<RateRow>, i: nat, text: string)
    requires i < |rows| && rows[i].year == text && forall j :: 0 <= j < i ==> rows[j].year != text
    ensures RateUnder(rows, text) == rows[i].rate
  {
    if i > 0 {
      FirstRowIsFound(rows[1..], i - 1, text);
    }
  }

  lemma {:induction false} NoRowNoRate(rows: seq<RateRow>, text: string)
    requires forall i :: 0 <= i < |rows| ==> rows[i].year != text
    ensures RateUnder(rows, text) == None
  {
    if rows != [] {
      NoRowNoRate(rows[1..], text);
    }
  }

  predicate Eligible(rows: seq<RateRow>, y: int, year: int) {
    (y == year || 2019 <= y < year) && RateAt(rows, y).Some?
  }

  ghost predicate NoneLater(rows: seq<RateRow>, y: int, year: int) {
    forall later | later > y :: !Eligible(rows, later, year)
  }

  lemma NoneAtEither(rows: seq<RateRow>, y: int, year: int)
    requires NoneLater(rows, y, year) && RateAt(rows, y) == None
    ensures NoneLater(rows, y - 1, year)
  {
  }

  /** The rate of the latest year that has one and is not after the year asked for. */
  method RateForYear(rows: seq<RateRow>, year: Option<int>) returns (rate: Option<real>)
    ensures rate.None? <==> year.None? || forall y :: !Eligible(rows, y, year.value)
    ensures rate.Some? ==>
              exists y :: Eligible(rows, y, year.value) && rate == RateAt(rows, y) && NoneLater(rows, y, year.value)
  {
    if year.None? {
      return None;
    }
    rate := RateAt(rows, year.value);
    if rate.Some? {
      assert Eligible(rows, year.value, year.value);
      return;
    }
    var y := year.value - 1;
    NoneAtEither(rows, year.value, year.value);
    while y >= EARLIEST_RATE_YEAR
      invariant y < year.value && NoneLater(rows, y, year.value)
    {
      rate := RateAt(rows, y);
      if rate.Some? {
        assert Eligible(rows, y, year.value);
        return;
      }
      NoneAtEither(rows, y, year.value);
      y := y - 1;
    }
    return None;
  }

  // ---------- The earliest start with grant-in-aid ----------

  datatype GiaError = AfterOutlineStart | BeforeCurrentFinancialYear

  function ValidateEarliestWithGia(d: Date, outlineStart: Option<Date>, now: Date): Option<GiaError> {
    if outlineStart.None? then None
    else if CompareMonthYear(d, outlineStart.value) >= 0 then Some(AfterOutlineStart)
    else
      var current := if now.month < START_MONTH then now.year - 1 else now.year;
      if d.year < current || (d.year == current && d.month < START_MONTH) then Some(BeforeCurrentFinancialYear)
      else None
  }

  lemma EarliestWithGiaExactly(d: Date, outlineStart: Date, now: Date)
    requires 1 <= d.month <= 12 && 1 <= outlineStart.month <= 12
    ensures ValidateEarliestWithGia(d, None, now) == None
    ensures ValidateEarliestWithGia(d, Some(outlineStart), now) == None <==>
            ToFinancialYear(now) <= ToFinancialYear(d) && Rank(d) < Rank(outlineStart)
    ensures ValidateEarliestWithGia(d, Some(outlineStart), now) == Some(AfterOutlineStart) <==> Rank(outlineStart) <= Rank(d)
  {
  }
}
