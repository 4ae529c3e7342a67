/** `clean_to_chart`, the range filter in front of the scatter plot, and the
    choice of its default bounds. */
module Chart {
  import opened Wrappers
  import opened Records
  import opened Scores

  /** A row of `df_result_chart`: the input row plus the columns `profitability`
      and `volatility`, the selected horizon's values rounded to two decimals. */
  datatype ChartRow = ChartRow(row: ScoredRow, profitability: Option<real>, volatility: Option<real>)

  datatype Bounds = Bounds(
    maxProfitability: real, maxVolatility: real,
    minProfitability: real, minVolatility: real)

  /** `PROFITABILITY` or `VOLATILITY` names a column that does not exist (KeyError). */
  datatype ChartError = UnknownColumn(name: string)

  /** `Series.round(2)`: NaN stays NaN. */
  function RoundOption(x: Option<real>, round2: real -> real): (r: Option<real>)
    ensures r.Some? <==> x.Some?
    ensures r.Some? ==> r.value == round2(x.value)
  {
    match x
    case None => None
    case Some(v) => Some(round2(v))
  }

  /** The two `assign` steps: every row with its rounded columns of horizon `h`. */
  function Rounded(rows: seq<ScoredRow>, h: Horizon, round2: real -> real): (r: seq<ChartRow>)
    ensures |r| == |rows|
    ensures forall i :: 0 <= i < |rows| ==>
      r[i].row == rows[i] &&
      (r[i].profitability.Some? <==> rows[i].fund.At(h).profitability.Some?) &&
      (r[i].volatility.Some? <==> rows[i].fund.At(h).volatility.Some?) &&
      (r[i].profitability.Some? ==> r[i].profitability.value == round2(rows[i].fund.At(h).profitability.value)) &&
      (r[i].volatility.Some? ==> r[i].volatility.value == round2(rows[i].fund.At(h).volatility.value))
  {
    seq(|rows|, i requires 0 <= i < |rows| =>
      ChartRow(rows[i],
        RoundOption(rows[i].fund.At(h).profitability, round2),
        RoundOption(rows[i].fund.At(h).volatility, round2)))
  }

  /** `query`: the rows satisfying `keep`, in their order. */
  function Filter(rows: seq<ChartRow>, keep: ChartRow -> bool): (r: seq<ChartRow>)
    ensures |r| <= |rows|
    ensures forall c :: c in r <==> c in rows && keep(c)
  {
    if rows == [] then []
    else
      var n := |rows| - 1;
      Filter(rows[..n], keep) + (if keep(rows[n]) then [rows[n]] else [])
  }

  /** `value < bound` in a query: false when the value is NaN. */
  predicate Below(x: Option<real>, bound: real) {
    x.Some? && x.value < bound
  }

  /** `value > bound` in a query: false when the value is NaN. */
  predicate Above(x: Option<real>, bound: real) {
    x.Some? && x.value > bound
  }

  /** The conditions of the four queries. */
  function BelowMaxProfitability(b: Bounds): ChartRow -> bool {
    (c: ChartRow) => Below(c.profitability, b.maxProfitability)
  }

  function BelowMaxVolatility(b: Bounds): ChartRow -> bool {
    (c: ChartRow) => Below(c.volatility, b.maxVolatility)
  }

  function AboveMinProfitability(b: Bounds): ChartRow -> bool {
    (c: ChartRow) => Above(c.profitability, b.minProfitability)
  }

  function AboveMinVolatility(b: Bounds): ChartRow -> bool {
    (c: ChartRow) => Above(c.volatility, b.minVolatility)
  }

  function InBounds(b: Bounds): ChartRow -> bool {
    (c: ChartRow) => WithinBounds(c, b)
  }

  predicate WithinBounds(c: ChartRow, b: Bounds) {
    Below(c.profitability, b.maxProfitability) && Below(c.volatility, b.maxVolatility) &&
    Above(c.profitability, b.minProfitability) && Above(c.volatility, b.minVolatility)
  }

  /** `clean_to_chart`: the rounded columns of horizon SCORE_TYPE, then the four
      strict range queries in turn. A SCORE_TYPE other than the four options
      names no column. */
  function CleanToChart(rows: seq<ScoredRow>, scoreType: string, b: Bounds, round2: real -> real): (r: Result<seq<ChartRow>, ChartError>)
    ensures r.Failure? <==> ParseHorizon(scoreType).None?
    ensures r.Failure? ==> r.error == UnknownColumn("profitability_" + scoreType)
    ensures r.Success? ==> forall c :: c in r.value ==>
      c.row in rows && WithinBounds(c, b) &&
      b.minProfitability < c.profitability.value < b.maxProfitability &&
      b.minVolatility < c.volatility.value < b.maxVolatility
  {
    match ParseHorizon(scoreType)
    case None => Failure(UnknownColumn("profitability_" + scoreType))
    case Some(h) =>
      var chart := Rounded(rows, h, round2);
      var r1 := Filter(chart, BelowMaxProfitability(b));
      var r2 := Filter(r1, BelowMaxVolatility(b));
      var r3 := Filter(r2, AboveMinProfitability(b));
      var r4 := Filter(r3, AboveMinVolatility(b));
      assert forall c :: c in chart ==> c.row in rows;
      Success(r4)
  }

  /** Two queries in a row keep what one query with both conditions keeps. */
  lemma {:induction false} FilterTwice(rows: seq<ChartRow>, p: ChartRow -> bool, q: ChartRow -> bool, both: ChartRow -> bool)
    requires forall c :: both(c) == (p(c) && q(c))
    ensures Filter(Filter(rows, p), q) == Filter(rows, both)
  {
    if rows != [] {
      var n := |rows| - 1;
      FilterTwice(rows[..n], p, q, both);
      var f := Filter(rows, p);
      if p(rows[n]) {
        assert f[..|f| - 1] == Filter(rows[..n], p);
      } else {
        assert f == Filter(rows[..n], p);
      }
    }
  }

  /** The four range queries in turn keep what one query with all four bounds keeps. */
  lemma FourQueriesAreOne(chart: seq<ChartRow>, b: Bounds)
    ensures Filter(Filter(Filter(Filter(chart, BelowMaxProfitability(b)), BelowMaxVolatility(b)),
      AboveMinProfitability(b)), AboveMinVolatility(b)) == Filter(chart, InBounds(b))
  {
    var p1, p2, p3, p4 := BelowMaxProfitability(b), BelowMaxVolatility(b), AboveMinProfitability(b), AboveMinVolatility(b);
    var p12: ChartRow -> bool := c => p1(c) && p2(c);
    var p123: ChartRow -> bool := c => p12(c) && p3(c);
    FilterTwice(chart, p1, p2, p12);
    FilterTwice(chart, p12, p3, p123);
    FilterTwice(chart, p123, p4, InBounds(b));
  }

  /** The four queries keep exactly the rounded rows that lie strictly within all
      four bounds, in their original order. */
  lemma CleanToChartIsOneFilter(rows: seq<ScoredRow>, h: Horizon, b: Bounds, round2: real -> real)
    ensures CleanToChart(rows, HorizonName(h), b, round2) ==
      Success(Filter(Rounded(rows, h, round2), InBounds(b)))
  {
    assert ParseHorizon(HorizonName(h)) == Some(h);
    FourQueriesAreOne(Rounded(rows, h, round2), b);
  }

  /** Every input row whose rounded values lie strictly within the four bounds is
      kept, with its added columns the rounded values of the selected horizon. */
  lemma CleanToChartComplete(rows: seq<ScoredRow>, h: Horizon, b: Bounds, round2: real -> real, i: int)
    requires 0 <= i < |rows|
    requires var s := rows[i].fund.At(h);
      s.profitability.Some? && s.volatility.Some? &&
      b.minProfitability < round2(s.profitability.value) < b.maxProfitability &&
      b.minVolatility < round2(s.volatility.value) < b.maxVolatility
    ensures var s := rows[i].fund.At(h);
      ChartRow(rows[i], Some(round2(s.profitability.value)), Some(round2(s.volatility.value)))
        in CleanToChart(rows, HorizonName(h), b, round2).value
  {
    CleanToChartIsOneFilter(rows, h, b, round2);
    assert Rounded(rows, h, round2)[i] in Rounded(rows, h, round2);
  }

  /** The added `profitability` and `volatility` columns of every kept row are the
      rounded values of the selected horizon's columns. */
  lemma CleanToChartColumns(rows: seq<ScoredRow>, h: Horizon, b: Bounds, round2: real -> real)
    ensures forall c :: c in CleanToChart(rows, HorizonName(h), b, round2).value ==>
      c.profitability == Some(round2(c.row.fund.At(h).profitability.value)) &&
      c.volatility == Some(round2(c.row.fund.At(h).volatility.value)) &&
      c.row.fund.At(h).profitability.Some? && c.row.fund.At(h).volatility.Some?
  {
    CleanToChartIsOneFilter(rows, h, b, round2);
    var chart := Rounded(rows, h, round2);
    forall c | c in CleanToChart(rows, HorizonName(h), b, round2).value
      ensures c.profitability == Some(round2(c.row.fund.At(h).profitability.value))
      ensures c.volatility == Some(round2(c.row.fund.At(h).volatility.value))
      ensures c.row.fund.At(h).profitability.Some? && c.row.fund.At(h).volatility.Some?
    {
      var i :| 0 <= i < |chart| && chart[i] == c;
    }
  }

  /** `xs` is `ys` with some elements left out, the rest in their order. */
  predicate SubsequenceOf<T(==)>(xs: seq<T>, ys: seq<T>)
    decreases |ys|
  {
    xs == [] ||
    (ys != [] &&
      ((xs[|xs| - 1] == ys[|ys| - 1] && SubsequenceOf(xs[..|xs| - 1], ys[..|ys| - 1])) ||
       SubsequenceOf(xs, ys[..|ys| - 1])))
  }

  lemma {:induction false} FilterIsSubsequence(rows: seq<ChartRow>, keep: ChartRow -> bool)
    ensures SubsequenceOf(Filter(rows, keep), rows)
  {
    if rows != [] {
      var n := |rows| - 1;
      FilterIsSubsequence(rows[..n], keep);
      var f := Filter(rows, keep);
      if keep(rows[n]) {
        assert f[..|f| - 1] == Filter(rows[..n], keep);
      } else {
        assert f == Filter(rows[..n], keep);
      }
    }
  }

  /** The chart rows are the input rows, rounded, with some left out and the rest
      in their original order. */
  lemma CleanToChartKeepsOrder(rows: seq<ScoredRow>, h: Horizon, b: Bounds, round2: real -> real)
    ensures SubsequenceOf(CleanToChart(rows, HorizonName(h), b, round2).value, Rounded(rows, h, round2))
  {
    CleanToChartIsOneFilter(rows, h, b, round2);
    FilterIsSubsequence(Rounded(rows, h, round2), InBounds(b));
  }

  /** `Series.min()`: the least value that is not NaN; NaN when there is none. */
  function ColumnMin(xs: seq<Option<real>>): (r: Option<real>)
    ensures r.Some? <==> exists i :: 0 <= i < |xs| && xs[i].Some?
    ensures r.Some? ==> Some(r.value) in xs
    ensures r.Some? ==> forall i :: 0 <= i < |xs| && xs[i].Some? ==> r.value <= xs[i].value
  {
    if xs == [] then None
    else
      var n := |xs| - 1;
      var rest := ColumnMin(xs[..n]);
      assert forall i :: 0 <= i < n ==> xs[..n][i] == xs[i];
      match (rest, xs[n])
      case (None, last) => last
      case (Some(m), None) => Some(m)
      case (Some(m), Some(v)) => if v < m then Some(v) else Some(m)
  }

  /** `Series.max()`: the greatest value that is not NaN; NaN when there is none. */
  function ColumnMax(xs: seq<Option<real>>): (r: Option<real>)
    ensures r.Some? <==> exists i :: 0 <= i < |xs| && xs[i].Some?
    ensures r.Some? ==> Some(r.value) in xs
    ensures r.Some? ==> forall i :: 0 <= i < |xs| && xs[i].Some? ==> xs[i].value <= r.value
  {
    if xs == [] then None
    else
      var n := |xs| - 1;
      var rest := ColumnMax(xs[..n]);
      assert forall i :: 0 <= i < n ==> xs[..n][i] == xs[i];
      match (rest, xs[n])
      case (None, last) => last
      case (Some(m), None) => Some(m)
      case (Some(m), Some(v)) => if m < v then Some(v) else Some(m)
  }

  /** The columns `profitability_h` and `volatility_h` of the result table. */
  function ProfitabilityColumn(rows: seq<ScoredRow>, h: Horizon): (r: seq<Option<real>>)
    ensures |r| == |rows|
  {
    seq(|rows|, i requires 0 <= i < |rows| => rows[i].fund.At(h).profitability)
  }

  function VolatilityColumn(rows: seq<ScoredRow>, h: Horizon): (r: seq<Option<real>>)
    ensures |r| == |rows|
  {
    seq(|rows|, i requires 0 <= i < |rows| => rows[i].fund.At(h).volatility)
  }

  /** The initial values of the four bound inputs; NaN where a column has no value. */
  datatype Defaults = Defaults(
    minProfitability: Option<real>, maxProfitability: Option<real>,
    minVolatility: Option<real>, maxVolatility: Option<real>)

  /** With USE_SUGESTION the fixed suggestions (0 to 999999 for profitability, 0 to
      100 for volatility); otherwise each column's own minimum and maximum. */
  function DefaultBounds(useSuggestion: bool, rows: seq<ScoredRow>, h: Horizon): (r: Defaults)
    ensures useSuggestion ==> r == Defaults(Some(0.0), Some(999999.0), Some(0.0), Some(100.0))
    ensures !useSuggestion ==>
      r.minProfitability == ColumnMin(ProfitabilityColumn(rows, h)) &&
      r.maxProfitability == ColumnMax(ProfitabilityColumn(rows, h)) &&
      r.minVolatility == ColumnMin(VolatilityColumn(rows, h)) &&
      r.maxVolatility == ColumnMax(VolatilityColumn(rows, h))
  {
    if useSuggestion then Defaults(Some(0.0), Some(999999.0), Some(0.0), Some(100.0))
    else
      Defaults(
        ColumnMin(ProfitabilityColumn(rows, h)), ColumnMax(ProfitabilityColumn(rows, h)),
        ColumnMin(VolatilityColumn(rows, h)), ColumnMax(VolatilityColumn(rows, h)))
  }

  /** Without suggestions the defaults enclose every present value of the selected
      columns, and each default is itself one of those values. */
  lemma DefaultsEncloseColumns(rows: seq<ScoredRow>, h: Horizon, i: int)
    requires 0 <= i < |rows|
    requires rows[i].fund.At(h).profitability.Some? && rows[i].fund.At(h).volatility.Some?
    ensures var d := DefaultBounds(false, rows, h);
      var s := rows[i].fund.At(h);
      d.minProfitability.Some? && d.maxProfitability.Some? &&
      d.minVolatility.Some? && d.maxVolatility.Some? &&
      d.minProfitability.value <= s.profitability.value <= d.maxProfitability.value &&
      d.minVolatility.value <= s.volatility.value <= d.maxVolatility.value
  {
    var p := ProfitabilityColumn(rows, h);
    var v := VolatilityColumn(rows, h);
    assert p[i].Some? && v[i].Some?;
  }
}
