/** The score engine: per-horizon scores, their mean and standard deviation
    ignoring missing values, and the aggregate `score_all`. */
module Scores {
  import opened Wrappers
  import opened Records

  /** `np.sqrt` on the non-negative reals. The model takes the square root as a
      parameter and relies only on this property of it. */
  ghost predicate IsSquareRoot(sqrt: real -> real) {
    forall x: real :: 0.0 <= x ==> 0.0 <= sqrt(x) && Square(sqrt(x)) == x
  }

  /** Every reported volatility is nonzero (see README: a zero volatility gives an
      infinite horizon score in the source, which the model does not represent). */
  predicate NonzeroVolatility(fund: FundRecord) {
    forall h: Horizon :: fund.At(h).volatility != Some(0.0)
  }

  /** `profitability_h / volatility_h`; NaN in either operand gives NaN. */
  function Ratio(s: Stats): (r: Option<real>)
    requires s.volatility != Some(0.0)
    ensures r.Some? <==> s.profitability.Some? && s.volatility.Some?
    ensures r.Some? ==> r.value * s.volatility.value == s.profitability.value
  {
    if s.profitability.Some? && s.volatility.Some? then
      Some(s.profitability.value / s.volatility.value)
    else None
  }

  /** The columns score_12m, score_36m, score_60m and score_begin of one row. */
  datatype HorizonScores = HorizonScores(m12: Option<real>, m36: Option<real>, m60: Option<real>, begin: Option<real>)
  {
    function At(h: Horizon): Option<real> {
      match h
      case Months12 => m12
      case Months36 => m36
      case Months60 => m60
      case Begin => begin
    }

    /** `[row['score_12m'], row['score_36m'], row['score_60m'], row['score_begin']]` */
    function AsList(): seq<Option<real>> {
      [m12, m36, m60, begin]
    }
  }

  /** The four `assign(score_h = profitability_h / volatility_h)` steps. */
  function ScoresOf(fund: FundRecord): (r: HorizonScores)
    requires NonzeroVolatility(fund)
    ensures forall h :: r.At(h) == Ratio(fund.At(h))
  {
    HorizonScores(
      Ratio(fund.At(Months12)), Ratio(fund.At(Months36)),
      Ratio(fund.At(Months60)), Ratio(fund.At(Begin)))
  }

  /** `sum(pd.isnull(score) for score in scores)` */
  function NullCount(xs: seq<Option<real>>): (n: nat)
    ensures n <= |xs|
    ensures n == 0 <==> forall i :: 0 <= i < |xs| ==> xs[i].Some?
    ensures n == |xs| <==> forall i :: 0 <= i < |xs| ==> xs[i].None?
  {
    if xs == [] then 0 else (if xs[0].None? then 1 else 0) + NullCount(xs[1..])
  }

  /** `[score for score in scores if pd.notnull(score)]`: the present values, in order. */
  function Present(xs: seq<Option<real>>): (r: seq<real>)
    ensures |r| + NullCount(xs) == |xs|
  {
    if xs == [] then []
    else (match xs[0] case Some(x) => [x] case None => []) + Present(xs[1..])
  }

  /** A value is among the present ones exactly when it is one of the scores. */
  lemma {:induction false} PresentMembers(xs: seq<Option<real>>)
    ensures forall x :: x in Present(xs) <==> Some(x) in xs
  {
    if xs != [] {
      PresentMembers(xs[1..]);
      assert xs == [xs[0]] + xs[1..];
    }
  }

  function Sum(xs: seq<real>): real {
    if xs == [] then 0.0 else xs[0] + Sum(xs[1..])
  }

  function Abs(d: real): (r: real)
    ensures 0.0 <= r
    ensures r == 0.0 <==> d == 0.0
    ensures r == d || r == -d
  {
    if d < 0.0 then -d else d
  }

  lemma ProductPositive(a: real, b: real, p: real)
    requires 0.0 < a && 0.0 < b && p == a * b
    ensures 0.0 < p
  {
  }

  /** `d ** 2`: never negative, and zero only for zero. */
  function Square(d: real): (r: real)
    ensures 0.0 <= r
    ensures r == 0.0 <==> d == 0.0
  {
    if d == 0.0 then 0.0
    else
      var a := Abs(d);
      ProductPositive(a, a, a * a);
      a * a
  }

  lemma ScaleStrict(a: real, b: real, n: real)
    requires 0.0 < n && a < b
    ensures a * n < b * n
  {
    assert b * n - a * n == (b - a) * n;
    ProductPositive(b - a, n, (b - a) * n);
  }

  /** `np.mean`: NaN for an empty list. */
  function Mean(xs: seq<real>): (r: Option<real>)
    ensures r.Some? <==> |xs| > 0
    ensures r.Some? ==> r.value * (|xs| as real) == Sum(xs)
  {
    if xs == [] then None else Some(Sum(xs) / (|xs| as real))
  }

  /** `calculate_mean`: the mean of the scores that are present; NaN when all four are missing. */
  function CalculateMean(s: HorizonScores): (r: Option<real>)
    ensures r.None? <==> NullCount(s.AsList()) == 4
  {
    Mean(Present(s.AsList()))
  }

  /** The mean times the number of present scores is their sum, and that number is
      four minus the number of missing scores. */
  lemma CalculateMeanIsAverage(s: HorizonScores)
    requires CalculateMean(s).Some?
    ensures var xs := Present(s.AsList());
      |xs| == 4 - NullCount(s.AsList()) &&
      CalculateMean(s).value * (|xs| as real) == Sum(xs)
  {
    var xs := Present(s.AsList());
    var m := Mean(xs);
    assert CalculateMean(s) == m;
  }

  function SquaredDeviations(xs: seq<real>, m: real): (r: real)
    ensures 0.0 <= r
  {
    if xs == [] then 0.0
    else
      Square(xs[0] - m) + SquaredDeviations(xs[1..], m)
  }

  /** The square of `np.std` with its default ddof = 0: the population variance. */
  function PopulationVariance(xs: seq<real>): (r: real)
    requires |xs| > 0
    ensures 0.0 <= r
  {
    SquaredDeviations(xs, Sum(xs) / (|xs| as real)) / (|xs| as real)
  }

  /** `calculate_std`: with exactly three scores missing it is `score_begin` as it
      is (missing itself when `score_begin` is one of the three); otherwise the
      population standard deviation of the present scores, NaN when none is present. */
  function CalculateStd(s: HorizonScores, sqrt: real -> real): (r: Option<real>)
    requires IsSquareRoot(sqrt)
    ensures NullCount(s.AsList()) == 3 ==> r == s.begin
    ensures NullCount(s.AsList()) == 4 ==> r.None?
    ensures NullCount(s.AsList()) < 3 ==>
      r.Some? && 0.0 <= r.value && Square(r.value) == PopulationVariance(Present(s.AsList()))
  {
    var xs := s.AsList();
    if NullCount(xs) == 3 then s.begin
    else
      var present := Present(xs);
      if present == [] then None else Some(sqrt(PopulationVariance(present)))
  }

  predicate AllEqual(xs: seq<real>) {
    forall i, j :: 0 <= i < |xs| && 0 <= j < |xs| ==> xs[i] == xs[j]
  }

  lemma {:induction false} SumConstant(xs: seq<real>, c: real)
    requires forall i :: 0 <= i < |xs| ==> xs[i] == c
    ensures Sum(xs) == (|xs| as real) * c
  {
    if xs != [] {
      SumConstant(xs[1..], c);
    }
  }

  lemma {:induction false} SumBounded(xs: seq<real>, lo: real, hi: real)
    requires forall i :: 0 <= i < |xs| ==> lo <= xs[i] <= hi
    ensures (|xs| as real) * lo <= Sum(xs) <= (|xs| as real) * hi
  {
    if xs != [] {
      SumBounded(xs[1..], lo, hi);
    }
  }

  lemma {:induction false} SquaredDeviationsZero(xs: seq<real>, m: real)
    ensures SquaredDeviations(xs, m) == 0.0 <==> forall i :: 0 <= i < |xs| ==> xs[i] == m
  {
    if xs != [] {
      SquaredDeviationsZero(xs[1..], m);
      assert forall i :: 1 <= i < |xs| ==> xs[i] == xs[1..][i - 1];
    }
  }

  /** The variance is zero exactly when all the values are equal. */
  lemma VarianceZeroIffAllEqual(xs: seq<real>)
    requires |xs| > 0
    ensures PopulationVariance(xs) == 0.0 <==> AllEqual(xs)
  {
    var n := |xs| as real;
    var m := Sum(xs) / n;
    SquaredDeviationsZero(xs, m);
    if AllEqual(xs) {
      SumConstant(xs, xs[0]);
      assert m == xs[0];
    }
  }


  /** With at least two scores present, the deviation is zero exactly when every
      present score is the same. */
  lemma StdZeroIffAllEqual(s: HorizonScores, sqrt: real -> real)
    requires IsSquareRoot(sqrt)
    requires NullCount(s.AsList()) < 3
    ensures CalculateStd(s, sqrt) == Some(0.0) <==> AllEqual(Present(s.AsList()))
  {
    VarianceZeroIffAllEqual(Present(s.AsList()));
  }

  /** A mean lies within any bounds that all its values lie within. */
  lemma MeanBounded(xs: seq<real>, lo: real, hi: real)
    requires |xs| > 0
    requires forall i :: 0 <= i < |xs| ==> lo <= xs[i] <= hi
    ensures lo <= Mean(xs).value <= hi
  {
    var n := |xs| as real;
    SumBounded(xs, lo, hi);
    var m := Mean(xs).value;
    assert m * n == Sum(xs);
    if m < lo {
      ScaleStrict(m, lo, n);
    }
    if hi < m {
      ScaleStrict(hi, m, n);
    }
  }

  /** The mean of the scores lies within any bounds that all the present scores lie within. */
  lemma MeanWithinBounds(s: HorizonScores, lo: real, hi: real)
    requires forall x :: x in Present(s.AsList()) ==> lo <= x <= hi
    requires CalculateMean(s).Some?
    ensures lo <= CalculateMean(s).value <= hi
  {
    var xs := Present(s.AsList());
    assert forall i :: 0 <= i < |xs| ==> xs[i] in xs;
    MeanBounded(xs, lo, hi);
  }

  lemma {:induction false} PresentAppend(a: seq<Option<real>>, b: seq<Option<real>>)
    ensures Present(a + b) == Present(a) + Present(b)
  {
    if a != [] {
      assert (a + b)[0] == a[0] && (a + b)[1..] == a[1..] + b;
      PresentAppend(a[1..], b);
    } else {
      assert a + b == b;
    }
  }

  lemma PresentOfFour(a: Option<real>, b: Option<real>, c: Option<real>, d: Option<real>)
    ensures Present([a, b, c, d]) == Present([a]) + Present([b]) + Present([c]) + Present([d])
  {
    assert [a, b, c, d] == [a] + [b] + [c] + [d];
    PresentAppend([a] + [b] + [c], [d]);
    PresentAppend([a] + [b], [c]);
    PresentAppend([a], [b]);
  }

  lemma SumOfFour(a: real, b: real, c: real, d: real)
    ensures Sum([a, b, c, d]) == a + b + c + d
  {
    var l := [a, b, c, d];
    assert l[1..] == [b, c, d];
    assert l[1..][1..] == [c, d];
    assert l[1..][1..][1..] == [d];
    assert l[1..][1..][1..][1..] == [];
    assert Sum(l[1..][1..][1..]) == d;
    assert Sum(l[1..][1..]) == c + d;
    assert Sum(l[1..]) == b + c + d;
  }

  /** With all four horizons present the mean is their sum divided by four. */
  lemma MeanOfFour(a: real, b: real, c: real, d: real)
    ensures CalculateMean(HorizonScores(Some(a), Some(b), Some(c), Some(d))) == Some((a + b + c + d) / 4.0)
  {
    PresentOfFour(Some(a), Some(b), Some(c), Some(d));
    assert Present([Some(a), Some(b), Some(c), Some(d)]) == [a, b, c, d];
    SumOfFour(a, b, c, d);
  }

  /** Of the scores [2.0, 4.0, missing, missing] two are present: 2.0 and 4.0. */
  lemma TwoScoresPresent()
    ensures Present(HorizonScores(Some(2.0), Some(4.0), None, None).AsList()) == [2.0, 4.0]
    ensures NullCount(HorizonScores(Some(2.0), Some(4.0), None, None).AsList()) == 2
  {
    PresentOfFour(Some(2.0), Some(4.0), None, None);
    var l: seq<Option<real>> := [Some(2.0), Some(4.0), None, None];
    assert l[1..] == [Some(4.0), None, None] && l[1..][1..] == [None, None];
    assert l[1..][1..][1..] == [None] && l[1..][1..][1..][1..] == [];
  }

  /** 2.0 and 4.0 have mean 3.0 and population variance 1.0. */
  lemma TwoValuesVariance()
    ensures Sum([2.0, 4.0]) == 6.0
    ensures PopulationVariance([2.0, 4.0]) == 1.0
  {
    var xs := [2.0, 4.0];
    assert xs[1..] == [4.0] && xs[1..][1..] == [];
    assert Sum(xs[1..]) == 4.0;
    assert Square(2.0 - 3.0) == 1.0 && Square(4.0 - 3.0) == 1.0;
    assert SquaredDeviations(xs[1..], 3.0) == 1.0;
    assert SquaredDeviations(xs, 3.0) == 2.0;
  }

  /** Scores [2.0, 4.0, missing, missing]: mean 3.0 and deviation 1.0. */
  lemma TwoScoresExample(sqrt: real -> real)
    requires IsSquareRoot(sqrt)
    ensures CalculateMean(HorizonScores(Some(2.0), Some(4.0), None, None)) == Some(3.0)
    ensures CalculateStd(HorizonScores(Some(2.0), Some(4.0), None, None), sqrt) == Some(1.0)
  {
    var s := HorizonScores(Some(2.0), Some(4.0), None, None);
    TwoScoresPresent();
    TwoValuesVariance();
    assert CalculateMean(s) == Mean([2.0, 4.0]);
    var r := CalculateStd(s, sqrt).value;
    assert Square(r) == 1.0 && 0.0 <= r;
    UnitRoot(r);
  }

  /** The only non-negative number whose square is one is one. */
  lemma UnitRoot(r: real)
    requires 0.0 <= r && Square(r) == 1.0
    ensures r == 1.0
  {
    assert Square(r) == r * r;
    if r < 1.0 {
      ScaleStrict(r, 1.0, r);
    } else if 1.0 < r {
      ScaleStrict(1.0, r, r);
    }
  }

  /** Float division as numpy performs `score_mean / score_std`: a nonzero value
      over zero is infinite with the value's sign, zero over zero and anything
      involving NaN is NaN. */
  datatype Extended = NaN | NegInf | Finite(x: real) | PosInf

  function Divide(a: Option<real>, b: Option<real>): (r: Extended)
    ensures r.Finite? <==> a.Some? && b.Some? && b.value != 0.0
    ensures r.Finite? ==> r.x * b.value == a.value
    ensures r.NaN? <==> a.None? || b.None? || (a.value == 0.0 && b.value == 0.0)
    ensures r.PosInf? <==> a.Some? && b.Some? && b.value == 0.0 && 0.0 < a.value
    ensures r.NegInf? <==> a.Some? && b.Some? && b.value == 0.0 && a.value < 0.0
  {
    match (a, b)
    case (Some(p), Some(q)) =>
      if q != 0.0 then Finite(p / q)
      else if 0.0 < p then PosInf
      else if p < 0.0 then NegInf
      else NaN
    case _ => NaN
  }

  /** One row of `df_result`: the category (missing when `assign` gave an empty
      frame a new index), the fetched fields, and the derived score columns. The
      identifier column has been dropped. */
  datatype ScoredRow = ScoredRow(
    category: Option<string>,
    fund: FundRecord,
    scores: HorizonScores,
    mean: Option<real>,
    std: Option<real>,
    all: Extended)

  /** The `assign` chain that derives the score columns of one row. */
  function ScoreRow(category: Option<string>, fund: FundRecord, sqrt: real -> real): (r: ScoredRow)
    requires NonzeroVolatility(fund) && IsSquareRoot(sqrt)
    ensures r.category == category && r.fund == fund
    ensures forall h :: r.scores.At(h) == Ratio(fund.At(h))
    ensures r.mean == CalculateMean(r.scores) && r.std == CalculateStd(r.scores, sqrt)
    ensures r.all == Divide(r.mean, r.std)
  {
    var scores := ScoresOf(fund);
    var mean := CalculateMean(scores);
    var std := CalculateStd(scores, sqrt);
    ScoredRow(category, fund, scores, mean, std, Divide(mean, std))
  }

  /** When two or more horizon scores are present and all equal, the deviation is
      zero and `score_all` is infinite with the sign of the mean (NaN only for a
      zero mean), not missing. */
  lemma EqualScoresGiveInfiniteScoreAll(category: Option<string>, fund: FundRecord, sqrt: real -> real)
    requires NonzeroVolatility(fund) && IsSquareRoot(sqrt)
    requires NullCount(ScoresOf(fund).AsList()) < 3
    requires AllEqual(Present(ScoresOf(fund).AsList()))
    ensures var r := ScoreRow(category, fund, sqrt);
      r.mean.Some? && r.std == Some(0.0) &&
      r.all == (if 0.0 < r.mean.value then PosInf else if r.mean.value < 0.0 then NegInf else NaN)
  {
    StdZeroIffAllEqual(ScoresOf(fund), sqrt);
  }
}
