/**
 * The risk metric calculator (`calculate_risk_metrics`): per column of the
 * aligned table, in column order, the total return, the annualized
 * volatility, the maximum drawdown against the running maximum, and the
 * Sharpe ratio against a fixed 4% risk-free rate. A missing number (NaN in
 * the original) is None.
 */
module Risk {
  import opened Wrappers
  import opened Frames

  /** The fixed annual risk-free rate of the Sharpe ratio. */
  const RiskFreeRate: real := 0.04

  /** Trading days per year, the annualization factor of the volatility. */
  const TradingDays: real := 252.0

  predicate Positive(p: seq<real>) {
    forall i :: 0 <= i < |p| ==> p[i] > 0.0
  }

  /** `prices.iloc[-1] / prices.iloc[0] - 1`: investing p[0] grows to the last price. */
  function TotalReturn(p: seq<real>): (r: real)
    requires |p| > 0 && p[0] > 0.0
    ensures p[0] * (1.0 + r) == p[|p| - 1]
  {
    p[|p| - 1] / p[0] - 1.0
  }

  /** With a positive a and q * a == b, q is positive, above 1 or equal to 1 exactly as b is positive, above a or equal to a. */
  lemma {:induction false} RatioSign(a: real, b: real, q: real)
    requires a > 0.0 && q * a == b
    ensures q > 0.0 <==> b > 0.0
    ensures q > 1.0 <==> b > a
    ensures q == 1.0 <==> b == a
  {
    if q > 0.0 {
      ProductPositive(q, a, b);
    } else if q < 0.0 {
      ProductPositive(-q, a, -b);
    }
    if q > 1.0 {
      ProductPositive(q - 1.0, a, b - a);
    } else if q < 1.0 {
      ProductPositive(1.0 - q, a, a - b);
    }
  }

  /**
   * A positive price never loses everything: the total return is above -1,
   * positive exactly when the last price is above the first, and 0 exactly
   * when the two are equal.
   */
  lemma {:induction false} TotalReturnSign(p: seq<real>)
    requires |p| > 0 && Positive(p)
    ensures TotalReturn(p) > -1.0
    ensures TotalReturn(p) > 0.0 <==> p[|p| - 1] > p[0]
    ensures TotalReturn(p) == 0.0 <==> p[|p| - 1] == p[0]
  {
    var r := TotalReturn(p);
    var q := 1.0 + r;
    assert q * p[0] == p[|p| - 1];
    RatioSign(p[0], p[|p| - 1], q);
  }

  /**
   * `prices.pct_change().dropna()`: the relative change from each day to the
   * next; the first day has no predecessor and is dropped.
   */
  function DailyReturns(p: seq<real>): (r: seq<real>)
    requires Positive(p)
    ensures |r| == if |p| == 0 then 0 else |p| - 1
    ensures forall i :: 0 <= i < |r| ==> p[i] * (1.0 + r[i]) == p[i + 1]
  {
    if |p| < 2 then []
    else seq(|p| - 1, i requires 0 <= i < |p| - 1 => (p[i + 1] - p[i]) / p[i])
  }

  lemma {:induction false} Cancel(a: real, b: real, c: real)
    requires c != 0.0 && a * c == b * c
    ensures a == b
  {
    assert (a - b) * c == 0.0;
  }

  /** A product of two positive numbers is positive. */
  lemma {:induction false} ProductPositive(a: real, b: real, w: real)
    requires a > 0.0 && b > 0.0 && w == a * b
    ensures w > 0.0
  {
  }

  /** The square w of a non-zero number is positive. */
  lemma {:induction false} SquarePositive(x: real, w: real)
    requires x != 0.0 && w == x * x
    ensures w > 0.0
  {
    if x > 0.0 {
      ProductPositive(x, x, w);
    } else {
      ProductPositive(-x, -x, w);
    }
  }

  lemma {:induction false} SquareZero(x: real, w: real)
    requires x == 0.0 && w == x * x
    ensures w == 0.0
  {
  }

  /** A square is zero exactly when its root is, and never negative. */
  lemma {:induction false} SquareSign(x: real, w: real)
    requires w == x * x
    ensures w >= 0.0
    ensures w == 0.0 <==> x == 0.0
  {
    if x != 0.0 {
      SquarePositive(x, w);
    } else {
      SquareZero(x, w);
    }
  }

  function Sum(s: seq<real>): real
  {
    if s == [] then 0.0 else Sum(s[..|s| - 1]) + s[|s| - 1]
  }

  function Mean(s: seq<real>): real
    requires |s| > 0
  {
    Sum(s) / |s| as real
  }

  /** The sum of squared deviations of s from m. */
  function SquaredDeviations(s: seq<real>, m: real): (q: real)
    ensures q >= 0.0
  {
    if s == [] then 0.0
    else
      var x := s[|s| - 1] - m;
      var sq := x * x;
      SquareSign(x, sq);
      SquaredDeviations(s[..|s| - 1], m) + sq
  }

  /**
   * The sample variance (`std` squared, one degree of freedom): None, as
   * NaN in the original, with fewer than two values.
   */
  function SampleVariance(s: seq<real>): (v: Option<real>)
    ensures v.Some? <==> |s| >= 2
    ensures v.Some? ==> v.value >= 0.0
  {
    if |s| < 2 then None
    else Some(SquaredDeviations(s, Mean(s)) / (|s| - 1) as real)
  }

  /**
   * `daily_returns.std() * np.sqrt(252)`, stated by its square: the
   * volatility is the non-negative number whose square is 252 times the
   * sample variance of the daily returns, and missing when that is.
   */
  predicate IsVolatility(p: seq<real>, vol: Option<real>)
    requires Positive(p)
    ensures IsVolatility(p, vol) ==> (vol.Some? <==> |p| >= 3)
  {
    match SampleVariance(DailyReturns(p))
    case None => vol == None
    case Some(variance) => vol.Some? && vol.value >= 0.0 && vol.value * vol.value == TradingDays * variance
  }

  /** Squaring keeps the order of non-negative numbers: sv and sw are the squares of v < w. */
  lemma {:induction false} SquareOrder(v: real, w: real, sv: real, sw: real)
    requires 0.0 <= v < w && sv == v * v && sw == w * w
    ensures sv < sw
  {
    assert sw - sv == (w - v) * (w + v);
    ProductPositive(w - v, w + v, sw - sv);
  }

  /**
   * The volatility is determined by the prices: two values that both meet
   * the definition by their square are equal, so it stands for the square
   * root of the original.
   */
  lemma {:induction false} VolatilityUnique(p: seq<real>, vol: Option<real>, other: Option<real>)
    requires Positive(p) && IsVolatility(p, vol) && IsVolatility(p, other)
    ensures vol == other
  {
    if vol.Some? && other.Some? {
      var v := vol.value;
      var w := other.value;
      var sv := v * v;
      var sw := w * w;
      assert sv == sw;
      if v < w {
        SquareOrder(v, w, sv, sw);
      } else if w < v {
        SquareOrder(w, v, sw, sv);
      }
    }
  }

  /** All values of s are the same. */
  predicate Flat(s: seq<real>) {
    forall i, j :: 0 <= i < j < |s| ==> s[i] == s[j]
  }

  lemma {:induction false} SumConstant(s: seq<real>, x: real)
    requires forall i :: 0 <= i < |s| ==> s[i] == x
    ensures Sum(s) == |s| as real * x
  {
    if s != [] {
      SumConstant(s[..|s| - 1], x);
    }
  }

  /** Dividing by a positive count keeps zero and only zero at zero. */
  lemma {:induction false} QuotientZero(q: real, n: real, v: real)
    requires n > 0.0 && v == q / n
    ensures v == 0.0 <==> q == 0.0
  {
    assert v * n == q;
  }

  lemma {:induction false} SquaredDeviationsZero(s: seq<real>, m: real)
    ensures SquaredDeviations(s, m) == 0.0 <==> forall i :: 0 <= i < |s| ==> s[i] == m
  {
    if s != [] {
      var init := s[..|s| - 1];
      var x := s[|s| - 1] - m;
      SquaredDeviationsZero(init, m);
      var sq := x * x;
      SquareSign(x, sq);
      assert SquaredDeviations(s, m) == SquaredDeviations(init, m) + sq;
      if SquaredDeviations(s, m) == 0.0 {
        assert forall i :: 0 <= i < |init| ==> init[i] == m;
        forall i | 0 <= i < |s| ensures s[i] == m {
          if i < |init| {
            assert s[i] == init[i];
          }
        }
      }
      if forall i :: 0 <= i < |s| ==> s[i] == m {
        assert forall i :: 0 <= i < |init| ==> init[i] == s[i];
        assert x == 0.0;
      }
    }
  }

  /** The volatility is 0 exactly when every daily return is the same. */
  lemma {:induction false} VolatilityZero(p: seq<real>, v: real)
    requires Positive(p) && IsVolatility(p, Some(v))
    ensures v == 0.0 <==> Flat(DailyReturns(p))
  {
    var r := DailyReturns(p);
    var m := Mean(r);
    var q := SquaredDeviations(r, m);
    var n := (|r| - 1) as real;
    var variance := q / n;
    assert SampleVariance(r) == Some(variance);
    SquareSign(v, TradingDays * variance);
    QuotientZero(q, n, variance);
    SquaredDeviationsZero(r, m);
    FlatIffAtMean(r);
  }

  /** A non-empty sequence is flat exactly when every value equals the mean. */
  lemma {:induction false} FlatIffAtMean(s: seq<real>)
    requires |s| > 0
    ensures Flat(s) <==> forall i :: 0 <= i < |s| ==> s[i] == Mean(s)
  {
    if Flat(s) {
      assert forall i :: 0 <= i < |s| ==> s[i] == s[0] by {
        forall i | 0 <= i < |s| ensures s[i] == s[0] {
          if i > 0 {
            assert s[0] == s[i];
          }
        }
      }
      SumConstant(s, s[0]);
      assert Mean(s) * |s| as real == |s| as real * s[0];
      Cancel(Mean(s), s[0], |s| as real);
    }
  }

  function Max(a: real, b: real): real
  {
    if a >= b then a else b
  }

  /** `prices.cummax()`: the highest price seen so far. */
  function RunningMax(p: seq<real>): (m: seq<real>)
    ensures |m| == |p|
  {
    if p == [] then []
    else
      var m := RunningMax(p[..|p| - 1]);
      m + [if m == [] then p[0] else Max(m[|m| - 1], p[|p| - 1])]
  }

  /**
   * The running maximum starts at the first price, never decreases, and is
   * at least the price of its day.
   */
  lemma {:induction false} RunningMaxFacts(p: seq<real>)
    ensures |p| > 0 ==> RunningMax(p)[0] == p[0]
    ensures forall i :: 0 <= i < |p| ==> p[i] <= RunningMax(p)[i]
    ensures forall i, j :: 0 <= i <= j < |p| ==> RunningMax(p)[i] <= RunningMax(p)[j]
  {
    if p != [] {
      var init := p[..|p| - 1];
      var prev := RunningMax(init);
      RunningMaxFacts(init);
      var m := RunningMax(p);
      assert m == prev + [if prev == [] then p[0] else Max(prev[|prev| - 1], p[|p| - 1])];
      assert forall i :: 0 <= i < |init| ==> m[i] == prev[i] && p[i] == init[i];
    }
  }

  /** The running maximum on day i is the price of some day up to i. */
  lemma {:induction false} RunningMaxAttained(p: seq<real>, i: nat) returns (k: nat)
    requires i < |p|
    ensures k <= i && RunningMax(p)[i] == p[k]
  {
    var init := p[..|p| - 1];
    var prev := RunningMax(init);
    var m := RunningMax(p);
    assert m == prev + [if prev == [] then p[0] else Max(prev[|prev| - 1], p[|p| - 1])];
    if i < |init| {
      k := RunningMaxAttained(init, i);
      assert m[i] == prev[i];
    } else if prev == [] {
      k := 0;
    } else if prev[|prev| - 1] >= p[|p| - 1] {
      k := RunningMaxAttained(init, |init| - 1);
    } else {
      k := i;
    }
  }

  /** The running maximum at i is no lower than any price up to i. */
  lemma {:induction false} RunningMaxBounds(p: seq<real>, k: nat, i: nat)
    requires k <= i < |p|
    ensures p[k] <= RunningMax(p)[i]
  {
    RunningMaxFacts(p);
  }

  /** `(prices - rolling_max) / rolling_max`: the fall from the running maximum, as a fraction of it. */
  function Drawdown(p: seq<real>): (d: seq<real>)
    requires Positive(p)
    ensures |d| == |p|
    ensures forall i :: 0 <= i < |p| ==> -1.0 < d[i] <= 0.0
    ensures forall i :: 0 <= i < |p| ==> (d[i] == 0.0 <==> p[i] == RunningMax(p)[i])
  {
    var m := RunningMax(p);
    RunningMaxFacts(p);
    var d := seq(|p|, i requires 0 <= i < |p| => Fall(p[i], m[i]));
    d
  }

  /** The fall of x below top, as a fraction of top. */
  function Fall(x: real, top: real): (f: real)
    requires 0.0 < x <= top
    ensures -1.0 < f <= 0.0
    ensures f == 0.0 <==> x == top
  {
    var f := (x - top) / top;
    assert f * top == x - top;
    ScaleOrder(-1.0, f, top);
    ScaleOrder(f, 0.0, top);
    assert x == top ==> f == 0.0 by {
      if x == top {
        Cancel(f, 0.0, top);
      }
    }
    f
  }

  /** Multiplying by a positive factor keeps the order of two numbers. */
  lemma {:induction false} ScaleOrder(a: real, b: real, c: real)
    requires c > 0.0
    ensures a < b <==> a * c < b * c
    ensures a <= b <==> a * c <= b * c
  {
    assert b * c - a * c == (b - a) * c;
  }

  /** The smallest element of a non-empty sequence (`min`). */
  function MinOf(s: seq<real>): (r: real)
    requires |s| > 0
    ensures exists i :: 0 <= i < |s| && s[i] == r
    ensures forall i :: 0 <= i < |s| ==> r <= s[i]
  {
    if |s| == 1 then s[0]
    else
      var rest := MinOf(s[..|s| - 1]);
      if s[|s| - 1] < rest then s[|s| - 1] else rest
  }

  /** `drawdown.min()`. */
  function MaxDrawdown(p: seq<real>): (m: real)
    requires |p| > 0 && Positive(p)
    ensures -1.0 < m <= 0.0
    ensures exists i :: 0 <= i < |p| && Drawdown(p)[i] == m
    ensures forall i :: 0 <= i < |p| ==> m <= Drawdown(p)[i]
  {
    MinOf(Drawdown(p))
  }

  /**
   * The maximum drawdown lies in (-1, 0], and is 0 exactly when the price
   * never falls below its running maximum.
   */
  lemma {:induction false} MaxDrawdownRange(p: seq<real>)
    requires |p| > 0 && Positive(p)
    ensures -1.0 < MaxDrawdown(p) <= 0.0
    ensures MaxDrawdown(p) == 0.0 <==> forall i :: 0 <= i < |p| ==> p[i] == RunningMax(p)[i]
  {
    var d := Drawdown(p);
    var i :| 0 <= i < |d| && d[i] == MinOf(d);
    if forall k :: 0 <= k < |p| ==> p[k] == RunningMax(p)[k] {
      assert d[i] == 0.0;
    }
  }

  /** A price that never falls below its running maximum is exactly a non-decreasing price. */
  lemma {:induction false} AtRunningMaxIffNondecreasing(p: seq<real>)
    ensures (forall i :: 0 <= i < |p| ==> p[i] == RunningMax(p)[i]) <==>
            (forall i, j :: 0 <= i <= j < |p| ==> p[i] <= p[j])
  {
    var m := RunningMax(p);
    RunningMaxFacts(p);
    if forall i :: 0 <= i < |p| ==> p[i] == m[i] {
      forall i, j | 0 <= i <= j < |p| ensures p[i] <= p[j] {
        assert m[i] <= m[j];
      }
    }
    if forall i, j :: 0 <= i <= j < |p| ==> p[i] <= p[j] {
      forall i | 0 <= i < |p| ensures p[i] == m[i] {
        var k := RunningMaxAttained(p, i);
        assert p[k] <= p[i];
      }
    }
  }

  /**
   * `(total_return - risk_free_rate) / volatility if volatility != 0 else 0`:
   * 0 for a zero volatility, NaN (None) for a NaN volatility, otherwise the
   * excess return per unit of volatility.
   */
  function Sharpe(totalReturn: real, vol: Option<real>): (s: Option<real>)
    ensures s.None? <==> vol.None?
    ensures vol == Some(0.0) ==> s == Some(0.0)
    ensures vol.Some? && vol.value != 0.0 ==> s.Some? && s.value * vol.value + RiskFreeRate == totalReturn
  {
    match vol
    case None => None
    case Some(v) => if v != 0.0 then Some((totalReturn - RiskFreeRate) / v) else Some(0.0)
  }

  /** One row of the metrics table. */
  datatype RiskRow = RiskRow(asset: string, totalReturn: real, volatility: Option<real>,
                             maxDrawdown: real, sharpe: Option<real>)

  /** The metrics of one column, given the prices and the volatility computed from them. */
  function ColumnMetrics(asset: string, p: seq<real>, vol: Option<real>): (row: RiskRow)
    requires |p| > 0 && Positive(p)
    ensures row.asset == asset && row.volatility == vol
    ensures row.totalReturn > -1.0
    ensures row.totalReturn > 0.0 <==> p[|p| - 1] > p[0]
    ensures row.totalReturn == 0.0 <==> p[|p| - 1] == p[0]
    ensures -1.0 < row.maxDrawdown <= 0.0
    ensures row.maxDrawdown == 0.0 <==> forall i :: 0 <= i < |p| ==> p[i] == RunningMax(p)[i]
    ensures row.sharpe.None? <==> vol.None?
    ensures vol == Some(0.0) ==> row.sharpe == Some(0.0)
    ensures row.sharpe == Sharpe(row.totalReturn, vol)
  {
    MaxDrawdownRange(p);
    TotalReturnSign(p);
    var tr := TotalReturn(p);
    RiskRow(asset, tr, vol, MaxDrawdown(p), Sharpe(tr, vol))
  }

  /** The volatility given for each column is the one of its prices. */
  predicate VolatilitiesOf(t: PriceTable, vols: seq<Option<real>>)
    requires WellFormed(t) && AllPositive(t)
  {
    |vols| == |t.names| &&
    forall c :: 0 <= c < |t.names| ==> ColumnPositive(t, c) && IsVolatility(Column(t, c), vols[c])
  }

  predicate ColumnPositive(t: PriceTable, c: nat)
    requires WellFormed(t) && c < |t.names|
  {
    Positive(Column(t, c))
  }

  lemma {:induction false} ColumnsPositive(t: PriceTable)
    requires WellFormed(t) && AllPositive(t)
    ensures forall c :: 0 <= c < |t.names| ==> ColumnPositive(t, c)
  {
    forall c | 0 <= c < |t.names| ensures Positive(Column(t, c)) {
      var p := Column(t, c);
      assert forall i :: 0 <= i < |p| ==> p[i] == t.rows[i].prices[c];
    }
  }

  /** The metrics table: empty for an empty table, else one row per column, in column order. */
  function Metrics(t: PriceTable, vols: seq<Option<real>>): (stats: seq<RiskRow>)
    requires WellFormed(t) && AllPositive(t) && |vols| == |t.names|
    ensures |stats| == if t.rows == [] then 0 else |t.names|
    ensures forall c :: 0 <= c < |stats| ==> stats[c].asset == t.names[c] && stats[c].volatility == vols[c]
  {
    ColumnsPositive(t);
    if t.rows == [] then []
    else seq(|t.names|, c requires 0 <= c < |t.names| => ColumnMetrics(t.names[c], Column(t, c), vols[c]))
  }

  /**
   * `calculate_risk_metrics`: the loop over the columns that appends one
   * row of statistics per column; an empty table gives no rows.
   */
  method CalculateRiskMetrics(t: PriceTable, vols: seq<Option<real>>) returns (stats: seq<RiskRow>)
    requires WellFormed(t) && AllPositive(t) && |vols| == |t.names|
    ensures stats == Metrics(t, vols)
  {
    if t.rows == [] {
      return [];
    }
    ghost var spec := Metrics(t, vols);
    ColumnsPositive(t);
    stats := [];
    for c := 0 to |t.names|
      invariant |stats| == c
      invariant forall k :: 0 <= k < c ==> stats[k] == spec[k]
    {
      stats := stats + [ColumnMetrics(t.names[c], Column(t, c), vols[c])];
    }
  }

  /**
   * The metrics table has one row per column, in column order, when the
   * table has rows: the row carries the column's name and volatility, the
   * column's total return and maximum drawdown, a drawdown in (-1, 0], and
   * the Sharpe ratio of that return and volatility.
   */
  lemma {:induction false} MetricsRows(t: PriceTable, vols: seq<Option<real>>)
    requires WellFormed(t) && AllPositive(t) && |vols| == |t.names|
    ensures |Metrics(t, vols)| == if t.rows == [] then 0 else |t.names|
    ensures forall c :: 0 <= c < |Metrics(t, vols)| ==>
              var row := Metrics(t, vols)[c];
              row.asset == t.names[c] &&
              row.volatility == vols[c] &&
              ColumnPositive(t, c) &&
              row.totalReturn == TotalReturn(Column(t, c)) &&
              row.maxDrawdown == MaxDrawdown(Column(t, c)) && -1.0 < row.maxDrawdown <= 0.0 &&
              row.sharpe == Sharpe(row.totalReturn, vols[c])
  {
    var stats := Metrics(t, vols);
    forall c | 0 <= c < |stats|
      ensures stats[c].asset == t.names[c] && stats[c].volatility == vols[c]
      ensures ColumnPositive(t, c)
      ensures stats[c].totalReturn == TotalReturn(Column(t, c))
      ensures stats[c].maxDrawdown == MaxDrawdown(Column(t, c)) && -1.0 < stats[c].maxDrawdown <= 0.0
      ensures stats[c].sharpe == Sharpe(stats[c].totalReturn, vols[c])
    {
      RowFacts(t, vols, c);
    }
  }

  /**
   * When the volatilities are those of the columns, each row's volatility is
   * its column's, and it is present exactly when the table has at least
   * three rows (two daily returns).
   */
  lemma {:induction false} MetricsVolatility(t: PriceTable, vols: seq<Option<real>>)
    requires WellFormed(t) && AllPositive(t) && VolatilitiesOf(t, vols)
    ensures forall c :: 0 <= c < |Metrics(t, vols)| ==>
              ColumnPositive(t, c) && IsVolatility(Column(t, c), Metrics(t, vols)[c].volatility) &&
              (Metrics(t, vols)[c].volatility.Some? <==> |t.rows| >= 3)
  {
    forall c | 0 <= c < |Metrics(t, vols)|
      ensures Metrics(t, vols)[c].volatility.Some? <==> |t.rows| >= 3
    {
      RowFacts(t, vols, c);
    }
  }

  /** The row of column c: its name, volatility, total return and maximum drawdown, and their Sharpe ratio. */
  lemma {:induction false} RowFacts(t: PriceTable, vols: seq<Option<real>>, c: nat)
    requires WellFormed(t) && AllPositive(t) && |vols| == |t.names| && t.rows != [] && c < |t.names|
    ensures ColumnPositive(t, c)
    ensures var row := Metrics(t, vols)[c];
            row.asset == t.names[c] && row.volatility == vols[c] &&
            row.totalReturn == TotalReturn(Column(t, c)) &&
            row.maxDrawdown == MaxDrawdown(Column(t, c)) && -1.0 < row.maxDrawdown <= 0.0 &&
            row.sharpe == Sharpe(row.totalReturn, vols[c])
  {
    ColumnsPositive(t);
    assert Metrics(t, vols)[c] == ColumnMetrics(t.names[c], Column(t, c), vols[c]);
  }

  /**
   * A constant price: total return 0, no drawdown, and, with at least three
   * prices, volatility 0 and so a Sharpe ratio of 0.
   */
  lemma {:induction false} ConstantPrices(p: seq<real>, vol: Option<real>)
    requires |p| > 0 && Positive(p) && IsVolatility(p, vol)
    requires forall i :: 0 <= i < |p| ==> p[i] == p[0]
    ensures TotalReturn(p) == 0.0
    ensures MaxDrawdown(p) == 0.0
    ensures |p| >= 3 ==> vol == Some(0.0) && ColumnMetrics("", p, vol).sharpe == Some(0.0)
  {
    ConstantTotalReturn(p);
    ConstantNoDrawdown(p);
    if |p| >= 3 {
      ConstantVolatility(p, vol);
    }
  }

  lemma {:induction false} ConstantTotalReturn(p: seq<real>)
    requires |p| > 0 && Positive(p)
    requires forall i :: 0 <= i < |p| ==> p[i] == p[0]
    ensures TotalReturn(p) == 0.0
  {
    var r := TotalReturn(p);
    Cancel(1.0 + r, 1.0, p[0]);
  }

  lemma {:induction false} ConstantNoDrawdown(p: seq<real>)
    requires |p| > 0 && Positive(p)
    requires forall i :: 0 <= i < |p| ==> p[i] == p[0]
    ensures MaxDrawdown(p) == 0.0
  {
    AtRunningMaxIffNondecreasing(p);
    MaxDrawdownRange(p);
  }

  lemma {:induction false} ConstantVolatility(p: seq<real>, vol: Option<real>)
    requires |p| >= 3 && Positive(p) && IsVolatility(p, vol)
    requires forall i :: 0 <= i < |p| ==> p[i] == p[0]
    ensures vol == Some(0.0)
  {
    var r := DailyReturns(p);
    forall i, j | 0 <= i < j < |r| ensures r[i] == r[j] {
      ReturnZero(p[i], p[i + 1], r[i]);
      ReturnZero(p[j], p[j + 1], r[j]);
    }
    VolatilityZero(p, vol.value);
  }

  /** A price that does not move has a return of zero. */
  lemma {:induction false} ReturnZero(x: real, y: real, r: real)
    requires x > 0.0 && x == y && x * (1.0 + r) == y
    ensures r == 0.0
  {
    Cancel(1.0 + r, 1.0, x);
  }
}
