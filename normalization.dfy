/**
 * The chart transform: `((data / data.iloc[0]) - 1) * 100`. Every price
 * becomes its percentage change from the first row of its own column; the
 * dates, the column labels and the shape of the table stay as they are.
 */
module Normalization {
  import opened Frames
  import Risk

  /** The first row has no zero price, so every column can be divided by it. */
  predicate NonZeroBase(t: PriceTable)
    requires t.rows != []
  {
    forall c :: 0 <= c < |t.rows[0].prices| ==> t.rows[0].prices[c] != 0.0
  }

  /** The percentage change of x from base: base grown by r percent is x. */
  function Percent(x: real, base: real): (r: real)
    requires base != 0.0
    ensures (1.0 + r / 100.0) * base == x
  {
    (x / base - 1.0) * 100.0
  }

  /** Undoing a percentage change: base grown by r percent. */
  function Grow(r: real, base: real): real
  {
    (1.0 + r / 100.0) * base
  }

  /** The normalized table: each price as a percentage change from the first row's price of its column. */
  function Normalize(t: PriceTable): (n: PriceTable)
    requires WellFormed(t) && t.rows != [] && NonZeroBase(t)
    ensures n.names == t.names && |n.rows| == |t.rows| && WellFormed(n)
    ensures forall i :: 0 <= i < |t.rows| ==> n.rows[i].date == t.rows[i].date
  {
    var base := t.rows[0].prices;
    PriceTable(t.names, seq(|t.rows|, i requires 0 <= i < |t.rows| =>
      PriceRow(t.rows[i].date, seq(|t.names|, c requires 0 <= c < |t.names| => Percent(t.rows[i].prices[c], base[c])))))
  }

  /** Growing each normalized cell from the first row's price gives back the original table. */
  function Denormalize(n: PriceTable, base: seq<real>): (t: PriceTable)
    requires WellFormed(n) && |base| == |n.names|
    ensures t.names == n.names && |t.rows| == |n.rows| && WellFormed(t)
    ensures forall i :: 0 <= i < |n.rows| ==> t.rows[i].date == n.rows[i].date
  {
    PriceTable(n.names, seq(|n.rows|, i requires 0 <= i < |n.rows| =>
      PriceRow(n.rows[i].date, seq(|n.names|, c requires 0 <= c < |n.names| => Grow(n.rows[i].prices[c], base[c])))))
  }

  /** Normalization loses nothing: the first row's prices restore every price. */
  lemma {:induction false} NormalizeRoundTrip(t: PriceTable)
    requires WellFormed(t) && t.rows != [] && NonZeroBase(t)
    ensures Denormalize(Normalize(t), t.rows[0].prices) == t
  {
    var n := Normalize(t);
    var back := Denormalize(n, t.rows[0].prices);
    forall i | 0 <= i < |t.rows| ensures back.rows[i] == t.rows[i] {
      assert back.rows[i].prices == t.rows[i].prices by {
        forall c | 0 <= c < |t.names| ensures back.rows[i].prices[c] == t.rows[i].prices[c] {
          var x := t.rows[i].prices[c];
          var b := t.rows[0].prices[c];
          assert n.rows[i].prices[c] == Percent(x, b);
        }
      }
    }
    assert back.rows == t.rows;
  }

  /** The percentage change of the base from itself is 0. */
  lemma {:induction false} PercentOfBase(b: real)
    requires b != 0.0
    ensures Percent(b, b) == 0.0
  {
    var r := Percent(b, b);
    Risk.Cancel(1.0 + r / 100.0, 1.0, b);
  }

  /** Every cell of the first normalized row is 0; a one-row table normalizes to all zeros. */
  lemma {:induction false} FirstRowZero(t: PriceTable)
    requires WellFormed(t) && t.rows != [] && NonZeroBase(t)
    ensures forall c :: 0 <= c < |t.names| ==> Normalize(t).rows[0].prices[c] == 0.0
  {
    forall c | 0 <= c < |t.names| ensures Normalize(t).rows[0].prices[c] == 0.0 {
      PercentOfBase(t.rows[0].prices[c]);
    }
  }

  /**
   * With a positive base, normalization keeps the order of prices, and the
   * normalized value is positive, zero or negative as the price is above,
   * at or below the base.
   */
  lemma {:induction false} PercentOrder(x: real, y: real, b: real)
    requires b > 0.0
    ensures x < y <==> Percent(x, b) < Percent(y, b)
    ensures x == y <==> Percent(x, b) == Percent(y, b)
  {
    var rx := Percent(x, b);
    var ry := Percent(y, b);
    Risk.ScaleOrder(1.0 + rx / 100.0, 1.0 + ry / 100.0, b);
  }

  lemma {:induction false} PercentSign(x: real, b: real)
    requires b > 0.0
    ensures Percent(x, b) > 0.0 <==> x > b
    ensures Percent(x, b) == 0.0 <==> x == b
  {
    PercentOrder(b, x, b);
    PercentOfBase(b);
  }

  /** The last normalized value of a column is its total return, in percent. */
  lemma {:induction false} LastRowIsTotalReturn(t: PriceTable, c: nat)
    requires WellFormed(t) && t.rows != [] && AllPositive(t) && c < |t.names|
    ensures NonZeroBase(t)
    ensures Normalize(t).rows[|t.rows| - 1].prices[c] == 100.0 * Risk.TotalReturn(Column(t, c))
  {
    var p := Column(t, c);
    var last := |t.rows| - 1;
    assert p[0] == t.rows[0].prices[c] && p[last] == t.rows[last].prices[c];
    assert p[0] > 0.0;
  }
}
