/**
 * The data model of the price pipeline. Calendar days are integers, prices
 * are exact reals. A table is kept row by row, each row carrying its date,
 * and its columns are the instruments, in the order of `names`.
 */
module Frames {
  import opened Wrappers

  /** One closing price of one instrument on one calendar day. */
  datatype Observation = Observation(date: int, price: real)

  /** The price history of one instrument, labelled with its display name. */
  datatype Series = Series(name: string, obs: seq<Observation>)

  /** Dates of a raw series are strictly increasing (no duplicate days). */
  predicate DatesIncreasing(obs: seq<Observation>) {
    forall i, j :: 0 <= i < j < |obs| ==> obs[i].date < obs[j].date
  }

  /** True when the series has an observation on day d. */
  predicate ObservedOn(obs: seq<Observation>, d: int) {
    exists k :: 0 <= k < |obs| && obs[k].date == d
  }

  /** True when some series of the list has an observation on day d. */
  predicate InUnion(series: seq<Series>, d: int) {
    exists c :: 0 <= c < |series| && ObservedOn(series[c].obs, d)
  }

  /** A row of the joined table before gap repair; a missing cell is None. */
  datatype Row = Row(date: int, cells: seq<Option<real>>)

  /** A row of the aligned table, where every cell holds a price. */
  datatype PriceRow = PriceRow(date: int, prices: seq<real>)

  /** The aligned table: column labels in column order, rows in date order. */
  datatype PriceTable = PriceTable(names: seq<string>, rows: seq<PriceRow>)

  predicate RowsWidth(rows: seq<Row>, w: nat) {
    forall i :: 0 <= i < |rows| ==> |rows[i].cells| == w
  }

  predicate RowsAscending(rows: seq<Row>) {
    forall i, j :: 0 <= i < j < |rows| ==> rows[i].date < rows[j].date
  }

  predicate PriceRowsAscending(rows: seq<PriceRow>) {
    forall i, j :: 0 <= i < j < |rows| ==> rows[i].date < rows[j].date
  }

  /** Every row of the table has one price per column. */
  predicate WellFormed(t: PriceTable) {
    forall i :: 0 <= i < |t.rows| ==> |t.rows[i].prices| == |t.names|
  }

  /** Every price of the table is strictly positive. */
  predicate AllPositive(t: PriceTable) {
    forall i, c :: 0 <= i < |t.rows| && 0 <= c < |t.rows[i].prices| ==> t.rows[i].prices[c] > 0.0
  }

  /** The prices of column c, oldest first (`data[col]`). */
  function Column(t: PriceTable, c: nat): (p: seq<real>)
    requires WellFormed(t) && c < |t.names|
    ensures |p| == |t.rows|
    ensures forall i :: 0 <= i < |p| ==> p[i] == t.rows[i].prices[c]
  {
    seq(|t.rows|, i requires 0 <= i < |t.rows| => t.rows[i].prices[c])
  }
}
