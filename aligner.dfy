/**
 * The series aligner: outer join, sort by date, forward fill then back
 * fill, then drop every row that still has a missing cell. With no series
 * at all the result is the empty table.
 */
module Aligner {
  import opened Wrappers
  import opened Frames
  import opened Join
  import opened Fill

  /** A row in which no cell is missing. */
  predicate Complete(r: Row) {
    forall c :: 0 <= c < |r.cells| ==> r.cells[c].Some?
  }

  /** The prices of a complete row. */
  function Prices(r: Row): (p: PriceRow)
    requires Complete(r)
    ensures p.date == r.date && |p.prices| == |r.cells|
    ensures forall c :: 0 <= c < |r.cells| ==> r.cells[c] == Some(p.prices[c])
  {
    PriceRow(r.date, seq(|r.cells|, c requires 0 <= c < |r.cells| => r.cells[c].value))
  }

  /** `dropna()`: the complete rows, in their order. */
  function DropIncomplete(rows: seq<Row>): (kept: seq<PriceRow>)
    ensures |kept| <= |rows|
  {
    if rows == [] then []
    else
      var kept := DropIncomplete(rows[..|rows| - 1]);
      var last := rows[|rows| - 1];
      if Complete(last) then kept + [Prices(last)] else kept
  }

  /**
   * The rows that `dropna` keeps are exactly the complete rows, in order:
   * idx lists their positions in the input, ascending.
   */
  lemma {:induction false} DropIncompleteKeeps(rows: seq<Row>) returns (idx: seq<nat>)
    ensures |idx| == |DropIncomplete(rows)|
    ensures forall k :: 0 <= k < |idx| ==> idx[k] < |rows| && Complete(rows[idx[k]])
    ensures forall k :: 0 <= k < |idx| ==> DropIncomplete(rows)[k] == Prices(rows[idx[k]])
    ensures forall k, l :: 0 <= k < l < |idx| ==> idx[k] < idx[l]
    ensures forall i :: 0 <= i < |rows| && Complete(rows[i]) ==> i in idx
  {
    if rows == [] {
      idx := [];
    } else {
      var n := |rows| - 1;
      var init := rows[..n];
      var prev := DropIncompleteKeeps(init);
      var before := DropIncomplete(init);
      assert forall i :: 0 <= i < n ==> init[i] == rows[i];
      if Complete(rows[n]) {
        var kept := DropIncomplete(rows);
        assert kept == before + [Prices(rows[n])];
        idx := prev + [n];
        forall k | 0 <= k < |idx|
          ensures idx[k] < |rows| && Complete(rows[idx[k]]) && kept[k] == Prices(rows[idx[k]])
        {
          if k < |prev| {
            assert idx[k] == prev[k] && kept[k] == before[k];
          }
        }
        forall i | 0 <= i < |rows| && Complete(rows[i]) ensures i in idx {
          if i < n {
            assert Complete(init[i]);
            assert i in prev;
          }
        }
      } else {
        assert DropIncomplete(rows) == before;
        idx := prev;
        forall i | 0 <= i < |rows| && Complete(rows[i]) ensures i in idx {
          assert i < n;
          assert Complete(init[i]);
        }
      }
    }
  }

  /** With every row complete, `dropna` keeps them all. */
  lemma {:induction false} DropIncompleteAllComplete(rows: seq<Row>)
    requires forall i :: 0 <= i < |rows| ==> Complete(rows[i])
    ensures |DropIncomplete(rows)| == |rows|
    ensures forall i :: 0 <= i < |rows| ==> DropIncomplete(rows)[i] == Prices(rows[i])
  {
    if rows != [] {
      var init := rows[..|rows| - 1];
      assert forall i :: 0 <= i < |init| ==> init[i] == rows[i];
      DropIncompleteAllComplete(init);
    }
  }

  /** With no row complete, `dropna` removes every row. */
  lemma {:induction false} DropIncompleteNoneComplete(rows: seq<Row>)
    requires forall i :: 0 <= i < |rows| ==> !Complete(rows[i])
    ensures DropIncomplete(rows) == []
  {
    if rows != [] {
      var init := rows[..|rows| - 1];
      assert forall i :: 0 <= i < |init| ==> init[i] == rows[i];
      DropIncompleteNoneComplete(init);
    }
  }

  /** `data.dropna(inplace=True)`: a scan that keeps each row all of whose cells are present. */
  method DropNa(rows: seq<Row>) returns (kept: seq<PriceRow>)
    ensures kept == DropIncomplete(rows)
  {
    kept := [];
    for i := 0 to |rows|
      invariant kept == DropIncomplete(rows[..i])
    {
      var cells := rows[i].cells;
      var complete := true;
      for c := 0 to |cells|
        invariant complete <==> forall k :: 0 <= k < c ==> cells[k].Some?
      {
        if cells[c].None? {
          complete := false;
        }
      }
      assert rows[..i + 1][..i] == rows[..i];
      if complete {
        kept := kept + [Prices(rows[i])];
      }
    }
    assert rows[..|rows|] == rows;
  }

  /** The price of the latest observation on or before day d, if any. */
  function Latest(obs: seq<Observation>, d: int): Option<real>
  {
    if obs == [] || obs[0].date > d then None
    else match Latest(obs[1..], d)
      case None => Some(obs[0].price)
      case Some(p) => Some(p)
  }

  /**
   * The value an aligned cell should hold on day d: the latest price on or
   * before d, and before the first observation, the first price.
   */
  function AsOf(obs: seq<Observation>, d: int): Option<real>
  {
    match Latest(obs, d)
    case Some(p) => Some(p)
    case None => if obs == [] then None else Some(obs[0].price)
  }

  /** Latest picks the last observation dated on or before d. */
  lemma {:induction false} LatestWitness(obs: seq<Observation>, d: int) returns (k: nat)
    requires DatesIncreasing(obs) && Latest(obs, d).Some?
    ensures k < |obs| && obs[k].date <= d && Latest(obs, d) == Some(obs[k].price)
    ensures forall m :: k < m < |obs| ==> obs[m].date > d
  {
    var tail := obs[1..];
    assert forall m :: 1 <= m < |obs| ==> obs[m] == tail[m - 1];
    if Latest(tail, d).None? {
      k := 0;
      if |obs| > 1 {
        assert tail[0].date > d;
      }
    } else {
      var j := LatestWitness(tail, d);
      k := j + 1;
    }
  }

  /** With no observation on or before d, every observation is later than d. */
  lemma {:induction false} LatestNone(obs: seq<Observation>, d: int)
    requires DatesIncreasing(obs) && Latest(obs, d).None?
    ensures forall m :: 0 <= m < |obs| ==> obs[m].date > d
  {
    if obs != [] {
      assert obs[0].date > d;
    }
  }

  /** Fills never overwrite a known value: on an observed day AsOf is that day's price. */
  lemma {:induction false} AsOfObserved(obs: seq<Observation>, k: nat)
    requires DatesIncreasing(obs) && k < |obs|
    ensures AsOf(obs, obs[k].date) == Some(obs[k].price)
  {
    var tail := obs[1..];
    assert forall m :: 1 <= m < |obs| ==> obs[m] == tail[m - 1];
    if k == 0 {
      if |obs| > 1 {
        assert tail[0].date > obs[0].date;
      }
      assert Latest(tail, obs[0].date) == None;
    } else {
      AsOfObserved(tail, k - 1);
      assert Latest(tail, obs[k].date).Some?;
    }
  }

  /** Every value AsOf yields is the price of some observation. */
  lemma {:induction false} AsOfIsObserved(obs: seq<Observation>, d: int)
    requires AsOf(obs, d).Some?
    ensures exists k :: 0 <= k < |obs| && AsOf(obs, d) == Some(obs[k].price)
  {
    LatestIsObserved(obs, d);
  }

  lemma {:induction false} LatestIsObserved(obs: seq<Observation>, d: int)
    ensures Latest(obs, d).Some? ==> exists k :: 0 <= k < |obs| && Latest(obs, d) == Some(obs[k].price)
  {
    if obs != [] && obs[0].date <= d {
      var tail := obs[1..];
      LatestIsObserved(tail, d);
      if Latest(tail, d).Some? {
        var k :| 0 <= k < |tail| && Latest(tail, d) == Some(tail[k].price);
        assert obs[k + 1] == tail[k];
      }
    }
  }

  /** The joined rows after `sort_index`. */
  function SortedJoin(series: seq<Series>): (rows: seq<Row>)
    ensures RowsWidth(rows, |series|)
  {
    SortedJoinMembers(OuterJoin(series));
    SortByDate(OuterJoin(series))
  }

  /** The sorted join has one row per date of the union, in ascending order, each the joined row of its day. */
  lemma {:induction false} SortedJoinFacts(series: seq<Series>)
    ensures RowsAscending(SortedJoin(series))
    ensures forall i :: 0 <= i < |SortedJoin(series)| ==> IsJoinedRow(series, SortedJoin(series)[i])
    ensures forall i :: 0 <= i < |SortedJoin(series)| ==> InUnion(series, SortedJoin(series)[i].date)
    ensures forall d :: InUnion(series, d) ==> exists i :: 0 <= i < |SortedJoin(series)| && SortedJoin(series)[i].date == d
  {
    var joined := OuterJoin(series);
    SortedJoinMembers(joined);
    SortByDateAscending(joined);
    SortedJoinCovers(joined);
  }

  lemma {:induction false} SortedJoinMembers(joined: seq<Row>)
    ensures forall i :: 0 <= i < |SortByDate(joined)| ==> SortByDate(joined)[i] in joined
  {
    var rows := SortByDate(joined);
    SortByDatePermutes(joined);
    forall i | 0 <= i < |rows| ensures rows[i] in joined {
      assert rows[i] in multiset(joined);
    }
  }

  lemma {:induction false} SortedJoinCovers(joined: seq<Row>)
    ensures forall j :: 0 <= j < |joined| ==> joined[j] in SortByDate(joined)
  {
    var rows := SortByDate(joined);
    SortByDatePermutes(joined);
    forall j | 0 <= j < |joined| ensures joined[j] in rows {
      assert joined[j] in multiset(rows);
    }
  }

  /** The display names of the series, in series order: the table's columns. */
  function Names(series: seq<Series>): (names: seq<string>)
    ensures |names| == |series| && forall c :: 0 <= c < |series| ==> names[c] == series[c].name
  {
    seq(|series|, c requires 0 <= c < |series| => series[c].name)
  }

  /** The aligner's specification: the empty table without series, else join, sort, fill, drop. */
  function AlignSpec(series: seq<Series>): (t: PriceTable)
    ensures t.names == Names(series)
    ensures series == [] ==> t.rows == []
  {
    if series == [] then PriceTable([], [])
    else PriceTable(Names(series), DropIncomplete(FillGaps(|series|, SortedJoin(series))))
  }

  /**
   * The facts about one column of the sorted join that the fill argument
   * needs: rows ascending, each cell the lookup of its day, and every
   * observation's day present as a row.
   */
  predicate JoinedColumn(obs: seq<Observation>, rows: seq<Row>, w: nat, c: nat) {
    c < w && DatesIncreasing(obs) && RowsWidth(rows, w) && RowsAscending(rows) &&
    (forall m :: 0 <= m < |rows| ==> rows[m].cells[c] == Lookup(obs, rows[m].date))
  }

  /** Every observation's day is the day of some row. */
  predicate Covers(obs: seq<Observation>, rows: seq<Row>) {
    forall k :: 0 <= k < |obs| ==> exists j :: 0 <= j < |rows| && rows[j].date == obs[k].date
  }

  /** A day with an observation on or before it takes the latest such price. */
  lemma {:induction false} FilledCellAfterFirst(obs: seq<Observation>, rows: seq<Row>, w: nat, c: nat, i: nat, k: nat, j: nat)
    requires JoinedColumn(obs, rows, w, c) && i < |rows|
    requires k < |obs| && obs[k].date <= rows[i].date && Latest(obs, rows[i].date) == Some(obs[k].price)
    requires forall m :: k < m < |obs| ==> obs[m].date > rows[i].date
    requires j < |rows| && rows[j].date == obs[k].date
    ensures FillGaps(w, rows)[i].cells[c] == AsOf(obs, rows[i].date)
  {
    assert rows[j].cells[c] == Some(obs[k].price);
    forall m | j < m <= i ensures rows[m].cells[c].None? {
      NotObservedBetween(obs, k, rows[i].date, rows[m].date);
    }
    FillGapsAfterKnown(w, rows, c, j, i);
  }

  /** No observation falls strictly after obs[k] and on or before the day bound. */
  lemma {:induction false} NotObservedBetween(obs: seq<Observation>, k: nat, bound: int, d: int)
    requires DatesIncreasing(obs) && k < |obs|
    requires forall m :: k < m < |obs| ==> obs[m].date > bound
    requires obs[k].date < d <= bound
    ensures !ObservedOn(obs, d)
  {
    forall q | 0 <= q < |obs| ensures obs[q].date != d {
      if q <= k {
        if q < k { assert obs[q].date < obs[k].date; }
      }
    }
  }

  /** A day before the first observation takes the first price. */
  lemma {:induction false} FilledCellBeforeFirst(obs: seq<Observation>, rows: seq<Row>, w: nat, c: nat, i: nat, j: nat)
    requires JoinedColumn(obs, rows, w, c) && i < |rows| && obs != []
    requires Latest(obs, rows[i].date).None?
    requires j < |rows| && rows[j].date == obs[0].date
    ensures FillGaps(w, rows)[i].cells[c] == AsOf(obs, rows[i].date)
  {
    LatestNone(obs, rows[i].date);
    assert rows[j].cells[c] == Some(obs[0].price);
    forall m | 0 <= m < j ensures rows[m].cells[c].None? {
      assert rows[m].date < rows[j].date;
      forall q | 0 <= q < |obs| ensures obs[q].date != rows[m].date {
        if q > 0 { assert obs[0].date < obs[q].date; }
      }
    }
    FillGapsBeforeFirst(w, rows, c, i, j);
  }

  /** A column with no observation stays missing. */
  lemma {:induction false} FilledCellNoData(obs: seq<Observation>, rows: seq<Row>, w: nat, c: nat, i: nat)
    requires JoinedColumn(obs, rows, w, c) && i < |rows| && obs == []
    ensures FillGaps(w, rows)[i].cells[c] == AsOf(obs, rows[i].date)
  {
    FillGapsColumn(w, rows, c);
  }

  /** The sorted join satisfies JoinedColumn for each series with increasing dates. */
  lemma {:induction false} SortedJoinColumn(series: seq<Series>, c: nat)
    requires c < |series| && DatesIncreasing(series[c].obs)
    ensures JoinedColumn(series[c].obs, SortedJoin(series), |series|, c)
    ensures Covers(series[c].obs, SortedJoin(series))
  {
    var rows := SortedJoin(series);
    var obs := series[c].obs;
    SortedJoinFacts(series);
    forall m | 0 <= m < |rows| ensures rows[m].cells[c] == Lookup(obs, rows[m].date) {
      assert IsJoinedRow(series, rows[m]);
    }
    forall k | 0 <= k < |obs| ensures exists j :: 0 <= j < |rows| && rows[j].date == obs[k].date {
      var d := obs[k].date;
      assert series[c].obs[k].date == d;
      assert ObservedOn(series[c].obs, d);
      assert InUnion(series, d);
      var j :| 0 <= j < |rows| && rows[j].date == d;
    }
    assert RowsAscending(rows);
    assert RowsWidth(rows, |series|);
  }

  /**
   * After `ffill().bfill()`, the cell of column c on a row's day is the price
   * of series c's latest observation on or before that day, or, before its
   * first observation, its first price; and missing only when series c has
   * no observation at all.
   */
  lemma {:induction false} FilledCell(series: seq<Series>, c: nat, i: nat)
    requires c < |series| && DatesIncreasing(series[c].obs)
    requires i < |SortedJoin(series)|
    ensures FillGaps(|series|, SortedJoin(series))[i].cells[c]
            == AsOf(series[c].obs, SortedJoin(series)[i].date)
  {
    var rows := SortedJoin(series);
    var obs := series[c].obs;
    SortedJoinColumn(series, c);
    if obs == [] {
      FilledCellNoData(obs, rows, |series|, c, i);
    } else if Latest(obs, rows[i].date).Some? {
      var k := LatestWitness(obs, rows[i].date);
      var j :| 0 <= j < |rows| && rows[j].date == obs[k].date;
      FilledCellAfterFirst(obs, rows, |series|, c, i, k, j);
    } else {
      var j :| 0 <= j < |rows| && rows[j].date == obs[0].date;
      FilledCellBeforeFirst(obs, rows, |series|, c, i, j);
    }
  }

  /**
   * Shape of the aligned table: one price per column in every row, rows in
   * strictly ascending date order, and every date one of some series.
   */
  lemma {:induction false} AlignShape(series: seq<Series>)
    ensures AlignSpec(series).names == Names(series)
    ensures WellFormed(AlignSpec(series))
    ensures PriceRowsAscending(AlignSpec(series).rows)
    ensures forall k :: 0 <= k < |AlignSpec(series).rows| ==> InUnion(series, AlignSpec(series).rows[k].date)
  {
    if series != [] {
      var filled := FillGaps(|series|, SortedJoin(series));
      FilledShape(series);
      DropIncompleteShape(filled, |series|);
      var kept := DropIncomplete(filled);
      forall k | 0 <= k < |kept| ensures InUnion(series, kept[k].date) {
        var i :| 0 <= i < |filled| && kept[k].date == filled[i].date;
      }
    }
  }

  /** The filled rows keep the sorted join's width, date order and dates. */
  lemma {:induction false} FilledShape(series: seq<Series>)
    requires series != []
    ensures RowsWidth(FillGaps(|series|, SortedJoin(series)), |series|)
    ensures RowsAscending(FillGaps(|series|, SortedJoin(series)))
    ensures forall i :: 0 <= i < |FillGaps(|series|, SortedJoin(series))| ==>
              InUnion(series, FillGaps(|series|, SortedJoin(series))[i].date)
  {
    var rows := SortedJoin(series);
    var filled := FillGaps(|series|, rows);
    SortedJoinFacts(series);
    assert forall i :: 0 <= i < |rows| ==> filled[i].date == rows[i].date;
  }

  /** `dropna` keeps the width and the date order, and keeps only dates it was given. */
  lemma {:induction false} DropIncompleteShape(rows: seq<Row>, w: nat)
    requires RowsWidth(rows, w)
    ensures forall k :: 0 <= k < |DropIncomplete(rows)| ==> |DropIncomplete(rows)[k].prices| == w
    ensures RowsAscending(rows) ==> PriceRowsAscending(DropIncomplete(rows))
    ensures forall k :: 0 <= k < |DropIncomplete(rows)| ==>
              exists i :: 0 <= i < |rows| && DropIncomplete(rows)[k].date == rows[i].date
  {
    var kept := DropIncomplete(rows);
    var idx := DropIncompleteKeeps(rows);
    assert forall k :: 0 <= k < |kept| ==> kept[k].date == rows[idx[k]].date;
    if RowsAscending(rows) {
      forall k, l | 0 <= k < l < |kept| ensures kept[k].date < kept[l].date {
        assert idx[k] < idx[l];
      }
    }
  }

  /**
   * When every series has at least one observation, `dropna` removes no row:
   * the table has a row for exactly the dates of the union, and each cell is
   * the AsOf value of its column's series on its row's date.
   */
  lemma {:induction false} AlignComplete(series: seq<Series>)
    requires series != []
    requires forall c :: 0 <= c < |series| ==> DatesIncreasing(series[c].obs) && series[c].obs != []
    ensures AlignSpec(series).names == Names(series) && WellFormed(AlignSpec(series))
    ensures |AlignSpec(series).rows| == |SortedJoin(series)|
    ensures forall d :: InUnion(series, d) <==>
              exists k :: 0 <= k < |AlignSpec(series).rows| && AlignSpec(series).rows[k].date == d
    ensures forall k, c :: 0 <= k < |AlignSpec(series).rows| && 0 <= c < |series| ==>
              AsOf(series[c].obs, AlignSpec(series).rows[k].date) == Some(AlignSpec(series).rows[k].prices[c])
  {
    var rows := SortedJoin(series);
    var t := AlignSpec(series);
    AlignCompleteRows(series);
    AlignCompleteDates(series);
    forall k, c | 0 <= k < |t.rows| && 0 <= c < |series|
      ensures AsOf(series[c].obs, t.rows[k].date) == Some(t.rows[k].prices[c])
    {
      assert t.rows[k].date == rows[k].date;
    }
  }

  /** With every series non-empty, the aligned dates are exactly the union. */
  lemma {:induction false} AlignCompleteDates(series: seq<Series>)
    requires series != []
    requires forall c :: 0 <= c < |series| ==> DatesIncreasing(series[c].obs) && series[c].obs != []
    ensures forall d :: InUnion(series, d) <==>
              exists k :: 0 <= k < |AlignSpec(series).rows| && AlignSpec(series).rows[k].date == d
  {
    var rows := SortedJoin(series);
    var t := AlignSpec(series);
    AlignCompleteRows(series);
    SortedJoinFacts(series);
    forall d | InUnion(series, d) ensures exists k :: 0 <= k < |t.rows| && t.rows[k].date == d {
      var i :| 0 <= i < |rows| && rows[i].date == d;
      assert t.rows[i].date == d;
    }
    forall d | (exists k :: 0 <= k < |t.rows| && t.rows[k].date == d) ensures InUnion(series, d) {
      var k :| 0 <= k < |t.rows| && t.rows[k].date == d;
      assert rows[k].date == d;
    }
  }

  /** With every series non-empty, `dropna` keeps each filled row, with the AsOf values as prices. */
  lemma {:induction false} AlignCompleteRows(series: seq<Series>)
    requires series != []
    requires forall c :: 0 <= c < |series| ==> DatesIncreasing(series[c].obs) && series[c].obs != []
    ensures |AlignSpec(series).rows| == |SortedJoin(series)|
    ensures forall k :: 0 <= k < |SortedJoin(series)| ==> AlignSpec(series).rows[k].date == SortedJoin(series)[k].date
    ensures forall k, c :: 0 <= k < |SortedJoin(series)| && 0 <= c < |series| ==>
              |AlignSpec(series).rows[k].prices| == |series| &&
              AsOf(series[c].obs, SortedJoin(series)[k].date) == Some(AlignSpec(series).rows[k].prices[c])
  {
    var rows := SortedJoin(series);
    var filled := FillGaps(|series|, rows);
    FilledComplete(series);
    DropIncompleteAllComplete(filled);
    var t := AlignSpec(series);
    assert t.rows == DropIncomplete(filled);
    assert |t.rows| == |filled| == |rows|;
    forall k | 0 <= k < |rows|
      ensures t.rows[k] == Prices(filled[k]) && t.rows[k].date == rows[k].date
    {
    }
    forall k, c | 0 <= k < |rows| && 0 <= c < |series|
      ensures |t.rows[k].prices| == |series| && AsOf(series[c].obs, rows[k].date) == Some(t.rows[k].prices[c])
    {
      var row := filled[k];
      assert row.cells[c] == AsOf(series[c].obs, rows[k].date);
      assert row.cells[c] == Some(Prices(row).prices[c]);
    }
  }

  /** With every series non-empty, the filled join is complete and each cell is its AsOf value. */
  lemma {:induction false} FilledComplete(series: seq<Series>)
    requires forall c :: 0 <= c < |series| ==> DatesIncreasing(series[c].obs) && series[c].obs != []
    ensures forall i :: 0 <= i < |FillGaps(|series|, SortedJoin(series))| ==>
              Complete(FillGaps(|series|, SortedJoin(series))[i])
    ensures forall i, c :: 0 <= i < |SortedJoin(series)| && 0 <= c < |series| ==>
              FillGaps(|series|, SortedJoin(series))[i].cells[c] == AsOf(series[c].obs, SortedJoin(series)[i].date)
  {
    var rows := SortedJoin(series);
    var filled := FillGaps(|series|, rows);
    forall i, c | 0 <= i < |rows| && 0 <= c < |series|
      ensures filled[i].cells[c] == AsOf(series[c].obs, rows[i].date)
    {
      FilledCell(series, c, i);
    }
    forall i | 0 <= i < |filled| ensures Complete(filled[i]) {
      forall c | 0 <= c < |filled[i].cells| ensures filled[i].cells[c].Some? {
        assert filled[i].cells[c] == AsOf(series[c].obs, rows[i].date);
      }
    }
  }

  /** A series with no observation leaves its whole column missing, so `dropna` removes every row. */
  lemma {:induction false} AlignEmptyColumn(series: seq<Series>, c: nat)
    requires c < |series| && series[c].obs == []
    ensures AlignSpec(series).rows == []
  {
    var rows := SortedJoin(series);
    SortedJoinFacts(series);
    forall m | 0 <= m < |rows| ensures rows[m].cells[c].None? {
      assert IsJoinedRow(series, rows[m]);
    }
    FillGapsColumn(|series|, rows, c);
    var filled := FillGaps(|series|, rows);
    assert forall i :: 0 <= i < |filled| ==> !Complete(filled[i]);
    DropIncompleteNoneComplete(filled);
  }

  /** Filling only copies observed prices, so positive inputs give a positive table. */
  lemma {:induction false} AlignPositive(series: seq<Series>)
    requires forall c :: 0 <= c < |series| ==> DatesIncreasing(series[c].obs)
    requires forall c, k :: 0 <= c < |series| && 0 <= k < |series[c].obs| ==> series[c].obs[k].price > 0.0
    ensures AllPositive(AlignSpec(series))
  {
    var t := AlignSpec(series);
    AlignShape(series);
    if exists c :: 0 <= c < |series| && series[c].obs == [] {
      var c :| 0 <= c < |series| && series[c].obs == [];
      AlignEmptyColumn(series, c);
    } else if series != [] {
      AlignComplete(series);
      forall k, c | 0 <= k < |t.rows| && 0 <= c < |t.rows[k].prices| ensures t.rows[k].prices[c] > 0.0 {
        AsOfIsObserved(series[c].obs, t.rows[k].date);
      }
    }
  }

  /**
   * The aligner (`_get_data_internal`, after the downloads): join, sort by
   * date, forward fill then back fill, drop incomplete rows; without series
   * the empty table.
   */
  method Align(series: seq<Series>) returns (t: PriceTable)
    ensures t == AlignSpec(series)
    ensures t.names == Names(series) && WellFormed(t) && PriceRowsAscending(t.rows)
    ensures forall k :: 0 <= k < |t.rows| ==> InUnion(series, t.rows[k].date)
    ensures (exists c :: 0 <= c < |series| && series[c].obs == []) ==> t.rows == []
    ensures series != [] && (forall c :: 0 <= c < |series| ==> DatesIncreasing(series[c].obs) && series[c].obs != []) ==>
              (forall d :: InUnion(series, d) <==> exists k :: 0 <= k < |t.rows| && t.rows[k].date == d) &&
              (forall k, c :: 0 <= k < |t.rows| && 0 <= c < |series| ==>
                 AsOf(series[c].obs, t.rows[k].date) == Some(t.rows[k].prices[c]))
  {
    AlignShape(series);
    if exists c :: 0 <= c < |series| && series[c].obs == [] {
      var c :| 0 <= c < |series| && series[c].obs == [];
      AlignEmptyColumn(series, c);
    }
    if series != [] && (forall c :: 0 <= c < |series| ==> DatesIncreasing(series[c].obs) && series[c].obs != []) {
      AlignComplete(series);
    }
    if series == [] {
      return PriceTable([], []);
    }
    var joined := OuterJoin(series);
    var sorted := SortIndex(joined);
    assert sorted == SortedJoin(series);
    var filled := FillGaps(|series|, sorted);
    var kept := DropNa(filled);
    t := PriceTable(Names(series), kept);
  }
}
