/**
 * The outer join of the collected series on their dates (`pd.concat(...,
 * axis=1, join='outer')`) and the in-place sort of the joined rows by date
 * (`sort_index`).
 */
module Join {
  import opened Wrappers
  import opened Frames

  /** The price a series holds on day d, or None when it was not observed that day. */
  function Lookup(obs: seq<Observation>, d: int): (r: Option<real>)
    ensures r.Some? <==> ObservedOn(obs, d)
    ensures DatesIncreasing(obs) ==>
      forall k :: 0 <= k < |obs| && obs[k].date == d ==> r == Some(obs[k].price)
  {
    if |obs| == 0 then None
    else if obs[0].date == d then Some(obs[0].price)
    else
      assert forall k :: 1 <= k < |obs| ==> obs[k] == obs[1..][k - 1];
      Lookup(obs[1..], d)
  }

  predicate Distinct(s: seq<int>) {
    forall i, j :: 0 <= i < j < |s| ==> s[i] != s[j]
  }

  /** Appends to acc, in order of appearance, the dates of obs that acc does not hold yet. */
  function AddDates(acc: seq<int>, obs: seq<Observation>): (r: seq<int>)
    ensures forall d :: d in r <==> d in acc || ObservedOn(obs, d)
    ensures Distinct(acc) ==> Distinct(r)
    decreases |obs|
  {
    if obs == [] then acc
    else
      assert forall k :: 1 <= k < |obs| ==> obs[k] == obs[1..][k - 1];
      AddDates(if obs[0].date in acc then acc else acc + [obs[0].date], obs[1..])
  }

  /** The union of the dates of all series, in order of first appearance. */
  function JoinDates(acc: seq<int>, series: seq<Series>): (r: seq<int>)
    ensures forall d :: d in r <==> d in acc || InUnion(series, d)
    ensures Distinct(acc) ==> Distinct(r)
    decreases |series|
  {
    if series == [] then acc
    else
      assert forall c :: 1 <= c < |series| ==> series[c] == series[1..][c - 1];
      JoinDates(AddDates(acc, series[0].obs), series[1..])
  }

  /** The row of the joined table for day d: one cell per series, in series order. */
  predicate IsJoinedRow(series: seq<Series>, r: Row) {
    |r.cells| == |series| &&
    forall c :: 0 <= c < |series| ==> r.cells[c] == Lookup(series[c].obs, r.date)
  }

  predicate DistinctDates(rows: seq<Row>) {
    forall i, j :: 0 <= i < j < |rows| ==> rows[i].date != rows[j].date
  }

  /** `pd.concat(df_list, axis=1, join='outer')`: one row per date of any series. */
  function OuterJoin(series: seq<Series>): (rows: seq<Row>)
    ensures forall i :: 0 <= i < |rows| ==> IsJoinedRow(series, rows[i])
    ensures DistinctDates(rows)
    ensures forall i :: 0 <= i < |rows| ==> InUnion(series, rows[i].date)
    ensures forall d :: InUnion(series, d) ==> exists i :: 0 <= i < |rows| && rows[i].date == d
  {
    var ds := JoinDates([], series);
    var rows := seq(|ds|, i requires 0 <= i < |ds| =>
      Row(ds[i], seq(|series|, c requires 0 <= c < |series| => Lookup(series[c].obs, ds[i]))));
    assert forall d :: InUnion(series, d) ==> rows[IndexOf(ds, d)].date == d;
    rows
  }

  function IndexOf(s: seq<int>, d: int): (i: nat)
    requires d in s
    ensures i < |s| && s[i] == d
  {
    if s[0] == d then 0 else 1 + IndexOf(s[1..], d)
  }

  /** Inserts r after every row whose date is not later than its own. */
  function InsertByDate(sorted: seq<Row>, r: Row): (s: seq<Row>)
    ensures |s| == |sorted| + 1
  {
    if sorted == [] then [r]
    else if r.date < sorted[0].date then [r] + sorted
    else [sorted[0]] + InsertByDate(sorted[1..], r)
  }

  /** Insertion adds the row to the rows and nothing else. */
  lemma {:induction false} InsertByDatePermutes(sorted: seq<Row>, r: Row)
    ensures multiset(InsertByDate(sorted, r)) == multiset(sorted) + multiset{r}
  {
    if sorted != [] && r.date >= sorted[0].date {
      InsertByDatePermutes(sorted[1..], r);
      assert sorted == [sorted[0]] + sorted[1..];
    }
  }

  /** Insertion sort of the rows by date: the specification of `sort_index`. */
  function SortByDate(rows: seq<Row>): (s: seq<Row>)
    ensures |s| == |rows|
  {
    if rows == [] then []
    else InsertByDate(SortByDate(rows[..|rows| - 1]), rows[|rows| - 1])
  }

  lemma {:induction false} InsertByDateAscending(sorted: seq<Row>, r: Row)
    requires RowsAscending(sorted)
    requires forall i :: 0 <= i < |sorted| ==> sorted[i].date != r.date
    ensures RowsAscending(InsertByDate(sorted, r))
  {
    if sorted != [] && r.date >= sorted[0].date {
      var rest := InsertByDate(sorted[1..], r);
      InsertByDateAscending(sorted[1..], r);
      InsertByDatePermutes(sorted[1..], r);
      assert sorted == [sorted[0]] + sorted[1..];
      forall x | x in rest ensures sorted[0].date < x.date {
        assert x in multiset(rest);
      }
    }
  }

  /** Sorting rearranges the rows and nothing else. */
  lemma {:induction false} SortByDatePermutes(rows: seq<Row>)
    ensures multiset(SortByDate(rows)) == multiset(rows)
  {
    if rows != [] {
      var init := rows[..|rows| - 1];
      var last := rows[|rows| - 1];
      SortByDatePermutes(init);
      InsertByDatePermutes(SortByDate(init), last);
      assert SortByDate(rows) == InsertByDate(SortByDate(init), last);
      assert rows == init + [last];
      assert multiset(rows) == multiset(init) + multiset{last};
    }
  }

  /** Rows with distinct dates come out in strictly ascending date order. */
  lemma {:induction false} SortByDateAscending(rows: seq<Row>)
    requires DistinctDates(rows)
    ensures RowsAscending(SortByDate(rows))
  {
    if rows != [] {
      var init := rows[..|rows| - 1];
      var last := rows[|rows| - 1];
      var sortedInit := SortByDate(init);
      SortByDateAscending(init);
      SortByDatePermutes(init);
      forall i | 0 <= i < |sortedInit| ensures sortedInit[i].date != last.date {
        assert sortedInit[i] in multiset(init);
        var k :| 0 <= k < |init| && init[k] == sortedInit[i];
        assert init[k] == rows[k];
      }
      InsertByDateAscending(sortedInit, last);
    }
  }

  /** Inserting past a prefix of rows dated no later than r leaves that prefix in front. */
  lemma {:induction false} InsertByDateSkips(sorted: seq<Row>, r: Row, j: nat)
    requires j <= |sorted|
    requires forall k :: 0 <= k < j ==> sorted[k].date <= r.date
    ensures InsertByDate(sorted, r) == sorted[..j] + InsertByDate(sorted[j..], r)
  {
    if j > 0 {
      InsertByDateSkips(sorted[1..], r, j - 1);
      assert sorted[1..][j - 1..] == sorted[j..];
      assert sorted[..j] == [sorted[0]] + sorted[1..][..j - 1];
    }
  }

  /** `data.sort_index(inplace=True)`: insertion sort that finds each row's place by a scan. */
  method SortIndex(rows: seq<Row>) returns (sorted: seq<Row>)
    ensures sorted == SortByDate(rows)
  {
    sorted := [];
    for n := 0 to |rows|
      invariant sorted == SortByDate(rows[..n])
    {
      var r := rows[n];
      var j := 0;
      while j < |sorted| && sorted[j].date <= r.date
        invariant 0 <= j <= |sorted|
        invariant forall k :: 0 <= k < j ==> sorted[k].date <= r.date
      {
        j := j + 1;
      }
      InsertByDateSkips(sorted, r, j);
      assert InsertByDate(sorted[j..], r) == [r] + sorted[j..];
      assert rows[..n + 1][..n] == rows[..n] && rows[..n + 1][n] == r;
      assert SortByDate(rows[..n + 1]) == InsertByDate(sorted, r);
      sorted := sorted[..j] + ([r] + sorted[j..]);
    }
    assert rows[..|rows|] == rows;
  }
}
