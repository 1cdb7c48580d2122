/**
 * The instruments of the explorer and the collection of their downloaded
 * price histories into the list of series handed to the aligner. A download
 * is modelled by its outcome: None when the provider call or the reshaping
 * of its answer raised an exception, otherwise the observations it returned
 * (possibly none).
 */
module Sources {
  import opened Wrappers
  import opened Frames
  import Aligner

  /** A display name and the provider symbol it is downloaded under. */
  datatype Instrument = Instrument(name: string, symbol: string)

  /** The fixed instrument table, in the order the explorer downloads it. */
  const Instruments: seq<Instrument> := [
    Instrument("S&P 500", "^GSPC"),
    Instrument("US 10Y Yield", "^TNX"),
    Instrument("EUR/USD", "EURUSD=X"),
    Instrument("Gold", "GC=F"),
    Instrument("Bitcoin", "BTC-USD")
  ]

  /** The outcome of downloading one instrument. */
  type Download = Option<seq<Observation>>

  /** The download produced a non-empty history, so the instrument is kept. */
  predicate Usable(d: Download) {
    d.Some? && d.value != []
  }

  predicate NamesDistinct(instruments: seq<Instrument>) {
    forall i, j :: 0 <= i < j < |instruments| ==> instruments[i].name != instruments[j].name
  }

  /** The series collected from the downloads, in instrument order, skipping failures and empty answers. */
  function Collected(instruments: seq<Instrument>, downloads: seq<Download>): (series: seq<Series>)
    requires |downloads| == |instruments|
    ensures |series| <= |instruments|
  {
    if instruments == [] then []
    else
      var n := |instruments| - 1;
      var init := Collected(instruments[..n], downloads[..n]);
      if Usable(downloads[n]) then init + [Series(instruments[n].name, downloads[n].value)] else init
  }

  /**
   * Each collected series comes from a usable download: `idx` maps it to
   * the instrument it came from, and is strictly increasing, so the
   * collected list keeps the instrument order.
   */
  lemma {:induction false} CollectedOrigins(instruments: seq<Instrument>, downloads: seq<Download>) returns (idx: seq<nat>)
    requires |downloads| == |instruments|
    ensures |idx| == |Collected(instruments, downloads)|
    ensures forall j, l :: 0 <= j < l < |idx| ==> idx[j] < idx[l]
    ensures forall j :: 0 <= j < |idx| ==>
              idx[j] < |instruments| && Usable(downloads[idx[j]]) &&
              Collected(instruments, downloads)[j] == Series(instruments[idx[j]].name, downloads[idx[j]].value)
  {
    if instruments == [] {
      return [];
    }
    var n := |instruments| - 1;
    var series := Collected(instruments, downloads);
    var init := Collected(instruments[..n], downloads[..n]);
    var prev := CollectedOrigins(instruments[..n], downloads[..n]);
    idx := if Usable(downloads[n]) then prev + [n] else prev;
    assert series == if Usable(downloads[n]) then init + [Series(instruments[n].name, downloads[n].value)] else init;
    forall j | 0 <= j < |idx|
      ensures idx[j] < |instruments| && Usable(downloads[idx[j]])
      ensures series[j] == Series(instruments[idx[j]].name, downloads[idx[j]].value)
    {
      if j < |prev| {
        assert idx[j] == prev[j] && series[j] == init[j];
        assert instruments[..n][prev[j]] == instruments[prev[j]] && downloads[..n][prev[j]] == downloads[prev[j]];
      }
    }
  }

  /** Every usable download is collected. */
  lemma {:induction false} CollectedComplete(instruments: seq<Instrument>, downloads: seq<Download>, k: nat)
    requires |downloads| == |instruments| && k < |instruments| && Usable(downloads[k])
    ensures Series(instruments[k].name, downloads[k].value) in Collected(instruments, downloads)
  {
    var n := |instruments| - 1;
    if k < n {
      CollectedComplete(instruments[..n], downloads[..n], k);
      assert instruments[..n][k] == instruments[k] && downloads[..n][k] == downloads[k];
    }
  }

  /** Nothing is collected exactly when no download is usable. */
  lemma {:induction false} CollectedEmpty(instruments: seq<Instrument>, downloads: seq<Download>)
    requires |downloads| == |instruments|
    ensures Collected(instruments, downloads) == [] <==> forall k :: 0 <= k < |instruments| ==> !Usable(downloads[k])
  {
    var idx := CollectedOrigins(instruments, downloads);
    if Collected(instruments, downloads) != [] {
      assert Usable(downloads[idx[0]]);
    }
    if exists k :: 0 <= k < |instruments| && Usable(downloads[k]) {
      var k :| 0 <= k < |instruments| && Usable(downloads[k]);
      CollectedComplete(instruments, downloads, k);
    }
  }

  /** Distinct instrument names give distinct column labels, and every collected series has data. */
  lemma {:induction false} CollectedLabels(instruments: seq<Instrument>, downloads: seq<Download>)
    requires |downloads| == |instruments| && NamesDistinct(instruments)
    ensures var series := Collected(instruments, downloads);
            (forall j, l :: 0 <= j < l < |series| ==> series[j].name != series[l].name) &&
            (forall j :: 0 <= j < |series| ==> series[j].obs != [])
  {
    var idx := CollectedOrigins(instruments, downloads);
  }

  /** The `df_list.append` loop over the instruments. */
  method CollectSeries(instruments: seq<Instrument>, downloads: seq<Download>) returns (dfList: seq<Series>)
    requires |downloads| == |instruments|
    ensures dfList == Collected(instruments, downloads)
  {
    dfList := [];
    var k := 0;
    while k < |instruments|
      invariant 0 <= k <= |instruments|
      invariant dfList == Collected(instruments[..k], downloads[..k])
    {
      assert instruments[..k + 1][..k] == instruments[..k];
      assert downloads[..k + 1][..k] == downloads[..k];
      if Usable(downloads[k]) {
        dfList := dfList + [Series(instruments[k].name, downloads[k].value)];
      }
      k := k + 1;
    }
    assert instruments[..k] == instruments && downloads[..k] == downloads;
  }

  /** Every history a download returns has strictly increasing dates. */
  predicate DownloadsOrdered(downloads: seq<Download>) {
    forall k :: 0 <= k < |downloads| && downloads[k].Some? ==> DatesIncreasing(downloads[k].value)
  }

  /**
   * `_get_data_internal` for the fixed instruments: collect what downloaded,
   * then align it. The table's columns are the usable instruments in
   * instrument order, and it is empty exactly when nothing could be
   * downloaded; otherwise its dates are the union of the downloaded dates.
   */
  method FetchLongTermData(downloads: seq<Download>) returns (t: PriceTable)
    requires |downloads| == |Instruments| && DownloadsOrdered(downloads)
    ensures t == Aligner.AlignSpec(Collected(Instruments, downloads))
    ensures t.names == Aligner.Names(Collected(Instruments, downloads))
    ensures t.rows == [] <==> forall k :: 0 <= k < |Instruments| ==> !Usable(downloads[k])
    ensures forall d :: InUnion(Collected(Instruments, downloads), d) <==>
              exists k :: 0 <= k < |t.rows| && t.rows[k].date == d
  {
    var series := CollectSeries(Instruments, downloads);
    CollectedEmpty(Instruments, downloads);
    CollectedLabels(Instruments, downloads);
    var idx := CollectedOrigins(Instruments, downloads);
    assert forall j :: 0 <= j < |series| ==> DatesIncreasing(series[j].obs);
    t := Aligner.Align(series);
    if series == [] {
      assert t.rows == [];
    } else {
      var d0 := series[0].obs[0].date;
      assert ObservedOn(series[0].obs, d0);
      assert InUnion(series, d0);
    }
  }
}
