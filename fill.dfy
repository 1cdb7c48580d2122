/**
 * Gap repair of the joined table: `data.ffill().bfill()`. Both passes work
 * on every column at once, row by row, and carry values along the rows.
 */
module Fill {
  import opened Wrappers
  import opened Frames

  /** Cell by cell: a known cell stays as it is, a missing one takes the fallback. */
  function Patch(cells: seq<Option<real>>, fallback: seq<Option<real>>): (r: seq<Option<real>>)
    requires |cells| == |fallback|
    ensures |r| == |cells|
    ensures forall c :: 0 <= c < |r| && cells[c].Some? ==> r[c] == cells[c]
    ensures forall c :: 0 <= c < |r| && cells[c].None? ==> r[c] == fallback[c]
  {
    seq(|cells|, c requires 0 <= c < |cells| => if cells[c].Some? then cells[c] else fallback[c])
  }

  /** A row of w missing cells. */
  function Missing(w: nat): (r: seq<Option<real>>)
    ensures |r| == w && forall c :: 0 <= c < w ==> r[c].None?
  {
    seq(w, _ => None)
  }

  /** Every row has a cell in column c. */
  predicate HasColumn(rows: seq<Row>, c: nat) {
    forall i :: 0 <= i < |rows| ==> c < |rows[i].cells|
  }

  /** `ffill()`: carry holds, per column, the last known value of the rows already passed. */
  function FFill(carry: seq<Option<real>>, rows: seq<Row>): (r: seq<Row>)
    requires RowsWidth(rows, |carry|)
    ensures |r| == |rows| && RowsWidth(r, |carry|)
    decreases |rows|
    ensures forall i :: 0 <= i < |rows| ==> r[i].date == rows[i].date
    ensures forall i, c :: 0 <= i < |rows| && 0 <= c < |carry| && rows[i].cells[c].Some? ==>
              r[i].cells[c] == rows[i].cells[c]
  {
    if rows == [] then []
    else
      var cells := Patch(rows[0].cells, carry);
      var rest := FFill(cells, rows[1..]);
      assert forall i :: 1 <= i < |rows| ==> rows[i] == rows[1..][i - 1];
      [Row(rows[0].date, cells)] + rest
  }

  /** `bfill()`: from the last row backwards, a missing cell takes what the next row ends up holding. */
  function BFill(w: nat, rows: seq<Row>): (r: seq<Row>)
    requires RowsWidth(rows, w)
    ensures |r| == |rows| && RowsWidth(r, w)
    ensures forall i :: 0 <= i < |rows| ==> r[i].date == rows[i].date
    ensures forall i, c :: 0 <= i < |rows| && 0 <= c < w && rows[i].cells[c].Some? ==>
              r[i].cells[c] == rows[i].cells[c]
  {
    if rows == [] then []
    else
      var rest := BFill(w, rows[1..]);
      var next := if rest == [] then Missing(w) else rest[0].cells;
      assert forall i :: 1 <= i < |rows| ==> rows[i] == rows[1..][i - 1];
      [Row(rows[0].date, Patch(rows[0].cells, next))] + rest
  }

  /** `ffill().bfill()` on a table of w columns: forward first, then backward. */
  function FillGaps(w: nat, rows: seq<Row>): (r: seq<Row>)
    requires RowsWidth(rows, w)
    ensures |r| == |rows| && RowsWidth(r, w)
    ensures forall i :: 0 <= i < |rows| ==> r[i].date == rows[i].date
  {
    BFill(w, FFill(Missing(w), rows))
  }

  /** Repair never changes a known cell. */
  lemma {:induction false} FillGapsKeepsKnown(w: nat, rows: seq<Row>)
    requires RowsWidth(rows, w)
    ensures forall i, c :: 0 <= i < |rows| && 0 <= c < w && rows[i].cells[c].Some? ==>
              FillGaps(w, rows)[i].cells[c] == rows[i].cells[c]
  {
  }

  /** Forward fill: with no known cell in column c up to row i, row i holds the incoming carry. */
  lemma {:induction false} FFillBeforeKnown(carry: seq<Option<real>>, rows: seq<Row>, c: nat, i: nat)
    requires RowsWidth(rows, |carry|) && c < |carry| && i < |rows|
    requires forall k :: 0 <= k <= i ==> rows[k].cells[c].None?
    ensures FFill(carry, rows)[i].cells[c] == carry[c]
    decreases i
  {
    if i > 0 {
      var cells := Patch(rows[0].cells, carry);
      FFillBeforeKnown(cells, rows[1..], c, i - 1);
    }
  }

  /** Forward fill: a cell missing since the known cell at row j holds that cell's value. */
  lemma {:induction false} FFillAfterKnown(carry: seq<Option<real>>, rows: seq<Row>, c: nat, j: nat, i: nat)
    requires RowsWidth(rows, |carry|) && c < |carry| && j <= i < |rows|
    requires rows[j].cells[c].Some?
    requires forall k :: j < k <= i ==> rows[k].cells[c].None?
    ensures FFill(carry, rows)[i].cells[c] == rows[j].cells[c]
    decreases j
  {
    var cells := Patch(rows[0].cells, carry);
    if j > 0 {
      FFillAfterKnown(cells, rows[1..], c, j - 1, i - 1);
    } else if i > 0 {
      FFillBeforeKnown(cells, rows[1..], c, i - 1);
    }
  }

  /** Back fill: a cell missing up to the known cell at row j holds that cell's value. */
  lemma {:induction false} BFillBeforeKnown(w: nat, rows: seq<Row>, c: nat, i: nat, j: nat)
    requires RowsWidth(rows, w) && c < w && i <= j < |rows|
    requires rows[j].cells[c].Some?
    requires forall k :: i <= k < j ==> rows[k].cells[c].None?
    ensures BFill(w, rows)[i].cells[c] == rows[j].cells[c]
  {
    if i > 0 {
      BFillBeforeKnown(w, rows[1..], c, i - 1, j - 1);
    } else if j > 0 {
      BFillBeforeKnown(w, rows[1..], c, 0, j - 1);
    }
  }

  /** Back fill: with no known cell in column c from row i on, row i stays missing. */
  lemma {:induction false} BFillAfterKnown(w: nat, rows: seq<Row>, c: nat, i: nat)
    requires RowsWidth(rows, w) && c < w && i < |rows|
    requires forall k :: i <= k < |rows| ==> rows[k].cells[c].None?
    ensures BFill(w, rows)[i].cells[c].None?
  {
    if i > 0 {
      BFillAfterKnown(w, rows[1..], c, i - 1);
    } else if |rows| > 1 {
      BFillAfterKnown(w, rows[1..], c, 0);
    }
  }

  /** After repair, a cell missing since the known cell at row j holds that cell's value. */
  lemma {:induction false} FillGapsAfterKnown(w: nat, rows: seq<Row>, c: nat, j: nat, i: nat)
    requires RowsWidth(rows, w) && c < w && j <= i < |rows|
    requires rows[j].cells[c].Some?
    requires forall k :: j < k <= i ==> rows[k].cells[c].None?
    ensures FillGaps(w, rows)[i].cells[c] == rows[j].cells[c]
  {
    FFillAfterKnown(Missing(w), rows, c, j, i);
  }

  /** After repair, a cell before the first known cell of its column (row j) holds that cell's value. */
  lemma {:induction false} FillGapsBeforeFirst(w: nat, rows: seq<Row>, c: nat, i: nat, j: nat)
    requires RowsWidth(rows, w) && c < w && i <= j < |rows|
    requires rows[j].cells[c].Some?
    requires forall k :: 0 <= k < j ==> rows[k].cells[c].None?
    ensures FillGaps(w, rows)[i].cells[c] == rows[j].cells[c]
  {
    var ff := FFill(Missing(w), rows);
    forall k | i <= k < j ensures ff[k].cells[c].None? {
      FFillBeforeKnown(Missing(w), rows, c, k);
    }
    BFillBeforeKnown(w, ff, c, i, j);
  }

  /** The latest row at or before i whose cell in column c is known, or -1 when there is none. */
  function LastKnown(rows: seq<Row>, c: nat, i: int): (j: int)
    requires -1 <= i < |rows| && HasColumn(rows, c)
    ensures -1 <= j <= i
    ensures j >= 0 ==> rows[j].cells[c].Some?
    ensures forall k :: j < k <= i && 0 <= k ==> rows[k].cells[c].None?
    decreases i + 1
  {
    if i < 0 then -1
    else if rows[i].cells[c].Some? then i
    else LastKnown(rows, c, i - 1)
  }

  /**
   * Completeness: a column with at least one known cell has no missing cell
   * after repair, and a column with none stays missing in every row.
   */
  lemma {:induction false} FillGapsColumn(w: nat, rows: seq<Row>, c: nat)
    requires RowsWidth(rows, w) && c < w
    ensures (exists j :: 0 <= j < |rows| && rows[j].cells[c].Some?) ==>
              forall i :: 0 <= i < |rows| ==> FillGaps(w, rows)[i].cells[c].Some?
    ensures (forall j :: 0 <= j < |rows| ==> rows[j].cells[c].None?) ==>
              forall i :: 0 <= i < |rows| ==> FillGaps(w, rows)[i].cells[c].None?
  {
    var ff := FFill(Missing(w), rows);
    if exists j :: 0 <= j < |rows| && rows[j].cells[c].Some? {
      forall i | 0 <= i < |rows| ensures FillGaps(w, rows)[i].cells[c].Some? {
        var j := LastKnown(rows, c, i);
        if j >= 0 {
          FillGapsAfterKnown(w, rows, c, j, i);
        } else {
          var f := FirstKnownFrom(rows, c, i);
          FillGapsBeforeFirst(w, rows, c, i, f);
        }
      }
    } else {
      forall i | 0 <= i < |rows| ensures FillGaps(w, rows)[i].cells[c].None? {
        FFillBeforeKnown(Missing(w), rows, c, |rows| - 1);
        forall k | i <= k < |rows| ensures ff[k].cells[c].None? {
          FFillBeforeKnown(Missing(w), rows, c, k);
        }
        BFillAfterKnown(w, ff, c, i);
      }
    }
  }

  /** The first row after i whose cell in column c is known, given that none is known up to i. */
  lemma {:induction false} FirstKnownFrom(rows: seq<Row>, c: nat, i: nat) returns (f: nat)
    requires i < |rows| && HasColumn(rows, c)
    requires exists j :: 0 <= j < |rows| && rows[j].cells[c].Some?
    requires forall k :: 0 <= k <= i ==> rows[k].cells[c].None?
    ensures i < f < |rows| && rows[f].cells[c].Some?
    ensures forall k :: 0 <= k < f ==> rows[k].cells[c].None?
  {
    f := i + 1;
    while rows[f].cells[c].None?
      invariant i < f < |rows|
      invariant forall k :: 0 <= k < f ==> rows[k].cells[c].None?
      decreases |rows| - f
    {
      f := f + 1;
    }
  }
}
