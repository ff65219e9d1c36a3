/**
 * make_stationary: first-order differencing of every column of a monthly
 * panel (pandas `diff()`), followed by dropping every row with a missing
 * cell (`dropna()`).
 */
module Stationarity {
  import opened Results
  import opened Calendar
  import opened Panel

  /** One cell of `diff()`: NaN when either operand is NaN. */
  function Difference(prev: Option<real>, cur: Option<real>): Option<real> {
    if prev.Some? && cur.Some? then Some(cur.value - prev.value) else None
  }

  function DiffCells(prev: seq<Option<real>>, cur: seq<Option<real>>): seq<Option<real>>
    requires |prev| == |cur|
  {
    seq(|cur|, c requires 0 <= c < |cur| => Difference(prev[c], cur[c]))
  }

  function Missing(n: nat): seq<Option<real>> {
    seq(n, _ => None)
  }

  /** Row i of `data.diff()`: the first row has no predecessor, so all its cells are NaN. */
  function DiffRow(f: Frame, i: nat): (r: Row)
    requires Rectangular(f) && i < |f.rows|
    ensures r.month == f.rows[i].month && |r.cells| == |f.columns|
  {
    Row(f.rows[i].month, if i == 0 then Missing(|f.columns|) else DiffCells(f.rows[i - 1].cells, f.rows[i].cells))
  }

  /** `data.diff()`: every row keeps its month label and holds itself minus the row before. */
  function Diff(f: Frame): (d: seq<Row>)
    requires Rectangular(f)
    ensures |d| == |f.rows|
    ensures forall i :: 0 <= i < |d| ==> d[i] == DiffRow(f, i)
  {
    seq(|f.rows|, i requires 0 <= i < |f.rows| => DiffRow(f, i))
  }

  /** `data.diff().dropna()`; the columns are kept as they are, in their order. */
  function MakeStationary(f: Frame): (s: Frame)
    requires Rectangular(f)
    ensures s.columns == f.columns
    ensures Rectangular(s)
    ensures |s.rows| <= |f.rows|
  {
    var d := Diff(f);
    var rows := DropIncomplete(d);
    assert forall i :: 0 <= i < |rows| ==> |rows[i].cells| == |f.columns| by {
      forall i | 0 <= i < |rows| ensures |rows[i].cells| == |f.columns| {
        assert rows[i] in d;
      }
    }
    Frame(f.columns, rows)
  }

  /** The differenced rows after the first one, i.e. everything but the all-NaN row. */
  lemma DiffSplit(f: Frame)
    requires Rectangular(f) && |f.rows| > 0
    ensures Diff(f) == [Diff(f)[0]] + Diff(f)[1..]
    ensures Diff(f)[0].cells == Missing(|f.columns|)
  {
  }

  /** On a panel without missing cells and with at least one column, exactly the first, all-NaN, row goes. */
  lemma StationaryTail(f: Frame)
    requires Rectangular(f) && |f.columns| > 0 && |f.rows| > 0
    requires forall i :: 0 <= i < |f.rows| ==> Complete(f.rows[i])
    ensures MakeStationary(f).rows == Diff(f)[1..]
  {
    var d := Diff(f);
    DiffSplit(f);
    var tail := d[1..];
    assert !Complete(d[0]) by {
      assert d[0].cells[0] == None;
    }
    assert forall i :: 0 <= i < |tail| ==> Complete(tail[i]) by {
      forall i | 0 <= i < |tail| ensures Complete(tail[i]) {
        assert tail[i] == d[i + 1];
        assert Complete(f.rows[i]) && Complete(f.rows[i + 1]);
      }
    }
    DropIncompleteAppend([d[0]], tail);
    DropIncompleteKeepsComplete(tail);
    assert DropIncomplete([d[0]]) == [];
  }

  /** Row `d` is row `cur` minus row `prev`, cell by cell, under the month of `cur`. */
  predicate IsChange(prev: Row, cur: Row, d: Row) {
    d.month == cur.month && |d.cells| == |cur.cells| == |prev.cells| &&
    forall c :: 0 <= c < |d.cells| ==>
      prev.cells[c].Some? && cur.cells[c].Some? && d.cells[c] == Some(cur.cells[c].value - prev.cells[c].value)
  }

  /**
   * The differencing law on a panel without missing cells and with at least one
   * column: one row fewer, and row i is input row i+1 minus input row i, under
   * the month label of input row i+1.
   */
  lemma StationaryLaw(f: Frame)
    requires Rectangular(f) && |f.columns| > 0
    requires forall i :: 0 <= i < |f.rows| ==> Complete(f.rows[i])
    ensures var s := MakeStationary(f);
      |s.rows| == (if |f.rows| == 0 then 0 else |f.rows| - 1) &&
      forall i :: 0 <= i < |s.rows| ==> IsChange(f.rows[i], f.rows[i + 1], s.rows[i])
  {
    if |f.rows| > 0 {
      StationaryTail(f);
      DiffChanges(f);
    }
  }

  /** On a panel without missing cells, every row of the difference after the first is a change. */
  lemma DiffChanges(f: Frame)
    requires Rectangular(f)
    requires forall i :: 0 <= i < |f.rows| ==> Complete(f.rows[i])
    ensures forall i :: 1 <= i < |f.rows| ==> IsChange(f.rows[i - 1], f.rows[i], Diff(f)[i])
  {
    forall i | 1 <= i < |f.rows| ensures IsChange(f.rows[i - 1], f.rows[i], Diff(f)[i]) {
      DiffRowComplete(f, i);
    }
  }

  /** Between two complete rows every cell of the difference is present and is their change. */
  lemma DiffRowComplete(f: Frame, i: nat)
    requires Rectangular(f) && 1 <= i < |f.rows| && Complete(f.rows[i - 1]) && Complete(f.rows[i])
    ensures IsChange(f.rows[i - 1], f.rows[i], DiffRow(f, i))
  {
  }

  /** With at least one column, a panel of zero or one rows differences to an empty table. */
  lemma {:induction false} StationaryShort(f: Frame)
    requires Rectangular(f) && |f.columns| > 0 && |f.rows| <= 1
    ensures MakeStationary(f).rows == []
  {
    if |f.rows| == 1 {
      var d := Diff(f);
      assert d[0].cells[0] == None;
      assert d == [d[0]];
    }
  }

  /**
   * A month's differenced row survives exactly when both it and the month
   * before have every cell; every surviving row is such a difference.
   */
  lemma StationaryRows(f: Frame, i: nat)
    requires Rectangular(f) && |f.columns| > 0 && 1 <= i < |f.rows|
    ensures var x := Row(f.rows[i].month, DiffCells(f.rows[i - 1].cells, f.rows[i].cells));
      x in MakeStationary(f).rows <==> Complete(f.rows[i - 1]) && Complete(f.rows[i])
  {
    var d := Diff(f);
    assert d[i] == Row(f.rows[i].month, DiffCells(f.rows[i - 1].cells, f.rows[i].cells));
    if Complete(d[i]) {
      forall c | 0 <= c < |f.columns| ensures f.rows[i - 1].cells[c].Some? && f.rows[i].cells[c].Some? {
        assert d[i].cells[c].Some?;
      }
    }
  }

  /** Every row of the result is the difference of two consecutive complete input rows. */
  lemma StationaryRowOrigin(f: Frame, x: Row)
    requires Rectangular(f) && |f.columns| > 0 && x in MakeStationary(f).rows
    ensures exists i :: 1 <= i < |f.rows| && x == DiffRow(f, i) && Complete(f.rows[i - 1]) && Complete(f.rows[i])
  {
    var d := Diff(f);
    assert x in d && Complete(x);
    assert !Complete(d[0]) by {
      assert d[0].cells[0] == None;
    }
    var i :| 0 <= i < |d| && d[i] == x;
    StationaryRows(f, i);
    assert x == DiffRow(f, i) && Complete(f.rows[i - 1]) && Complete(f.rows[i]);
  }

  /** Differencing a chronological panel gives a chronological panel. */
  lemma StationaryChronological(f: Frame)
    requires Rectangular(f) && Chronological(f.rows)
    ensures Chronological(MakeStationary(f).rows)
  {
    var d := Diff(f);
    assert Chronological(d);
    DropIncompleteChronological(d);
  }

  /** A panel without columns has no cell to miss: every row is kept, month for month. */
  lemma {:induction false} StationaryNoColumns(f: Frame)
    requires Rectangular(f) && |f.columns| == 0
    ensures |MakeStationary(f).rows| == |f.rows|
    ensures forall i :: 0 <= i < |f.rows| ==> MakeStationary(f).rows[i].month == f.rows[i].month
  {
    var d := Diff(f);
    assert forall i :: 0 <= i < |d| ==> Complete(d[i]);
    DropIncompleteKeepsComplete(d);
  }
}
