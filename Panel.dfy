/**
 * Month-indexed tables: one row per month, one cell per column, a cell being
 * missing (NaN) or a number; and dropping the rows that have a missing cell.
 */
module Panel {
  import opened Results
  import opened Calendar

  datatype Row = Row(month: YearMonth, cells: seq<Option<real>>)

  /** A table: column labels in order, and rows in index order. */
  datatype Frame = Frame(columns: seq<string>, rows: seq<Row>)

  /** Every row has one cell per column. */
  predicate Rectangular(f: Frame) {
    forall i :: 0 <= i < |f.rows| ==> |f.rows[i].cells| == |f.columns|
  }

  predicate Complete(r: Row) {
    forall c :: 0 <= c < |r.cells| ==> r.cells[c].Some?
  }

  /** dropna(): the rows without a missing cell, in their original order. */
  function DropIncomplete(rows: seq<Row>): (r: seq<Row>)
    ensures |r| <= |rows|
    ensures forall i :: 0 <= i < |r| ==> Complete(r[i])
    ensures forall x :: x in r <==> x in rows && Complete(x)
  {
    if rows == [] then []
    else (if Complete(rows[0]) then [rows[0]] else []) + DropIncomplete(rows[1..])
  }

  /** Dropping distributes over concatenation, so the relative order of kept rows is the input's. */
  lemma {:induction false} DropIncompleteAppend(a: seq<Row>, b: seq<Row>)
    ensures DropIncomplete(a + b) == DropIncomplete(a) + DropIncomplete(b)
  {
    if a != [] {
      assert (a + b)[1..] == a[1..] + b;
      DropIncompleteAppend(a[1..], b);
    } else {
      assert a + b == b;
    }
  }

  /** A table without missing cells is left as it is. */
  lemma {:induction false} DropIncompleteKeepsComplete(rows: seq<Row>)
    requires forall i :: 0 <= i < |rows| ==> Complete(rows[i])
    ensures DropIncomplete(rows) == rows
  {
    if rows != [] {
      DropIncompleteKeepsComplete(rows[1..]);
    }
  }

  /** Rows in strictly increasing month order. */
  predicate Chronological(rows: seq<Row>) {
    forall i, j :: 0 <= i < j < |rows| ==> MonthIndex(rows[i].month) < MonthIndex(rows[j].month)
  }

  /** Dropping rows keeps the order of the rows that stay. */
  lemma {:induction false} DropIncompleteChronological(rows: seq<Row>)
    requires Chronological(rows)
    ensures Chronological(DropIncomplete(rows))
  {
    if rows != [] {
      var tail := rows[1..];
      assert Chronological(tail) by {
        forall i, j | 0 <= i < j < |tail| ensures MonthIndex(tail[i].month) < MonthIndex(tail[j].month) {
          assert tail[i] == rows[i + 1] && tail[j] == rows[j + 1];
        }
      }
      DropIncompleteChronological(tail);
      var rest := DropIncomplete(tail);
      forall k | 0 <= k < |rest| ensures MonthIndex(rows[0].month) < MonthIndex(rest[k].month) {
        assert rest[k] in tail;
        var t :| 0 <= t < |tail| && tail[t] == rest[k];
        assert tail[t] == rows[t + 1];
      }
    }
  }

  /** A table whose every row misses a cell loses all its rows. */
  lemma {:induction false} DropIncompleteNone(rows: seq<Row>)
    requires forall i :: 0 <= i < |rows| ==> !Complete(rows[i])
    ensures DropIncomplete(rows) == []
  {
    if rows != [] {
      DropIncompleteNone(rows[1..]);
    }
  }
}
