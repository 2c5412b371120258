/**
  The older reconciliation of excel_handler.py: `update_existing_data` written as the nested loop of
  the source (per new row, per present column, `.at` assignment or an append) and `update_all_sheets`
  without flooring or gap filling. The loop is proved to compute the fold of excel_handler2.py.
 */
module LegacyReconcile {
  import opened Wrappers
  import opened Seqs
  import opened Frames
  import opened Reconcile

  /** The cells of `row` whose column is in `cols`. */
  function Restrict(row: Row, cols: set<string>): (r: Row)
    ensures r.Keys == row.Keys * cols
    ensures forall c :: c in r ==> r[c] == row[c]
  {
    map c | c in row.Keys * cols :: row[c]
  }

  /** `existing_data.at[t, column] = v`: every row stamped `t` gets the cell, no other row changes. */
  function AtAssign(rows: Series, t: int, column: string, v: Value): (r: Series)
    ensures |r| == |rows|
    ensures forall i :: 0 <= i < |rows| && rows[i].time == t ==>
      r[i].time == t && CellAt(r[i].row, column) == Some(v) &&
      forall c :: c != column ==> CellAt(r[i].row, c) == CellAt(rows[i].row, c)
    ensures forall i :: 0 <= i < |rows| && rows[i].time != t ==> r[i] == rows[i]
  {
    seq(|rows|, i requires 0 <= i < |rows| =>
      if rows[i].time == t then Entry(t, rows[i].row[column := v]) else rows[i])
  }

  /** One `.at` assignment extends the upsert of the columns already written by one more column. */
  lemma AtAssignExtends(acc: Series, t: int, done: Row, column: string, v: Value)
    ensures AtAssign(UpsertAt(acc, Entry(t, done)), t, column, v) == UpsertAt(acc, Entry(t, done[column := v]))
  {
    var lhs := AtAssign(UpsertAt(acc, Entry(t, done)), t, column, v);
    var rhs := UpsertAt(acc, Entry(t, done[column := v]));
    forall i | 0 <= i < |acc| ensures lhs[i] == rhs[i] {
      if acc[i].time == t {
        UpsertThenAssign(acc[i].row, done, column, v);
      }
    }
  }

  lemma UpsertThenAssign(row: Row, done: Row, column: string, v: Value)
    ensures Upsert(row, done)[column := v] == Upsert(row, done[column := v])
  {
    assert (row + done)[column := v] == row + done[column := v];
  }

  /** Upserting nothing leaves the rows as they are. */
  lemma UpsertAtEmpty(acc: Series, t: int)
    ensures UpsertAt(acc, Entry(t, map[])) == acc
  {
    forall i | 0 <= i < |acc| ensures UpsertAt(acc, Entry(t, map[]))[i] == acc[i] {
      assert Upsert(acc[i].row, map[]) == acc[i].row;
    }
  }

  lemma RestrictNone(row: Row)
    ensures Restrict(row, row.Keys - row.Keys) == map[]
  {
  }

  lemma RestrictAll(x: Entry)
    ensures Entry(x.time, Restrict(x.row, x.row.Keys - {})) == x
  {
    assert Restrict(x.row, x.row.Keys - {}) == x.row;
  }

  lemma RestrictGrow(row: Row, pending: set<string>, column: string)
    requires column in pending && pending <= row.Keys
    ensures Restrict(row, row.Keys - pending)[column := row[column]] == Restrict(row, row.Keys - (pending - {column}))
  {
  }

  /** The fold over one more new row is one more step of the loop. */
  lemma UpdateExistingSnoc(existing: Series, newData: Series, i: int)
    requires 0 <= i < |newData|
    ensures UpdateExisting(existing, newData[..i + 1]) == Step(UpdateExisting(existing, newData[..i]), newData[i])
  {
    assert newData[..i + 1][..i] == newData[..i];
  }

  /**
    `update_existing_data(existing, new)` of excel_handler.py as the loop it is written as. A column
    missing from a new row is NaN there and skipped, so the inner loop visits exactly the row's keys;
    their order does not matter because each assignment writes a different column.
   */
  method UpdateExistingData(existing: Series, newData: Series) returns (result: Series)
    ensures result == UpdateExisting(existing, newData)
    ensures Times(result) == Times(existing) + Times(newData)
    ensures |existing| <= |result| && forall i :: 0 <= i < |existing| ==> result[i].time == existing[i].time
  {
    result := existing;
    var i := 0;
    while i < |newData|
      invariant 0 <= i <= |newData|
      invariant result == UpdateExisting(existing, newData[..i])
    {
      var x := newData[i];
      UpdateExistingSnoc(existing, newData, i);
      if x.time in Times(result) {
        var rows := result;
        var pending := x.row.Keys;
        RestrictNone(x.row);
        UpsertAtEmpty(result, x.time);
        while pending != {}
          invariant pending <= x.row.Keys
          invariant rows == UpsertAt(result, Entry(x.time, Restrict(x.row, x.row.Keys - pending)))
          decreases |pending|
        {
          var column :| column in pending;
          AtAssignExtends(result, x.time, Restrict(x.row, x.row.Keys - pending), column, x.row[column]);
          RestrictGrow(x.row, pending, column);
          rows := AtAssign(rows, x.time, column, x.row[column]);
          pending := pending - {column};
        }
        RestrictAll(x);
        result := rows;
      } else {
        result := result + [x];
      }
      i := i + 1;
    }
    assert newData[..|newData|] == newData;
  }

  /**
    `update_all_sheets` of excel_handler.py: with a stored workbook every sheet is updated directly,
    without flooring or gap filling; without one the new data is returned as given.
   */
  method UpdateAllSheets(stored: Option<Sheets>, batch: Sheets) returns (r: Sheets)
    ensures stored.None? ==> r == batch
    ensures stored.Some? ==>
      && KeepsThenAppends(stored.value.combined, batch.combined, r.combined)
      && KeepsThenAppends(stored.value.hrrr, batch.hrrr, r.hrrr)
      && KeepsThenAppends(stored.value.nam, batch.nam, r.nam)
      && KeepsThenAppends(stored.value.gfs, batch.gfs, r.gfs)
  {
    match stored
    case None =>
      r := batch;
    case Some(prev) =>
      var combined := UpdateExistingData(prev.combined, batch.combined);
      var hrrr := UpdateExistingData(prev.hrrr, batch.hrrr);
      var nam := UpdateExistingData(prev.nam, batch.nam);
      var gfs := UpdateExistingData(prev.gfs, batch.gfs);
      UpdateKeepsThenAppends(prev.combined, batch.combined);
      UpdateKeepsThenAppends(prev.hrrr, batch.hrrr);
      UpdateKeepsThenAppends(prev.nam, batch.nam);
      UpdateKeepsThenAppends(prev.gfs, batch.gfs);
      r := Sheets(combined, hrrr, nam, gfs);
  }

  /**
    The stored rows keep their positions and timestamps, no timestamp appears that neither input
    has, and, when neither side repeats a timestamp, the stored rows are upserted in place and the
    new-only rows follow them in batch order.
   */
  predicate KeepsThenAppends(existing: Series, newData: Series, r: Series) {
    && |existing| <= |r|
    && (forall i :: 0 <= i < |existing| ==> r[i].time == existing[i].time)
    && Times(r) == Times(existing) + Times(newData)
    && (UniqueTimes(existing) && UniqueTimes(newData) ==>
          r == Merged(existing, newData) + NewOnly(existing, newData))
  }

  lemma UpdateKeepsThenAppends(existing: Series, newData: Series)
    ensures KeepsThenAppends(existing, newData, UpdateExisting(existing, newData))
  {
    if UniqueTimes(existing) && UniqueTimes(newData) {
      UpdateExistingClosedForm(existing, newData);
    }
  }

  // ---------------------------------------------------------------------------------------------
  // What the padding step changes

  /** A stored reading at midnight and a new reading two hours later, with nothing in between. */
  function GapStored(): Series {
    [Entry(0, map["FCST_WS" := Num(3.0)])]
  }

  function GapBatch(): Series {
    [Entry(2 * HOUR, map["FCST_WS" := Num(5.0)])]
  }

  /** Without gap filling the missing hour stays missing: two rows, two hours apart. */
  lemma LegacyLeavesGap()
    ensures UpdateExisting(GapStored(), GapBatch()) == GapStored() + GapBatch()
  {
    var e, b := GapStored(), GapBatch();
    TimesSingleton(e[0]);
    TimesSingleton(b[0]);
    UpdateExistingClosedForm(e, b);
    assert Merged(e, b) == e;
    assert NewOnly(e, b) == b;
  }

  lemma GapFloored()
    ensures FloorTimes(GapStored()) == GapStored() && FloorTimes(GapBatch()) == GapBatch()
  {
    assert FloorHour(0) == 0;
    assert FloorHour(2 * HOUR) == 2 * HOUR;
  }

  lemma GapSpan()
    ensures SpanStart(GapStored(), GapBatch()) == 0 && SpanEnd(GapStored(), GapBatch()) == 2 * HOUR
  {
    assert MinTime(GapStored()) == 0 && MaxTime(GapStored()) == 0;
    assert MinTime(GapBatch()) == 2 * HOUR && MaxTime(GapBatch()) == 2 * HOUR;
  }

  lemma GapHourly()
    ensures HourlyUpsert(GapStored(), GapBatch(), 0, 3) == [GapStored()[0], Entry(HOUR, map[]), GapBatch()[0]]
  {
    var e, b := GapStored(), GapBatch();
    var h := HourlyUpsert(e, b, 0, 3);
    assert h[0] == e[0] by {
      assert RowAt(b, 0) == map[];
      assert Upsert(e[0].row, map[]) == e[0].row;
    }
    assert h[1] == Entry(HOUR, map[]) by {
      assert RowAt(e, HOUR) == map[] && RowAt(b, HOUR) == map[];
      assert Upsert(map[], map[]) == map[];
    }
    assert h[2] == b[0] by {
      assert RowAt(e, 2 * HOUR) == map[];
      assert RowAt(b, 2 * HOUR) == b[0].row;
      assert Upsert(map[], b[0].row) == b[0].row;
    }
  }

  /** The newer handler inserts an all-missing row for the hour between them. */
  lemma PaddingFillsTheGap()
    ensures FillThenUpdate(GapStored(), GapBatch()) ==
      Success([GapStored()[0], Entry(HOUR, map[]), GapBatch()[0]])
  {
    GapFloored();
    GapSpan();
    assert HourCount(0, 2 * HOUR) == 3;
    FillThenUpdateIsHourlyUpsert(GapStored(), GapBatch());
    GapHourly();
  }
}
