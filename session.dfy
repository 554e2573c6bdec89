/** A session of the program over a file: open, a run of insert
    statements, close, and a later open of the same file. */
module Session {
  import opened Layout
  import opened Files
  import opened RowCodec
  import opened StoreSpec
  import opened Persistence

  /** The table after executeInsert of each row in turn. */
  function InsertAll(t: TableState, rows: seq<Row>): (t': TableState)
    requires ValidPager(t.pager)
    ensures ValidPager(t'.pager)
    ensures t'.pager.file == t.pager.file && t'.pager.fileLength == t.pager.fileLength
    decreases |rows|
  {
    if rows == [] then t else InsertAll(Insert(t, rows[0]), rows[1..])
  }

  /** The status executeInsert reports for each row in turn. */
  function InsertResults(t: TableState, rows: seq<Row>): (results: seq<ExecuteResult>)
    requires ValidPager(t.pager)
    ensures |results| == |rows|
    decreases |rows|
  {
    if rows == [] then [] else [InsertResult(t)] + InsertResults(Insert(t, rows[0]), rows[1..])
  }

  /** Inserts count rows up to the capacity and no further: the insert
      that would make row TABLE_MAX_ROWS + 1, and every one after it,
      reports the table full and leaves the table as it was. */
  lemma {:induction false} InsertAllCount(t: TableState, rows: seq<Row>)
    requires ValidPager(t.pager)
    ensures InsertAll(t, rows).numRows ==
      if t.numRows >= TABLE_MAX_ROWS then t.numRows else Min(t.numRows + |rows|, TABLE_MAX_ROWS)
    ensures t.numRows >= TABLE_MAX_ROWS ==> InsertAll(t, rows) == t
    ensures forall i :: 0 <= i < |rows| ==>
      InsertResults(t, rows)[i] == if t.numRows + i >= TABLE_MAX_ROWS then ExecuteTableFull else ExecuteSuccess
    decreases |rows|
  {
    if rows != [] {
      var t1 := Insert(t, rows[0]);
      InsertAllCount(t1, rows[1..]);
      forall i | 0 <= i < |rows|
        ensures InsertResults(t, rows)[i] == if t.numRows + i >= TABLE_MAX_ROWS then ExecuteTableFull else ExecuteSuccess
      {
        if i > 0 {
          assert InsertResults(t, rows)[i] == InsertResults(t1, rows[1..])[i - 1];
        }
      }
    }
  }

  /** An empty file opened and sent TABLE_MAX_ROWS + 1 inserts ends with
      TABLE_MAX_ROWS rows: every insert succeeds except the last, which
      reports the table full. */
  lemma OneInsertPastCapacity(rows: seq<Row>)
    requires |rows| == TABLE_MAX_ROWS + 1
    ensures InsertAll(OpenTable([]), rows).numRows == TABLE_MAX_ROWS
    ensures InsertResults(OpenTable([]), rows)[TABLE_MAX_ROWS] == ExecuteTableFull
    ensures forall i :: 0 <= i < TABLE_MAX_ROWS ==> InsertResults(OpenTable([]), rows)[i] == ExecuteSuccess
  {
    var t0 := OpenTable([]);
    assert t0.numRows == 0;
    InsertAllCount(t0, rows);
  }

  /** `t` holds exactly `rows` in its first |rows| slots, and every page
      holding one of them is resident (the state a session that started
      from an empty file is in). */
  ghost predicate Stores(t: TableState, rows: seq<Row>)
  {
    && ValidPager(t.pager)
    && t.numRows == |rows| <= TABLE_MAX_ROWS
    && (forall m :: 0 <= m < |rows| ==> RowBytes(t.pager, m) == EncodeRow(rows[m]))
    && (forall p :: 0 <= p < PagesUsed(|rows|) ==> Resident(t.pager, p))
  }

  /** One insert below capacity keeps every page holding a row resident,
      now including the new row's. */
  lemma {:induction false} InsertKeepsResident(t: TableState, row: Row)
    requires ValidPager(t.pager) && t.numRows < TABLE_MAX_ROWS
    requires forall p :: 0 <= p < PagesUsed(t.numRows) ==> Resident(t.pager, p)
    ensures forall p :: 0 <= p < PagesUsed(t.numRows + 1) ==> Resident(Insert(t, row).pager, p)
  {
    var n := t.numRows;
    var s' := Insert(t, row).pager;
    ScanPageStep(n);
    InsertEffect(t, row, 0);
    forall p | 0 <= p < PagesUsed(n + 1)
      ensures Resident(s', p)
    {
      if p != RowPage(n) {
        assert p < PagesUsed(n);
        assert Resident(t.pager, p);
        assert s'.slots[p] == t.pager.slots[p];
      } else {
        assert Resident(s', RowPage(n));
      }
    }
  }

  /** One insert below capacity stores its row after the others. */
  lemma {:induction false} InsertStores(t: TableState, rows: seq<Row>, row: Row)
    requires Stores(t, rows) && |rows| < TABLE_MAX_ROWS
    ensures Stores(Insert(t, row), rows + [row])
  {
    var n := |rows|;
    var t' := Insert(t, row);
    forall m | 0 <= m < n + 1
      ensures RowBytes(t'.pager, m) == EncodeRow((rows + [row])[m])
    {
      InsertEffect(t, row, m);
    }
    InsertKeepsResident(t, row);
  }

  /** Inserts up to capacity store their rows in order after the ones
      already stored. */
  lemma {:induction false} InsertAllStores(t: TableState, done: seq<Row>, rows: seq<Row>)
    requires Stores(t, done) && |done| + |rows| <= TABLE_MAX_ROWS
    ensures Stores(InsertAll(t, rows), done + rows)
    decreases |rows|
  {
    if rows == [] {
      assert done + rows == done;
    } else {
      InsertStores(t, done, rows[0]);
      InsertAllStores(Insert(t, rows[0]), done + [rows[0]], rows[1..]);
      assert done + [rows[0]] + rows[1..] == done + rows;
    }
  }

  /** The table of a session that opened an empty file and inserted
      `rows`, within capacity. */
  function Written(rows: seq<Row>): (t: TableState)
    requires |rows| <= TABLE_MAX_ROWS
    ensures ValidPager(t.pager) && t.pager.file == [] && t.pager.fileLength == 0
  {
    InsertAll(OpenTable([]), rows)
  }

  /** Such a table holds its rows, in order. */
  lemma WrittenStores(rows: seq<Row>)
    requires |rows| <= TABLE_MAX_ROWS
    ensures Stores(Written(rows), rows)
  {
    InsertAllStores(OpenTable([]), [], rows);
  }

  /** Closing such a table leaves a file of exactly UsedBytes(|rows|)
      bytes, from which the corrected count recovers the number of rows. */
  lemma CloseLengthWritten(rows: seq<Row>)
    requires |rows| <= TABLE_MAX_ROWS
    ensures |CloseFile(Written(rows))| == UsedBytes(|rows|)
    ensures RowCountOfLength(|CloseFile(Written(rows))|) == |rows|
  {
    WrittenStores(rows);
    CloseLengthExact(Written(rows));
    RowCountOfLengthInverts(|rows|);
  }

  /** Opening the file again counts UsedBytes(|rows|) / ROW_SIZE rows: the
      number of rows written exactly when fewer than 196 were written, and
      more than that otherwise. */
  lemma {:induction false} ReopenCountWritten(rows: seq<Row>)
    requires |rows| <= TABLE_MAX_ROWS
    ensures OpenTable(CloseFile(Written(rows))).numRows == UsedBytes(|rows|) / ROW_SIZE >= |rows|
    ensures OpenTable(CloseFile(Written(rows))).numRows == |rows| <==> |rows| < 196
  {
    CloseLengthWritten(rows);
    OpenCountOfUsed(CloseFile(Written(rows)), |rows|);
  }

  /** The reopened table presents every written row as it was encoded. */
  lemma {:induction false} ReopenRowsWritten(rows: seq<Row>)
    requires |rows| <= TABLE_MAX_ROWS
    ensures forall m :: 0 <= m < |rows| ==>
      RowBytes(OpenTable(CloseFile(Written(rows))).pager, m) == EncodeRow(rows[m])
  {
    var t := Written(rows);
    WrittenStores(rows);
    forall m | 0 <= m < |rows|
      ensures RowBytes(OpenTable(CloseFile(t)).pager, m) == EncodeRow(rows[m])
    {
      ReopenKeepsRows(t, m);
    }
  }

  /** A scan of a pager whose first |rows| slots hold the encoded
      well-formed `rows` lists them first, in order; it lists nothing else
      and does not panic exactly when the row count is |rows|. */
  lemma {:induction false} SelectStored(s: PagerState, numRows: nat, rows: seq<Row>)
    requires ValidPager(s) && |rows| <= numRows && |rows| <= TABLE_MAX_ROWS
    requires forall m :: 0 <= m < |rows| ==> RowBytes(s, m) == EncodeRow(rows[m]) && WellFormed(rows[m])
    ensures |rows| <= |SelectRows(s, numRows)|
    ensures SelectRows(s, numRows)[..|rows|] == rows
    ensures SelectRows(s, numRows) == rows && !SelectPanics(numRows) <==> numRows == |rows|
  {
    var listed := SelectRows(s, numRows);
    forall m | 0 <= m < |rows|
      ensures listed[m] == rows[m]
    {
      RoundTrip(rows[m]);
    }
    assert listed[..|rows|] == rows;
  }

  /** A select after the reopen lists the written rows first, in order;
      it lists nothing else and does not panic exactly when fewer than 196
      rows were written. */
  lemma SelectAfterReopen(rows: seq<Row>)
    requires |rows| <= TABLE_MAX_ROWS
    requires forall m :: 0 <= m < |rows| ==> WellFormed(rows[m])
    ensures |rows| <= |SelectRows(OpenTable(CloseFile(Written(rows))).pager, OpenTable(CloseFile(Written(rows))).numRows)|
    ensures SelectRows(OpenTable(CloseFile(Written(rows))).pager, OpenTable(CloseFile(Written(rows))).numRows)[..|rows|] == rows
    ensures (&& SelectRows(OpenTable(CloseFile(Written(rows))).pager, OpenTable(CloseFile(Written(rows))).numRows) == rows
             && !SelectPanics(OpenTable(CloseFile(Written(rows))).numRows))
      <==> |rows| < 196
  {
    var t' := OpenTable(CloseFile(Written(rows)));
    ReopenCountWritten(rows);
    ReopenRowsWritten(rows);
    SelectStored(t'.pager, t'.numRows, rows);
  }

  /** A full table closed and opened again: the 409600-byte file counts as
      1407 rows, past the capacity, so a select and a close on the reopened
      table both panic. */
  lemma FullTableReopen(rows: seq<Row>)
    requires |rows| == TABLE_MAX_ROWS
    ensures |CloseFile(Written(rows))| == 409600
    ensures OpenTable(CloseFile(Written(rows))).numRows == 1407
    ensures SelectPanics(OpenTable(CloseFile(Written(rows))).numRows)
    ensures ClosePanics(OpenTable(CloseFile(Written(rows))).numRows)
  {
    CloseLengthWritten(rows);
    ReopenCountWritten(rows);
    FullTableLength();
    ClosePanicsAboveCapacity(1407);
  }
}
