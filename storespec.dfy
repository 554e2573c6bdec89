/** The pager and the table as values: what each page slot holds, what a
    page fetch, an insert, a select and a close do to that state. The
    classes in module Store are proved to behave as these functions say. */
module StoreSpec {
  import opened Layout
  import opened Files
  import opened RowCodec

  datatype Option<T> = None | Some(value: T)

  /** OutOfRange is getPage's own bounds error; IndexPanic stands for Go's
      run-time index check on the 100-slot page array, which aborts the
      process. */
  datatype Error = OutOfRange | IndexPanic

  datatype Result<T> = Ok(value: T) | Err(error: Error)

  datatype ExecuteResult = ExecuteSuccess | ExecuteTableFull

  /** The pager: the backing file's bytes, the file length observed when it
      was opened (as Go's uint32), and the page slots. */
  datatype PagerState = PagerState(file: seq<byte>, fileLength: uint32, slots: seq<Option<seq<byte>>>)

  /** The live row count and the pager. */
  datatype TableState = TableState(pager: PagerState, numRows: uint32)

  /** Every slot is empty or holds exactly one full page. */
  predicate ValidPager(s: PagerState)
  {
    |s.slots| == TABLE_MAX_PAGES &&
    forall p :: 0 <= p < |s.slots| && s.slots[p].Some? ==> |s.slots[p].value| == PAGE_SIZE
  }

  predicate Resident(s: PagerState, pageNum: nat)
  {
    pageNum < |s.slots| && s.slots[pageNum].Some?
  }

  /** pagerOpen: the whole file, its length cut to 32 bits, no page resident. */
  function OpenPager(file: seq<byte>): (s: PagerState)
    ensures ValidPager(s) && s.file == file
    ensures s.fileLength == |file| % 0x1_0000_0000
    ensures forall p :: !Resident(s, p)
  {
    PagerState(file, |file| % 0x1_0000_0000, seq(TABLE_MAX_PAGES, _ => None))
  }

  /** getPage's bounds check as written, with what follows it: page numbers
      above TABLE_MAX_PAGES are refused, and TABLE_MAX_PAGES itself passes
      the check and indexes one past the end of the slot array. */
  function GuardAsWritten(pageNum: nat): (r: Option<Error>)
    ensures r.None? <==> pageNum < TABLE_MAX_PAGES
    ensures r == Some(IndexPanic) <==> pageNum == TABLE_MAX_PAGES
  {
    if pageNum > TABLE_MAX_PAGES then Some(OutOfRange)
    else if pageNum >= TABLE_MAX_PAGES then Some(IndexPanic)
    else None
  }

  /** The bounds check the slot array needs: refuse every page number that
      is not an index of it. */
  function Guard(pageNum: nat): (r: Option<Error>)
    ensures r.None? <==> pageNum < TABLE_MAX_PAGES
    ensures r.Some? ==> r.value == OutOfRange
  {
    if pageNum >= TABLE_MAX_PAGES then Some(OutOfRange) else None
  }

  /** The check as written lets page TABLE_MAX_PAGES through to the panic. */
  lemma GuardAsWrittenPanics()
    ensures GuardAsWritten(TABLE_MAX_PAGES) == Some(IndexPanic)
  {
  }

  /** The corrected check never panics, admits exactly the slot indices,
      and differs from the check as written only at TABLE_MAX_PAGES. */
  lemma GuardAdmitsExactlyIndices(pageNum: nat)
    ensures Guard(pageNum) != Some(IndexPanic)
    ensures Guard(pageNum).None? <==> pageNum < TABLE_MAX_PAGES
    ensures Guard(pageNum) == GuardAsWritten(pageNum) <==> pageNum != TABLE_MAX_PAGES
  {
  }

  /** Every page an insert below capacity or a scan below row
      TABLE_MAX_ROWS asks for passes both checks. */
  lemma GuardsAgreeBelowCapacity(rowNum: nat)
    requires rowNum < TABLE_MAX_ROWS
    ensures GuardAsWritten(RowPage(rowNum)) == Guard(RowPage(rowNum)) == None
  {
    RowPageBound(rowNum);
  }

  /** A scan's row i up to TABLE_MAX_ROWS passes the check, except row
      TABLE_MAX_ROWS itself, which reaches the panic. */
  lemma ScanGuard(rowNum: nat)
    requires rowNum <= TABLE_MAX_ROWS
    ensures GuardAsWritten(RowPage(rowNum)) == if rowNum < TABLE_MAX_ROWS then None else Some(IndexPanic)
  {
    RowPageBound(rowNum);
  }

  /** The number of pages the file length implies: the length divided by
      PAGE_SIZE, rounded up. */
  function NumPages(fileLength: nat): (n: nat)
    ensures n * PAGE_SIZE >= fileLength
    ensures n == 0 || (n - 1) * PAGE_SIZE < fileLength
  {
    var n := fileLength / PAGE_SIZE;
    if fileLength % PAGE_SIZE != 0 then n + 1 else n
  }

  /** The buffer a cache miss on `pageNum` installs: a zeroed page, filled
      from the file at pageNum * PAGE_SIZE when the page number is not past
      the page count implied by the length seen at open. */
  function LoadedPage(s: PagerState, pageNum: nat): (page: seq<byte>)
    ensures |page| == PAGE_SIZE
  {
    if pageNum <= NumPages(s.fileLength) then ReadAt(s.file, pageNum * PAGE_SIZE, PAGE_SIZE)
    else Zeros(PAGE_SIZE)
  }

  /** The page getPage hands out for `pageNum`: the resident buffer, or the
      one a miss would load. */
  function View(s: PagerState, pageNum: nat): (page: seq<byte>)
    requires ValidPager(s) && pageNum < TABLE_MAX_PAGES
    ensures |page| == PAGE_SIZE
  {
    match s.slots[pageNum]
    case Some(page) => page
    case None => LoadedPage(s, pageNum)
  }

  /** When the recorded length is the file's length, a cache miss yields
      exactly the bytes on disk at the page's offset, zero past the end. */
  lemma {:induction false} HydrationMatchesDisk(s: PagerState, pageNum: nat)
    requires s.fileLength == |s.file|
    ensures LoadedPage(s, pageNum) == ReadAt(s.file, pageNum * PAGE_SIZE, PAGE_SIZE)
  {
    if pageNum > NumPages(s.fileLength) {
      assert pageNum * PAGE_SIZE >= NumPages(s.fileLength) * PAGE_SIZE + PAGE_SIZE;
      assert LoadedPage(s, pageNum) == ReadAt(s.file, pageNum * PAGE_SIZE, PAGE_SIZE);
    }
  }

  /** The pager after getPage(pageNum) for an in-range page number: the
      page is resident with the contents it was viewed with, no other slot
      changes, no view changes, and a hit changes nothing at all. */
  function Fetched(s: PagerState, pageNum: nat): (s': PagerState)
    requires ValidPager(s) && pageNum < TABLE_MAX_PAGES
    ensures ValidPager(s') && s'.file == s.file && s'.fileLength == s.fileLength
    ensures Resident(s', pageNum)
    ensures forall q :: 0 <= q < TABLE_MAX_PAGES && q != pageNum ==> s'.slots[q] == s.slots[q]
    ensures forall q :: 0 <= q < TABLE_MAX_PAGES ==> View(s', q) == View(s, q)
    ensures Resident(s, pageNum) ==> s' == s
  {
    s.(slots := s.slots[pageNum := Some(View(s, pageNum))])
  }

  /** The table dbOpen builds over `file`: rows counted as whole ROW_SIZE
      units of the recorded file length. */
  function OpenTable(file: seq<byte>): (t: TableState)
    ensures t.pager == OpenPager(file)
    ensures t.numRows * ROW_SIZE <= |file| % 0x1_0000_0000 < (t.numRows + 1) * ROW_SIZE
  {
    TableState(OpenPager(file), (|file| % 0x1_0000_0000) / ROW_SIZE)
  }

  /** The ROW_SIZE bytes of row `rowNum` as a scan or an insert sees them. */
  function RowBytes(s: PagerState, rowNum: nat): (b: seq<byte>)
    requires ValidPager(s) && rowNum < TABLE_MAX_ROWS
    ensures |b| == ROW_SIZE
  {
    RowPageBound(rowNum);
    SlotInPage(rowNum);
    View(s, RowPage(rowNum))[RowOffset(rowNum)..RowOffset(rowNum) + ROW_SIZE]
  }

  /** Byte i of a row is byte RowOffset + i of the row's page. */
  lemma RowBytesAt(s: PagerState, rowNum: nat, i: nat)
    requires ValidPager(s) && rowNum < TABLE_MAX_ROWS && i < ROW_SIZE
    ensures RowPage(rowNum) < TABLE_MAX_PAGES && RowOffset(rowNum) + i < PAGE_SIZE
    ensures RowBytes(s, rowNum)[i] == View(s, RowPage(rowNum))[RowOffset(rowNum) + i]
  {
    RowPageBound(rowNum);
    SlotInPage(rowNum);
  }

  /** executeInsert's status: full exactly at capacity. */
  function InsertResult(t: TableState): (r: ExecuteResult)
    ensures r == ExecuteTableFull <==> t.numRows >= TABLE_MAX_ROWS
  {
    if t.numRows >= TABLE_MAX_ROWS then ExecuteTableFull else ExecuteSuccess
  }

  /** The table after executeInsert(row). */
  function Insert(t: TableState, row: Row): (t': TableState)
    requires ValidPager(t.pager)
    ensures ValidPager(t'.pager)
    ensures t'.pager.file == t.pager.file && t'.pager.fileLength == t.pager.fileLength
    ensures t'.numRows == if t.numRows >= TABLE_MAX_ROWS then t.numRows else t.numRows + 1
    ensures t.numRows >= TABLE_MAX_ROWS ==> t' == t
  {
    var n := t.numRows;
    if n >= TABLE_MAX_ROWS then t
    else
      RowPageBound(n);
      SlotInPage(n);
      var p := RowPage(n);
      var page := Splice(View(t.pager, p), RowOffset(n), EncodeRow(row));
      TableState(t.pager.(slots := t.pager.slots[p := Some(page)]), n + 1)
  }

  /** An insert below capacity stores the encoded row in slot numRows,
      makes that slot's page resident, and leaves every other row's bytes,
      every other slot and every other page view as they were. */
  lemma {:induction false} InsertEffect(t: TableState, row: Row, m: nat)
    requires ValidPager(t.pager) && t.numRows < TABLE_MAX_ROWS && m < TABLE_MAX_ROWS
    ensures RowBytes(Insert(t, row).pager, m) == if m == t.numRows then EncodeRow(row) else RowBytes(t.pager, m)
    ensures Resident(Insert(t, row).pager, RowPage(t.numRows))
    ensures forall q :: 0 <= q < TABLE_MAX_PAGES && q != RowPage(t.numRows) ==>
      Insert(t, row).pager.slots[q] == t.pager.slots[q]
  {
    var n := t.numRows;
    var t' := Insert(t, row);
    RowPageBound(n);
    RowPageBound(m);
    SlotInPage(n);
    SlotInPage(m);
    if m != n {
      SlotsDisjoint(m, n);
      if RowPage(m) == RowPage(n) {
        forall i | 0 <= i < ROW_SIZE
          ensures RowBytes(t'.pager, m)[i] == RowBytes(t.pager, m)[i]
        {
          RowBytesAt(t'.pager, m, i);
          RowBytesAt(t.pager, m, i);
        }
      }
    }
  }

  /** The number of pages that hold rows 0 .. n-1: one past the last
      row's page. */
  function PagesUsed(n: nat): (m: nat)
    ensures n == 0 ==> m == 0
    ensures n > 0 ==> m == RowPage(n - 1) + 1
    ensures n <= TABLE_MAX_ROWS ==> m <= TABLE_MAX_PAGES
  {
    n / ROWS_PER_PAGE + if n % ROWS_PER_PAGE != 0 then 1 else 0
  }

  /** Rows 0 .. n-1 decoded in index order. */
  function ScanRows(s: PagerState, n: nat): (rows: seq<Row>)
    requires ValidPager(s) && n <= TABLE_MAX_ROWS
    ensures |rows| == n
    ensures forall i :: 0 <= i < n ==> rows[i] == DecodeRow(RowBytes(s, i))
  {
    if n == 0 then [] else ScanRows(s, n - 1) + [DecodeRow(RowBytes(s, n - 1))]
  }

  /** The rows executeSelect decodes, in index order: one per row below
      numRows, except that the scan stops at row TABLE_MAX_ROWS, whose
      page number passes getPage's guard and panics. */
  function SelectRows(s: PagerState, numRows: nat): (rows: seq<Row>)
    requires ValidPager(s)
    ensures |rows| == Min(numRows, TABLE_MAX_ROWS)
    ensures forall i :: 0 <= i < |rows| ==> rows[i] == DecodeRow(RowBytes(s, i))
  {
    ScanRows(s, Min(numRows, TABLE_MAX_ROWS))
  }

  /** Whether executeSelect over numRows rows reaches the panic. */
  predicate SelectPanics(numRows: nat)
  {
    numRows > TABLE_MAX_ROWS
  }

  /** The pager after fetching pages 0 .. m-1. */
  function FetchedBelow(s: PagerState, m: nat): (s': PagerState)
    requires ValidPager(s) && m <= TABLE_MAX_PAGES
    ensures ValidPager(s') && s'.file == s.file && s'.fileLength == s.fileLength
    ensures forall q :: 0 <= q < TABLE_MAX_PAGES ==> (Resident(s', q) <==> q < m || Resident(s, q))
    ensures forall q :: m <= q < TABLE_MAX_PAGES ==> s'.slots[q] == s.slots[q]
  {
    s.(slots := seq(TABLE_MAX_PAGES, q requires 0 <= q < TABLE_MAX_PAGES => if q < m then Some(View(s, q)) else s.slots[q]))
  }

  /** Fetching pages changes no page's contents as getPage presents them. */
  lemma FetchedBelowViews(s: PagerState, m: nat, q: nat)
    requires ValidPager(s) && m <= TABLE_MAX_PAGES && q < TABLE_MAX_PAGES
    ensures View(FetchedBelow(s, m), q) == View(s, q)
  {
  }

  /** Fetching no page changes nothing. */
  lemma FetchedBelowNone(s: PagerState)
    requires ValidPager(s)
    ensures FetchedBelow(s, 0) == s
  {
    assert FetchedBelow(s, 0).slots == s.slots;
  }

  /** Row i of a scan lies on the last page used by rows 0 .. i, which is
      either already within the pages used by rows 0 .. i-1 or the next one. */
  lemma {:induction false} ScanPageStep(i: nat)
    requires i < TABLE_MAX_ROWS
    ensures RowPage(i) < TABLE_MAX_PAGES
    ensures PagesUsed(i + 1) == RowPage(i) + 1
    ensures RowPage(i) + 1 == PagesUsed(i) || RowPage(i) == PagesUsed(i)
  {
    RowPageBound(i);
    if i > 0 {
      assert RowPage(i - 1) <= RowPage(i) <= RowPage(i - 1) + 1;
    }
  }

  /** Fetching the page of row i after the pages used by rows 0 .. i-1
      gives the pages used by rows 0 .. i. */
  lemma {:induction false} FetchedBelowStep(s: PagerState, i: nat)
    requires ValidPager(s) && i < TABLE_MAX_ROWS
    ensures RowPage(i) < TABLE_MAX_PAGES
    ensures Fetched(FetchedBelow(s, PagesUsed(i)), RowPage(i)) == FetchedBelow(s, PagesUsed(i + 1))
    ensures RowBytes(FetchedBelow(s, PagesUsed(i)), i) == RowBytes(s, i)
  {
    ScanPageStep(i);
    FetchedBelowViews(s, PagesUsed(i), RowPage(i));
    var a := Fetched(FetchedBelow(s, PagesUsed(i)), RowPage(i));
    var b := FetchedBelow(s, PagesUsed(i + 1));
    assert a.slots == b.slots;
  }

  /** One more row of a scan decodes row i. */
  lemma SelectRowsStep(s: PagerState, i: nat)
    requires ValidPager(s) && i < TABLE_MAX_ROWS
    ensures SelectRows(s, i) + [DecodeRow(RowBytes(s, i))] == SelectRows(s, i + 1)
  {
  }

  /** The file after pagerFlush(pageNum, size): a no-op for an empty slot,
      otherwise the first `size` bytes of the page written at its offset. */
  function FlushPage(s: PagerState, pageNum: nat, size: nat): (file': seq<byte>)
    requires ValidPager(s) && pageNum < TABLE_MAX_PAGES && size <= PAGE_SIZE
    ensures !Resident(s, pageNum) ==> file' == s.file
    ensures Resident(s, pageNum) ==> |file'| == Max(|s.file|, pageNum * PAGE_SIZE + size)
    ensures Resident(s, pageNum) ==>
      ReadAt(file', pageNum * PAGE_SIZE, size) == s.slots[pageNum].value[..size]
  {
    match s.slots[pageNum]
    case None => s.file
    case Some(page) =>
      ReadAfterWrite(s.file, pageNum * PAGE_SIZE, page[..size]);
      WriteAt(s.file, pageNum * PAGE_SIZE, page[..size])
  }

  /** pagerFlush byte by byte: the flushed range of a resident page holds
      the page's bytes, every other byte reads as before. */
  lemma {:induction false} FlushPageBytes(s: PagerState, pageNum: nat, size: nat, k: nat)
    requires ValidPager(s) && pageNum < TABLE_MAX_PAGES && size <= PAGE_SIZE
    ensures ByteAt(FlushPage(s, pageNum, size), k) ==
      if Resident(s, pageNum) && pageNum * PAGE_SIZE <= k < pageNum * PAGE_SIZE + size
      then s.slots[pageNum].value[k - pageNum * PAGE_SIZE]
      else ByteAt(s.file, k)
  {
    if Resident(s, pageNum) {
      WriteAtBytes(s.file, pageNum * PAGE_SIZE, s.slots[pageNum].value[..size], k);
    }
  }

  /** pagerFlush reads only the file and the flushed slot. */
  lemma FlushPageLocal(s: PagerState, s': PagerState, pageNum: nat, size: nat)
    requires ValidPager(s) && ValidPager(s') && pageNum < TABLE_MAX_PAGES && size <= PAGE_SIZE
    requires s.file == s'.file && s.slots[pageNum] == s'.slots[pageNum]
    ensures FlushPage(s, pageNum, size) == FlushPage(s', pageNum, size)
  {
  }

  /** The file after dbClose's first loop has handled pages 0 .. k-1. */
  function FlushFull(s: PagerState, k: nat): seq<byte>
    requires ValidPager(s) && k <= TABLE_MAX_PAGES
  {
    if k == 0 then s.file
    else FlushPage(s.(file := FlushFull(s, k - 1)), k - 1, PAGE_SIZE)
  }

  /** Whether dbClose aborts: page numFullPages, or page 100 of the first
      loop, is past the slot array. */
  predicate ClosePanics(numRows: nat)
  {
    numRows / ROWS_PER_PAGE > TABLE_MAX_PAGES
      || (numRows / ROWS_PER_PAGE == TABLE_MAX_PAGES && numRows % ROWS_PER_PAGE > 0)
  }

  /** dbClose panics exactly when the row count is above capacity. */
  lemma {:induction false} ClosePanicsAboveCapacity(numRows: nat)
    ensures ClosePanics(numRows) <==> numRows > TABLE_MAX_ROWS
  {
    assert numRows == numRows / 14 * 14 + numRows % 14;
  }

  /** The backing file after dbClose: every resident page below
      numRows / ROWS_PER_PAGE at full size, then the resident partial page
      at (numRows % ROWS_PER_PAGE) * ROW_SIZE bytes. */
  function CloseFile(t: TableState): seq<byte>
    requires ValidPager(t.pager)
  {
    var numFullPages := t.numRows / ROWS_PER_PAGE;
    var numAdditionalRows := t.numRows % ROWS_PER_PAGE;
    var f := FlushFull(t.pager, Min(numFullPages, TABLE_MAX_PAGES));
    if numAdditionalRows > 0 && numFullPages < TABLE_MAX_PAGES then
      FlushPage(t.pager.(file := f), numFullPages, numAdditionalRows * ROW_SIZE)
    else f
  }
}
