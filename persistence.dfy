/** What survives a dbClose followed by a dbOpen of the same file: the
    bytes dbClose leaves at each row's position, the length of the file it
    leaves, and the row count dbOpen derives from that length. */
module Persistence {
  import opened Layout
  import opened Files
  import opened RowCodec
  import opened StoreSpec

  /** The byte position of row `rowNum` in the file. */
  function RowPosition(rowNum: nat): nat
  {
    RowPage(rowNum) * PAGE_SIZE + RowOffset(rowNum)
  }

  /** Byte `k` of pages 0 .. TABLE_MAX_PAGES-1 laid end to end, as getPage
      presents them (zero past the last page). */
  function Image(s: PagerState, k: nat): byte
    requires ValidPager(s)
  {
    if k < TABLE_MAX_PAGES * PAGE_SIZE then View(s, k / PAGE_SIZE)[k % PAGE_SIZE] else 0
  }

  /** A byte of a page that is not resident reads as the byte on disk. */
  lemma {:induction false} ImageOnDisk(s: PagerState, k: nat)
    requires ValidPager(s) && s.fileLength == |s.file|
    requires k < TABLE_MAX_PAGES * PAGE_SIZE && !Resident(s, k / PAGE_SIZE)
    ensures Image(s, k) == ByteAt(s.file, k)
  {
    var p := k / PAGE_SIZE;
    HydrationMatchesDisk(s, p);
    assert p * PAGE_SIZE + k % PAGE_SIZE == k;
  }

  /** After dbClose's first loop has handled pages 0 .. k-1, those pages
      of the file read as the pager presents them, and the rest of the
      file is as it was. */
  lemma {:induction false} FlushFullBytes(s: PagerState, k: nat, x: nat)
    requires ValidPager(s) && s.fileLength == |s.file|
    requires k <= TABLE_MAX_PAGES && x < TABLE_MAX_PAGES * PAGE_SIZE
    ensures ByteAt(FlushFull(s, k), x) == if x < k * PAGE_SIZE then Image(s, x) else ByteAt(s.file, x)
  {
    if k > 0 {
      var p := k - 1;
      var s1 := s.(file := FlushFull(s, p));
      FlushFullBytes(s, p, x);
      FlushPageBytes(s1, p, PAGE_SIZE, x);
      if p * PAGE_SIZE <= x < k * PAGE_SIZE {
        assert x / PAGE_SIZE == p && x % PAGE_SIZE == x - p * PAGE_SIZE;
        if !Resident(s, p) {
          ImageOnDisk(s, x);
        }
      }
    }
  }

  /** The first loop of dbClose never shortens the file, and lengthens it
      at most to the end of the last page it handles; it reaches exactly
      there when every handled page is resident. */
  lemma {:induction false} FlushFullLength(s: PagerState, k: nat)
    requires ValidPager(s) && k <= TABLE_MAX_PAGES
    ensures |s.file| <= |FlushFull(s, k)| <= Max(|s.file|, k * PAGE_SIZE)
    ensures (forall p :: 0 <= p < k ==> Resident(s, p)) ==> |FlushFull(s, k)| == Max(|s.file|, k * PAGE_SIZE)
  {
    if k > 0 {
      FlushFullLength(s, k - 1);
      var s1 := s.(file := FlushFull(s, k - 1));
      assert FlushFull(s, k) == FlushPage(s1, k - 1, PAGE_SIZE);
      assert Resident(s1, k - 1) <==> Resident(s, k - 1);
    }
  }

  /** Byte i of row m's slot sits on the row's page, at the row's offset
      plus i. */
  lemma {:induction false} RowPositionOnPage(m: nat, i: nat)
    requires i < ROW_SIZE
    ensures RowPage(m) * PAGE_SIZE <= RowPosition(m) + i < RowPage(m) * PAGE_SIZE + PAGE_SIZE
    ensures (RowPosition(m) + i) / PAGE_SIZE == RowPage(m)
    ensures (RowPosition(m) + i) % PAGE_SIZE == RowOffset(m) + i
  {
    SlotInPage(m);
  }

  /** A row below n on page n / ROWS_PER_PAGE lies inside the used part
      of that page, which is then not past the last page. */
  lemma {:induction false} LastPageRows(m: nat, n: nat)
    requires m < n <= TABLE_MAX_ROWS && RowPage(m) == n / ROWS_PER_PAGE
    ensures RowOffset(m) + ROW_SIZE <= (n % ROWS_PER_PAGE) * ROW_SIZE
    ensures n / ROWS_PER_PAGE < TABLE_MAX_PAGES
  {
    assert m == RowPage(m) * ROWS_PER_PAGE + m % ROWS_PER_PAGE;
    assert n == RowPage(m) * ROWS_PER_PAGE + n % ROWS_PER_PAGE;
    assert m % ROWS_PER_PAGE + 1 <= n % ROWS_PER_PAGE;
  }

  /** A row on a page the first loop of dbClose handled keeps its bytes. */
  lemma {:induction false} CloseBytesFullPage(t: TableState, m: nat, i: nat)
    requires ValidPager(t.pager) && t.pager.fileLength == |t.pager.file|
    requires t.numRows <= TABLE_MAX_ROWS && i < ROW_SIZE
    requires RowPage(m) < t.numRows / ROWS_PER_PAGE
    ensures ByteAt(CloseFile(t), RowPosition(m) + i) == Image(t.pager, RowPosition(m) + i)
  {
    var s := t.pager;
    var numFullPages, extra := t.numRows / ROWS_PER_PAGE, t.numRows % ROWS_PER_PAGE;
    var x := RowPosition(m) + i;
    RowPositionOnPage(m, i);
    var f := FlushFull(s, numFullPages);
    FlushFullBytes(s, numFullPages, x);
    if extra > 0 && numFullPages < TABLE_MAX_PAGES {
      FlushPageBytes(s.(file := f), numFullPages, extra * ROW_SIZE, x);
    }
  }

  /** The file dbClose leaves when some rows spill onto page
      numRows / ROWS_PER_PAGE: the full pages flushed, then that page at
      the used size. */
  lemma {:induction false} CloseFilePartial(t: TableState)
    requires ValidPager(t.pager) && t.numRows <= TABLE_MAX_ROWS && t.numRows % ROWS_PER_PAGE > 0
    ensures t.numRows / ROWS_PER_PAGE < TABLE_MAX_PAGES
    ensures CloseFile(t) == FlushPage(t.pager.(file := FlushFull(t.pager, t.numRows / ROWS_PER_PAGE)),
      t.numRows / ROWS_PER_PAGE, (t.numRows % ROWS_PER_PAGE) * ROW_SIZE)
  {
    assert t.numRows == t.numRows / ROWS_PER_PAGE * ROWS_PER_PAGE + t.numRows % ROWS_PER_PAGE;
  }

  /** A row on the partial page dbClose flushes at the used size keeps its
      bytes. */
  lemma {:induction false} CloseBytesPartialPage(t: TableState, m: nat, i: nat)
    requires ValidPager(t.pager) && t.pager.fileLength == |t.pager.file|
    requires t.numRows <= TABLE_MAX_ROWS && m < t.numRows && i < ROW_SIZE
    requires RowPage(m) == t.numRows / ROWS_PER_PAGE
    ensures ByteAt(CloseFile(t), RowPosition(m) + i) == Image(t.pager, RowPosition(m) + i)
  {
    var s := t.pager;
    var p, size := RowPage(m), (t.numRows % ROWS_PER_PAGE) * ROW_SIZE;
    var x := RowPosition(m) + i;
    RowPositionOnPage(m, i);
    LastPageRows(m, t.numRows);
    CloseFilePartial(t);
    var s1 := s.(file := FlushFull(s, p));
    FlushPageBytes(s1, p, size, x);
    if !Resident(s, p) {
      FlushFullBytes(s, p, x);
      ImageOnDisk(s, x);
    }
  }

  /** dbClose of a table within capacity leaves each row's bytes at the
      row's position in the file. */
  lemma {:induction false} CloseBytes(t: TableState, m: nat, i: nat)
    requires ValidPager(t.pager) && t.pager.fileLength == |t.pager.file|
    requires t.numRows <= TABLE_MAX_ROWS && m < t.numRows && i < ROW_SIZE
    ensures ByteAt(CloseFile(t), RowPosition(m) + i) == RowBytes(t.pager, m)[i]
  {
    RowPositionOnPage(m, i);
    RowBytesAt(t.pager, m, i);
    RowPageMonotonic(m, t.numRows);
    if RowPage(m) < t.numRows / ROWS_PER_PAGE {
      CloseBytesFullPage(t, m, i);
    } else {
      CloseBytesPartialPage(t, m, i);
    }
  }

  /** The file dbClose leaves holds every row of a table within capacity
      at the row's position. */
  lemma CloseKeepsRows(t: TableState, m: nat)
    requires ValidPager(t.pager) && t.pager.fileLength == |t.pager.file|
    requires t.numRows <= TABLE_MAX_ROWS && m < t.numRows
    ensures ReadAt(CloseFile(t), RowPosition(m), ROW_SIZE) == RowBytes(t.pager, m)
  {
    forall i | 0 <= i < ROW_SIZE
      ensures ReadAt(CloseFile(t), RowPosition(m), ROW_SIZE)[i] == RowBytes(t.pager, m)[i]
    {
      CloseBytes(t, m, i);
    }
  }

  /** The bytes rows 0 .. n-1 occupy when written page by page: the full
      pages, then the used part of the last one. */
  function UsedBytes(n: nat): nat
  {
    (n / ROWS_PER_PAGE) * PAGE_SIZE + (n % ROWS_PER_PAGE) * ROW_SIZE
  }

  /** dbClose never shrinks the file and never writes past page
      TABLE_MAX_PAGES - 1. */
  lemma {:induction false} CloseLength(t: TableState)
    requires ValidPager(t.pager)
    ensures |t.pager.file| <= |CloseFile(t)| <= Max(|t.pager.file|, TABLE_MAX_PAGES * PAGE_SIZE)
  {
    var s := t.pager;
    var numFullPages, extra := t.numRows / ROWS_PER_PAGE, t.numRows % ROWS_PER_PAGE;
    var k := Min(numFullPages, TABLE_MAX_PAGES);
    FlushFullLength(s, k);
    if extra > 0 && numFullPages < TABLE_MAX_PAGES {
      assert numFullPages * PAGE_SIZE + extra * ROW_SIZE <= TABLE_MAX_PAGES * PAGE_SIZE;
    }
  }

  /** Within capacity, with every page holding a row resident and a file
      no longer than the rows, the file dbClose leaves is exactly
      UsedBytes(numRows) long. */
  lemma {:induction false} CloseLengthExact(t: TableState)
    requires ValidPager(t.pager) && t.numRows <= TABLE_MAX_ROWS && |t.pager.file| <= UsedBytes(t.numRows)
    requires forall p :: 0 <= p < PagesUsed(t.numRows) ==> Resident(t.pager, p)
    ensures |CloseFile(t)| == UsedBytes(t.numRows)
  {
    var s := t.pager;
    var n := t.numRows;
    var numFullPages, extra := n / ROWS_PER_PAGE, n % ROWS_PER_PAGE;
    assert numFullPages <= TABLE_MAX_PAGES;
    assert numFullPages <= PagesUsed(n);
    FlushFullLength(s, numFullPages);
    if extra > 0 {
      assert PagesUsed(n) == numFullPages + 1;
      assert Resident(s, numFullPages);
    }
  }

  /** A table of n rows written page by page occupies 291 n bytes plus the
      22 unused bytes at the end of each full page, so dbOpen's count of
      ROW_SIZE units over that length is n plus 22 (n / 14) / 291, and is n
      exactly when fewer than 14 pages are full. */
  lemma {:induction false} ReopenCount(n: nat)
    ensures UsedBytes(n) == n * ROW_SIZE + (PAGE_SIZE - ROWS_PER_PAGE * ROW_SIZE) * (n / ROWS_PER_PAGE)
    ensures UsedBytes(n) / ROW_SIZE == n + 22 * (n / ROWS_PER_PAGE) / ROW_SIZE
    ensures UsedBytes(n) / ROW_SIZE == n <==> n < 196
  {
    var q, r := n / ROWS_PER_PAGE, n % ROWS_PER_PAGE;
    assert n == q * 14 + r;
    assert UsedBytes(n) == 291 * n + 22 * q;
    var e := 22 * q;
    assert (291 * n + e) / 291 == n + e / 291 by {
      assert 291 * n + e == 291 * (n + e / 291) + e % 291;
    }
    assert e / 291 == 0 <==> q < 14;
  }

  /** dbOpen over a file of UsedBytes(n) bytes, for n within capacity,
      counts UsedBytes(n) / ROW_SIZE rows: at least n, and n exactly when
      n < 196. */
  lemma {:induction false} OpenCountOfUsed(file: seq<byte>, n: nat)
    requires n <= TABLE_MAX_ROWS && |file| == UsedBytes(n)
    ensures OpenTable(file).numRows == UsedBytes(n) / ROW_SIZE >= n
    ensures OpenTable(file).numRows == n <==> n < 196
  {
    ReopenCount(n);
    assert UsedBytes(n) <= TABLE_MAX_PAGES * PAGE_SIZE by {
      assert n / ROWS_PER_PAGE <= TABLE_MAX_PAGES;
      if n / ROWS_PER_PAGE == TABLE_MAX_PAGES {
        assert n % ROWS_PER_PAGE == 0;
      }
    }
  }

  /** A full table occupies 409600 bytes, which dbOpen counts as 1407
      rows. */
  lemma FullTableLength()
    ensures UsedBytes(TABLE_MAX_ROWS) == 409600
    ensures UsedBytes(TABLE_MAX_ROWS) / ROW_SIZE == 1407
  {
  }

  /** dbOpen's row count for a file of L bytes, counted the way the rows
      were written: 14 per full page, then whole rows in the last page. */
  function RowCountOfLength(fileLength: nat): (n: nat)
    ensures n * ROW_SIZE <= fileLength
  {
    (fileLength / PAGE_SIZE) * ROWS_PER_PAGE + (fileLength % PAGE_SIZE) / ROW_SIZE
  }

  /** The arithmetic of RowCountOfLengthCounts on page and row indices:
      row k of page p lies within q full pages and r further bytes, of
      which w whole rows fit, exactly when it is one of the first
      q * ROWS_PER_PAGE + w rows. */
  lemma {:induction false} SlotWithin(q: nat, r: nat, w: nat, p: nat, k: nat)
    requires r < PAGE_SIZE && w * ROW_SIZE <= r < w * ROW_SIZE + ROW_SIZE && k < ROWS_PER_PAGE
    ensures p * ROWS_PER_PAGE + k < q * ROWS_PER_PAGE + w <==>
      p * PAGE_SIZE + k * ROW_SIZE + ROW_SIZE <= q * PAGE_SIZE + r
  {
    assert w <= ROWS_PER_PAGE;
    if p < q {
      assert p + 1 <= q;
    } else if p > q {
      assert q + 1 <= p;
    }
  }

  /** The corrected count counts exactly the rows whose slot lies wholly
      inside the first fileLength bytes. */
  lemma {:induction false} RowCountOfLengthCounts(fileLength: nat, m: nat)
    ensures m < RowCountOfLength(fileLength) <==> RowPosition(m) + ROW_SIZE <= fileLength
  {
    var q, r := fileLength / PAGE_SIZE, fileLength % PAGE_SIZE;
    var w := r / ROW_SIZE;
    assert fileLength == q * PAGE_SIZE + r;
    assert m == RowPage(m) * ROWS_PER_PAGE + m % ROWS_PER_PAGE;
    SlotWithin(q, r, w, RowPage(m), m % ROWS_PER_PAGE);
  }

  /** The corrected count gives back every row count from the length its
      rows occupy. */
  lemma {:induction false} RowCountOfLengthInverts(n: nat)
    ensures RowCountOfLength(UsedBytes(n)) == n
  {
    var q, r := n / ROWS_PER_PAGE, n % ROWS_PER_PAGE;
    assert r * ROW_SIZE < PAGE_SIZE;
    assert UsedBytes(n) / PAGE_SIZE == q && UsedBytes(n) % PAGE_SIZE == r * ROW_SIZE;
  }

  /** A freshly opened table presents each row as the bytes at the row's
      position in the file (zero past its end), when the file's length
      fits the uint32 it is recorded in. */
  lemma {:induction false} OpenedRowBytes(file: seq<byte>, m: nat)
    requires |file| < 0x1_0000_0000 && m < TABLE_MAX_ROWS
    ensures RowBytes(OpenTable(file).pager, m) == ReadAt(file, RowPosition(m), ROW_SIZE)
  {
    var s := OpenTable(file).pager;
    var p := RowPage(m);
    RowPageBound(m);
    SlotInPage(m);
    HydrationMatchesDisk(s, p);
    assert View(s, p) == ReadAt(file, p * PAGE_SIZE, PAGE_SIZE);
  }

  /** The table dbOpen builds over the file dbClose left presents every row
      of a table within capacity with the bytes it had before the close. */
  lemma ReopenKeepsRows(t: TableState, m: nat)
    requires ValidPager(t.pager) && t.pager.fileLength == |t.pager.file|
    requires t.numRows <= TABLE_MAX_ROWS && m < t.numRows
    ensures RowBytes(OpenTable(CloseFile(t)).pager, m) == RowBytes(t.pager, m)
  {
    CloseLength(t);
    OpenedRowBytes(CloseFile(t), m);
    CloseKeepsRows(t, m);
  }
}
