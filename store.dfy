/** The pager and the table as the program has them: a fixed array of 100
    optional 4096-byte page buffers filled on demand from the backing file,
    and a table that addresses rows through it. Each method is proved to
    move the abstract state as the functions of StoreSpec say. */
module Store {
  import opened Layout
  import opened Files
  import opened RowCodec
  import opened StoreSpec

  class Pager {
    /** The backing file's contents. */
    var file: seq<byte>
    /** The file's length when it was opened, as a uint32. */
    const fileLength: uint32
    const pages: array<array?<byte>>

    /** Abstract view of the page slots. */
    ghost var slots: seq<Option<seq<byte>>>
    ghost var Repr: set<object>

    ghost predicate Valid()
      reads this, Repr
      ensures Valid() ==> this in Repr && ValidPager(State())
    {
      this in Repr && pages in Repr &&
      pages.Length == TABLE_MAX_PAGES && |slots| == TABLE_MAX_PAGES &&
      (forall p :: 0 <= p < TABLE_MAX_PAGES ==> (pages[p] == null <==> slots[p].None?)) &&
      (forall p :: 0 <= p < TABLE_MAX_PAGES && pages[p] != null ==>
        pages[p] in Repr && pages[p].Length == PAGE_SIZE && slots[p] == Some(pages[p][..])) &&
      (forall p, q :: 0 <= p < q < TABLE_MAX_PAGES && pages[p] != null ==> pages[p] != pages[q])
    }

    ghost function State(): PagerState
      reads this
    {
      PagerState(file, fileLength, slots)
    }

    /** pagerOpen: record the file and its length, with every slot empty. */
    constructor Open(file: seq<byte>)
      ensures Valid() && fresh(Repr - {this})
      ensures State() == OpenPager(file)
    {
      this.file := file;
      fileLength := |file| % 0x1_0000_0000;
      pages := new array?<byte>[TABLE_MAX_PAGES](_ => null);
      slots := seq(TABLE_MAX_PAGES, _ => None);
      new;
      Repr := {this, pages};
    }

    /** Seek to `offset`, then file.Read(buf[:]): the bytes that exist are
        copied, the rest of the buffer is left as it was. */
    method ReadInto(buf: array<byte>, offset: nat)
      modifies buf
      ensures forall i :: 0 <= i < buf.Length ==>
        buf[i] == if offset + i < |file| then file[offset + i] else old(buf[i])
    {
      if offset < |file| {
        Copy(buf, 0, file[offset..Min(offset + buf.Length, |file|)]);
      }
    }

    /** getPage. Page numbers above TABLE_MAX_PAGES are refused; page
        TABLE_MAX_PAGES itself passes the guard and panics on the array
        index. Otherwise a hit returns the resident buffer and a miss
        installs a zeroed buffer, hydrated from the file when the page
        number is within the length seen at open. */
    method GetPage(pageNum: uint32) returns (r: Result<array<byte>>)
      requires Valid()
      modifies this, pages
      ensures Valid() && fresh(Repr - old(Repr))
      ensures GuardAsWritten(pageNum).Some? ==>
        r == Err(GuardAsWritten(pageNum).value) && State() == old(State())
      ensures GuardAsWritten(pageNum).None? ==>
        && pageNum < TABLE_MAX_PAGES
        && r.Ok? && r.value == pages[pageNum]
        && r.value[..] == View(old(State()), pageNum)
        && State() == Fetched(old(State()), pageNum)
        && (old(pages[pageNum]) != null ==> r.value == old(pages[pageNum]))
      ensures forall q :: 0 <= q < TABLE_MAX_PAGES && q != pageNum ==> pages[q] == old(pages[q])
    {
      if pageNum > TABLE_MAX_PAGES {
        return Err(OutOfRange);
      }
      if pageNum >= pages.Length {
        return Err(IndexPanic);
      }
      if pages[pageNum] == null {
        var page := Load(pageNum);
        pages[pageNum] := page;
        slots := slots[pageNum := Some(page[..])];
        Repr := Repr + {page};
      }
      r := Ok(pages[pageNum]);
    }

    /** The cache-miss half of getPage: a zeroed page, read from the file
        when pageNum is not past the page count of the length seen at open. */
    method Load(pageNum: nat) returns (page: array<byte>)
      ensures fresh(page) && page[..] == LoadedPage(State(), pageNum)
    {
      page := new byte[PAGE_SIZE](_ => 0);
      var numPages := fileLength / PAGE_SIZE;
      if fileLength % PAGE_SIZE != 0 {
        numPages := numPages + 1;
      }
      if pageNum <= numPages {
        var offset := pageNum * PAGE_SIZE;
        ReadInto(page, offset);
      }
      assert page[..] == LoadedPage(State(), pageNum);
    }

    /** dbClose's first loop over the first `count` pages: flush each
        resident one at PAGE_SIZE bytes and drop it. Slot 100 is past the
        array, so a count above TABLE_MAX_PAGES panics after pages 0 .. 99
        are handled. */
    method FlushFullPages(count: nat) returns (err: Option<Error>)
      requires Valid()
      modifies this, pages
      ensures Valid() && Repr == old(Repr)
      ensures err == if count > TABLE_MAX_PAGES then Some(IndexPanic) else None
      ensures file == FlushFull(old(State()), Min(count, TABLE_MAX_PAGES))
      ensures forall p :: 0 <= p < Min(count, TABLE_MAX_PAGES) ==> slots[p].None?
      ensures forall p :: Min(count, TABLE_MAX_PAGES) <= p < TABLE_MAX_PAGES ==> slots[p] == old(slots[p])
    {
      ghost var s0 := State();
      for i := 0 to count
        invariant i <= TABLE_MAX_PAGES
        invariant Valid() && Repr == old(Repr)
        invariant file == FlushFull(s0, i)
        invariant forall p :: 0 <= p < i ==> slots[p].None?
        invariant forall p :: i <= p < TABLE_MAX_PAGES ==> slots[p] == s0.slots[p]
      {
        if i >= pages.Length {
          return Some(IndexPanic);
        }
        if pages[i] == null {
          continue;
        }
        Flush(i, PAGE_SIZE);
        Release(i);
      }
      err := None;
    }

    /** dbClose's handling of the page after the full ones: when some rows
        spill onto it, flush it at their size and drop it; page
        TABLE_MAX_PAGES is past the slot array and panics. */
    method FlushPartialPage(pageNum: nat, numAdditionalRows: nat) returns (err: Option<Error>)
      requires Valid() && numAdditionalRows < ROWS_PER_PAGE
      modifies this, pages
      ensures Valid() && Repr == old(Repr)
      ensures err == if numAdditionalRows > 0 && pageNum >= TABLE_MAX_PAGES then Some(IndexPanic) else None
      ensures file == if numAdditionalRows > 0 && pageNum < TABLE_MAX_PAGES
        then FlushPage(old(State()), pageNum, numAdditionalRows * ROW_SIZE) else old(file)
      ensures slots == if numAdditionalRows > 0 && pageNum < TABLE_MAX_PAGES
        then old(slots)[pageNum := None] else old(slots)
    {
      err := None;
      if numAdditionalRows > 0 {
        if pageNum >= pages.Length {
          return Some(IndexPanic);
        }
        if pages[pageNum] != null {
          var size := numAdditionalRows * ROW_SIZE;
          Flush(pageNum, size);
          Release(pageNum);
        }
      }
    }

    /** pagerFlush: nothing for an empty slot, otherwise seek to the page's
        offset and write its first `size` bytes. */
    method Flush(pageNum: nat, size: nat)
      requires Valid() && pageNum < TABLE_MAX_PAGES && size <= PAGE_SIZE
      modifies this
      ensures Valid() && Repr == old(Repr) && slots == old(slots)
      ensures file == FlushPage(old(State()), pageNum, size)
    {
      if pages[pageNum] == null {
        return;
      }
      var offset := pageNum * PAGE_SIZE;
      file := WriteAt(file, offset, pages[pageNum][..size]);
    }

    /** Drop the buffer of a slot (pager.pages[i] = nil). */
    method Release(pageNum: nat)
      requires Valid() && pageNum < TABLE_MAX_PAGES
      modifies this, pages
      ensures Valid() && Repr == old(Repr) && file == old(file)
      ensures slots == old(slots)[pageNum := None]
      ensures forall q :: 0 <= q < TABLE_MAX_PAGES && q != pageNum ==> pages[q] == old(pages[q])
    {
      pages[pageNum] := null;
      slots := slots[pageNum := None];
    }

    /** Drop every buffer (dbClose's final loop over pager.pages). */
    method ReleaseAll()
      requires Valid()
      modifies this, pages
      ensures Valid() && Repr == old(Repr) && file == old(file)
      ensures forall p :: 0 <= p < TABLE_MAX_PAGES ==> !Resident(State(), p)
    {
      for i := 0 to TABLE_MAX_PAGES
        invariant Valid() && Repr == old(Repr) && file == old(file)
        invariant forall p :: 0 <= p < i ==> slots[p].None?
      {
        Release(i);
      }
    }
  }

  /** A row's slice of a page: the page buffer and the offset it starts at. */
  datatype Slot = Slot(page: array<byte>, offset: nat)

  class Table {
    var numRows: uint32
    const pager: Pager

    ghost predicate Valid()
      reads this, pager, pager.Repr
    {
      pager.Valid()
    }

    ghost function State(): TableState
      reads this, pager
    {
      TableState(pager.State(), numRows)
    }

    /** dbOpen: a fresh pager over `file`, and the row count taken from the
        file length. */
    constructor Open(file: seq<byte>)
      ensures Valid() && fresh(pager) && fresh(pager.Repr)
      ensures State() == OpenTable(file)
    {
      var p := new Pager.Open(file);
      pager := p;
      numRows := p.fileLength / ROW_SIZE;
    }

    /** rowSlot: fetch page RowPage(rowNum) and point at the row's offset. */
    method RowSlot(rowNum: uint32) returns (r: Result<Slot>)
      requires Valid()
      modifies pager, pager.pages
      ensures Valid() && fresh(pager.Repr - old(pager.Repr))
      ensures GuardAsWritten(RowPage(rowNum)).Some? ==>
        r == Err(GuardAsWritten(RowPage(rowNum)).value) && pager.State() == old(pager.State())
      ensures GuardAsWritten(RowPage(rowNum)).None? ==>
        && RowPage(rowNum) < TABLE_MAX_PAGES
        && r.Ok? && r.value.page == pager.pages[RowPage(rowNum)]
        && r.value.offset == RowOffset(rowNum)
        && r.value.offset + ROW_SIZE <= r.value.page.Length
        && r.value.page[..] == View(old(pager.State()), RowPage(rowNum))
        && pager.State() == Fetched(old(pager.State()), RowPage(rowNum))
    {
      var pageNum := rowNum / ROWS_PER_PAGE;
      var page := pager.GetPage(pageNum);
      if page.Err? {
        return Err(page.error);
      }
      var rowOffset := rowNum % ROWS_PER_PAGE;
      var byteOffset := rowOffset * ROW_SIZE;
      SlotInPage(rowNum);
      r := Ok(Slot(page.value, byteOffset));
    }

    /** executeInsert: refuse at capacity, otherwise encode the row into
        slot numRows and count it. */
    method ExecuteInsert(row: Row) returns (res: ExecuteResult)
      requires Valid()
      modifies this, pager, pager.Repr
      ensures Valid() && fresh(pager.Repr - old(pager.Repr))
      ensures res == InsertResult(old(State()))
      ensures State() == Insert(old(State()), row)
    {
      if numRows >= TABLE_MAX_ROWS {
        return ExecuteTableFull;
      }
      GuardsAgreeBelowCapacity(numRows);
      var slot := RowSlot(numRows);
      if slot.Err? {
        // the program reports the error and returns success without storing
        return ExecuteSuccess;
      }
      ghost var p := RowPage(numRows);
      SerializeRow(row, slot.value.page, slot.value.offset);
      pager.slots := pager.slots[p := Some(slot.value.page[..])];
      numRows := numRows + 1;
      res := ExecuteSuccess;
    }

    /** One step of executeSelect's loop: rowSlot, then deserializeRow of
        the slot. */
    method ReadRow(rowNum: uint32) returns (r: Result<Row>)
      requires Valid()
      modifies pager, pager.pages
      ensures Valid() && fresh(pager.Repr - old(pager.Repr)) && numRows == old(numRows)
      ensures GuardAsWritten(RowPage(rowNum)).Some? ==>
        r == Err(GuardAsWritten(RowPage(rowNum)).value) && pager.State() == old(pager.State())
      ensures GuardAsWritten(RowPage(rowNum)).None? ==>
        && rowNum < TABLE_MAX_ROWS
        && r == Ok(DecodeRow(RowBytes(old(pager.State()), rowNum)))
        && pager.State() == Fetched(old(pager.State()), RowPage(rowNum))
    {
      RowPageBound(rowNum);
      var slot := RowSlot(rowNum);
      if slot.Err? {
        return Err(slot.error);
      }
      SlotInPage(rowNum);
      var bytes := slot.value.page[slot.value.offset..slot.value.offset + ROW_SIZE];
      assert bytes == RowBytes(old(pager.State()), rowNum);
      r := Ok(DecodeRow(bytes));
    }

    /** executeSelect without the printing: the rows decoded in index
        order, and whether the scan ended in the panic at row
        TABLE_MAX_ROWS. Row errors (OutOfRange) are skipped as the
        program skips them after printing. */
    method ExecuteSelect() returns (rows: seq<Row>, panicked: bool)
      requires Valid()
      modifies pager, pager.pages
      ensures Valid() && fresh(pager.Repr - old(pager.Repr)) && numRows == old(numRows)
      ensures rows == SelectRows(old(pager.State()), numRows)
      ensures panicked == SelectPanics(numRows)
      ensures pager.State() == FetchedBelow(old(pager.State()), PagesUsed(Min(numRows, TABLE_MAX_ROWS)))
    {
      rows, panicked := [], false;
      ghost var s0 := pager.State();
      FetchedBelowNone(s0);
      for i := 0 to numRows
        invariant i <= TABLE_MAX_ROWS
        invariant Valid() && fresh(pager.Repr - old(pager.Repr))
        invariant pager.State() == FetchedBelow(s0, PagesUsed(i))
        invariant rows == SelectRows(s0, i)
      {
        ScanGuard(i);
        var row := ReadRow(i);
        if row.Err? {
          if row.error == IndexPanic {
            panicked := true;
            return;
          }
          continue;
        }
        rows := rows + [row.value];
        FetchedBelowStep(s0, i);
        SelectRowsStep(s0, i);
      }
    }

    /** dbClose: flush every resident full page at PAGE_SIZE bytes, the
        resident partial page at its used size, then drop every buffer. A
        row count above capacity makes the program index page 100 and
        panic; the flushes done before that stay in the file. */
    method Close() returns (err: Option<Error>)
      requires Valid()
      modifies pager, pager.pages
      ensures Valid() && pager.Repr == old(pager.Repr)
      ensures err == if ClosePanics(numRows) then Some(IndexPanic) else None
      ensures pager.file == CloseFile(old(State()))
      ensures err.None? ==> forall p :: 0 <= p < TABLE_MAX_PAGES ==> !Resident(pager.State(), p)
    {
      var numFullPages := numRows / ROWS_PER_PAGE;
      err := pager.FlushFullPages(numFullPages);
      if err.Some? {
        return;
      }
      ghost var afterFull := pager.State();
      var numAdditionalRows := numRows % ROWS_PER_PAGE;
      err := pager.FlushPartialPage(numFullPages, numAdditionalRows);
      if err.Some? {
        return;
      }
      if numAdditionalRows > 0 && numFullPages < TABLE_MAX_PAGES {
        FlushPageLocal(afterFull, old(pager.State()).(file := afterFull.file), numFullPages, numAdditionalRows * ROW_SIZE);
      }
      pager.ReleaseAll();
      err := None;
    }
  }
}
