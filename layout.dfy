/** Layout constants of the row and page format, and the arithmetic row
    addressing scheme that maps a logical row number to a page and a byte
    offset inside that page. */
module Layout {

  /** One byte of the backing file or of a page. */
  type byte = x: int | 0 <= x < 0x100

  /** Go's uint32. */
  type uint32 = x: int | 0 <= x < 0x1_0000_0000

  const COLUMN_USERNAME_SIZE: nat := 32
  const COLUMN_EMAIL_SIZE: nat := 255

  const ID_SIZE: nat := 4
  const USERNAME_SIZE: nat := COLUMN_USERNAME_SIZE
  const EMAIL_SIZE: nat := COLUMN_EMAIL_SIZE
  const ID_OFFSET: nat := 0
  const USERNAME_OFFSET: nat := ID_OFFSET + ID_SIZE
  const EMAIL_OFFSET: nat := USERNAME_OFFSET + USERNAME_SIZE
  const ROW_SIZE: nat := ID_SIZE + USERNAME_SIZE + EMAIL_SIZE

  const PAGE_SIZE: nat := 4096
  const TABLE_MAX_PAGES: nat := 100
  const ROWS_PER_PAGE: nat := PAGE_SIZE / ROW_SIZE
  const TABLE_MAX_ROWS: nat := ROWS_PER_PAGE * TABLE_MAX_PAGES

  /** The derived constants have the values the format relies on. */
  lemma Constants()
    ensures USERNAME_OFFSET == 4 && EMAIL_OFFSET == 36 && ROW_SIZE == 291
    ensures ROWS_PER_PAGE == 14 && TABLE_MAX_ROWS == 1400
    ensures ROWS_PER_PAGE * ROW_SIZE == 4074 <= PAGE_SIZE
    ensures PAGE_SIZE - ROWS_PER_PAGE * ROW_SIZE == 22
  {
  }

  /** The page that holds row `rowNum`: the one whose run of
      ROWS_PER_PAGE row numbers contains it. */
  function RowPage(rowNum: nat): (p: nat)
  {
    rowNum / ROWS_PER_PAGE
  }

  /** The byte offset of row `rowNum` inside its page: ROW_SIZE bytes for
      each row before it on the same page. */
  function RowOffset(rowNum: nat): (o: nat)
  {
    (rowNum % ROWS_PER_PAGE) * ROW_SIZE
  }

  /** Every row slot lies inside its page, on a row boundary, and no slot
      reaches the 22 unused bytes at the end of a page. */
  lemma SlotInPage(rowNum: nat)
    ensures RowOffset(rowNum) % ROW_SIZE == 0
    ensures RowOffset(rowNum) + ROW_SIZE <= ROWS_PER_PAGE * ROW_SIZE <= PAGE_SIZE
  {
    var k := rowNum % ROWS_PER_PAGE;
    assert k <= 13;
    assert RowOffset(rowNum) == k * 291;
  }

  /** Row numbers and slots are in one-to-one correspondence: the page and
      the offset determine the row number. */
  lemma {:induction false} SlotDeterminesRow(m: nat, n: nat)
    requires RowPage(m) == RowPage(n) && RowOffset(m) == RowOffset(n)
    ensures m == n
  {
    var km, kn := m % ROWS_PER_PAGE, n % ROWS_PER_PAGE;
    assert km * 291 == kn * 291;
    assert km == kn;
    assert m == RowPage(m) * ROWS_PER_PAGE + km;
    assert n == RowPage(n) * ROWS_PER_PAGE + kn;
  }

  /** Distinct rows get disjoint slots: on different pages, or on the same
      page with byte ranges that do not overlap. */
  lemma {:induction false} SlotsDisjoint(m: nat, n: nat)
    requires m != n
    ensures RowPage(m) != RowPage(n)
         || RowOffset(m) + ROW_SIZE <= RowOffset(n)
         || RowOffset(n) + ROW_SIZE <= RowOffset(m)
  {
    if RowPage(m) == RowPage(n) {
      var km, kn := m % ROWS_PER_PAGE, n % ROWS_PER_PAGE;
      if km == kn {
        SlotDeterminesRow(m, n);
      } else if km < kn {
        assert (kn - km) * 291 >= 291;
      } else {
        assert (km - kn) * 291 >= 291;
      }
    }
  }

  /** Every row below the capacity lives on one of the 100 pages, and the
      first row past the capacity lives on page 100. */
  lemma {:induction false} RowPageBound(rowNum: nat)
    ensures RowPage(rowNum) < TABLE_MAX_PAGES <==> rowNum < TABLE_MAX_ROWS
    ensures rowNum == TABLE_MAX_ROWS ==> RowPage(rowNum) == TABLE_MAX_PAGES
  {
    assert rowNum == RowPage(rowNum) * 14 + rowNum % 14;
  }

  /** Later rows never live on earlier pages. */
  lemma {:induction false} RowPageMonotonic(m: nat, n: nat)
    requires m <= n
    ensures RowPage(m) <= RowPage(n)
  {
    assert m == RowPage(m) * ROWS_PER_PAGE + m % ROWS_PER_PAGE;
    assert n == RowPage(n) * ROWS_PER_PAGE + n % ROWS_PER_PAGE;
  }

  /** Rows are stored in increasing order along the file: the absolute
      position of a row's slot grows with the row number. */
  lemma {:induction false} SlotPositionMonotonic(m: nat, n: nat)
    requires m < n
    ensures RowPage(m) * PAGE_SIZE + RowOffset(m) + ROW_SIZE <= RowPage(n) * PAGE_SIZE + RowOffset(n)
  {
    SlotInPage(m);
    SlotInPage(n);
    var pm, pn := RowPage(m), RowPage(n);
    assert m == pm * 14 + m % 14;
    assert n == pn * 14 + n % 14;
    if pm == pn {
      assert m % 14 < n % 14;
      assert (n % 14 - m % 14) * 291 >= 291;
    } else {
      assert pm < pn;
      assert pm * 4096 + 4096 <= pn * 4096;
    }
  }
}
