# Paged row store of SimpleDatabaseGo, modelled in Dafny

SimpleDatabaseGo keeps one table of fixed-width rows in `main.go`. Each row is
an id, a username and an email. The rows live in 4096-byte pages. The pages
are read on demand from a backing file and written back when the database is
closed.

This project models that storage layer. It covers:

- the row codec, `serializeRow` and `deserializeRow`;
- the row addressing of `rowSlot`;
- the pager: `pagerOpen`, `getPage` and `pagerFlush`;
- the table lifecycle: `dbOpen` and `dbClose`;
- the two statements, `executeInsert` and the scan of `executeSelect`.

The backing file is a sequence of bytes:

- a seek followed by a write overwrites bytes or extends the file, and a hole it opens reads as zeros;
- a seek followed by a read copies the bytes that exist into a zeroed page.

Modules:

- `Layout` holds the byte type, Go's `uint32`, the layout constants and the row-addressing arithmetic.
- `Files` holds the backing file: `ReadAt`, `WriteAt` and byte-level lemmas about them.
- `RowCodec` holds the row encoding as functions (`EncodeRow`, `DecodeRow`), their round trip, and `SerializeRow`, the in-place method that writes a row into a page buffer.
- `StoreSpec` holds the pager and the table as values (`PagerState`, `TableState`). Its functions say what each operation does to that state.
- `Store` holds the `Pager` and `Table` classes. Their fields are as in the Go structs: a 100-slot array of optional page buffers, the file, the length recorded at open, and the row count. Every method is proved to move the abstract state exactly as the matching `StoreSpec` function says.
- `Persistence` proves what a `dbClose` followed by a `dbOpen` of the same file keeps, and what it does not:
  - the bytes at each row's position;
  - the length of the file;
  - the row count derived from that length.
- `Session` follows a whole session. It opens an empty file, runs a sequence of inserts, closes, and opens the file again.

Go's run-time index check is modelled as an explicit error value, `IndexPanic`. It fires when a slot index reaches 100 in the 100-entry page array, and in Go it aborts the process. A panic is therefore reported as a result, not excluded by a precondition. This matters because the row count is not always within capacity: the count `dbOpen` derives can exceed `TABLE_MAX_ROWS`.

The code does not keep three properties one might expect of it. The model follows the code in each case:

- Reopening a full table gives 1407 rows, more than the 1400-row capacity (main.go:142).
- A close followed by a reopen gives back the same rows only when fewer than 196 were written (main.go:142).
- Asking `getPage` for page 100 indexes past the page array and panics instead of returning an error (main.go:228).

The Findings section below records these.

## Model

| member | source | states |
|---|---|---|
| Layout.Constants | main.go:111-114 | The row, field and page constants have the values the format relies on: rows of 291 bytes, 14 per page, 1400 in all, and 22 unused bytes at the end of a page. |
| Layout.RowPage | main.go:130 | The page of a row is its row number divided by 14; `Layout.RowPageBound` and `Layout.RowPageMonotonic` state its range and order. |
| Layout.RowOffset | main.go:135-136 | The byte offset of a row in its page is 291 times its index within the page; `Layout.SlotInPage` states that it stays inside the page. |
| Layout.SlotInPage | main.go:129-138 | Each row slot starts on a row boundary and ends within the first 14 × 291 bytes of its page. |
| Layout.SlotDeterminesRow | main.go:130-136 | A page number and an offset within it determine the row number. |
| Layout.SlotsDisjoint | main.go:130-136 | Distinct rows get different pages or non-overlapping byte ranges. |
| Layout.RowPageBound | main.go:130 | A row lives on one of the 100 pages exactly when it is below capacity. Row 1400 lives on page 100. |
| Layout.RowPageMonotonic | main.go:130 | Later rows never live on earlier pages. |
| Layout.SlotPositionMonotonic | main.go:129-138 | Slots are laid out along the file in row order without overlap. |
| Files.ReadAt | main.go:242-251 | A seek and read into a zeroed page gives the file's bytes where they exist and zero elsewhere. |
| Files.WriteAt | main.go:156-161 | A seek and write puts the data at the offset. It keeps every other byte. Its resulting length is the larger of the old end and the end of the data. |
| Files.WriteAtBytes | main.go:156-161 | The same write, stated byte by byte on reads that see zeros past the end. |
| Files.ReadAfterWrite | main.go:156-161 | Reading back the written range yields exactly the written bytes. |
| Files.WriteFrame | main.go:156-161 | A byte outside the written range reads as before the write. |
| RowCodec.EncodeId | main.go:71-74 | The four id bytes, least significant first, read back as the id. |
| RowCodec.ZeroPad | main.go:76-81 | A field holds the string's first bytes up to the width, then zeros, and is exactly the width long. |
| RowCodec.EncodeRow | main.go:70-89 | The encoding is 291 bytes. Bytes 0-3 are the little-endian id, bytes 4-35 the padded username and bytes 36-290 the padded email. |
| RowCodec.IndexByte | main.go:95 | Like Go's `bytes.IndexByte`, it returns -1 exactly when the byte is absent, and otherwise the index of its first occurrence. |
| RowCodec.TerminatedUnique | main.go:94-100 | At most one NUL-free string ends at a field's first NUL byte, or fills the field. |
| RowCodec.FieldString | main.go:94-100 | The decoded string is the field up to its first NUL byte, or the whole field. |
| RowCodec.DecodeRow | main.go:91-109 | The id is the little-endian value of bytes 0-3. Each string is the one terminated in its field. |
| RowCodec.PaddedTerminated | main.go:76-81 | A NUL-free string that fits, once padded, is what decoding its field yields. |
| RowCodec.RoundTrip | main.go:70-109 | Decoding an encoded row gives the row back if and only if both strings fit their fields and hold no NUL byte. This includes strings exactly at the limit. |
| RowCodec.Copy | main.go:78 | Go's `copy` into the slice at an offset overwrites exactly that range. |
| RowCodec.WriteField | main.go:76-81 | The copy followed by the zero-fill loop turns exactly the field's bytes into the padded string. |
| RowCodec.WriteId | main.go:71-74 | The four shifts turn exactly the first four bytes of the slot into the id's encoding. |
| RowCodec.SerializeRow | main.go:70-89 | The slot's 291 bytes become `EncodeRow(row)`. No byte outside the slot changes. |
| StoreSpec.OpenPager | main.go:169-187 | The opened pager has every slot empty. It records the file's length cut to 32 bits. |
| StoreSpec.GuardAsWritten | main.go:228-232 | The check as written, with the index that follows it: no error exactly for pages 0-99, and the panic exactly at page 100. |
| StoreSpec.Guard | main.go:228-230 | The corrected check: no error exactly for pages 0-99, and only OutOfRange otherwise. |
| StoreSpec.GuardAsWrittenPanics | main.go:227-232 | The bounds check as written lets page 100 through to the out-of-bounds index. |
| StoreSpec.GuardAdmitsExactlyIndices | main.go:228 | The corrected check admits exactly the slot indices 0-99 and never panics. It differs from the check as written only at page 100. |
| StoreSpec.GuardsAgreeBelowCapacity | main.go:313-320 | An insert below capacity asks for a page that passes both checks, so it never reaches index 100. |
| StoreSpec.ScanGuard | main.go:333-334 | Up to row 1400, the scan's page passes the check, except for row 1400 itself, which panics. |
| StoreSpec.NumPages | main.go:235-239 | The page count is the recorded length divided by 4096, rounded up. |
| StoreSpec.LoadedPage | main.go:232-258 | A miss installs a full 4096-byte page: the file's bytes when the page number is at most the page count, zeros otherwise. |
| StoreSpec.View | main.go:232-261 | The page `getPage` hands out is the resident buffer, or on a miss the page it would load. It is always 4096 bytes. |
| StoreSpec.HydrationMatchesDisk | main.go:241-251 | When the recorded length is the real one, a miss gives exactly the bytes at the page's offset, with zeros past the end of the file. |
| StoreSpec.Fetched | main.go:232-261 | After a fetch the page is resident with the contents it showed before. No other slot changes and no page's contents change. A hit changes nothing. |
| StoreSpec.OpenTable | main.go:140-150 | The opened table counts whole 291-byte units of the recorded file length. |
| StoreSpec.RowBytes | main.go:129-138 | A row's bytes are a 291-byte slice of its page. |
| StoreSpec.RowBytesAt | main.go:135-137 | Byte i of a row is byte `(rowNum % 14) * 291 + i` of page `rowNum / 14`. |
| StoreSpec.InsertResult | main.go:314-315 | An insert reports the table full exactly when the count has reached 1400. |
| StoreSpec.Insert | main.go:313-329 | At capacity, an insert changes nothing. Otherwise it counts one more row and leaves the file as it was. |
| StoreSpec.InsertEffect | main.go:320-326 | An insert below capacity puts the encoded row in slot `numRows` and makes that page resident. It changes no other row's bytes and no other slot. |
| StoreSpec.ScanRows | main.go:333-341 | The scan's rows are, in index order, the decoding of each row's bytes. |
| StoreSpec.SelectRows | main.go:331-344 | The scan lists `min(numRows, 1400)` rows, each the decoding of its slot. |
| StoreSpec.SelectPanics | main.go:333-334 | The scan reaches row 1400, whose page panics, exactly when the count is above 1400; `StoreSpec.ScanGuard` proves the page check that makes it so. |
| StoreSpec.FetchedBelow | main.go:333-334 | After fetching pages below m, exactly those pages are made resident and the slots from m on are unchanged. |
| StoreSpec.FetchedBelowViews | main.go:232-261 | Fetching pages changes no page's contents as `getPage` presents them. |
| StoreSpec.FetchedBelowStep | main.go:333-334 | Fetching row i's page after the pages of rows 0 to i-1 gives the pages of rows 0 to i, and row i's bytes stay as they were. |
| StoreSpec.SelectRowsStep | main.go:333-341 | One more step of the scan appends the decoding of row i. |
| StoreSpec.FlushPage | main.go:152-167 | An empty slot flushes nothing. A resident page writes its first `size` bytes at `pageNum * 4096`, and the file grows to at least the end of that range. |
| StoreSpec.FlushPageBytes | main.go:152-167 | Byte by byte, the flushed range holds the page's bytes and every other byte reads as before. |
| StoreSpec.FlushPageLocal | main.go:152-167 | A flush depends only on the file and the flushed slot. |
| StoreSpec.FlushFull | main.go:193-201 | The file after the first close loop over pages 0 to k-1: each page flushed at 4096 bytes in order, empty slots skipped; `Persistence.FlushFullBytes` and `Persistence.FlushFullLength` state its bytes and length. |
| StoreSpec.ClosePanics | main.go:191-213 | `dbClose` indexes page 100: in the first loop when there are more than 100 full pages, or at the partial page when it is page 100; `StoreSpec.ClosePanicsAboveCapacity` reduces this to the row count. |
| StoreSpec.CloseFile | main.go:189-213 | The file `dbClose` leaves: the full pages flushed, then the resident partial page at `(numRows % 14) * 291` bytes; the Persistence lemmas state its bytes and length. |
| StoreSpec.ClosePanicsAboveCapacity | main.go:191-213 | `dbClose` indexes page 100 exactly when the row count is above 1400. |
| Store.Pager.Open | main.go:169-187 | The constructed pager's state is `OpenPager(file)`. |
| Store.Pager.ReadInto | main.go:242-251 | The read copies the bytes that exist and leaves the rest of the buffer as it was. |
| Store.Pager.GetPage | main.go:227-262 | Pages above 100 give OutOfRange and page 100 gives IndexPanic, in both cases with the state unchanged. Any other page is returned with the contents `View` gives, the state becomes `Fetched`, and a hit returns the same buffer. |
| Store.Pager.Load | main.go:232-258 | The freshly allocated page equals `LoadedPage`. |
| Store.Pager.FlushFullPages | main.go:193-201 | After the loop, the file is `FlushFull` of the pages it handled. Those slots are empty and the later slots are kept. A count above 100 panics at slot 100. |
| Store.Pager.FlushPartialPage | main.go:203-213 | When rows spill past the full pages, the partial page is flushed at their size and its slot emptied; every other slot is kept. It panics when that page is 100. |
| Store.Pager.Flush | main.go:152-167 | The file becomes `FlushPage` of the state. The slots are unchanged. |
| Store.Pager.Release | main.go:200 | The one slot becomes empty. Nothing else changes. |
| Store.Pager.ReleaseAll | main.go:220-222 | Every slot becomes empty and the file is kept. |
| Store.Table.Open | main.go:140-150 | The constructed table's state is `OpenTable(file)`. |
| Store.Table.RowSlot | main.go:129-138 | It returns the guard's error for the row's page. Otherwise it returns the fetched page and offset `(rowNum % 14) * 291`, with the slot inside the page. |
| Store.Table.ExecuteInsert | main.go:313-329 | It returns `InsertResult` of the old state, the new state is `Insert` of it, and the error return at line 321 is unreachable. |
| Store.Table.ReadRow | main.go:334-339 | It returns the guard's error for the row's page, or the decoding of the row's bytes with the page fetched. |
| Store.Table.ExecuteSelect | main.go:331-344 | It returns exactly `SelectRows` of the old pager and panics exactly when the count is above 1400. It leaves the pages of the scanned rows resident and changes nothing else. |
| Store.Table.Close | main.go:189-225 | The file becomes `CloseFile` of the old state. It panics exactly when the count is above 1400, and otherwise every slot ends empty. |
| Persistence.ImageOnDisk | main.go:241-251 | A byte of a non-resident page reads as the file byte at the same position. |
| Persistence.FlushFullBytes | main.go:193-201 | After the first close loop over pages below k, those pages on disk read as the pager presents them and the rest of the file is kept. |
| Persistence.FlushFullLength | main.go:193-201 | The first close loop never shortens the file. It lengthens it at most to `k * 4096`, and exactly there when all pages below k are resident. |
| Persistence.RowPositionOnPage | main.go:130-136 | Byte i of row m sits on the row's page at the row's offset plus i. |
| Persistence.LastPageRows | main.go:203-207 | A row on the partial page lies within the `(numRows % 14) * 291` bytes that `dbClose` flushes. |
| Persistence.CloseBytesFullPage | main.go:193-201 | After close, a row on a full page keeps its bytes. |
| Persistence.CloseFilePartial | main.go:203-213 | With rows spilling onto a partial page, the closed file is the full pages flushed, then that page at the used size. |
| Persistence.CloseBytesPartialPage | main.go:203-213 | After close, a row on the partial page keeps its bytes. |
| Persistence.CloseBytes | main.go:189-213 | After closing a table within capacity, every byte of every row is at the row's position in the file. |
| Persistence.CloseKeepsRows | main.go:189-213 | Reading the closed file at a row's position gives that row's bytes. |
| Persistence.CloseLength | main.go:189-213 | Close never shrinks the file and never writes past page 99. |
| Persistence.CloseLengthExact | main.go:189-213 | With every used page resident, closing leaves exactly `(n/14) * 4096 + (n%14) * 291` bytes. |
| Persistence.ReopenCount | main.go:142 | That length divided by 291 is `n + 22 * (n/14) / 291`, which equals n exactly when n < 196. |
| Persistence.OpenCountOfUsed | main.go:140-150 | Opening a file of that length counts at least n rows, and exactly n if and only if n < 196. |
| Persistence.FullTableLength | main.go:142 | A full table occupies 409600 bytes, which counts as 1407 rows. |
| Persistence.RowCountOfLengthInverts | main.go:142 | The corrected count, 14 per full page plus whole rows on the last, recovers every row count from its length. |
| Persistence.RowCountOfLength | main.go:142 | The corrected count: 14 rows per full page plus the whole rows in the rest. The rows it counts never occupy more bytes than the file has. |
| Persistence.RowCountOfLengthCounts | main.go:142 | The corrected count counts exactly the rows whose 291-byte slot lies wholly inside the file. |
| Persistence.OpenedRowBytes | main.go:232-251 | A freshly opened table presents each row as the file's bytes at the row's position. |
| Persistence.ReopenKeepsRows | main.go:189-213 | Reopening the closed file presents every row with the bytes it had before the close. |
| Session.InsertAll | main.go:313-329 | A run of inserts never touches the backing file. |
| Session.InsertResults | main.go:313-329 | One status per insert, in order; `Session.InsertAllCount` states which are full. |
| Session.InsertAllCount | main.go:313-329 | Inserts count rows up to 1400 and no further. Each reports full exactly when the count has reached 1400. |
| Session.OneInsertPastCapacity | main_test.go:36-43 | 1401 inserts into an empty file leave 1400 rows. The last insert reports the table full and all the others succeed. |
| Session.InsertKeepsResident | main.go:320-326 | An insert keeps every page that holds a row resident, including the new row's page. |
| Session.InsertStores | main.go:320-326 | An insert below capacity stores its row after the others. |
| Session.InsertAllStores | main.go:313-329 | Inserts within capacity store their rows in order after the stored ones. |
| Session.WrittenStores | main.go:313-329 | A session that starts from an empty file holds exactly the inserted rows. |
| Session.CloseLengthWritten | main.go:189-213 | Closing that session leaves a file of exactly the used length, from which the corrected count recovers the row count. |
| Session.ReopenCountWritten | main.go:142 | Reopening counts the written number of rows if and only if fewer than 196 were written, and more otherwise. |
| Session.ReopenRowsWritten | main.go:189-213 | The reopened table presents every written row's encoding in its slot. |
| Session.SelectStored | main.go:331-344 | A scan over stored well-formed rows lists them first, in order. It lists nothing else and does not panic exactly when the count is theirs. |
| Session.SelectAfterReopen | main.go:331-344 | A select after the reopen lists the written rows first. It lists exactly them without a panic if and only if fewer than 196 rows were written. |
| Session.FullTableReopen | main.go:142 | A full table, once closed and reopened, counts 1407 rows, and both a select and a close on it panic. |

## Left out

- I/O failures are not modelled. Seek, read, write and close of the file never fail, and the errors the program ignores at main.go:141 and main.go:175 do not arise. Opening yields the file's bytes.
- `file.Close()` in `dbClose` is not modelled, because the backing file is a value.
- `file.Read` is modelled as one read of all available bytes, with no short read before the end of the file.
- Printing is not modelled: `printRow`, the `bufio` writer and the error messages. `Store.Table.ExecuteSelect` returns the decoded rows in place of printing them. An `OutOfRange` row error is skipped, as the loop's `continue` does.
- A panic is a result value, not a process abort. After it, `Store.Table.ExecuteSelect` and `Store.Table.Close` return, with the effects done so far kept.
- `Store.Table.Close`: the claim that every slot is empty holds only on the path without a panic. After a panic the process is gone.
- The REPL, meta-commands and statement parsing are not modelled (`runREPL`, `main`, `doMetaCommand`, `prepareStatement`), because they are text glue around the store. `RowCodec.WellFormed` states the condition on rows that the round trip needs. That condition is the length checks of main.go:288-294 plus the absence of NUL bytes.
- Concurrency is not modelled, because the program is sequential.

## Findings

| source | as written | input that shows it | evidently intended | confidence | as-written member | corrected member |
|---|---|---|---|---|---|---|
| main.go:228 | `getPage` refuses only `pageNum > TABLE_MAX_PAGES`, so page 100 passes and indexes past the 100-slot array | page 100, reached by a select at row 1400 on a table reopened with 1407 rows (`Session.FullTableReopen`) | refuse `pageNum >= TABLE_MAX_PAGES` with an out-of-range error, never a panic | not executed | StoreSpec.GuardAsWrittenPanics | StoreSpec.GuardAdmitsExactlyIndices |
| main.go:142 | `dbOpen` counts `fileLength / ROW_SIZE` rows, ignoring the 22 unused bytes at the end of each full page | 196 rows inserted into an empty file, closed and reopened: the 57344-byte file counts 197 rows; a full table reopens as 1407 rows | count 14 rows per full page plus the whole rows on the last page | not executed | Session.ReopenCountWritten | Persistence.RowCountOfLengthInverts |

The members that model `getPage`, `rowSlot`, `dbOpen` and the statements follow the code as written. They use the guard as written and `fileLength / ROW_SIZE`:

- `StoreSpec.GuardsAgreeBelowCapacity` shows that on the insert path both guards agree.
- `Session.CloseLengthWritten` shows that the corrected count `RowCountOfLength` recovers the number of rows from a closed session's file.
