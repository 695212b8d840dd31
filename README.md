# mini-db, modelled in Dafny

mini-db is a small storage engine over one flat file. The file holds
4096-byte pages and begins with a 20-byte header made of the magic "MDB1",
a version, the page size, the page count and flags. Table pages are leaf
pages: a 24-byte header, then a slot bitmap, then 128-byte record slots. A
command-line front end reads a field spec such as `id:0:4:u32,name:4:20:s`
that says how to print a record.

This project models the core of that engine and proves properties of the
model. It has six modules.

- `Endian` (endian.dfy) models the little-endian u16/u32 codec of
  src/endian_util.h. The reads are pure functions. The writes are methods
  that store bytes into a caller's `array<u8>`.
- `Pager` (pager.dfy) models src/pager.c.
  - `Pager` is a class whose fields are the file contents (`seq<u8>`), the
    page size and the page count.
  - `Open`, `Read`, `Write` and `AllocPage` are methods on that class.
  - `ValidateHeader` and `ErrStr` are pure functions.
  - Every failing system call is an explicit fault parameter. `Open` also
    returns the file contents it leaves behind, so a bootstrap that fails
    half-way is visible.
- `LeafPage` (table.dfy) models src/table.c and the slot API declared in
  src/table.h.
  - A page is an `array<u8>` of 4096 bytes, changed in place.
  - Every method's new page content is stated as a function of the old one,
    for example `FreshLeafBytes` and `WithSlot`.
  - The bodies of `tbl_validate`, `tbl_slot_find_free`,
    `tbl_slot_mark_used`/`_free` and `tbl_slot_ptr` are not in the source.
    Their Dafny bodies implement what the declarations in table.h:65-111
    and the assertions of tests/test_table.c state. Where those leave a
    choice, the model makes one, and the contracts state it:
    - `tbl_validate` reports E_BADKIND first, then E_LAYOUT, then E_BITMAP.
    - The slot markers refuse, with TABLE_E_INVAL, a bit that already has the
      requested value, as well as an index outside [0, capacity).
  - The `tbl_get_*` getters are the `Hdr*` reader functions.
- `LeafPageExamples` (table_examples.dfy) replays each scenario of
  tests/test_table.c on a fresh page. The values each test asserts are
  proved as postconditions.
- `TableManager` (table_manager.dfy) models `tblmgr_create` as
  src/table_manager.c implements it, which is not what its documentation
  promises.
  - table_manager.h:9-30 and tests/test_table_manager.c:84-85 say it formats
    or accepts the first page and returns TABLE_OK.
  - The code's two follow-up branches (table_manager.c:35-74) contain only
    comments, so every path returns TABLE_E_INVAL and no page is ever
    written.
  - The model proves this as-written behaviour. It also proves what the
    allocation loop does to the pager: the exact page count reached, and
    that the new pages are zero.
- `CliFormat` (cli_format.dfy) models `trim`, `parse_one_field`,
  `parse_spec` and `rd_u16le`/`rd_u32le` of src/cli_format.c.
  - Strings are `seq<char>`.
  - `strtok(.., ":")` is splitting on ':' and dropping empty tokens.
  - `strtol` plus its end-pointer check is "the whole token is one decimal
    integer".
  - A round trip is proved: the spec text printed from any 1..16
    well-formed fields parses back to exactly these fields.

Three points of the code are kept as they are.

- **Page count after a failed header write.** `pager_alloc_page` increments
  the in-memory page count (pager.c:276) before it persists the count.
  The header write can still fail (pager.c:279-283). The handle is then one
  page larger than the header says, and the model keeps this
  (`Pager.Pager.AllocPage`).
- **tblmgr_create.** As described above, the code never does what its
  documentation says.
- **Slot API errors.** table.h:44 declares TABLE_E_FULL. However, table.h:89
  and table.h:98 document only TABLE_E_INVAL for the slot markers. The model
  therefore returns TABLE_E_INVAL for every refused call.

C integer arithmetic is written out wherever it can matter. The
`(uint16_t)(len * 2)` of the hex column width wraps modulo 2^16, and the
`used_count ± 1` of the slot markers is a u16 update. The overflow guards of
the pager (pager.c:183-186, 226-227, 238-239, 258-262) are proved never to
fire, and so is the `TABLE_E_LAYOUT` return of `tbl_init_leaf`
(table.c:42-43).

## Model

| member | source | states |
|---|---|---|
| `Endian.ReadLeU16` | src/endian_util.h:11-14 | the value read has p[at] as its low byte and p[at+1] as its high byte (its partners are `ReadAfterPutU16` and `EncodeReadU16`) |
| `Endian.ReadLeU32` | src/endian_util.h:21-26 | the base-256 digits of the value read are p[at], p[at+1], p[at+2], p[at+3], least significant first (its partners are `ReadAfterPutU32` and `EncodeReadU32`) |
| `Endian.PutU16` | src/endian_util.h:33-36 | byte `at` becomes v mod 256, byte `at+1` becomes v div 256, all other bytes and the length stay the same |
| `Endian.PutU32` | src/endian_util.h:43-48 | bytes `at..at+4` become the four-byte encoding of v; all other bytes and the length stay the same |
| `Endian.WriteLeU16` | src/endian_util.h:33-36 | the buffer after the in-place write is `PutU16` of the old buffer |
| `Endian.WriteLeU32` | src/endian_util.h:43-48 | the buffer after the in-place write is `PutU32` of the old buffer |
| `Endian.ReadEncodeU16` | src/endian_util.h:11-36 | reading the two bytes written for any 16-bit v gives v back |
| `Endian.Base256Digits` | src/endian_util.h:21-26 | the four bytes of a 32-bit value p0 + 2^8·p1 + 2^16·p2 + 2^24·p3 are p0..p3 again, so the representation is unique |
| `Endian.ReadEncodeU32` | src/endian_util.h:21-48 | reading the four bytes written for any 32-bit v gives v back |
| `Endian.EncodeReadU16` | src/endian_util.h:11-36 | writing back the value read from two bytes reproduces those bytes, so the u16 codec is a bijection |
| `Endian.EncodeReadU32` | src/endian_util.h:21-48 | writing back the value read from four bytes reproduces those bytes, so the u32 codec is a bijection |
| `Endian.EncodeU32Byte` | src/endian_util.h:43-48 | byte i of write_le_u32(v) is (v >> 8i) & 0xFF, least significant byte first |
| `Endian.EncodeU16Byte` | src/endian_util.h:33-36 | byte i of write_le_u16(v) is (v >> 8i) & 0xFF |
| `Endian.ReadAfterPutU16` | src/endian_util.h:11-36 | read_le_u16 at an offset just written with v returns v, whatever the buffer held |
| `Endian.ReadAfterPutU32` | src/endian_util.h:21-48 | read_le_u32 at an offset just written with v returns v, whatever the buffer held |
| `Pager.Code` | src/pager.h:8-18 | error codes lie in -8..0, and only PAGER_OK is 0 |
| `Pager.ErrStr` | src/pager.c:323-336 | pager_errstr returns "unknown" exactly for integers outside the nine error codes |
| `Pager.ErrStrDistinguishes` | src/pager.c:323-336 | different errors have different codes and different names |
| `Pager.EncodeHeader` | src/pager.c:15-22 | an encoded header is 20 bytes and begins with "MDB1" |
| `Pager.ValidateHeader` | src/pager.c:90-113 | the checks run in a fixed order: bad magic gives E_MAGIC, then version ≠ 1 gives E_VERSION, then page size ≠ 4096 gives E_PAGESIZE, then page_count < 1 or flags ≠ 0 gives E_META; a header that passes all five checks is accepted with the stored page count, and an accepted header is well formed |
| `Pager.ReadEncodedField` | src/pager.c:98-101 | each u32 field of an encoded header reads back as the value encoded there |
| `Pager.ValidateEncodedHeader` | src/pager.c:95-112 | the encoding of a header validates to that same header exactly when the header is well formed |
| `Pager.ValidatedHeaderIsEncoding` | src/pager.c:95-112 | any 20 bytes that validate are exactly the encoding of the header they yield |
| `Pager.BootstrapFile` | src/pager.c:145-162 | the file made for an empty path is exactly one page long |
| `Pager.BootstrapFileContents` | src/pager.c:145-162 | that file is the header "MDB1",1,4096,1,0 followed by zeros, and its header validates with page_count 1 |
| `Pager.PageAt` | src/pager.c:229-231 | page n is the 4096 bytes starting at byte n·4096 |
| `Pager.ReadAfterWrite` | src/pager.c:219-247 | after page n is written, reading page n returns the bytes written |
| `Pager.WriteKeepsOtherPages` | src/pager.c:241-246 | writing page n leaves every other page unchanged |
| `Pager.AllocatedFile` | src/pager.c:264-283 | after a successful allocation with count n, the file holds at least n+1 pages |
| `Pager.AllocatedPageIsZero` | src/pager.c:264-271 | the newly allocated page reads as all zeros |
| `Pager.AllocKeepsDataPages` | src/pager.c:268-283 | allocation leaves the data pages 1..n-1 unchanged |
| `Pager.AllocPersistsCount` | src/pager.c:276-283 | allocation rewrites header bytes 12-15 with n+1, and a valid header stays valid with page_count n+1 |
| `Pager.GrownByStep` | src/pager.c:249-289 | one more successful allocation keeps the invariant: the pages past the old count are zero, the header holds the new count, and every other byte is unchanged |
| `Pager.Pager.constructor` | src/pager.c:201-205 | the handle holds the file, page size 4096 and the page count it was given |
| `Pager.OpenAndBootstrap` | src/pager.c:133-163 | an open or fstat failure leaves the file as it was; for an empty file, a failed header write leaves it empty, a failed ftruncate leaves the 20-byte header alone, and otherwise the file becomes the one-page bootstrap file; a non-empty file is never changed |
| `Pager.FailedTruncateLeavesShortFile` | src/pager.c:145-194 | the header left by a failed ftruncate is valid and says one page, but the file is shorter than 4096 bytes, so every later open fails with E_TRUNCATED |
| `Pager.Pager.Open` | src/pager.c:122-213 | each failing system call gives E_IO, in the order the calls are made; an empty file is bootstrapped and opens with page_count 1; a header error is returned as it was found; with a valid header, open fails with E_TRUNCATED exactly when the file is shorter than page_count·4096 and succeeds otherwise; a handle is returned exactly on success; `after` is the file left behind, including a half-done bootstrap |
| `Pager.Pager.Read` | src/pager.c:219-232 | NULL buffer gives E_INVAL; page_no ≥ page_count gives E_RANGE and leaves the buffer untouched; success happens exactly for an in-range page without an I/O fault, and then the buffer holds that page; E_META never happens |
| `Pager.Pager.Write` | src/pager.c:234-247 | NULL buffer gives E_INVAL; page_no ≥ page_count gives E_RANGE; success happens exactly for an in-range page without an I/O fault, and then exactly bytes [n·4096, (n+1)·4096) change; any failure leaves the file as it was; E_META never happens |
| `Pager.Pager.AllocPage` | src/pager.c:249-289 | at UINT32_MAX gives E_META and nothing changes; on success returns the old count, adds one to the count and gives `AllocatedFile`; a failed header write still leaves the count incremented and the zero page stored; a calloc or page-write failure changes nothing |
| `Pager.PagerPageSize` | src/pager.c:295-297 | 0 for NULL, 4096 for an open handle |
| `Pager.PagerPageCount` | src/pager.c:303-305 | 0 for NULL; for an open handle at least 1, and the file holds that many pages |
| `LeafPage.Code` | src/table.h:38-45 | table error codes lie in -5..0, and only TABLE_OK is 0 |
| `LeafPage.HdrKind` | src/table.c:63-66 | the page kind is the little-endian u16 in header bytes 0-1 (`HdrSetKind` writes it back) |
| `LeafPage.HdrRecordSize` | src/table.c:79-82 | hdr_record_size, and the tbl_get_record_size of table.h:118-121, is the u16 in header bytes 2-3 (`HdrSetRecordSize` writes it back) |
| `LeafPage.HdrCapacity` | src/table.c:95-98 | hdr_capacity, and the tbl_get_capacity of table.h:113-116, is the u16 in header bytes 4-5 (`HdrSetCapacity` writes it back) |
| `LeafPage.HdrUsedCount` | src/table.c:111-114 | hdr_used_count, and the tbl_get_used_count of table.h:123-126, is the u16 in header bytes 6-7 (`HdrSetUsedCount` writes it back) |
| `LeafPage.HdrNextPage` | src/table.c:127-130 | hdr_next_page, and the tbl_get_next_page of table.h:128-131, is the little-endian u32 in header bytes 8-11 (`HdrSetNextPage` writes it back) |
| `LeafPage.HdrSetKind` | src/table.c:71-74 | writes the kind as u16 at offset 0 and nothing else; hdr_kind then returns it |
| `LeafPage.HdrSetRecordSize` | src/table.c:87-90 | writes the record size at offset 2 and nothing else; hdr_record_size then returns it |
| `LeafPage.HdrSetCapacity` | src/table.c:103-106 | writes the capacity at offset 4 and nothing else; hdr_capacity then returns it |
| `LeafPage.HdrSetUsedCount` | src/table.c:119-122 | writes used_count at offset 6 and nothing else; hdr_used_count then returns it |
| `LeafPage.HdrSetNextPage` | src/table.c:135-138 | writes next_page as u32 at offset 8 and nothing else; hdr_next_page then returns it |
| `LeafPage.ClearReserved` | src/table.c:143-148 | bytes 12-23 become zero and every other byte stays |
| `LeafPage.HdrClearReserved` | src/table.c:143-148 | the page after the three in-place writes is `ClearReserved` of the old page |
| `LeafPage.BitmapSizeBytes` | src/table.c:179-181 | the result is ceil(capacity/8) |
| `LeafPage.DataOffset` | src/table.c:186-188 | the result is 24 + ceil(capacity/8) |
| `LeafPage.DataOffsetOf31` | src/table.c:179-188 | for capacity 31 the bitmap is 4 bytes and the data area starts at byte 28 |
| `LeafPage.WithBitBits` | src/table.h:31-33 | setting or clearing bit j of a byte changes bit j only |
| `LeafPage.ComputeCapacity` | src/table.c:10-33 | the result is the largest c ≥ 0 with 24 + ceil(c/8) + c·rs ≤ 4096, or 0 for rs ≤ 0 or rs > 4096 |
| `LeafPage.NothingFitsAbove` | src/table.c:19-31 | no count above the naive bound (4096-24)/rs fits, so the downward search starts high enough |
| `LeafPage.NoCapacityForLargeRecords` | src/table.c:14-17 | a record larger than 4071 bytes gets capacity 0 |
| `LeafPage.CapacityFor128` | src/table.c:10-33 | the capacity for 128-byte records is exactly 31 (24 + 4 + 31·128 = 3996 ≤ 4096) |
| `LeafPage.LayoutOkCapacity` | src/table.h:65-74 | a page whose header passes validation has capacity 31, its bitmap fits, and its data start at byte 28 |
| `LeafPage.Validate` | src/table.h:65-74 | returns TABLE_OK exactly for a valid leaf page; a wrong kind gives E_BADKIND; otherwise a wrong record size, capacity formula or used_count > capacity gives E_LAYOUT; on a page whose header passes, a popcount ≠ used_count or a set bit beyond capacity gives E_BITMAP (the order BADKIND, LAYOUT, BITMAP is the model's choice) |
| `LeafPage.FindFree` | src/table.h:76-82 | returns the lowest clear slot below capacity, and -1 exactly when every slot below capacity is used |
| `LeafPage.NextUsedCount` | src/table.h:84-100 | used_count goes up or down by exactly one, and wraps only at the ends of the u16 range (65535 + 1 is 0, 0 - 1 is 65535) |
| `LeafPage.SetBitmapBit` | src/table.h:31-33 | slot k's bit takes the requested value, and no byte other than the one holding that bit changes |
| `LeafPage.WithSlot` | src/table.h:84-100 | slot k's bit takes the requested value, every other slot bit stays, used_count changes by ±1, and no byte changes apart from used_count and slot k's bitmap byte |
| `LeafPage.MarkUsed` | src/table.h:84-91 | succeeds exactly for a clear slot below capacity, and the page becomes `WithSlot(old, idx, true)`; otherwise E_INVAL and the page is unchanged |
| `LeafPage.MarkFree` | src/table.h:93-100 | succeeds exactly for a used slot below capacity, and the page becomes `WithSlot(old, idx, false)`; otherwise E_INVAL and the page is unchanged |
| `LeafPage.SetSlot` | src/table.h:84-100 | the shared body of the two markers, with the same outcome for the requested bit value |
| `LeafPage.SlotPtr` | src/table.h:102-111 | None (NULL) exactly for idx outside [0, capacity); otherwise the slot idx of the data area, in steps of the V1 record size 128, which starts after the bitmap and ends within the capacity slots of the data area (`SlotWindows` proves that on a valid page these windows lie in the page and do not overlap) |
| `LeafPage.SlotWindows` | src/table.c:186-196 | on a valid page every slot window lies after the bitmap and inside the page, and two different slots do not overlap |
| `LeafPage.CountOneBitChanged` | src/table.h:68-69 | changing one bitmap bit changes the popcount by exactly that bit |
| `LeafPage.CountAllSet` | src/table.h:68-69 | the popcount of n bits is n exactly when all n bits are set |
| `LeafPage.CountClearTail` | src/table.h:69 | bits that are clear add nothing to the popcount |
| `LeafPage.FullIffAllUsed` | src/table.h:76-82 | on a valid page, every slot is used exactly when used_count equals capacity |
| `LeafPage.MarkUsedKeepsValid` | src/table.h:84-91 | marking a clear slot used keeps a valid page valid and adds exactly one to used_count |
| `LeafPage.MarkFreeKeepsValid` | src/table.h:93-100 | marking a used slot free keeps a valid page valid and takes exactly one from used_count |
| `LeafPage.FreshLeafBytes` | src/table.c:39-50 | the bytes tbl_init_leaf leaves: its writes, in order, over a zeroed page of 4096 bytes |
| `LeafPage.FreshLeafBytesIsFresh` | src/table.c:39-52 | those bytes say kind 1, record_size 128, capacity 31, used_count 0, next_page 0, and bytes 12..4095 are zero |
| `LeafPage.InitLeaf` | src/table.c:35-53 | succeeds exactly for a non-NULL page and record size 128, and the page then holds `FreshLeafBytes`; otherwise E_INVAL and the page is unchanged |
| `LeafPage.FreshLeafIsValid` | src/table.h:65-74 | a freshly initialised page is a valid leaf with no slot used |
| `LeafPageExamples.InitThenValidate` | tests/test_table.c:28-37 | init succeeds, validate then succeeds, and capacity is at least 1 |
| `LeafPageExamples.FindFreeBasic` | tests/test_table.c:39-56 | the first free slot is 0 on a fresh page, and 1 once slot 0 is taken |
| `LeafPageExamples.PopcountMismatch` | tests/test_table.c:58-69 | bits 0 and 1 set with used_count 1 gives E_BITMAP |
| `LeafPageExamples.ExtraBitsInLastByte` | tests/test_table.c:71-92 | the last bitmap byte has 7 valid bits, and setting bit 7 of it gives E_BITMAP |
| `LeafPageExamples.FullPage` | tests/test_table.c:94-118 | all 31 slot bits set with used_count 31 is valid, and find_free returns -1 |
| `TableManager.AllZero` | src/table_manager.c:27-33 | true exactly when every byte of the buffer is 0 |
| `TableManager.GrowTo` | src/table_manager.c:8-14 | the page count never shrinks; on success page first_page_num exists; without faults the loop succeeds exactly when first_page_num < UINT32_MAX, ends at count max(old, first_page_num+1) (UINT32_MAX when first_page_num is UINT32_MAX), and only appends zero pages and updates the header count |
| `TableManager.InspectPage` | src/table_manager.c:16-77 | whatever calloc, the read and the page contents give, the result is TABLE_E_INVAL |
| `TableManager.Create` | src/table_manager.c:4-78 | every call returns TABLE_E_INVAL; a NULL pager or page 0 changes nothing; otherwise, without allocation faults, the pager grows to the page count `GrowTo` states, and no other page is written |
| `TableManager.AllocatedPagesStayZero` | src/table_manager.c:8-14 | every page added by the loop is all zero afterwards and so is not a valid leaf |
| `CliFormat.Trim` | src/cli_format.c:7-13 | the result is the input without its leading and trailing spaces and tabs |
| `CliFormat.LeftCut` | src/cli_format.c:9-10 | the leading run that trim skips is all blanks and is followed by a non-blank |
| `CliFormat.RightCut` | src/cli_format.c:11-12 | the trailing run that trim cuts is all blanks and is preceded by a non-blank |
| `CliFormat.TrimmedShape` | src/cli_format.c:7-13 | trim gives a contiguous slice of the input with only blanks outside it and no blank at either end, so interior characters are preserved in order |
| `CliFormat.TrimmedUnchanged` | src/cli_format.c:7-13 | a string with no blank at either end is left as it is |
| `CliFormat.TrimmedIdempotent` | src/cli_format.c:7-13 | trimming twice is trimming once |
| `CliFormat.TrimmedKeepsOut` | src/cli_format.c:7-13 | trim adds no character that was not in the input |
| `CliFormat.TokenLen` | src/cli_format.c:59 | the offset strchr finds is at most the length |
| `CliFormat.TokenLenStops` | src/cli_format.c:59-60 | no separator occurs before that offset, and the character at it is the separator |
| `CliFormat.Tokens` | src/cli_format.c:16-19 | the tokens strtok yields are non-empty and hold no separator |
| `CliFormat.TokensOfJoin` | src/cli_format.c:16-19 | splitting the join of non-empty separator-free words gives those words back |
| `CliFormat.LeadingSpaces` | src/cli_format.c:27-28 | the white space strtol skips is followed by a non-space |
| `CliFormat.ParseLong` | src/cli_format.c:27-28 | an accepted token is white space, then a digit or sign, then only digits to its end, so strtol consumes it entirely; a plain digit string is accepted with its decimal value |
| `CliFormat.DigitsValueOfDecimal` | src/cli_format.c:27-28 | the value of the decimal digits of n is n |
| `CliFormat.ParseDecimal` | src/cli_format.c:27-28 | the decimal text of any n ≥ 0 parses to n |
| `CliFormat.ParseNegativeDecimal` | src/cli_format.c:27-29 | "-n" parses to -n, which the range check then refuses |
| `CliFormat.TypeNames` | src/cli_format.c:33-38 | exactly the five names s, hex, u8, u16, u32 are accepted, each mapped to its own type |
| `CliFormat.BaseWidth` | src/cli_format.c:42-48 | the type width is at most 32; for s it is min(len, 30); for hex with len < 32768 it is min(2·len, 32) |
| `CliFormat.HexWidthWraps` | src/cli_format.c:44 | `(uint16_t)(len * 2)` wraps, so hex fields of 32768 and 32769 bytes get widths 0 and 2 |
| `CliFormat.ColumnWidth` | src/cli_format.c:40-50 | colw is the larger of the name length and the type width, and never exceeds 40 |
| `CliFormat.FieldOf` | src/cli_format.c:15-52 | an accepted field has a name of 1..31 characters with no ':' and the computed column width |
| `CliFormat.ParseOneField` | src/cli_format.c:15-52 | returns exactly `FieldOf(part)`, whose branches are parse_one_field's checks in order: four tokens, name length, off and len decimal in 0..65535, type name |
| `CliFormat.ParseFieldText` | src/cli_format.c:15-52 | the text `name:off:len:type` of any well-formed field parses back to that field |
| `CliFormat.PartsCommaFree` | src/cli_format.c:59-60 | no part that parse_spec visits contains ',' |
| `CliFormat.JoinParts` | src/cli_format.c:57-71 | the parts, joined with ',', give back the spec, apart from one final ',' that nothing follows |
| `CliFormat.PartsOfJoin` | src/cli_format.c:57-71 | joining comma-free parts, the last one non-empty, and splitting again gives the same parts |
| `CliFormat.Truncated` | src/cli_format.c:63-64 | strncpy into buf[128] keeps at most 127 characters, and a shorter part whole |
| `CliFormat.PartsAdvance` | src/cli_format.c:57-70 | the text up to the next ',' is the next part of the spec after those already visited |
| `CliFormat.AllPartsRead` | src/cli_format.c:72 | once every part is read, a non-zero field count means the spec is accepted |
| `CliFormat.FieldsExtend` | src/cli_format.c:66-67 | appending a parsed part keeps the fields in step with the parts |
| `CliFormat.PartRejected` | src/cli_format.c:62-66 | a 17th part, or a part that is not a field, makes the spec rejected |
| `CliFormat.ParsePart` | src/cli_format.c:63-66 | the loop body truncates a part to 127 characters, trims it and parses it as one field |
| `CliFormat.ParseSpec` | src/cli_format.c:54-73 | returns 0 or -1; returns 0 exactly when the spec has 1..16 parts and each is a field, so an empty spec gives -1; the fields read are those of the leading parts, at most 16; on success there is one field per part |
| `CliFormat.FieldTextShape` | src/cli_format.c:63-65 | the text of a well-formed field is under 128 characters, has no ',' and survives truncation and trim |
| `CliFormat.ParseSpecText` | src/cli_format.c:54-73 | the spec text listing any 1..16 well-formed fields has one part per field, and each part parses to its field |
| `CliFormat.RdU16Le` | src/cli_format.c:75 | rd_u16le equals the endian codec's read_le_u16 |
| `CliFormat.RdU32Le` | src/cli_format.c:76 | rd_u32le equals the endian codec's read_le_u32 |

## Left out

- POSIX I/O (src/pager.c:40-84, 133-162, 196-212): the descriptor calls,
  `read_full`/`write_full` and their EINTR/short-transfer retry loops are
  replaced by an in-memory file. A failing call is one fault parameter, and
  a failing write is taken to store nothing (partial writes are not
  modelled).
- `Pager.Pager.Open`: at most one system call fails per call, and a
  failing write stores nothing. The NULL `path`/`out` guard
  (pager.c:128-129) is left out, since a Dafny value cannot be NULL; the
  failure result is "no handle".
- `pager_alloc_page`'s NULL `out_page_no` argument and `pager_read`/`pager_write`
  on a NULL pager: the methods are called on an existing object.
- `pager_close` (pager.c:310-314): it only releases the descriptor and memory.
- `LeafPage.FindFree`, `LeafPage.MarkUsed`, `LeafPage.MarkFree`: they require
  that the bitmap named by the stored capacity lies inside the buffer
  (`BitmapFits`). Their bodies are not part of the source, and table.h:76-100
  leaves a page whose stored capacity is corrupt unspecified.
- `LeafPage.Validate`: the body of `tbl_validate` is not part of the
  source, and table.h:65-74 gives no order of the checks. The model's
  order (kind, then header layout, then bitmap) is its own choice; there
  is no C implementation to compare it with for a page with several defects.
- The in-place memory effects of `trim` and `parse_spec` (the memmove, the
  NUL writes into the caller's buffer), and the partly filled `fs->f` array
  after a failure. The model returns the trimmed string and the fields read
  so far.
- `strtol` saturation at LONG_MIN/LONG_MAX: any value outside 0..65535 is
  refused by the range check that follows, so `ParseLong` keeps the exact
  value.
- `rd_u32le`'s `p[3] << 24`, which overflows a signed int for p[3] ≥ 128:
  the model takes the result modulo 2^32, which is what the cast to
  uint32_t gives on the usual compilers.
- Strings hold no NUL character; a NUL inside a spec would end it in C.
- The printing side of src/cli_format.c (`print_hr`, `print_header_spec`,
  `print_row_spec`, `print_footer_spec`, `scan_cb_listf`, `render_field`)
  and src/main.c are stdout formatting and argument handling.
- The intended `tblmgr_create` (initialise an all-zero page, accept an
  empty leaf) exists only in comments and documentation, so it is not
  modelled. `tblmgr_insert`, `tblmgr_scan`, `tblmgr_delete`,
  `tblmgr_validate_all` and record-ID packing have no implementation in the
  source, so there is nothing to model.
- tests/fixtures/make_fixtures.c only writes test files; the header cases it
  produces are those of `Pager.ValidateHeader`.
