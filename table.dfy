/**
 * The leaf page codec (src/table.h, src/table.c): one 4096-byte page holds a
 * 24-byte header, a slot bitmap of ceil(capacity/8) bytes and `capacity`
 * fixed-size record slots.
 *
 * Pages are `array<u8>` buffers changed in place; the functions read their
 * contents `page[..]`.  Bit k of bitmap byte j is slot 8*j + k, least
 * significant bit first, and a set bit means the slot is used.
 */
module LeafPage {

  import opened Endian

  datatype Option<T> = None | Some(value: T)

  // ---------------------------------------------------------------------------
  // Layout constants (table.h:17-29, table.c:5-7)
  // ---------------------------------------------------------------------------

  const TablePageSize: nat := 4096
  const LeafKind: u16 := 0x0001
  const RecordSize: u16 := 128
  const HdrSize: nat := 24

  const KindOff: nat := 0
  const RecordSizeOff: nat := 2
  const CapacityOff: nat := 4
  const UsedCountOff: nat := 6
  const NextPageOff: nat := 8
  const Reserved0Off: nat := 12
  const Reserved1Off: nat := 16
  const Reserved2Off: nat := 20

  // ---------------------------------------------------------------------------
  // Error codes (table.h:38-45)
  // ---------------------------------------------------------------------------

  datatype TableError = Ok | EInval | EBadKind | ELayout | EBitmap | EFull

  /** The integer value of each TableError constant. */
  function Code(e: TableError): (c: int)
    ensures -5 <= c <= 0
    ensures c == 0 <==> e == Ok
  {
    match e
    case Ok => 0
    case EInval => -1
    case EBadKind => -2
    case ELayout => -3
    case EBitmap => -4
    case EFull => -5
  }

  // ---------------------------------------------------------------------------
  // Header fields (table.c:60-148).  The tbl_get_* getters of table.h read
  // the same fields, so HdrCapacity, HdrRecordSize, HdrUsedCount and
  // HdrNextPage stand for them too.  Each reader names the little-endian
  // bytes of the 24-byte header that hold its field.
  // ---------------------------------------------------------------------------

  function HdrKind(pg: seq<u8>): (r: u16)
    requires |pg| >= HdrSize
    ensures r % 0x100 == pg[KindOff] && r / 0x100 == pg[KindOff + 1]
  {
    ReadLeU16(pg, KindOff)
  }

  function HdrRecordSize(pg: seq<u8>): (r: u16)
    requires |pg| >= HdrSize
    ensures r % 0x100 == pg[RecordSizeOff] && r / 0x100 == pg[RecordSizeOff + 1]
  {
    ReadLeU16(pg, RecordSizeOff)
  }

  function HdrCapacity(pg: seq<u8>): (r: u16)
    requires |pg| >= HdrSize
    ensures r % 0x100 == pg[CapacityOff] && r / 0x100 == pg[CapacityOff + 1]
  {
    ReadLeU16(pg, CapacityOff)
  }

  function HdrUsedCount(pg: seq<u8>): (r: u16)
    requires |pg| >= HdrSize
    ensures r % 0x100 == pg[UsedCountOff] && r / 0x100 == pg[UsedCountOff + 1]
  {
    ReadLeU16(pg, UsedCountOff)
  }

  function HdrNextPage(pg: seq<u8>): (r: u32)
    requires |pg| >= HdrSize
    ensures r % 0x100 == pg[NextPageOff] && r / 0x100 % 0x100 == pg[NextPageOff + 1]
    ensures r / 0x1_0000 % 0x100 == pg[NextPageOff + 2] && r / 0x100_0000 == pg[NextPageOff + 3]
  {
    ReadLeU32(pg, NextPageOff)
  }

  /** Reading a u16 field depends on its two bytes only. */
  lemma ReadU16Frame(s: seq<u8>, t: seq<u8>, at: nat)
    requires at + 2 <= |s| && at + 2 <= |t|
    requires s[at] == t[at] && s[at + 1] == t[at + 1]
    ensures ReadLeU16(s, at) == ReadLeU16(t, at)
  {
  }

  method HdrSetKind(page: array<u8>, v: u16)
    requires page.Length == TablePageSize
    modifies page
    ensures page[..] == PutU16(old(page[..]), KindOff, v)
    ensures HdrKind(page[..]) == v
  {
    WriteLeU16(page, KindOff, v);
    ReadAfterPutU16(old(page[..]), KindOff, v);
  }

  method HdrSetRecordSize(page: array<u8>, v: u16)
    requires page.Length == TablePageSize
    modifies page
    ensures page[..] == PutU16(old(page[..]), RecordSizeOff, v)
    ensures HdrRecordSize(page[..]) == v
  {
    WriteLeU16(page, RecordSizeOff, v);
    ReadAfterPutU16(old(page[..]), RecordSizeOff, v);
  }

  method HdrSetCapacity(page: array<u8>, v: u16)
    requires page.Length == TablePageSize
    modifies page
    ensures page[..] == PutU16(old(page[..]), CapacityOff, v)
    ensures HdrCapacity(page[..]) == v
  {
    WriteLeU16(page, CapacityOff, v);
    ReadAfterPutU16(old(page[..]), CapacityOff, v);
  }

  method HdrSetUsedCount(page: array<u8>, v: u16)
    requires page.Length == TablePageSize
    modifies page
    ensures page[..] == PutU16(old(page[..]), UsedCountOff, v)
    ensures HdrUsedCount(page[..]) == v
  {
    WriteLeU16(page, UsedCountOff, v);
    ReadAfterPutU16(old(page[..]), UsedCountOff, v);
  }

  method HdrSetNextPage(page: array<u8>, v: u32)
    requires page.Length == TablePageSize
    modifies page
    ensures page[..] == PutU32(old(page[..]), NextPageOff, v)
    ensures HdrNextPage(page[..]) == v
  {
    WriteLeU32(page, NextPageOff, v);
    ReadAfterPutU32(old(page[..]), NextPageOff, v);
  }

  /** The page with the three reserved header words (bytes 12-23) zeroed. */
  function ClearReserved(pg: seq<u8>): (r: seq<u8>)
    requires |pg| == TablePageSize
    ensures |r| == TablePageSize
    ensures forall i :: Reserved0Off <= i < HdrSize ==> r[i] == 0
    ensures forall i :: 0 <= i < |pg| && !(Reserved0Off <= i < HdrSize) ==> r[i] == pg[i]
  {
    assert EncodeU32(0) == [0, 0, 0, 0];
    PutU32(PutU32(PutU32(pg, Reserved0Off, 0), Reserved1Off, 0), Reserved2Off, 0)
  }

  /** hdr_clear_reserved: header bytes 12-23 become zero, nothing else changes. */
  method HdrClearReserved(page: array<u8>)
    requires page.Length == TablePageSize
    modifies page
    ensures page[..] == ClearReserved(old(page[..]))
  {
    WriteLeU32(page, Reserved0Off, 0);
    WriteLeU32(page, Reserved1Off, 0);
    WriteLeU32(page, Reserved2Off, 0);
  }

  // ---------------------------------------------------------------------------
  // Bitmap and data area (table.c:154-204)
  // ---------------------------------------------------------------------------

  /** bitmap_size_bytes: ceil(capacity / 8). */
  function BitmapSizeBytes(capacity: u16): (r: nat)
    ensures 8 * r >= capacity as int && 8 * r < capacity as int + 8
  {
    (capacity as int + 7) / 8
  }

  /**
   * data_offset: records start right after the header and a bitmap of
   * ceil(capacity / 8) bytes.  data_ptr is the page address plus this offset.
   */
  function DataOffset(capacity: u16): (r: nat)
    ensures r >= HdrSize
    ensures 8 * (r - HdrSize) >= capacity as int && 8 * (r - HdrSize) < capacity as int + 8
  {
    HdrSize + BitmapSizeBytes(capacity)
  }

  /** With capacity 31 the data area starts at byte 28. */
  lemma DataOffsetOf31()
    ensures BitmapSizeBytes(31) == 4 && DataOffset(31) == 28
  {
  }

  /** Bit j of a byte, counting from the least significant bit. */
  predicate Bit(b: nat, j: nat)
    decreases j
  {
    if j == 0 then b % 2 == 1 else Bit(b / 2, j - 1)
  }

  /** The byte b with bit j set (on) or cleared (off): `b | (1 << j)` or `b & ~(1 << j)`. */
  function WithBit(b: nat, j: nat, on: bool): nat
    decreases j
  {
    if j == 0 then b / 2 * 2 + (if on then 1 else 0) else 2 * WithBit(b / 2, j - 1, on) + b % 2
  }

  /** Changing bit j changes that bit only. */
  lemma {:induction false} WithBitBits(b: nat, j: nat, on: bool, i: nat)
    ensures Bit(WithBit(b, j, on), i) == if i == j then on else Bit(b, i)
    decreases j
  {
    if j == 0 {
      if i > 0 {
        assert WithBit(b, j, on) / 2 == b / 2;
      }
    } else {
      assert WithBit(b, j, on) / 2 == WithBit(b / 2, j - 1, on);
      if i > 0 {
        WithBitBits(b / 2, j - 1, on, i - 1);
      }
    }
  }

  /** Changing a bit below bit 8 keeps a byte a byte. */
  lemma {:induction false} WithBitBound(b: nat, j: nat, on: bool, k: nat)
    requires j < k && b < Pow2(k)
    ensures WithBit(b, j, on) < Pow2(k)
    decreases j
  {
    assert Pow2(k) == 2 * Pow2(k - 1);
    assert b / 2 < Pow2(k - 1);
    if j > 0 {
      WithBitBound(b / 2, j - 1, on, k - 1);
    }
  }

  function Pow2(k: nat): (r: nat)
    ensures r >= 1
  {
    if k == 0 then 1 else 2 * Pow2(k - 1)
  }

  /** No bit of a zero byte is set. */
  lemma {:induction false} ZeroHasNoBits(j: nat)
    ensures !Bit(0, j)
  {
    if j > 0 {
      ZeroHasNoBits(j - 1);
    }
  }

  /** Whether slot k's bit is set in the bitmap. */
  predicate SlotUsed(pg: seq<u8>, k: nat)
    requires HdrSize + k / 8 < |pg|
  {
    Bit(pg[HdrSize + k / 8], k % 8)
  }

  /** Number of bitmap bits a page of this size can hold. */
  function BitCapacity(pg: seq<u8>): nat
  {
    if |pg| <= HdrSize then 0 else 8 * (|pg| - HdrSize)
  }

  /** Population count of bitmap bits 0..n-1. */
  function CountUsed(pg: seq<u8>, n: nat): (r: nat)
    requires n <= BitCapacity(pg)
    ensures r <= n
  {
    if n == 0 then 0 else CountUsed(pg, n - 1) + (if SlotUsed(pg, n - 1) then 1 else 0)
  }

  /** The bitmap lies inside the page buffer. */
  predicate BitmapFits(pg: seq<u8>)
  {
    |pg| == TablePageSize && DataOffset(HdrCapacity(pg)) <= TablePageSize
  }

  // ---------------------------------------------------------------------------
  // Capacity (table.c:10-33)
  // ---------------------------------------------------------------------------

  /** c slots of rs bytes fit in a page together with the header and their bitmap. */
  ghost predicate Fits(c: int, rs: int)
  {
    HdrSize + (c + 7) / 8 + c * rs <= TablePageSize
  }

  /**
   * c is the capacity for record size rs: 0 for a non-positive size, else
   * the largest count that fits (0 when not even one record fits).
   */
  ghost predicate IsCapacityFor(c: int, rs: int)
  {
    if rs <= 0 then c == 0
    else 0 <= c && (c == 0 || Fits(c, rs)) && forall k :: k > c ==> !Fits(k, rs)
  }

  lemma MulMono(a: int, b: int, m: int)
    requires a <= b && m >= 0
    ensures a * m <= b * m
  {
  }

  /** Fewer records fit whenever more do. */
  lemma FitsMono(j: int, k: int, rs: int)
    requires 0 <= j <= k && rs > 0 && Fits(k, rs)
    ensures Fits(j, rs)
  {
    MulMono(j, k, rs);
  }

  /** No count above (4096 - 24) / rs fits. */
  lemma NothingFitsAboveGuess(rs: int, k: int)
    requires rs > 0 && k > (TablePageSize - HdrSize) / rs
    ensures !Fits(k, rs)
  {
    var q := (TablePageSize - HdrSize) / rs;
    assert TablePageSize - HdrSize < (q + 1) * rs;
    MulMono(q + 1, k, rs);
  }

  /** compute_capacity: counts down from the naive bound until the bitmap fits too. */
  method ComputeCapacity(recordSize: int) returns (c: int)
    ensures IsCapacityFor(c, recordSize)
  {
    if recordSize <= 0 || recordSize > TablePageSize {
      return 0;
    }
    var available := TablePageSize - HdrSize;
    if available < recordSize {
      NothingFitsAbove(recordSize, 0);
      return 0;
    }
    var guess := available / recordSize;
    // guess <= 0 cannot happen here, so table.c:21-22 never returns
    assert guess > 0;
    NothingFitsAbove(recordSize, guess);
    c := guess;
    while c > 0
      invariant 0 <= c <= guess
      invariant forall k :: k > c ==> !Fits(k, recordSize)
    {
      var bitmapBytes := (c + 7) / 8;
      var total := HdrSize + bitmapBytes + c * recordSize;
      if total <= TablePageSize {
        return c;
      }
      c := c - 1;
    }
  }

  /** No count above (4096 - 24) / rs fits, nor any count at all when rs > 4072. */
  lemma NothingFitsAbove(rs: int, c: int)
    requires rs > 0 && c >= 0 && c >= (TablePageSize - HdrSize) / rs
    ensures forall k :: k > c ==> !Fits(k, rs)
  {
    forall k | k > c
      ensures !Fits(k, rs)
    {
      NothingFitsAboveGuess(rs, k);
    }
  }

  /** A record of more than 4071 bytes leaves no room for a slot and its bitmap byte. */
  lemma NoCapacityForLargeRecords(c: int, rs: int)
    requires IsCapacityFor(c, rs) && rs > TablePageSize - HdrSize - 1
    ensures c == 0
  {
    if c != 0 {
      MulMono(1, c, rs);
    }
  }

  /** The only capacity for 128-byte records is 31: 24 + 4 + 31 * 128 = 3996 <= 4096. */
  lemma CapacityFor128(c: int)
    ensures IsCapacityFor(c, 128) <==> c == 31
  {
    assert Fits(31, 128);
    assert !Fits(32, 128);
    if c == 31 {
      forall k | k > 31
        ensures !Fits(k, 128)
      {
        if Fits(k, 128) {
          FitsMono(32, k, 128);
        }
      }
    }
    if IsCapacityFor(c, 128) {
      assert c <= 31;
    }
  }

  // ---------------------------------------------------------------------------
  // Page invariants (table.h:65-74)
  // ---------------------------------------------------------------------------

  /** Header checks of tbl_validate: kind, record size, capacity formula, used count. */
  ghost predicate LayoutOk(pg: seq<u8>)
    requires |pg| == TablePageSize
  {
    && HdrKind(pg) == LeafKind
    && HdrRecordSize(pg) == RecordSize
    && IsCapacityFor(HdrCapacity(pg) as int, HdrRecordSize(pg) as int)
    && HdrCapacity(pg) >= 1
    && HdrUsedCount(pg) <= HdrCapacity(pg)
    && DataOffset(HdrCapacity(pg)) + HdrCapacity(pg) as int * HdrRecordSize(pg) as int <= TablePageSize
  }

  /** Some bit at an index >= capacity in the bitmap's last byte is set. */
  ghost predicate ExtraBitSet(pg: seq<u8>)
    requires BitmapFits(pg)
  {
    exists k :: HdrCapacity(pg) as int <= k < 8 * BitmapSizeBytes(HdrCapacity(pg)) && SlotUsed(pg, k)
  }

  /** All invariants a leaf page must satisfy. */
  ghost predicate ValidLeaf(pg: seq<u8>)
    requires |pg| == TablePageSize
  {
    && LayoutOk(pg)
    && CountUsed(pg, 8 * BitmapSizeBytes(HdrCapacity(pg))) == HdrUsedCount(pg) as int
    && !ExtraBitSet(pg)
  }

  lemma LayoutOkCapacity(pg: seq<u8>)
    requires |pg| == TablePageSize && LayoutOk(pg)
    ensures HdrCapacity(pg) == 31 && BitmapFits(pg) && DataOffset(HdrCapacity(pg)) == 28
  {
    CapacityFor128(HdrCapacity(pg) as int);
  }

  /**
   * tbl_validate.  A wrong kind gives TABLE_E_BADKIND, a header whose record
   * size, capacity or used count is off gives TABLE_E_LAYOUT, and a bitmap
   * whose popcount differs from used_count or that has a bit set beyond
   * capacity gives TABLE_E_BITMAP.
   */
  method Validate(page: array<u8>) returns (rc: TableError)
    requires page.Length == TablePageSize
    ensures rc == Ok <==> ValidLeaf(page[..])
    ensures HdrKind(page[..]) != LeafKind ==> rc == EBadKind
    ensures HdrKind(page[..]) == LeafKind && !LayoutOk(page[..]) ==> rc == ELayout
    ensures LayoutOk(page[..]) && BitmapFits(page[..])
            && CountUsed(page[..], 8 * BitmapSizeBytes(HdrCapacity(page[..]))) != HdrUsedCount(page[..]) as int
            ==> rc == EBitmap
    ensures LayoutOk(page[..]) && BitmapFits(page[..]) && ExtraBitSet(page[..]) ==> rc == EBitmap
  {
    var pg := page[..];
    if HdrKind(pg) != LeafKind {
      return EBadKind;
    }
    var rs := HdrRecordSize(pg);
    if rs != RecordSize {
      return ELayout;
    }
    var cap := HdrCapacity(pg);
    var expected := ComputeCapacity(rs as int);
    CapacityFor128(expected);
    CapacityFor128(cap as int);
    if cap as int != expected {
      return ELayout;
    }
    var used := HdrUsedCount(pg);
    if used > cap {
      return ELayout;
    }
    var bmBytes := BitmapSizeBytes(cap);
    // with capacity 31 the layout always fits, so this check of the header
    // declaration never fails
    assert DataOffset(cap) + cap as int * rs as int <= TablePageSize;
    var bits := 8 * bmBytes;
    var count := 0;
    var extra := false;
    var k := 0;
    while k < bits
      invariant 0 <= k <= bits
      invariant count == CountUsed(pg, k)
      invariant extra <==> exists j :: cap as int <= j < k && SlotUsed(pg, j)
    {
      if SlotUsed(pg, k) {
        count := count + 1;
        if k >= cap as int {
          extra := true;
        }
      }
      k := k + 1;
    }
    if count != used as int {
      return EBitmap;
    }
    if extra {
      return EBitmap;
    }
    rc := Ok;
  }

  // ---------------------------------------------------------------------------
  // Slot allocation (table.h:76-111)
  // ---------------------------------------------------------------------------

  /** tbl_slot_find_free: the lowest clear slot below capacity, or -1 when there is none. */
  method FindFree(page: array<u8>) returns (idx: int)
    requires BitmapFits(page[..])
    ensures -1 <= idx < HdrCapacity(page[..]) as int
    ensures idx == -1 <==> forall k :: 0 <= k < HdrCapacity(page[..]) as int ==> SlotUsed(page[..], k)
    ensures idx >= 0 ==> !SlotUsed(page[..], idx) && forall k :: 0 <= k < idx ==> SlotUsed(page[..], k)
  {
    var pg := page[..];
    var cap := HdrCapacity(pg) as int;
    var k := 0;
    while k < cap
      invariant 0 <= k <= cap
      invariant forall j :: 0 <= j < k ==> SlotUsed(pg, j)
    {
      if !SlotUsed(pg, k) {
        return k;
      }
      k := k + 1;
    }
    idx := -1;
  }

  /**
   * used_count after one more (on) or one fewer (off) used slot, as the
   * uint16_t increment or decrement: one step up or down, wrapping only at
   * the ends of the 16-bit range.
   */
  function NextUsedCount(used: u16, on: bool): (r: u16)
    ensures on && used < 0xFFFF ==> r == used + 1
    ensures on && used == 0xFFFF ==> r == 0
    ensures !on && used > 0 ==> r == used - 1
    ensures !on && used == 0 ==> r == 0xFFFF
  {
    if on then (used + 1) % 0x1_0000 else (used + 0xFFFF) % 0x1_0000
  }

  /** The page with slot k's bit set (on) or cleared (off) and no other byte changed. */
  function SetBitmapBit(pg: seq<u8>, k: nat, on: bool): (r: seq<u8>)
    requires BitmapFits(pg) && k < HdrCapacity(pg) as int
    ensures |r| == |pg|
    ensures SlotUsed(r, k) == on
    ensures forall i :: 0 <= i < |pg| && i != HdrSize + k / 8 ==> r[i] == pg[i]
  {
    var at := HdrSize + k / 8;
    WithBitBound(pg[at], k % 8, on, 8);
    WithBitBits(pg[at], k % 8, on, k % 8);
    pg[at := WithBit(pg[at], k % 8, on)]
  }

  /**
   * The page after slot k's bit is set (on) or cleared (off) and used_count
   * is incremented or decremented as a u16.
   */
  function WithSlot(pg: seq<u8>, k: nat, on: bool): (r: seq<u8>)
    requires BitmapFits(pg) && k < HdrCapacity(pg) as int
    ensures |r| == |pg|
    ensures SlotUsed(r, k) == on
    ensures forall j :: 0 <= j < BitCapacity(pg) && j != k ==> SlotUsed(r, j) == SlotUsed(pg, j)
    ensures HdrUsedCount(r) as int == if on then (HdrUsedCount(pg) as int + 1) % 0x1_0000
                                      else (HdrUsedCount(pg) as int + 0xFFFF) % 0x1_0000
    ensures forall i :: 0 <= i < |pg| && i != UsedCountOff && i != UsedCountOff + 1 && i != HdrSize + k / 8 ==> r[i] == pg[i]
    ensures HdrKind(r) == HdrKind(pg) && HdrRecordSize(r) == HdrRecordSize(pg)
    ensures HdrCapacity(r) == HdrCapacity(pg) && HdrNextPage(r) == HdrNextPage(pg)
  {
    var at := HdrSize + k / 8;
    var bm := SetBitmapBit(pg, k, on);
    var used := NextUsedCount(HdrUsedCount(pg), on);
    var r := PutU16(bm, UsedCountOff, used);
    WithBitBits(pg[at], k % 8, on, k % 8);
    assert SlotUsed(r, k) == on;
    forall j | 0 <= j < BitCapacity(pg) && j != k
      ensures SlotUsed(r, j) == SlotUsed(pg, j)
    {
      if j / 8 == k / 8 {
        WithBitBits(pg[at], k % 8, on, j % 8);
      }
    }
    ReadAfterPutU16(bm, UsedCountOff, used);
    r
  }

  /** tbl_slot_mark_used: sets a clear slot's bit and increments used_count. */
  method MarkUsed(page: array<u8>, idx: int) returns (rc: TableError)
    requires BitmapFits(page[..])
    modifies page
    ensures rc == Ok <==> 0 <= idx < HdrCapacity(old(page[..])) as int && !SlotUsed(old(page[..]), idx)
    ensures rc != Ok ==> rc == EInval && page[..] == old(page[..])
    ensures rc == Ok ==> page[..] == WithSlot(old(page[..]), idx, true)
  {
    rc := SetSlot(page, idx, true);
  }

  /** tbl_slot_mark_free: clears a used slot's bit and decrements used_count. */
  method MarkFree(page: array<u8>, idx: int) returns (rc: TableError)
    requires BitmapFits(page[..])
    modifies page
    ensures rc == Ok <==> 0 <= idx < HdrCapacity(old(page[..])) as int && SlotUsed(old(page[..]), idx)
    ensures rc != Ok ==> rc == EInval && page[..] == old(page[..])
    ensures rc == Ok ==> page[..] == WithSlot(old(page[..]), idx, false)
  {
    rc := SetSlot(page, idx, false);
  }

  /** The common body of MarkUsed and MarkFree. */
  method SetSlot(page: array<u8>, idx: int, on: bool) returns (rc: TableError)
    requires BitmapFits(page[..])
    modifies page
    ensures rc == Ok <==> 0 <= idx < HdrCapacity(old(page[..])) as int && SlotUsed(old(page[..]), idx) != on
    ensures rc != Ok ==> rc == EInval && page[..] == old(page[..])
    ensures rc == Ok ==> page[..] == WithSlot(old(page[..]), idx, on)
  {
    var pg := page[..];
    if idx < 0 || idx >= HdrCapacity(pg) as int {
      return EInval;
    }
    if SlotUsed(pg, idx) == on {
      return EInval;
    }
    var at := HdrSize + idx / 8;
    WithBitBound(pg[at], idx % 8, on, 8);
    page[at] := WithBit(pg[at], idx % 8, on);
    assert page[..] == SetBitmapBit(pg, idx, on);
    HdrSetUsedCount(page, NextUsedCount(HdrUsedCount(pg), on));
    rc := Ok;
  }

  /**
   * tbl_slot_ptr: the byte offset of slot idx inside the page, or None
   * (NULL) when idx is outside [0, capacity).  Slots follow each other from
   * the start of the data area in steps of the record size, so slot idx
   * lies after the bitmap and inside the capacity slots of the data area.
   */
  function SlotPtr(pg: seq<u8>, idx: int): (r: Option<nat>)
    requires |pg| >= HdrSize
    ensures r.Some? <==> 0 <= idx < HdrCapacity(pg) as int
    ensures r.Some? ==> var start := DataOffset(HdrCapacity(pg));
      start <= r.value && (r.value - start) % RecordSize as int == 0 && (r.value - start) / RecordSize as int == idx
    ensures r.Some? ==> HdrSize + BitmapSizeBytes(HdrCapacity(pg)) <= r.value
    ensures r.Some? ==> r.value + RecordSize as int <= DataOffset(HdrCapacity(pg)) + HdrCapacity(pg) as int * RecordSize as int
  {
    if 0 <= idx < HdrCapacity(pg) as int then Some(DataOffset(HdrCapacity(pg)) + idx * RecordSize as int) else None
  }

  /**
   * On a valid page every slot window lies inside the page after the bitmap,
   * and the windows of two different slots do not overlap.
   */
  lemma SlotWindows(pg: seq<u8>, i: int, j: int)
    requires |pg| == TablePageSize && ValidLeaf(pg)
    requires 0 <= i < j < HdrCapacity(pg) as int
    ensures SlotPtr(pg, i).Some? && SlotPtr(pg, j).Some?
    ensures HdrSize + BitmapSizeBytes(HdrCapacity(pg)) <= SlotPtr(pg, i).value
    ensures SlotPtr(pg, i).value + RecordSize as int <= SlotPtr(pg, j).value
    ensures SlotPtr(pg, j).value + RecordSize as int <= TablePageSize
  {
    LayoutOkCapacity(pg);
    MulMono(i + 1, j, RecordSize as int);
    MulMono(j + 1, 31, RecordSize as int);
  }

  // ---------------------------------------------------------------------------
  // Counting lemmas
  // ---------------------------------------------------------------------------

  /** Two bitmaps that differ in bit k only differ in popcount by that bit. */
  lemma {:induction false} CountOneBitChanged(pg: seq<u8>, pg2: seq<u8>, k: nat, n: nat)
    requires n <= BitCapacity(pg) && n <= BitCapacity(pg2) && k < n
    requires forall j :: 0 <= j < n && j != k ==> SlotUsed(pg2, j) == SlotUsed(pg, j)
    ensures CountUsed(pg2, n) + (if SlotUsed(pg, k) then 1 else 0) == CountUsed(pg, n) + (if SlotUsed(pg2, k) then 1 else 0)
  {
    if n - 1 == k {
      CountSame(pg, pg2, k);
    } else {
      CountOneBitChanged(pg, pg2, k, n - 1);
    }
  }

  /** Bitmaps that agree on bits 0..n-1 have the same popcount there. */
  lemma {:induction false} CountSame(pg: seq<u8>, pg2: seq<u8>, n: nat)
    requires n <= BitCapacity(pg) && n <= BitCapacity(pg2)
    requires forall j :: 0 <= j < n ==> SlotUsed(pg2, j) == SlotUsed(pg, j)
    ensures CountUsed(pg2, n) == CountUsed(pg, n)
  {
    if n > 0 {
      CountSame(pg, pg2, n - 1);
    }
  }

  /** Popcount of n bits is n exactly when all n bits are set. */
  lemma {:induction false} CountAllSet(pg: seq<u8>, n: nat)
    requires n <= BitCapacity(pg)
    ensures CountUsed(pg, n) == n <==> forall j :: 0 <= j < n ==> SlotUsed(pg, j)
  {
    if n > 0 {
      CountAllSet(pg, n - 1);
    }
  }

  /** Bits at or above m that are all clear add nothing to the popcount. */
  lemma {:induction false} CountClearTail(pg: seq<u8>, m: nat, n: nat)
    requires m <= n <= BitCapacity(pg)
    requires forall j :: m <= j < n ==> !SlotUsed(pg, j)
    ensures CountUsed(pg, n) == CountUsed(pg, m)
  {
    if n > m {
      CountClearTail(pg, m, n - 1);
    }
  }

  /**
   * On a valid page, every slot below capacity is used exactly when
   * used_count equals capacity, so tbl_slot_find_free returns -1 exactly on
   * a full page.
   */
  lemma FullIffAllUsed(pg: seq<u8>)
    requires |pg| == TablePageSize && ValidLeaf(pg)
    ensures (forall k :: 0 <= k < HdrCapacity(pg) as int ==> SlotUsed(pg, k)) <==> HdrUsedCount(pg) == HdrCapacity(pg)
  {
    LayoutOkCapacity(pg);
    var cap := HdrCapacity(pg) as int;
    var bits := 8 * BitmapSizeBytes(HdrCapacity(pg));
    CountClearTail(pg, cap, bits);
    CountAllSet(pg, cap);
  }

  /** Changing one slot keeps the header checks when used_count stays within capacity. */
  lemma WithSlotKeepsLayout(pg: seq<u8>, k: nat, on: bool)
    requires |pg| == TablePageSize && LayoutOk(pg) && BitmapFits(pg) && k < HdrCapacity(pg) as int
    requires HdrUsedCount(WithSlot(pg, k, on)) <= HdrCapacity(pg)
    ensures LayoutOk(WithSlot(pg, k, on))
  {
  }

  /** Changing a slot below capacity sets no bit past capacity. */
  lemma WithSlotKeepsTail(pg: seq<u8>, k: nat, on: bool)
    requires BitmapFits(pg) && k < HdrCapacity(pg) as int && !ExtraBitSet(pg)
    ensures !ExtraBitSet(WithSlot(pg, k, on))
  {
    var r := WithSlot(pg, k, on);
    forall j | HdrCapacity(r) as int <= j < 8 * BitmapSizeBytes(HdrCapacity(r))
      ensures !SlotUsed(r, j)
    {
      assert !SlotUsed(pg, j);
    }
  }

  /** Marking a free slot used on a valid page keeps it valid and adds one to used_count. */
  lemma MarkUsedKeepsValid(pg: seq<u8>, k: nat)
    requires |pg| == TablePageSize && ValidLeaf(pg)
    requires k < HdrCapacity(pg) as int && !SlotUsed(pg, k)
    ensures BitmapFits(pg)
    ensures ValidLeaf(WithSlot(pg, k, true))
    ensures HdrUsedCount(WithSlot(pg, k, true)) == HdrUsedCount(pg) + 1
  {
    LayoutOkCapacity(pg);
    var r := WithSlot(pg, k, true);
    assert HdrUsedCount(pg) < HdrCapacity(pg) by {
      FullIffAllUsed(pg);
    }
    assert HdrUsedCount(r) == HdrUsedCount(pg) + 1;
    WithSlotKeepsLayout(pg, k, true);
    WithSlotKeepsTail(pg, k, true);
    var bits := 8 * BitmapSizeBytes(HdrCapacity(pg));
    assert CountUsed(r, bits) == CountUsed(pg, bits) + 1 by {
      CountOneBitChanged(pg, r, k, bits);
    }
  }

  /** Marking a used slot free on a valid page keeps it valid and takes one from used_count. */
  lemma MarkFreeKeepsValid(pg: seq<u8>, k: nat)
    requires |pg| == TablePageSize && ValidLeaf(pg)
    requires k < HdrCapacity(pg) as int && SlotUsed(pg, k)
    ensures BitmapFits(pg)
    ensures ValidLeaf(WithSlot(pg, k, false))
    ensures HdrUsedCount(WithSlot(pg, k, false)) == HdrUsedCount(pg) - 1
  {
    LayoutOkCapacity(pg);
    var r := WithSlot(pg, k, false);
    var bits := 8 * BitmapSizeBytes(HdrCapacity(pg));
    assert CountUsed(r, bits) + 1 == CountUsed(pg, bits) by {
      CountOneBitChanged(pg, r, k, bits);
    }
    assert HdrUsedCount(pg) >= 1;
    assert HdrUsedCount(r) == HdrUsedCount(pg) - 1;
    WithSlotKeepsLayout(pg, k, false);
    WithSlotKeepsTail(pg, k, false);
  }

  // ---------------------------------------------------------------------------
  // Initialisation (table.c:35-53)
  // ---------------------------------------------------------------------------

  /** A page as tbl_init_leaf leaves it. */
  ghost predicate IsFreshLeaf(pg: seq<u8>)
  {
    && |pg| == TablePageSize
    && HdrKind(pg) == LeafKind
    && HdrRecordSize(pg) == RecordSize
    && HdrCapacity(pg) == 31
    && HdrUsedCount(pg) == 0
    && HdrNextPage(pg) == 0
    && forall i :: Reserved0Off <= i < TablePageSize ==> pg[i] == 0
  }

  /** The bytes tbl_init_leaf leaves in the page: its writes, in its order, over a zeroed page. */
  function FreshLeafBytes(): (pg: seq<u8>)
    ensures |pg| == TablePageSize
  {
    var z := Zeros(TablePageSize);
    var withKind := PutU16(z, KindOff, LeafKind);
    var withSize := PutU16(withKind, RecordSizeOff, RecordSize);
    var withCap := PutU16(withSize, CapacityOff, 31);
    var withUsed := PutU16(withCap, UsedCountOff, 0);
    var withNext := PutU32(withUsed, NextPageOff, 0);
    ClearReserved(withNext)
  }

  /** Those bytes hold the header of a fresh leaf and zero everywhere past the header fields. */
  lemma FreshLeafBytesIsFresh()
    ensures IsFreshLeaf(FreshLeafBytes())
  {
    var z := Zeros(TablePageSize);
    var withKind := PutU16(z, KindOff, LeafKind);
    var withSize := PutU16(withKind, RecordSizeOff, RecordSize);
    var withCap := PutU16(withSize, CapacityOff, 31);
    var withUsed := PutU16(withCap, UsedCountOff, 0);
    var withNext := PutU32(withUsed, NextPageOff, 0);
    var pg := ClearReserved(withNext);
    ReadAfterPutU16(z, KindOff, LeafKind);
    ReadAfterPutU16(withKind, RecordSizeOff, RecordSize);
    ReadAfterPutU16(withSize, CapacityOff, 31);
    ReadAfterPutU16(withCap, UsedCountOff, 0);
    ReadAfterPutU32(withUsed, NextPageOff, 0);
    ReadU16Frame(pg, withKind, KindOff);
    ReadU16Frame(pg, withSize, RecordSizeOff);
    ReadU16Frame(pg, withCap, CapacityOff);
    ReadU16Frame(pg, withUsed, UsedCountOff);
    assert HdrNextPage(pg) == HdrNextPage(withNext);
    forall i | Reserved0Off <= i < TablePageSize
      ensures pg[i] == 0
    {
      if i >= HdrSize {
        assert pg[i] == z[i];
      }
    }
  }

  /**
   * tbl_init_leaf: with record size 128, zeroes the page and writes
   * kind 1, record size 128, capacity 31, used count 0, next page 0 and
   * zero reserved words; with any other size (or a NULL page) it changes
   * nothing and returns TABLE_E_INVAL.
   */
  method InitLeaf(page: array?<u8>, recordSize: u16) returns (rc: TableError)
    requires page != null ==> page.Length == TablePageSize
    modifies page
    ensures rc == Ok <==> page != null && recordSize == RecordSize
    ensures rc != Ok ==> rc == EInval && (page != null ==> page[..] == old(page[..]))
    ensures rc == Ok ==> page[..] == FreshLeafBytes() && IsFreshLeaf(page[..])
  {
    if page == null || recordSize != RecordSize {
      return EInval;
    }
    forall i | 0 <= i < page.Length {
      page[i] := 0;
    }
    assert page[..] == Zeros(TablePageSize);
    var capacity := ComputeCapacity(recordSize as int);
    CapacityFor128(capacity);
    // capacity is 31, so the TABLE_E_LAYOUT return of table.c:42-43 is never taken
    assert capacity != 0;
    HdrSetKind(page, LeafKind);
    HdrSetRecordSize(page, recordSize);
    HdrSetCapacity(page, capacity);
    HdrSetUsedCount(page, 0);
    HdrSetNextPage(page, 0);
    HdrClearReserved(page);
    FreshLeafBytesIsFresh();
    rc := Ok;
  }

  /** A freshly initialised page is a valid, empty leaf. */
  lemma FreshLeafIsValid(pg: seq<u8>)
    requires IsFreshLeaf(pg)
    ensures ValidLeaf(pg)
    ensures forall k :: 0 <= k < BitCapacity(pg) ==> !SlotUsed(pg, k)
  {
    CapacityFor128(31);
    forall k | 0 <= k < BitCapacity(pg)
      ensures !SlotUsed(pg, k)
    {
      ZeroHasNoBits(k % 8);
    }
    CountClearTail(pg, 0, 8 * BitmapSizeBytes(31));
  }
}
