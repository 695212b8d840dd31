/**
 * The scenarios of tests/test_table.c, each on a fresh page buffer:
 * the values the test asserts are the method's postconditions.
 */
module LeafPageExamples {

  import opened Endian
  import opened LeafPage

  /** Bit j of 2^k - 1 is set exactly when j < k. */
  lemma {:induction false} LowOnes(k: nat, j: nat)
    ensures Bit(Pow2(k) - 1, j) <==> j < k
    decreases j
  {
    if k == 0 {
      ZeroHasNoBits(j);
    } else if j > 0 {
      assert (Pow2(k) - 1) / 2 == Pow2(k - 1) - 1;
      LowOnes(k - 1, j - 1);
    }
  }

  /** A page buffer that tbl_init_leaf has just formatted. */
  method NewLeaf() returns (page: array<u8>)
    ensures fresh(page) && IsFreshLeaf(page[..])
  {
    page := new u8[TablePageSize];
    var rc := InitLeaf(page, RecordSize);
  }

  /** test_init_and_validate_ok (test_table.c:28-37). */
  method InitThenValidate() returns (rcInit: TableError, rcValid: TableError, cap: u16)
    ensures rcInit == Ok && rcValid == Ok && cap >= 1
  {
    var page := new u8[TablePageSize];
    rcInit := InitLeaf(page, RecordSize);
    FreshLeafIsValid(page[..]);
    rcValid := Validate(page);
    cap := HdrCapacity(page[..]);
  }

  /** test_find_free_basic (test_table.c:39-56): slot 0 first, slot 1 once slot 0 is taken. */
  method FindFreeBasic() returns (first: int, second: int)
    ensures first == 0 && second == 1
  {
    var page := NewLeaf();
    FreshLeafIsValid(page[..]);
    first := FindFree(page);
    assert !SlotUsed(page[..], 0);
    // bm[0] |= 0x01 on a zero byte stores 1
    assert page[HdrSize] == 0;
    page[HdrSize] := 1;
    var used := HdrUsedCount(page[..]);
    HdrSetUsedCount(page, (used + 1) % 0x1_0000);
    assert SlotUsed(page[..], 0) && !SlotUsed(page[..], 1) by {
      LowOnes(1, 0);
      LowOnes(1, 1);
    }
    assert BitmapFits(page[..]);
    second := FindFree(page);
  }

  /** test_validate_popcount_mismatch (test_table.c:58-69): two bits set, used_count 1. */
  method PopcountMismatch() returns (rc: TableError)
    ensures rc == EBitmap
  {
    var page := NewLeaf();
    // bm[0] |= 0x03 on a zero byte stores 3
    assert page[HdrSize] == 0;
    page[HdrSize] := 3;
    HdrSetUsedCount(page, 1);
    ghost var pg := page[..];
    CapacityFor128(31);
    assert LayoutOk(pg);
    forall j | 2 <= j < 32
      ensures !SlotUsed(pg, j)
    {
      if j < 8 {
        LowOnes(2, j);
      } else {
        ZeroHasNoBits(j % 8);
      }
    }
    CountClearTail(pg, 2, 32);
    LowOnes(2, 0);
    LowOnes(2, 1);
    assert CountUsed(pg, 2) == 2;
    rc := Validate(page);
  }

  /**
   * test_validate_last_byte_extra_bits (test_table.c:71-92): with capacity
   * 31 the last bitmap byte has 7 valid bits, and setting bit 7 of it breaks
   * validation.
   */
  method ExtraBitsInLastByte() returns (validBitsLast: int, rc: TableError)
    ensures validBitsLast == 7 && rc == EBitmap
  {
    var page := NewLeaf();
    var cap := HdrCapacity(page[..]);
    var bmBytes := BitmapSizeBytes(cap);
    validBitsLast := cap as int % 8;
    rc := Ok;
    if validBitsLast != 0 {
      // (uint8_t)(0xFF << 7) is 0x80; OR-ing it into the zero byte stores it
      var mask := 0xFF * Pow2(validBitsLast) % 0x100;
      assert Pow2(7) == 128 && mask == 0x80;
      assert page[HdrSize + bmBytes - 1] == 0;
      page[HdrSize + bmBytes - 1] := mask;
      ghost var pg := page[..];
      CapacityFor128(31);
      assert LayoutOk(pg);
      LowOnes(8, 7);
      assert Pow2(8) - 1 == 255;
      assert Bit(0x80, 7) by {
        assert Bit(1, 0);
      }
      assert SlotUsed(pg, 31);
      rc := Validate(page);
    }
  }

  /**
   * test_find_free_full_page (test_table.c:94-118): all 31 valid bits set
   * and used_count 31 is a valid page on which no slot is free.
   */
  method FullPage() returns (rcValid: TableError, idx: int)
    ensures rcValid == Ok && idx == -1
  {
    var page := NewLeaf();
    var cap := HdrCapacity(page[..]);
    var bmBytes := BitmapSizeBytes(cap);
    // memset(bm, 0xFF, bm_bytes)
    forall i | HdrSize <= i < HdrSize + bmBytes {
      page[i] := 0xFF;
    }
    var validBitsLast := cap as int % 8;
    if validBitsLast != 0 {
      // keep_mask is 2^7 - 1 = 0x7F; 0xFF & 0x7F stores the mask
      var keepMask := Pow2(validBitsLast) - 1;
      assert Pow2(7) == 128 && keepMask == 0x7F;
      page[HdrSize + bmBytes - 1] := keepMask;
    }
    HdrSetUsedCount(page, cap);
    ghost var pg := page[..];
    CapacityFor128(31);
    assert LayoutOk(pg);
    assert Pow2(8) - 1 == 255 && Pow2(7) - 1 == 127;
    forall j | 0 <= j < 31
      ensures SlotUsed(pg, j)
    {
      if j < 24 {
        LowOnes(8, j % 8);
      } else {
        LowOnes(7, j % 8);
      }
    }
    LowOnes(7, 7);
    assert !SlotUsed(pg, 31);
    CountAllSet(pg, 31);
    CountClearTail(pg, 31, 32);
    rcValid := Validate(page);
    idx := FindFree(page);
  }
}
