/**
 * tblmgr_create as src/table_manager.c implements it.
 *
 * table_manager.h:9-30 promises that the function allocates the missing
 * pages, formats an all-zero target page as an empty leaf, accepts an
 * existing empty leaf, and returns TABLE_OK in both cases;
 * tests/test_table_manager.c:84-85 asserts TABLE_OK.  The body in
 * table_manager.c:35-74 leaves both the all-zero branch and the empty-leaf
 * branch empty (they hold only a plan in a comment) and always falls
 * through to `return TABLE_E_INVAL`, without ever writing the page.  This
 * module models the code as written: every call returns EInval, and the only
 * effect on the pager is the allocation loop.
 */
module TableManager {

  import opened Endian
  import Pager
  import opened LeafPage

  /** The loop of table_manager.c:27-33: does the buffer hold only zero bytes? */
  method AllZero(buf: array<u8>) returns (allZero: bool)
    ensures allZero <==> forall i :: 0 <= i < buf.Length ==> buf[i] == 0
  {
    allZero := true;
    var i := 0;
    while i < buf.Length
      invariant 0 <= i <= buf.Length
      invariant forall j :: 0 <= j < i ==> buf[j] == 0
    {
      if buf[i] != 0 {
        allZero := false;
        break;
      }
      i := i + 1;
    }
  }

  /** No allocation in the list fails. */
  predicate NoFaults(faults: seq<Pager.AllocFault>)
  {
    forall i :: 0 <= i < |faults| ==> faults[i] == Pager.NoFault
  }

  function Max(a: int, b: int): int
  {
    if a < b then b else a
  }

  /** The page count GrowTo reaches when no allocation fails. */
  function GrownCount(count: u32, firstPage: u32): u32
  {
    if firstPage < UINT32_MAX then Max(count, firstPage + 1) else UINT32_MAX
  }

  /**
   * The loop of table_manager.c:8-14: allocate pages until page firstPage
   * exists, giving up (ok false) at the first failed pager_alloc_page.  The
   * i-th allocation meets allocFaults[i] (no fault past the end of the list).
   */
  method GrowTo(pager: Pager.Pager, firstPage: u32, allocFaults: seq<Pager.AllocFault>) returns (ok: bool)
    requires pager.Valid()
    modifies pager
    ensures pager.Valid() && old(pager.pageCount) <= pager.pageCount
    ensures ok ==> firstPage < pager.pageCount
    ensures NoFaults(allocFaults) ==> ok == (firstPage < UINT32_MAX)
    ensures NoFaults(allocFaults) ==> pager.pageCount == GrownCount(old(pager.pageCount), firstPage)
    ensures NoFaults(allocFaults) ==> Pager.GrownBy(old(pager.file), old(pager.pageCount), pager.file, pager.pageCount)
  {
    Pager.GrownByNothing(pager.file, pager.pageCount);
    var i := 0;
    while firstPage >= Pager.PagerPageCount(pager)
      invariant pager.Valid()
      invariant old(pager.pageCount) <= pager.pageCount <= Max(old(pager.pageCount), firstPage + 1)
      invariant NoFaults(allocFaults) ==> Pager.GrownBy(old(pager.file), old(pager.pageCount), pager.file, pager.pageCount)
      decreases UINT32_MAX - pager.pageCount
    {
      var fault := if i < |allocFaults| then allocFaults[i] else Pager.NoFault;
      ghost var before := pager.file;
      ghost var count := pager.pageCount;
      var allocRc, pageNo := pager.AllocPage(fault);
      if allocRc != Pager.Ok {
        return false;
      }
      if NoFaults(allocFaults) {
        Pager.GrownByStep(old(pager.file), old(pager.pageCount), before, count);
      }
      i := i + 1;
    }
    ok := true;
  }

  /**
   * table_manager.c:16-77 on an existing page: read it and tell an
   * all-zero page from an empty leaf.  Neither branch holds code, so the
   * result is TABLE_E_INVAL whatever the page holds; bufAllocFails says
   * whether calloc fails and readFault whether pager_read meets an I/O error.
   */
  method InspectPage(pager: Pager.Pager, firstPage: u32, bufAllocFails: bool, readFault: bool) returns (rc: TableError)
    requires pager.Valid()
    ensures rc == EInval
  {
    if bufAllocFails {
      return EInval;
    }
    var buf := new u8[Pager.PagerPageSize(pager)];
    var readRc := pager.Read(firstPage, buf, readFault);
    if readRc != Pager.Ok {
      return EInval;
    }
    var allZero := AllZero(buf);
    if allZero {
      // table_manager.c:35-52: the branch for an empty page holds no code
    } else {
      var valid := Validate(buf);
      if valid == Ok && HdrUsedCount(buf[..]) == 0 {
        // table_manager.c:53-73: the branch for an existing empty leaf holds no code
      }
    }
    rc := EInval;
  }

  /**
   * tblmgr_create(pager, first_page_num).  A NULL pager or page 0 is
   * refused at once; otherwise the pages up to firstPage are allocated and
   * firstPage is read, and the result is TABLE_E_INVAL in every case.
   */
  method Create(pager: Pager.Pager?, firstPage: u32, allocFaults: seq<Pager.AllocFault>, bufAllocFails: bool, readFault: bool)
    returns (rc: TableError)
    requires pager != null ==> pager.Valid()
    modifies pager
    ensures rc == EInval
    ensures pager != null ==> pager.Valid() && old(pager.pageCount) <= pager.pageCount
    ensures pager != null && firstPage == 0 ==> pager.file == old(pager.file) && pager.pageCount == old(pager.pageCount)
    ensures pager != null && firstPage != 0 && NoFaults(allocFaults) ==>
              pager.pageCount == GrownCount(old(pager.pageCount), firstPage)
    ensures pager != null && firstPage != 0 && NoFaults(allocFaults) ==>
              Pager.GrownBy(old(pager.file), old(pager.pageCount), pager.file, pager.pageCount)
  {
    if pager == null || firstPage == 0 {
      return EInval;
    }
    var ok := GrowTo(pager, firstPage, allocFaults);
    if !ok {
      return EInval;
    }
    rc := InspectPage(pager, firstPage, bufAllocFails, readFault);
  }

  /**
   * Pages that the allocation loop added are all zero afterwards.  Since
   * Create never writes them, a page it allocated is not a valid leaf, so
   * the check at tests/test_table_manager.c:91-93 cannot hold on the page
   * either.
   */
  lemma AllocatedPagesStayZero(file0: seq<u8>, c0: u32, file: seq<u8>, c: u32, n: nat)
    requires 1 <= c0 && Pager.GrownBy(file0, c0, file, c) && c0 <= n < c
    ensures (n + 1) * Pager.PageSize <= |file|
    ensures Pager.PageAt(file, n) == Zeros(Pager.PageSize)
    ensures !ValidLeaf(Pager.PageAt(file, n))
  {
    assert (n + 1) * Pager.PageSize <= c * Pager.PageSize;
    var pg := Pager.PageAt(file, n);
    forall i | 0 <= i < Pager.PageSize
      ensures pg[i] == 0
    {
      assert n * Pager.PageSize + i >= Pager.PageSize;
    }
    assert HdrKind(pg) == 0;
  }
}
