/**
 * The pager (src/pager.c, src/pager.h): a flat file seen as an array of
 * 4096-byte pages behind a 20-byte header.
 *
 * The file is an in-memory byte sequence held by the `Pager` object; the
 * positioned reads and writes of pager.c become slices and `Overwrite`.
 * A failing system call is an explicit fault parameter; a faulting write is
 * taken to have stored nothing.
 */
module Pager {

  import opened Endian

  // ---------------------------------------------------------------------------
  // Constants (pager.h:20-23, pager.c:15-22)
  // ---------------------------------------------------------------------------

  const PageSize: nat := 4096
  const HdrSize: nat := 20

  const HdrMagicOff: nat := 0
  const HdrVersionOff: nat := 4
  const HdrPageSizeOff: nat := 8
  const HdrPageCountOff: nat := 12
  const HdrFlagsOff: nat := 16

  /** "MDB1" in ASCII. */
  const FileMagic: seq<u8> := [0x4D, 0x44, 0x42, 0x31]
  const FileVersion: u32 := 1

  const LLONG_MAX: int := 0x7FFF_FFFF_FFFF_FFFF
  const INT64_MAX: int := 0x7FFF_FFFF_FFFF_FFFF
  const UINT64_MAX: int := 0xFFFF_FFFF_FFFF_FFFF

  // ---------------------------------------------------------------------------
  // Error codes (pager.h:8-18) and pager_errstr (pager.c:323-336)
  // ---------------------------------------------------------------------------

  datatype PagerError = Ok | EIo | EMagic | EVersion | EPageSize | EMeta | ETruncated | ERange | EInval

  /** The integer value of each PagerError constant. */
  function Code(e: PagerError): (c: int)
    ensures -8 <= c <= 0
    ensures c == 0 <==> e == Ok
  {
    match e
    case Ok => 0
    case EIo => -1
    case EMagic => -2
    case EVersion => -3
    case EPageSize => -4
    case EMeta => -5
    case ETruncated => -6
    case ERange => -7
    case EInval => -8
  }

  /** pager_errstr: a fixed name per error code, "unknown" for any other integer. */
  function ErrStr(code: int): (s: string)
    ensures s == "unknown" <==> !(-8 <= code <= 0)
  {
    if code == 0 then "ok"
    else if code == -1 then "io"
    else if code == -2 then "bad_magic"
    else if code == -3 then "bad_version"
    else if code == -4 then "bad_pagesize"
    else if code == -5 then "bad_metadata"
    else if code == -6 then "truncated_file"
    else if code == -7 then "page_out_of_range"
    else if code == -8 then "invalid_argument"
    else "unknown"
  }

  /** Different errors have different codes and different names. */
  lemma ErrStrDistinguishes(e1: PagerError, e2: PagerError)
    ensures Code(e1) == Code(e2) ==> e1 == e2
    ensures ErrStr(Code(e1)) == ErrStr(Code(e2)) ==> e1 == e2
  {
  }

  // ---------------------------------------------------------------------------
  // The file header (pager.c:86-113)
  // ---------------------------------------------------------------------------

  datatype Header = Header(version: u32, pageSize: u32, pageCount: u32, flags: u32)

  datatype HeaderCheck = HeaderOk(header: Header) | HeaderErr(error: PagerError)

  /** The header values this version accepts. */
  predicate WellFormed(h: Header)
  {
    h.version == FileVersion && h.pageSize == PageSize && h.pageCount >= 1 && h.flags == 0
  }

  /** The 20 on-disk bytes of a header: magic then four little-endian u32. */
  function EncodeHeader(h: Header): (r: seq<u8>)
    ensures |r| == HdrSize
    ensures r[..4] == FileMagic
  {
    FileMagic + EncodeU32(h.version) + EncodeU32(h.pageSize) + EncodeU32(h.pageCount) + EncodeU32(h.flags)
  }

  /**
   * validate_header: the checks run in a fixed order and the first failure
   * decides the error.
   */
  function ValidateHeader(hdr: seq<u8>): (r: HeaderCheck)
    requires |hdr| == HdrSize
    ensures hdr[..4] != FileMagic ==> r == HeaderErr(EMagic)
    ensures hdr[..4] == FileMagic && ReadLeU32(hdr, HdrVersionOff) != FileVersion ==> r == HeaderErr(EVersion)
    ensures (hdr[..4] == FileMagic && ReadLeU32(hdr, HdrVersionOff) == FileVersion
             && ReadLeU32(hdr, HdrPageSizeOff) != PageSize) ==> r == HeaderErr(EPageSize)
    ensures (hdr[..4] == FileMagic && ReadLeU32(hdr, HdrVersionOff) == FileVersion
             && ReadLeU32(hdr, HdrPageSizeOff) == PageSize
             && (ReadLeU32(hdr, HdrPageCountOff) < 1 || ReadLeU32(hdr, HdrFlagsOff) != 0)) ==> r == HeaderErr(EMeta)
    ensures (hdr[..4] == FileMagic && ReadLeU32(hdr, HdrVersionOff) == FileVersion
             && ReadLeU32(hdr, HdrPageSizeOff) == PageSize
             && ReadLeU32(hdr, HdrPageCountOff) >= 1 && ReadLeU32(hdr, HdrFlagsOff) == 0)
            ==> r == HeaderOk(Header(FileVersion, PageSize, ReadLeU32(hdr, HdrPageCountOff), 0))
    ensures r.HeaderOk? ==> WellFormed(r.header) && r.header.pageCount == ReadLeU32(hdr, HdrPageCountOff)
  {
    if hdr[HdrMagicOff..HdrMagicOff + 4] != FileMagic then HeaderErr(EMagic)
    else
      var version := ReadLeU32(hdr, HdrVersionOff);
      var pageSize := ReadLeU32(hdr, HdrPageSizeOff);
      var pageCount := ReadLeU32(hdr, HdrPageCountOff);
      var flags := ReadLeU32(hdr, HdrFlagsOff);
      if version != FileVersion then HeaderErr(EVersion)
      else if pageSize != PageSize then HeaderErr(EPageSize)
      else if pageCount < 1 then HeaderErr(EMeta)
      else if flags != 0 then HeaderErr(EMeta)
      else HeaderOk(Header(version, pageSize, pageCount, flags))
  }

  /** Reading u32 field k (k < 4) of an encoded header gives the value encoded there. */
  lemma ReadEncodedField(a: u32, b: u32, c: u32, d: u32)
    ensures var r := FileMagic + EncodeU32(a) + EncodeU32(b) + EncodeU32(c) + EncodeU32(d);
      ReadLeU32(r, 4) == a && ReadLeU32(r, 8) == b && ReadLeU32(r, 12) == c && ReadLeU32(r, 16) == d
  {
    var r := FileMagic + EncodeU32(a) + EncodeU32(b) + EncodeU32(c) + EncodeU32(d);
    assert r[4..8] == EncodeU32(a) && r[8..12] == EncodeU32(b);
    assert r[12..16] == EncodeU32(c) && r[16..20] == EncodeU32(d);
    ReadEncodeU32(a);
    ReadEncodeU32(b);
    ReadEncodeU32(c);
    ReadEncodeU32(d);
    assert ReadLeU32(r, 4) == ReadLeU32(r[4..8], 0);
    assert ReadLeU32(r, 8) == ReadLeU32(r[8..12], 0);
    assert ReadLeU32(r, 12) == ReadLeU32(r[12..16], 0);
    assert ReadLeU32(r, 16) == ReadLeU32(r[16..20], 0);
  }

  /** An encoded well-formed header validates to itself, and only those do. */
  lemma ValidateEncodedHeader(h: Header)
    ensures ValidateHeader(EncodeHeader(h)) == HeaderOk(h) <==> WellFormed(h)
  {
    ReadEncodedField(h.version, h.pageSize, h.pageCount, h.flags);
  }

  /** A header that validates is exactly the encoding of the header it yields. */
  lemma ValidatedHeaderIsEncoding(hdr: seq<u8>)
    requires |hdr| == HdrSize
    requires ValidateHeader(hdr).HeaderOk?
    ensures EncodeHeader(ValidateHeader(hdr).header) == hdr
  {
    var h := ValidateHeader(hdr).header;
    EncodeReadU32(hdr, 4);
    EncodeReadU32(hdr, 8);
    EncodeReadU32(hdr, 12);
    EncodeReadU32(hdr, 16);
    assert hdr == hdr[..4] + hdr[4..8] + hdr[8..12] + hdr[12..16] + hdr[16..20];
  }

  /** The header pager_open writes into an empty file (pager.c:146-151). */
  function InitialHeader(): seq<u8>
  {
    var h := FileMagic + Zeros(HdrSize - 4);
    var h := PutU32(h, HdrVersionOff, FileVersion);
    var h := PutU32(h, HdrPageSizeOff, PageSize);
    var h := PutU32(h, HdrPageCountOff, 1);
    PutU32(h, HdrFlagsOff, 0)
  }

  /** The whole file after bootstrapping: the header, then ftruncate's zeros up to one page. */
  function BootstrapFile(): (r: seq<u8>)
    ensures |r| == PageSize
  {
    InitialHeader() + Zeros(PageSize - HdrSize)
  }

  /** The bootstrapped file is "MDB1",1,4096,1,0 followed by zeros, and it validates. */
  lemma BootstrapFileContents()
    ensures BootstrapFile()[..HdrSize] == EncodeHeader(Header(1, PageSize, 1, 0))
    ensures forall i :: HdrSize <= i < PageSize ==> BootstrapFile()[i] == 0
    ensures ValidateHeader(BootstrapFile()[..HdrSize]) == HeaderOk(Header(1, PageSize, 1, 0))
  {
    var e := EncodeHeader(Header(1, PageSize, 1, 0));
    var h := InitialHeader();
    assert h == e;
    assert BootstrapFile()[..HdrSize] == h;
    ValidateEncodedHeader(Header(1, PageSize, 1, 0));
  }

  // ---------------------------------------------------------------------------
  // Pages of the file
  // ---------------------------------------------------------------------------

  /** The bytes of page n. */
  function PageAt(file: seq<u8>, n: nat): (r: seq<u8>)
    requires (n + 1) * PageSize <= |file|
    ensures |r| == PageSize
    ensures forall i :: 0 <= i < PageSize ==> r[i] == file[n * PageSize + i]
  {
    file[n * PageSize..(n + 1) * PageSize]
  }

  /** A page written at page n is what a later read of page n returns. */
  lemma ReadAfterWrite(file: seq<u8>, n: nat, page: seq<u8>)
    requires (n + 1) * PageSize <= |file| && |page| == PageSize
    ensures PageAt(Overwrite(file, n * PageSize, page), n) == page
  {
  }

  /** Writing page n leaves every other page as it was. */
  lemma WriteKeepsOtherPages(file: seq<u8>, n: nat, m: nat, page: seq<u8>)
    requires (n + 1) * PageSize <= |file| && (m + 1) * PageSize <= |file| && |page| == PageSize
    requires m != n
    ensures PageAt(Overwrite(file, n * PageSize, page), m) == PageAt(file, m)
  {
    var f := Overwrite(file, n * PageSize, page);
    forall i | 0 <= i < PageSize
      ensures PageAt(f, m)[i] == PageAt(file, m)[i]
    {
      if m < n {
        assert m * PageSize + i < (m + 1) * PageSize <= n * PageSize;
      } else {
        assert (n + 1) * PageSize <= m * PageSize;
      }
    }
  }

  /**
   * The file after pager_alloc_page succeeds with page_count n: a zero page
   * stored at byte n * 4096, then header bytes 12-15 rewritten with n + 1.
   */
  function AllocatedFile(file: seq<u8>, n: u32): (r: seq<u8>)
    requires 1 <= n < UINT32_MAX && n * PageSize <= |file|
    ensures |r| >= (n + 1) * PageSize
  {
    PutU32(Overwrite(file, n * PageSize, Zeros(PageSize)), HdrPageCountOff, n + 1)
  }

  /** The newly allocated page reads as zeros. */
  lemma AllocatedPageIsZero(file: seq<u8>, n: u32)
    requires 1 <= n < UINT32_MAX && n * PageSize <= |file|
    ensures PageAt(AllocatedFile(file, n), n) == Zeros(PageSize)
  {
    var f := AllocatedFile(file, n);
    forall i | 0 <= i < PageSize
      ensures PageAt(f, n)[i] == 0
    {
      assert n * PageSize + i >= 16;
    }
  }

  /** Allocation keeps the data pages 1..n-1 as they were. */
  lemma AllocKeepsDataPages(file: seq<u8>, n: u32, m: nat)
    requires 1 <= n < UINT32_MAX && n * PageSize <= |file|
    requires 1 <= m < n
    ensures PageAt(AllocatedFile(file, n), m) == PageAt(file, m)
  {
    var f := AllocatedFile(file, n);
    forall i | 0 <= i < PageSize
      ensures PageAt(f, m)[i] == PageAt(file, m)[i]
    {
      assert m * PageSize + i >= 16;
      assert m * PageSize + i < (m + 1) * PageSize <= n * PageSize;
    }
  }

  /**
   * Allocation keeps a valid header valid and persists the new page count in
   * it: the header that said n now says n + 1, every other header byte stays.
   */
  lemma AllocPersistsCount(file: seq<u8>, n: u32)
    requires 1 <= n < UINT32_MAX && n * PageSize <= |file|
    requires ValidateHeader(file[..HdrSize]) == HeaderOk(Header(FileVersion, PageSize, n, 0))
    ensures ReadLeU32(AllocatedFile(file, n), HdrPageCountOff) == n + 1
    ensures ValidateHeader(AllocatedFile(file, n)[..HdrSize]) == HeaderOk(Header(FileVersion, PageSize, n + 1, 0))
  {
    var w := Overwrite(file, n * PageSize, Zeros(PageSize));
    assert w[..HdrSize] == file[..HdrSize];
    var f := AllocatedFile(file, n);
    ReadAfterPutU32(w, HdrPageCountOff, n + 1);
    var hf := f[..HdrSize];
    var hw := w[..HdrSize];
    assert hf[..4] == hw[..4];
    assert ReadLeU32(hf, 4) == ReadLeU32(hw, 4);
    assert ReadLeU32(hf, 8) == ReadLeU32(hw, 8);
    assert ReadLeU32(hf, 16) == ReadLeU32(hw, 16);
    assert ReadLeU32(hf, 12) == ReadLeU32(f, 12);
  }

  /**
   * `file` is `file0` after the page count went from c0 to c through
   * successful allocations: pages c0..c-1 are zero, header bytes 12-15 hold
   * c if anything was allocated, and every other byte is unchanged.
   */
  ghost predicate GrownBy(file0: seq<u8>, c0: u32, file: seq<u8>, c: u32)
  {
    && c0 <= c
    && c0 * PageSize <= |file0|
    && |file| == (if c * PageSize <= |file0| then |file0| else c * PageSize)
    && forall i :: 0 <= i < |file| ==>
         file[i] == if c0 < c && HdrPageCountOff <= i < HdrPageCountOff + 4 then EncodeU32(c)[i - HdrPageCountOff]
                    else if c0 * PageSize <= i < c * PageSize then 0
                    else file0[i]
  }

  lemma GrownByNothing(file0: seq<u8>, c0: u32)
    requires c0 * PageSize <= |file0|
    ensures GrownBy(file0, c0, file0, c0)
  {
  }

  /** One more successful allocation extends a grown file by one zero page. */
  lemma GrownByStep(file0: seq<u8>, c0: u32, file: seq<u8>, c: u32)
    requires 1 <= c0 && c < UINT32_MAX
    requires GrownBy(file0, c0, file, c)
    ensures c * PageSize <= |file|
    ensures GrownBy(file0, c0, AllocatedFile(file, c), c + 1)
  {
    var f := AllocatedFile(file, c);
    var w := Overwrite(file, c * PageSize, Zeros(PageSize));
    forall i | 0 <= i < |f|
      ensures f[i] == if c0 < c + 1 && HdrPageCountOff <= i < HdrPageCountOff + 4 then EncodeU32(c + 1)[i - HdrPageCountOff]
                      else if c0 * PageSize <= i < (c + 1) * PageSize then 0
                      else file0[i]
    {
      if HdrPageCountOff <= i < HdrPageCountOff + 4 {
        assert f[HdrPageCountOff..HdrPageCountOff + 4] == EncodeU32(c + 1);
        assert f[i] == f[HdrPageCountOff..HdrPageCountOff + 4][i - HdrPageCountOff];
      } else {
        assert f[i] == w[i];
      }
    }
  }

  // ---------------------------------------------------------------------------
  // The Pager handle (pager.c:27-31)
  // ---------------------------------------------------------------------------

  /** The faults pager_alloc_page can meet: calloc, the page write, the header write. */
  datatype AllocFault = NoFault | CallocFails | PageWriteFails | HeaderWriteFails

  /**
   * The system call that fails in pager_open, in the order they are made:
   * open, fstat, the bootstrap write and ftruncate, the header read, the
   * second fstat, calloc.
   */
  datatype OpenFault = NoOpenFault | OpenFails | StatFails | BootWriteFails | BootTruncateFails
                     | HeaderReadFails | SizeStatFails | HandleAllocFails

  /** A fault that ends pager_open before the header is read. */
  predicate EarlyFault(disk: seq<u8>, fault: OpenFault)
  {
    fault == OpenFails || fault == StatFails
    || (|disk| == 0 && (fault == BootWriteFails || fault == BootTruncateFails))
  }

  /** The file once the bootstrap of an empty file has completed. */
  function Bootstrapped(disk: seq<u8>): seq<u8>
  {
    if |disk| == 0 then BootstrapFile() else disk
  }

  /**
   * A bootstrap whose ftruncate fails leaves the 20-byte header alone on
   * disk.  That header is valid and says one page, so by the contract of
   * Open every later open of the file fails with E_TRUNCATED.
   */
  lemma FailedTruncateLeavesShortFile()
    ensures |InitialHeader()| == HdrSize
    ensures ValidateHeader(InitialHeader()[..HdrSize]) == HeaderOk(Header(FileVersion, PageSize, 1, 0))
    ensures |InitialHeader()| < ReadLeU32(InitialHeader(), HdrPageCountOff) * PageSize
  {
    var h := Header(FileVersion, PageSize, 1, 0);
    assert InitialHeader() == EncodeHeader(h);
    assert InitialHeader()[..HdrSize] == InitialHeader();
    ValidateEncodedHeader(h);
  }

  /**
   * The start of pager_open (pager.c:133-163): open and fstat, then for an
   * empty file the header write at offset 0 and the ftruncate to one page.
   * `ok` is false when one of these calls fails; `after` is the file then.
   */
  method OpenAndBootstrap(disk: seq<u8>, fault: OpenFault) returns (ok: bool, after: seq<u8>)
    ensures ok == !EarlyFault(disk, fault)
    ensures ok ==> after == Bootstrapped(disk)
    ensures !ok && fault != BootTruncateFails ==> after == disk
    ensures !ok && fault == BootTruncateFails ==> after == InitialHeader()
  {
    after := disk;
    if fault == OpenFails || fault == StatFails {
      return false, after;
    }
    if |after| == 0 {
      if fault == BootWriteFails {
        return false, after;
      }
      // write_full(fd, init_hdr, 20, 0) into the empty file
      after := Overwrite(after, 0, InitialHeader());
      assert after == InitialHeader();
      if fault == BootTruncateFails {
        return false, after;
      }
      // ftruncate(fd, 4096) pads with zeros
      after := after + Zeros(PageSize - |after|);
    }
    ok := true;
  }

  class Pager {
    /** The contents of the file behind the descriptor. */
    var file: seq<u8>
    var pageSize: nat
    var pageCount: u32

    /** What pager_open establishes and every operation keeps. */
    ghost predicate Valid()
      reads this
    {
      pageSize == PageSize && 1 <= pageCount && pageCount * PageSize <= |file|
    }

    constructor (file: seq<u8>, pageCount: u32)
      requires 1 <= pageCount && pageCount * PageSize <= |file|
      ensures Valid()
      ensures this.file == file && this.pageCount == pageCount
    {
      this.file := file;
      this.pageSize := PageSize;
      this.pageCount := pageCount;
    }

    /**
     * pager_open over the file contents `disk`.  An empty file is first
     * bootstrapped: the fresh header is written at offset 0, then ftruncate
     * extends the file to one page.  The header is then read and validated
     * and the file length checked against page_count.  `fault` names the
     * system call that fails, if any; a fault named for a call that is not
     * made (the bootstrap calls on a non-empty file) has no effect.  Every
     * failure returns no handle; `after` is the file contents the call leaves
     * behind, so a bootstrap that fails half-way stays on disk.
     */
    static method Open(disk: seq<u8>, fault: OpenFault) returns (rc: PagerError, p: Pager?, after: seq<u8>)
      ensures (rc == Ok) == (p != null)
      ensures fault == OpenFails || fault == StatFails ==> rc == EIo && after == disk
      ensures |disk| == 0 && fault == BootWriteFails ==> rc == EIo && after == disk
      ensures |disk| == 0 && fault == BootTruncateFails ==> rc == EIo && after == InitialHeader()
      ensures !EarlyFault(disk, fault) ==> after == Bootstrapped(disk)
      ensures !EarlyFault(disk, fault) && (fault == HeaderReadFails || 0 < |disk| < HdrSize) ==> rc == EIo
      ensures |disk| == 0 && !EarlyFault(disk, fault) ==>
                (rc == Ok <==> fault == NoOpenFault) && (rc != Ok ==> rc == EIo)
      ensures |disk| == 0 && rc == Ok ==> p.file == BootstrapFile() && p.pageCount == 1
      ensures |disk| >= HdrSize && !EarlyFault(disk, fault) && fault != HeaderReadFails
              && ValidateHeader(disk[..HdrSize]).HeaderErr? ==>
                rc == ValidateHeader(disk[..HdrSize]).error
      ensures |disk| >= HdrSize && !EarlyFault(disk, fault) && fault != HeaderReadFails
              && ValidateHeader(disk[..HdrSize]).HeaderOk? ==>
                (fault == SizeStatFails ==> rc == EIo)
                && (fault != SizeStatFails ==>
                      (rc == ETruncated <==> |disk| < ReadLeU32(disk, HdrPageCountOff) * PageSize)
                      && (rc == Ok <==> ReadLeU32(disk, HdrPageCountOff) * PageSize <= |disk|
                                        && fault != HandleAllocFails))
      ensures p != null ==> fresh(p) && p.Valid() && p.file == after
      ensures p != null && |disk| > 0 ==> p.file == disk && p.pageCount == ReadLeU32(disk, HdrPageCountOff)
    {
      p := null;
      var ok;
      ok, after := OpenAndBootstrap(disk, fault);
      if !ok {
        rc := EIo;
        return;
      }
      if |disk| == 0 {
        BootstrapFileContents();
      }
      var f := after;
      if fault == HeaderReadFails || |f| < HdrSize {
        // read_full fails, or meets end of file before 20 bytes
        rc := EIo;
        return;
      }
      var check := ValidateHeader(f[..HdrSize]);
      if check.HeaderErr? {
        rc := check.error;
        return;
      }
      if fault == SizeStatFails {
        rc := EIo;
        return;
      }
      var h := check.header;
      // the guard at pager.c:183-186 never fires: page_count < 2^32 and page_size is 4096
      assert h.pageCount <= LLONG_MAX / h.pageSize;
      var need := h.pageSize * h.pageCount;
      if |f| < need {
        rc := ETruncated;
        return;
      }
      if fault == HandleAllocFails {
        rc := EIo;
        return;
      }
      p := new Pager(f, h.pageCount);
      rc := Ok;
    }

    /** pager_read: copies page pageNo of the file into `out`. */
    method Read(pageNo: u32, out: array?<u8>, ioFault: bool) returns (rc: PagerError)
      requires Valid()
      requires out != null ==> out.Length == pageSize
      modifies out
      ensures out == null ==> rc == EInval
      ensures out != null && pageNo >= pageCount ==> rc == ERange && out[..] == old(out[..])
      ensures rc == Ok <==> out != null && pageNo < pageCount && !ioFault
      ensures rc == Ok ==> out[..] == PageAt(file, pageNo)
      ensures rc != EMeta
    {
      if out == null {
        return EInval;
      }
      if pageNo >= pageCount {
        return ERange;
      }
      // the guard at pager.c:226-227 never fires
      assert pageNo <= UINT64_MAX / pageSize;
      var base := pageNo * pageSize;
      if ioFault {
        return EIo;
      }
      forall i | 0 <= i < pageSize {
        out[i] := file[base + i];
      }
      rc := Ok;
    }

    /** pager_write: stores `buf` as page pageNo; pages must be allocated first. */
    method Write(pageNo: u32, buf: array?<u8>, ioFault: bool) returns (rc: PagerError)
      requires Valid()
      requires buf != null ==> buf.Length == pageSize
      modifies this`file
      ensures Valid()
      ensures buf == null ==> rc == EInval
      ensures buf != null && pageNo >= pageCount ==> rc == ERange
      ensures rc == Ok <==> buf != null && pageNo < pageCount && !ioFault
      ensures rc == Ok ==> file == Overwrite(old(file), pageNo * PageSize, buf[..])
      ensures rc != Ok ==> file == old(file)
      ensures rc != EMeta
    {
      if buf == null {
        return EInval;
      }
      // the guard at pager.c:238-239 never fires
      assert pageNo <= UINT64_MAX / pageSize;
      var base := pageNo * pageSize;
      if pageNo >= pageCount {
        return ERange;
      }
      if ioFault {
        return EIo;
      }
      file := Overwrite(file, base, buf[..]);
      rc := Ok;
    }

    /**
     * pager_alloc_page: stores a zero page at the current end, increments
     * page_count in memory, then persists it at header offset 12.  The
     * count is incremented before the header write, so a failing header
     * write leaves the handle one page larger than the header says.
     */
    method AllocPage(fault: AllocFault) returns (rc: PagerError, pageNo: u32)
      requires Valid()
      modifies this`file, this`pageCount
      ensures Valid()
      ensures old(pageCount) == UINT32_MAX ==> rc == EMeta && file == old(file) && pageCount == old(pageCount)
      ensures rc == Ok <==> old(pageCount) < UINT32_MAX && fault == NoFault
      ensures rc == Ok ==> pageNo == old(pageCount) && pageCount == old(pageCount) + 1
                           && file == AllocatedFile(old(file), old(pageCount))
      ensures old(pageCount) < UINT32_MAX && fault == HeaderWriteFails ==>
                rc == EIo && pageCount == old(pageCount) + 1
                && file == Overwrite(old(file), old(pageCount) * PageSize, Zeros(PageSize))
      ensures old(pageCount) < UINT32_MAX && (fault == CallocFails || fault == PageWriteFails) ==>
                rc == EIo && file == old(file) && pageCount == old(pageCount)
    {
      pageNo := 0;
      if pageCount == UINT32_MAX {
        return EMeta, 0;
      }
      var newNo := pageCount;
      var result := newNo * pageSize;
      // the guard at pager.c:260-262 never fires
      assert result <= INT64_MAX && result + pageSize <= INT64_MAX;
      if fault == CallocFails {
        return EIo, 0;
      }
      var baseOffset := newNo * pageSize;
      if fault == PageWriteFails {
        return EIo, 0;
      }
      file := Overwrite(file, baseOffset, Zeros(pageSize));
      pageCount := pageCount + 1;
      var hdrCount := EncodeU32(pageCount);
      if fault == HeaderWriteFails {
        return EIo, 0;
      }
      file := Overwrite(file, HdrPageCountOff, hdrCount);
      pageNo := newNo;
      rc := Ok;
    }
  }

  /** pager_page_size: the page size of a handle, 0 for NULL. */
  function PagerPageSize(p: Pager?): (r: nat)
    reads p
    ensures p == null ==> r == 0
    ensures p != null && p.Valid() ==> r == PageSize
  {
    if p == null then 0 else p.pageSize
  }

  /** pager_page_count: the page count of a handle, 0 for NULL. */
  function PagerPageCount(p: Pager?): (r: u32)
    reads p
    ensures p == null ==> r == 0
    ensures p != null && p.Valid() ==> r >= 1 && r * PageSize <= |p.file|
  {
    if p == null then 0 else p.pageCount
  }
}
