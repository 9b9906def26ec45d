/**
 * Recognising a Multiboot2 kernel (multiboot2.c: multiboot2_loadfile and
 * is_info_request_valid).  The loader reads the first 32 KiB of the file,
 * looks for the header magic at 8-byte aligned offsets, checks the header
 * checksum and walks the header tags, remembering the address, entry-address
 * and framebuffer tags and rejecting tags and information requests it does
 * not support.  File I/O and allocation results are inputs.
 *
 * The walk trusts the image: it is bounded neither by header_length nor by
 * the buffer, and a tag whose size rounds to 0 is visited again and again.
 * Those outcomes are modelled explicitly (PastBuffer, Loops) rather than
 * excluded by a precondition.
 */
module Mb2Header {
  import opened Mb2
  import opened Wrappers

  /** The probe loop runs while i < MULTIBOOT_SEARCH - sizeof (multiboot2_header_t). */
  const PROBE_END: nat := SEARCH - HEADER_SIZE

  predicate MagicAt(buf: seq<byte>, i: nat)
    requires i + 4 <= |buf|
  {
    U32At(buf, i) == HEADER_MAGIC
  }

  /** Where the probe loop stopped (i), the header it took and that header's header_length. */
  datatype Probe = Probe(i: nat, header: nat, length: u32)

  function SearchFrom(buf: seq<byte>, i: nat): (r: Probe)
    requires |buf| == SEARCH && i % 8 == 0 && i < PROBE_END
    decreases PROBE_END - i
  {
    if MagicAt(buf, i) then Probe(i, i, U32At(buf, i + HDR_LENGTH))
    else if i + HEADER_ALIGN >= PROBE_END then Probe(i + HEADER_ALIGN, i, U32At(buf, i + HDR_LENGTH))
    else SearchFrom(buf, i + HEADER_ALIGN)
  }

  /** The header search over the 32 KiB read from the image. */
  function Search(buf: seq<byte>): Probe
    requires |buf| == SEARCH
  {
    SearchFrom(buf, 0)
  }

  /**
   * The search probes only 8-byte aligned offsets below 32768 - 16.  It
   * takes the first one holding the magic; when none does it ends with
   * i = 32752 and the header of the last probe, 32744.
   */
  lemma {:induction false} SearchFromSpec(buf: seq<byte>, i: nat)
    requires |buf| == SEARCH && i % 8 == 0 && i < PROBE_END
    requires forall j :: 0 <= j < i && j % 8 == 0 ==> !MagicAt(buf, j)
    ensures var r := SearchFrom(buf, i);
            r.header % 8 == 0 && r.header < PROBE_END && r.length == U32At(buf, r.header + HDR_LENGTH) &&
            (forall j :: 0 <= j < r.header && j % 8 == 0 ==> !MagicAt(buf, j)) &&
            ((r.i == r.header && MagicAt(buf, r.header)) ||
             (r.i == PROBE_END && r.header == PROBE_END - HEADER_ALIGN && !MagicAt(buf, r.header)))
    decreases PROBE_END - i
  {
    if !MagicAt(buf, i) && i + HEADER_ALIGN < PROBE_END {
      SearchFromSpec(buf, i + HEADER_ALIGN);
    }
  }

  lemma SearchSpec(buf: seq<byte>)
    requires |buf| == SEARCH
    ensures var r := Search(buf);
            r.header % 8 == 0 && r.header < PROBE_END && r.length == U32At(buf, r.header + HDR_LENGTH) &&
            (forall j :: 0 <= j < r.header && j % 8 == 0 ==> !MagicAt(buf, j)) &&
            ((r.i == r.header && MagicAt(buf, r.header)) ||
             (r.i == PROBE_END && r.header == PROBE_END - HEADER_ALIGN && !MagicAt(buf, r.header)))
  {
    SearchFromSpec(buf, 0);
  }

  /** The probe loop of multiboot2_loadfile. */
  method FindHeader(buf: seq<byte>) returns (i: nat, header: nat, searchSize: u32)
    requires |buf| == SEARCH
    ensures Probe(i, header, searchSize) == Search(buf)
  {
    i := 0;
    header := 0;
    searchSize := 0;
    while i < PROBE_END
      invariant i % 8 == 0 && i <= PROBE_END
      invariant i < PROBE_END ==> SearchFrom(buf, i) == Search(buf)
      invariant i == PROBE_END ==> Probe(i, header, searchSize) == Search(buf)
      decreases PROBE_END - i
    {
      header := i;
      searchSize := U32At(buf, i + HDR_LENGTH);
      if U32At(buf, i) == HEADER_MAGIC {
        break;
      }
      i := i + HEADER_ALIGN;
    }
  }

  /** header_length is non-zero and the header lies inside the search window. */
  predicate LengthOk(p: Probe)
  {
    p.length != 0 && p.i + p.length <= SEARCH
  }

  /** magic + architecture + header_length + checksum, in 32-bit arithmetic, is 0. */
  predicate ChecksumOk(buf: seq<byte>, h: nat)
    requires h + HEADER_SIZE <= |buf|
  {
    (U32At(buf, h + HDR_MAGIC) + U32At(buf, h + HDR_ARCH) + U32At(buf, h + HDR_LENGTH) +
     U32At(buf, h + HDR_CHECKSUM)) % U32_MOD == 0
  }

  /** A header built with HeaderChecksum passes the check. */
  lemma ChecksumAccepts(buf: seq<byte>, h: nat, arch: u32, len: u32)
    requires h + HEADER_SIZE <= |buf|
    requires U32At(buf, h + HDR_MAGIC) == HEADER_MAGIC && U32At(buf, h + HDR_ARCH) == arch
    requires U32At(buf, h + HDR_LENGTH) == len && U32At(buf, h + HDR_CHECKSUM) == HeaderChecksum(arch, len)
    ensures ChecksumOk(buf, h)
  {
  }

  // ------------------------------------------------------------------
  // Information requests

  /** Information-tag types the loader can provide: 0-18 except 13 (SMBIOS). */
  predicate SupportedRequest(t: u32)
  {
    t <= TAG_EFI_BS && t != TAG_SMBIOS
  }

  predicate Optional(flags: u16)
  {
    flags % 2 == 1
  }

  /** is_info_request_valid over the requested types: an optional request is always valid. */
  function InfoRequestValid(flags: u16, requests: seq<u32>): (r: bool)
    ensures r <==> Optional(flags) || forall i :: 0 <= i < |requests| ==> SupportedRequest(requests[i])
  {
    Optional(flags) || AllSupported(requests)
  }

  function AllSupported(requests: seq<u32>): (r: bool)
    ensures r <==> forall i :: 0 <= i < |requests| ==> SupportedRequest(requests[i])
  {
    if |requests| == 0 then true else SupportedRequest(requests[0]) && AllSupported(requests[1..])
  }

  datatype Check = Valid | Invalid | ReadsPast

  /**
   * is_info_request_valid on the image: (size - 8) / 4 requests follow the
   * tag header.  For size < 8 the unsigned subtraction wraps, so the count
   * exceeds any buffer (None).  Reading a request past the buffer is
   * ReadsPast.
   */
  function RequestCount(size: u32): Option<nat>
  {
    if size >= INFO_REQUEST_SIZE then Some((size - INFO_REQUEST_SIZE) / 4) else None
  }

  function CheckRequests(buf: seq<byte>, at: nat, left: Option<nat>): Check
    requires at <= |buf|
    decreases |buf| - at
  {
    if left == Some(0) then Valid
    else if at + 4 > |buf| then ReadsPast
    else if !SupportedRequest(U32At(buf, at)) then Invalid
    else CheckRequests(buf, at + 4, if left.Some? then Some(left.value - 1) else None)
  }

  function InfoRequestCheck(buf: seq<byte>, off: nat): Check
    requires off + HEADER_TAG_SIZE <= |buf|
  {
    if Optional(U16At(buf, off + HTAG_FLAGS)) then Valid
    else CheckRequests(buf, off + INFO_REQUEST_SIZE, RequestCount(U32At(buf, off + HTAG_SIZE)))
  }

  /** The requested types, read from the image. */
  function Words(buf: seq<byte>, at: nat, n: nat): (ws: seq<u32>)
    requires at + 4 * n <= |buf|
    ensures |ws| == n
    decreases n
  {
    if n == 0 then [] else [U32At(buf, at)] + Words(buf, at + 4, n - 1)
  }

  lemma {:induction false} CheckRequestsWords(buf: seq<byte>, at: nat, n: nat)
    requires at + 4 * n <= |buf|
    ensures CheckRequests(buf, at, Some(n)) == if AllSupported(Words(buf, at, n)) then Valid else Invalid
    decreases n
  {
    if n > 0 {
      CheckRequestsWords(buf, at + 4, n - 1);
      assert Words(buf, at, n)[1..] == Words(buf, at + 4, n - 1);
    }
  }

  /** For a request tag inside the buffer the check is is_info_request_valid on its requests. */
  lemma InfoRequestCheckValid(buf: seq<byte>, off: nat)
    requires off + HEADER_TAG_SIZE <= |buf|
    requires INFO_REQUEST_SIZE <= U32At(buf, off + HTAG_SIZE) && off + U32At(buf, off + HTAG_SIZE) <= |buf|
    ensures var n := (U32At(buf, off + HTAG_SIZE) - INFO_REQUEST_SIZE) / 4;
            InfoRequestCheck(buf, off) ==
              if InfoRequestValid(U16At(buf, off + HTAG_FLAGS), Words(buf, off + INFO_REQUEST_SIZE, n)) then Valid else Invalid
  {
    var n := (U32At(buf, off + HTAG_SIZE) - INFO_REQUEST_SIZE) / 4;
    CheckRequestsWords(buf, off + INFO_REQUEST_SIZE, n);
  }

  // ------------------------------------------------------------------
  // The tag walk

  /** What the walk remembers: the offsets of the address, entry-address and framebuffer tags, and keep_bs. */
  datatype Scan = Scan(addrTag: Option<nat>, entryTag: Option<nat>, fbTag: Option<nat>, keepBs: bool)

  const NoTags := Scan(None, None, None, false)

  /** Done: the END tag was reached.  Rejected: `goto out`.  PastBuffer: a read beyond the 32 KiB.  Loops: a tag of size rounding to 0 is visited forever. */
  datatype Walk = Done(scan: Scan) | Rejected(scan: Scan) | PastBuffer(scan: Scan) | Loops(scan: Scan)

  /** roundup(tag->size, 8) in the tag's unsigned 32-bit arithmetic: sizes above 2^32 - 8 wrap to 0. */
  function TagStep(size: u32): (r: nat)
    ensures r % 8 == 0
    ensures size <= U32_MOD - 8 ==> r == RoundUp8(size)
    ensures size > U32_MOD - 8 ==> r == 0
  {
    ((size + 7) % U32_MOD) / 8 * 8
  }

  datatype Effect = Continue(scan: Scan) | Stop(walk: Walk)

  /** The switch on one non-END header tag at off. */
  function TagEffect(buf: seq<byte>, off: nat, s: Scan): Effect
    requires off + HEADER_TAG_SIZE <= |buf|
  {
    var typ := U16At(buf, off);
    if typ == HTAG_INFORMATION_REQUEST then
      match InfoRequestCheck(buf, off)
      case Valid => Continue(s)
      case Invalid => Stop(Rejected(s))
      case ReadsPast => Stop(PastBuffer(s))
    else if typ == HTAG_ADDRESS then Continue(s.(addrTag := Some(off)))
    else if typ == HTAG_ENTRY_ADDRESS then Continue(s.(entryTag := Some(off)))
    else if typ == HTAG_CONSOLE_FLAGS then Continue(s)
    else if typ == HTAG_FRAMEBUFFER then Continue(s.(fbTag := Some(off)))
    else if typ == HTAG_MODULE_ALIGN then Continue(s)
    else if typ == HTAG_EFI_BS then Continue(s.(keepBs := true))
    else if Optional(U16At(buf, off + HTAG_FLAGS)) then Continue(s)
    else Stop(Rejected(s))
  }

  /** Visiting the same tag twice has the same effect as visiting it once. */
  lemma TagEffectIdempotent(buf: seq<byte>, off: nat, s: Scan)
    requires off + HEADER_TAG_SIZE <= |buf| && TagEffect(buf, off, s).Continue?
    ensures TagEffect(buf, off, TagEffect(buf, off, s).scan) == TagEffect(buf, off, s)
  {
  }

  /** The `for (tag = header->tags; tag->type != END; tag += roundup(size, 8))` loop from offset off. */
  function WalkFrom(buf: seq<byte>, off: nat, s: Scan): Walk
    decreases |buf| - off
  {
    if off + HEADER_TAG_SIZE > |buf| then PastBuffer(s)
    else if U16At(buf, off) == HTAG_END then Done(s)
    else
      match TagEffect(buf, off, s)
      case Stop(w) => w
      case Continue(s') =>
        var step := TagStep(U32At(buf, off + HTAG_SIZE));
        if step == 0 then Loops(s') else WalkFrom(buf, off + step, s')
  }

  /** The tag walk as a loop: the same outcome as WalkFrom. */
  method WalkTags(buf: seq<byte>, start: nat) returns (w: Walk)
    ensures w == WalkFrom(buf, start, NoTags)
  {
    var off := start;
    var s := NoTags;
    while true
      invariant WalkFrom(buf, off, s) == WalkFrom(buf, start, NoTags)
      decreases |buf| - off
    {
      if off + HEADER_TAG_SIZE > |buf| {
        return PastBuffer(s);
      }
      if U16At(buf, off) == HTAG_END {
        return Done(s);
      }
      var e := TagEffect(buf, off, s);
      if e.Stop? {
        return e.walk;
      }
      s := e.scan;
      var step := TagStep(U32At(buf, off + HTAG_SIZE));
      if step == 0 {
        return Loops(s);
      }
      off := off + step;
    }
  }

  /** Every offset the scan remembers holds a tag of the matching type. */
  predicate ScanSound(buf: seq<byte>, s: Scan)
  {
    (s.addrTag.Some? ==> s.addrTag.value + HEADER_TAG_SIZE <= |buf| && U16At(buf, s.addrTag.value) == HTAG_ADDRESS) &&
    (s.entryTag.Some? ==> s.entryTag.value + HEADER_TAG_SIZE <= |buf| && U16At(buf, s.entryTag.value) == HTAG_ENTRY_ADDRESS) &&
    (s.fbTag.Some? ==> s.fbTag.value + HEADER_TAG_SIZE <= |buf| && U16At(buf, s.fbTag.value) == HTAG_FRAMEBUFFER)
  }

  /** One tag remembers at most its own offset, under its own type. */
  lemma EffectSound(buf: seq<byte>, off: nat, s: Scan)
    requires off + HEADER_TAG_SIZE <= |buf| && ScanSound(buf, s)
    ensures match TagEffect(buf, off, s)
            case Continue(s') => ScanSound(buf, s')
            case Stop(w) => ScanSound(buf, w.scan)
  {
  }

  /** The walk only ever remembers tags of the right type, whichever way it ends. */
  lemma {:induction false} WalkScanSound(buf: seq<byte>, off: nat, s: Scan)
    requires ScanSound(buf, s)
    ensures ScanSound(buf, WalkFrom(buf, off, s).scan)
    decreases |buf| - off
  {
    if off + HEADER_TAG_SIZE <= |buf| && U16At(buf, off) != HTAG_END {
      var e := TagEffect(buf, off, s);
      EffectSound(buf, off, s);
      if e.Continue? {
        var step := TagStep(U32At(buf, off + HTAG_SIZE));
        if step != 0 {
          WalkScanSound(buf, off + step, e.scan);
          assert WalkFrom(buf, off, s) == WalkFrom(buf, off + step, e.scan);
        } else {
          assert WalkFrom(buf, off, s) == Loops(e.scan);
        }
      } else {
        assert WalkFrom(buf, off, s) == e.walk;
      }
    }
  }

  /** A tag of a type the loader does not know, without the OPTIONAL flag, makes the walk reject. */
  lemma WalkRejectsUnknown(buf: seq<byte>, off: nat, s: Scan)
    requires off + HEADER_TAG_SIZE <= |buf|
    requires U16At(buf, off) > HTAG_EFI_BS && !Optional(U16At(buf, off + HTAG_FLAGS))
    ensures WalkFrom(buf, off, s) == Rejected(s)
  {
  }

  /** A mandatory information request whose first requested type is unsupported (e.g. 13, SMBIOS) makes the walk reject. */
  lemma WalkRejectsRequest(buf: seq<byte>, off: nat, s: Scan)
    requires off + INFO_REQUEST_SIZE + 4 <= |buf|
    requires U16At(buf, off) == HTAG_INFORMATION_REQUEST && !Optional(U16At(buf, off + HTAG_FLAGS))
    requires U32At(buf, off + HTAG_SIZE) >= INFO_REQUEST_SIZE + 4
    requires !SupportedRequest(U32At(buf, off + INFO_REQUEST_SIZE))
    ensures WalkFrom(buf, off, s) == Rejected(s)
  {
  }

  /** An address tag is remembered by the walk, and so is keep_bs, whatever happens later. */
  lemma {:induction false} WalkKeepsScan(buf: seq<byte>, off: nat, s: Scan)
    ensures var w := WalkFrom(buf, off, s);
            (s.addrTag.Some? ==> w.scan.addrTag.Some?) && (s.entryTag.Some? ==> w.scan.entryTag.Some?) &&
            (s.keepBs ==> w.scan.keepBs)
    decreases |buf| - off
  {
    if off + HEADER_TAG_SIZE <= |buf| && U16At(buf, off) != HTAG_END {
      match TagEffect(buf, off, s)
      case Stop(w) =>
      case Continue(s') =>
        var step := TagStep(U32At(buf, off + HTAG_SIZE));
        if step != 0 {
          WalkKeepsScan(buf, off + step, s');
        }
    }
  }

  /** A module-alignment tag of size 0 is visited forever: the walk as written never ends on it. */
  lemma ZeroSizeLoops(buf: seq<byte>, off: nat, s: Scan)
    requires off + HEADER_TAG_SIZE <= |buf|
    requires U16At(buf, off) == HTAG_MODULE_ALIGN && U32At(buf, off + HTAG_SIZE) == 0
    ensures WalkFrom(buf, off, s) == Loops(s)
  {
    assert TagStep(0) == 0;
  }

  /** The walk with the size check the loop lacks: a tag smaller than its own header is rejected. */
  function WalkChecked(buf: seq<byte>, off: nat, s: Scan): Walk
    decreases |buf| - off
  {
    if off + HEADER_TAG_SIZE > |buf| then PastBuffer(s)
    else if U16At(buf, off) == HTAG_END then Done(s)
    else
      match TagEffect(buf, off, s)
      case Stop(w) => w
      case Continue(s') =>
        var size := U32At(buf, off + HTAG_SIZE);
        var step := TagStep(size);
        if size < HEADER_TAG_SIZE || step == 0 then Rejected(s') else WalkChecked(buf, off + step, s')
  }

  /**
   * The checked walk always ends, and it differs from the walk as written
   * only by rejecting: wherever the loop as written spins, it rejects.
   */
  lemma {:induction false} WalkCheckedEnds(buf: seq<byte>, off: nat, s: Scan)
    ensures !WalkChecked(buf, off, s).Loops?
    ensures WalkChecked(buf, off, s) == WalkFrom(buf, off, s) || WalkChecked(buf, off, s).Rejected?
    ensures WalkFrom(buf, off, s).Loops? ==> WalkChecked(buf, off, s).Rejected?
    decreases |buf| - off
  {
    if off + HEADER_TAG_SIZE <= |buf| && U16At(buf, off) != HTAG_END {
      match TagEffect(buf, off, s)
      case Stop(w) =>
      case Continue(s') =>
        var size := U32At(buf, off + HTAG_SIZE);
        var step := TagStep(size);
        if size >= HEADER_TAG_SIZE && step != 0 {
          WalkCheckedEnds(buf, off + step, s');
        }
    }
  }

  // ------------------------------------------------------------------
  // multiboot2_loadfile

  datatype Errno = EFTYPE | ENOMEM | EIO | EINVAL | OpenErrno(code: int)

  /** Everything multiboot2_loadfile gets from the file system and the platform. */
  datatype LoadInputs = LoadInputs(
    filenameNull: bool,     // filename == NULL
    kernelLoaded: bool,     // file_findfile found a kernel already
    openError: Option<int>, // errno from open()
    searchAllocOk: bool,    // malloc(MULTIBOOT_SEARCH)
    image: seq<byte>,       // the bytes read() returned (at most 32768)
    fileAllocOk: bool,      // file_alloc()
    lseekOk: bool,
    fstatOk: bool,
    fileSize: nat,          // st.st_size
    loadAddr: u64,          // what arch_loadaddr returned
    readIn: nat)            // what arch_readin returned

  /** The outcome; ReadsPastBuffer and LoopsForever (walks that end PastBuffer or Loops) are what the C code does not survive to report. */
  datatype LoadStatus = Loaded(fAddr: u64, fSize: nat) | Failed(err: Errno) | ReadsPastBuffer | LoopsForever

  /** The result together with the statics the call sets: keep_bs, and load_addr/entry_addr once both tags were found. */
  datatype LoadOutcome = LoadOutcome(status: LoadStatus, keepBs: bool, addrs: Option<(u32, u32)>)

  function LoadFile(inp: LoadInputs): LoadOutcome
  {
    if inp.filenameNull || inp.kernelLoaded then LoadOutcome(Failed(EFTYPE), false, None)
    else if inp.openError.Some? then LoadOutcome(Failed(OpenErrno(inp.openError.value)), false, None)
    else if !inp.searchAllocOk then LoadOutcome(Failed(ENOMEM), false, None)
    else if |inp.image| != SEARCH then LoadOutcome(Failed(EFTYPE), false, None)
    else
      var p := Search(inp.image);
      SearchSpec(inp.image);
      if !LengthOk(p) || !ChecksumOk(inp.image, p.header) then LoadOutcome(Failed(EFTYPE), false, None)
      else
        WalkDoneInside(inp.image, p.header + HEADER_SIZE, NoTags);
        AfterWalk(inp, WalkFrom(inp.image, p.header + HEADER_SIZE, NoTags))
  }

  /** Reading past the buffer is reported only for a walk that itself runs off the 32 KiB. */
  lemma ReadsPastOnlyInWalk(inp: LoadInputs)
    requires LoadFile(inp).status == ReadsPastBuffer
    ensures |inp.image| == SEARCH
    ensures WalkFrom(inp.image, Search(inp.image).header + HEADER_SIZE, NoTags).PastBuffer?
  {
    SearchSpec(inp.image);
  }

  /**
   * Every remembered tag's fixed fields (u16 type, u16 flags, u32 size and
   * the first u32 after them) lie inside the buffer: load_addr at +12 of an
   * address tag and entry_addr at +8 of an entry-address tag.
   */
  predicate FieldsInside(n: nat, s: Scan)
  {
    (s.addrTag.Some? ==> s.addrTag.value + ADDR_LOAD_ADDR + 4 <= n) &&
    (s.entryTag.Some? ==> s.entryTag.value + ENTRY_ENTRY_ADDR + 4 <= n)
  }

  /** Every remembered tag starts at least one tag header before off. */
  predicate ScanBefore(off: nat, s: Scan)
  {
    (s.addrTag.Some? ==> s.addrTag.value + HEADER_TAG_SIZE <= off) &&
    (s.entryTag.Some? ==> s.entryTag.value + HEADER_TAG_SIZE <= off)
  }

  /**
   * A walk that reaches END read an 8-byte END tag after every tag it
   * remembered, so load_addr and entry_addr, which the loader reads after the
   * walk without any bounds check, lie inside the 32 KiB buffer.
   */
  lemma {:induction false} WalkDoneInside(buf: seq<byte>, off: nat, s: Scan)
    requires ScanBefore(off, s)
    ensures WalkFrom(buf, off, s).Done? ==> FieldsInside(|buf|, WalkFrom(buf, off, s).scan)
    decreases |buf| - off
  {
    if off + HEADER_TAG_SIZE <= |buf| && U16At(buf, off) != HTAG_END {
      match TagEffect(buf, off, s)
      case Stop(w) =>
      case Continue(s') =>
        var step := TagStep(U32At(buf, off + HTAG_SIZE));
        if step != 0 {
          WalkDoneInside(buf, off + step, s');
        }
    }
  }

  /** What loadfile does once the walk has ended. */
  function AfterWalk(inp: LoadInputs, w: Walk): LoadOutcome
    requires w.Done? ==> FieldsInside(|inp.image|, w.scan)
  {
    var kb := w.scan.keepBs;
    match w
    case Rejected(_) => LoadOutcome(Failed(EFTYPE), kb, None)
    case PastBuffer(_) => LoadOutcome(ReadsPastBuffer, kb, None)
    case Loops(_) => LoadOutcome(LoopsForever, kb, None)
    case Done(s) =>
      if s.addrTag.None? || s.entryTag.None? then LoadOutcome(Failed(EFTYPE), kb, None)
      else if !inp.fileAllocOk then LoadOutcome(Failed(ENOMEM), kb, None)
      else if !inp.lseekOk || !inp.fstatOk then LoadOutcome(Failed(EIO), kb, None)
      else
        var addrs := (U32At(inp.image, s.addrTag.value + ADDR_LOAD_ADDR), U32At(inp.image, s.entryTag.value + ENTRY_ENTRY_ADDR));
        if inp.loadAddr == 0 then LoadOutcome(Failed(ENOMEM), kb, Some(addrs))
        else if inp.readIn != inp.fileSize then LoadOutcome(Failed(EIO), kb, Some(addrs))
        else LoadOutcome(Loaded(inp.loadAddr, inp.readIn), kb, Some(addrs))
  }

  /**
   * An image is accepted only if the search found a header of non-zero
   * length inside the window whose checksum holds, and its walk reached END
   * having seen both an address and an entry-address tag.
   */
  lemma LoadedImpliesValidHeader(inp: LoadInputs)
    requires LoadFile(inp).status.Loaded?
    ensures |inp.image| == SEARCH
    ensures var p := Search(inp.image);
            LengthOk(p) && ChecksumOk(inp.image, p.header) &&
            var w := WalkFrom(inp.image, p.header + HEADER_SIZE, NoTags);
            w.Done? && w.scan.addrTag.Some? && w.scan.entryTag.Some?
  {
  }

  /** A found header whose checksum fails is refused with EFTYPE. */
  lemma BadChecksumRejected(inp: LoadInputs)
    requires !inp.filenameNull && !inp.kernelLoaded && inp.openError.None? && inp.searchAllocOk
    requires |inp.image| == SEARCH && LengthOk(Search(inp.image))
    requires (SearchSpec(inp.image); !ChecksumOk(inp.image, Search(inp.image).header))
    ensures LoadFile(inp).status == Failed(EFTYPE)
  {
  }

  /** A walk that ends without an address tag or without an entry-address tag gives EFTYPE. */
  lemma MissingTagRejected(inp: LoadInputs, s: Scan)
    requires s.addrTag.None? || s.entryTag.None?
    requires FieldsInside(|inp.image|, s)
    ensures AfterWalk(inp, Done(s)).status == Failed(EFTYPE)
  {
  }

  /** The statics multiboot2_loadfile sets. */
  class KernelHeader {
    var keepBs: bool
    var loadAddr: u32
    var entryAddr: u32

    constructor ()
      ensures !keepBs && loadAddr == 0 && entryAddr == 0
    {
      keepBs := false;
      loadAddr := 0;
      entryAddr := 0;
    }

    /** multiboot2_loadfile: its result, with keep_bs and load_addr/entry_addr updated as the call sets them. */
    method LoadFileInto(inp: LoadInputs) returns (status: LoadStatus)
      modifies this
      ensures status == LoadFile(inp).status
      ensures keepBs == (old(keepBs) || LoadFile(inp).keepBs)
      ensures LoadFile(inp).addrs.Some? ==> (loadAddr, entryAddr) == LoadFile(inp).addrs.value
      ensures LoadFile(inp).addrs.None? ==> loadAddr == old(loadAddr) && entryAddr == old(entryAddr)
    {
      if inp.filenameNull || inp.kernelLoaded {
        return Failed(EFTYPE);
      }
      if inp.openError.Some? {
        return Failed(OpenErrno(inp.openError.value));
      }
      if !inp.searchAllocOk {
        return Failed(ENOMEM);
      }
      if |inp.image| != SEARCH {
        return Failed(EFTYPE);
      }
      var i, header, searchSize := FindHeader(inp.image);
      SearchSpec(inp.image);
      if searchSize == 0 || i + searchSize > SEARCH || !ChecksumOk(inp.image, header) {
        return Failed(EFTYPE);
      }
      var w := WalkTags(inp.image, header + HEADER_SIZE);
      WalkDoneInside(inp.image, header + HEADER_SIZE, NoTags);
      var o := AfterWalk(inp, w);
      if w.scan.keepBs {
        keepBs := true;
      }
      if o.addrs.Some? {
        loadAddr := o.addrs.value.0;
        entryAddr := o.addrs.value.1;
      }
      status := o.status;
    }
  }
}
