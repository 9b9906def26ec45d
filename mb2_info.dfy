/**
 * The boot-information block multiboot2_exec builds (multiboot2.c), as the
 * list of tags it writes and the size mbi_size estimates for it, together
 * with the physical layout of the modules and the chunk list handed to the
 * relocator.  The imperative writer that puts these tags into memory is
 * Mb2Writer; this module says what it writes.
 */
module Mb2Info {
  import opened Mb2
  import opened Wrappers
  import opened Mb2Tags
  import Mb2Header
  import Relocator
  import EfiLoadAddr

  /** A C string the loader formats; every one is far below the 32-bit sizes it is stored in. */
  type CStr = s: string | |s| < 0x100_0000

  /** The bytes of a NUL-free C string, one per character. */
  function Bytes(s: string): (r: seq<byte>)
    ensures |r| == |s|
  {
    seq(|s|, i requires 0 <= i < |s| => (s[i] as int) % 0x100)
  }

  /** A string as it is copied: its bytes and the terminating NUL. */
  function CString(s: string): (r: seq<byte>)
    ensures |r| == |s| + 1 && r[|s|] == 0
  {
    Bytes(s) + [0]
  }

  // ------------------------------------------------------------------
  // Modules

  /** One entry of the loaded-file list after the kernel: f_name, f_type, f_args, f_addr, f_size. */
  datatype ModFile = ModFile(name: CStr, typ: CStr, args: Option<CStr>, addr: u64, size: u64)

  /** The kernel file itself (the head of the list). */
  datatype Kernel = Kernel(addr: u64, size: u64)

  /** What snprintf formats for a module: "name type=T" or "name type=T args". */
  function ModuleCmdline(f: ModFile): string
  {
    f.name + " type=" + f.typ + (if f.args.Some? then " " + f.args.value else "")
  }

  /** num: the buffer multiboot2_exec allocates for that string. */
  function CmdBufLen(f: ModFile): nat
  {
    |f.name| + 1 + |f.typ| + 5 + 1 + (if f.args.Some? then |f.args.value| + 1 else 0)
  }

  /** The buffer holds exactly the formatted string and its NUL, with or without arguments. */
  lemma CmdBufLenCovers(f: ModFile)
    ensures CmdBufLen(f) == |CString(ModuleCmdline(f))|
  {
    var s := f.name + " type=" + f.typ;
    assert |s| == |f.name| + 6 + |f.typ|;
    if f.args.Some? {
      assert ModuleCmdline(f) == s + (" " + f.args.value);
    } else {
      assert ModuleCmdline(f) == s + "";
    }
  }

  /** The module tag for f: size 16 + num, mod_start, mod_end, then the command line. */
  function ModuleTag(f: ModFile, start: u32, end: u32): (t: Tag)
    ensures ValidTag(t) && t.typ == TAG_MODULE && t.size == MODULE_TAG_SIZE + CmdBufLen(f)
  {
    CmdBufLenCovers(f);
    Tag(TAG_MODULE, MODULE_TAG_SIZE + CmdBufLen(f), Put32(start) + Put32(end) + CString(ModuleCmdline(f)))
  }

  /** The tag's body starts with mod_start and mod_end, then holds the NUL-terminated command line. */
  lemma ModuleTagFields(f: ModFile, start: u32, end: u32)
    ensures var b := ModuleTag(f, start, end).body;
            |b| >= 8 && b[0..4] == Put32(start) && b[4..8] == Put32(end) && b[8..] == CString(ModuleCmdline(f))
  {
    var b := ModuleTag(f, start, end).body;
    assert b == Put32(start) + Put32(end) + CString(ModuleCmdline(f));
    assert b[0..4] == Put32(start);
    assert b[4..8] == Put32(end);
  }

  /** roundup2 of a 32-bit mod_end: the addition wraps in unsigned 32-bit arithmetic. */
  function NextStart(modEnd: u32): (r: u32)
    ensures r % 4096 == 0
  {
    ((modEnd + 4095) % U32_MOD) / 4096 * 4096
  }

  /** The first module's address: roundup2(load_addr + kernel size, 4096) in 64-bit arithmetic. */
  function FirstStart(loadAddr: u64, k: Kernel): (r: nat)
    ensures r % 4096 == 0
  {
    ((loadAddr + k.size + 4095) % U64_MOD) / 4096 * 4096
  }

  /** Without 64-bit wrap-around the first module starts at or after the kernel's end. */
  lemma FirstStartAbove(loadAddr: u64, k: Kernel)
    requires loadAddr + k.size + 4095 < U64_MOD
    ensures loadAddr + k.size <= FirstStart(loadAddr, k)
  {
  }

  /** mod_start and mod_end of each module tag when the first module is placed at tmp. */
  function Layout(mods: seq<ModFile>, tmp: nat): (r: seq<(u32, u32)>)
    ensures |r| == |mods|
  {
    if |mods| == 0 then []
    else
      var end := (tmp + mods[0].size) % U32_MOD;
      [(tmp % U32_MOD, end)] + Layout(mods[1..], NextStart(end))
  }

  /** The tmp the module loop leaves behind: where the MBI itself is placed. */
  function AfterModules(mods: seq<ModFile>, tmp: nat): nat
  {
    if |mods| == 0 then tmp
    else AfterModules(mods[1..], NextStart((tmp + mods[0].size) % U32_MOD))
  }

  /** The module tags in list order. */
  function ModuleTags(mods: seq<ModFile>, tmp: nat): (r: seq<Tag>)
    ensures |r| == |mods|
  {
    if |mods| == 0 then []
    else
      var end := (tmp + mods[0].size) % U32_MOD;
      [ModuleTag(mods[0], tmp % U32_MOD, end)] + ModuleTags(mods[1..], NextStart(end))
  }

  lemma ModuleTagsValid(mods: seq<ModFile>, tmp: nat)
    ensures AllValid(ModuleTags(mods, tmp))
  {
    var ts := ModuleTags(mods, tmp);
    forall k | 0 <= k < |ts| ensures ValidTag(ts[k]) {
      ModuleTagAt(mods, tmp, k);
    }
  }

  /** The k-th module tag carries the k-th layout entry. */
  lemma {:induction false} ModuleTagAt(mods: seq<ModFile>, tmp: nat, k: nat)
    requires k < |mods|
    ensures var (s, e) := Layout(mods, tmp)[k];
            ModuleTags(mods, tmp)[k] == ModuleTag(mods[k], s, e)
    decreases k
  {
    if k > 0 {
      var end := (tmp + mods[0].size) % U32_MOD;
      ModuleTagAt(mods[1..], NextStart(end), k - 1);
    }
  }

  /** The module loop's tmp after the first k files. */
  lemma {:induction false} AfterModulesSnoc(mods: seq<ModFile>, f: ModFile, tmp: nat)
    ensures AfterModules(mods + [f], tmp) == NextStart((AfterModules(mods, tmp) + f.size) % U32_MOD)
    decreases |mods|
  {
    if |mods| == 0 {
      assert mods + [f] == [f];
      assert [f][1..] == [];
    } else {
      assert (mods + [f])[0] == mods[0];
      assert (mods + [f])[1..] == mods[1..] + [f];
      AfterModulesSnoc(mods[1..], f, NextStart((tmp + mods[0].size) % U32_MOD));
    }
  }

  lemma AfterModulesStep(mods: seq<ModFile>, tmp: nat, k: nat)
    requires k < |mods|
    ensures AfterModules(mods[..k + 1], tmp) == NextStart((AfterModules(mods[..k], tmp) + mods[k].size) % U32_MOD)
  {
    assert mods[..k + 1] == mods[..k] + [mods[k]];
    AfterModulesSnoc(mods[..k], mods[k], tmp);
  }

  /** The k-th module tag is built from the tmp the loop has reached after k files. */
  lemma {:induction false} ModuleTagAfter(mods: seq<ModFile>, tmp: nat, k: nat)
    requires k < |mods|
    ensures var a := AfterModules(mods[..k], tmp);
            ModuleTags(mods, tmp)[k] == ModuleTag(mods[k], a % U32_MOD, (a + mods[k].size) % U32_MOD)
    decreases k
  {
    if k > 0 {
      var tmp' := NextStart((tmp + mods[0].size) % U32_MOD);
      assert mods[..k][1..] == mods[1..][..k - 1];
      ModuleTagAfter(mods[1..], tmp', k - 1);
    }
  }

  /** Every mod_start is page-aligned, whatever the addresses. */
  lemma {:induction false} LayoutAligned(mods: seq<ModFile>, tmp: nat, k: nat)
    requires tmp % 4096 == 0 && k < |mods|
    ensures Layout(mods, tmp)[k].0 % 4096 == 0
    decreases k
  {
    if k == 0 {
      assert Layout(mods, tmp)[0].0 == tmp % U32_MOD;
      PageMod32(tmp);
    } else {
      var next := NextStart((tmp + mods[0].size) % U32_MOD);
      assert Layout(mods, tmp)[k] == Layout(mods[1..], next)[k - 1];
      LayoutAligned(mods[1..], next, k - 1);
    }
  }

  /** A page-aligned address stays page-aligned when cut to 32 bits. */
  lemma PageMod32(a: nat)
    requires a % 4096 == 0
    ensures (a % U32_MOD) % 4096 == 0
  {
    var p := a / 4096;
    var q := a / U32_MOD;
    assert a == 4096 * p;
    assert a % U32_MOD == 4096 * (p - q * 0x10_0000);
  }

  /** No module, nor its page-rounded end, reaches past 4 GiB: the 32-bit fields hold the true addresses. */
  predicate Below4G(mods: seq<ModFile>, tmp: nat)
    decreases |mods|
  {
    if |mods| == 0 then tmp < U32_MOD
    else tmp + mods[0].size + 4095 < U32_MOD && Below4G(mods[1..], RoundUpPage(tmp + mods[0].size))
  }

  /**
   * Below 4 GiB, module k occupies exactly its size from its start, the
   * first starts at tmp, each next one at the page boundary after the
   * previous end, and the MBI goes after them all.
   */
  lemma {:induction false} ModuleLayout(mods: seq<ModFile>, tmp: nat, k: nat)
    requires Below4G(mods, tmp) && k < |mods|
    ensures var l := Layout(mods, tmp);
            l[k].1 == l[k].0 + mods[k].size &&
            (k == 0 ==> l[k].0 == tmp) &&
            (k + 1 < |mods| ==> l[k + 1].0 == RoundUpPage(l[k].1)) &&
            tmp <= l[k].0 && l[k].1 <= AfterModules(mods, tmp)
    decreases |mods|
  {
    var end := (tmp + mods[0].size) % U32_MOD;
    assert end == tmp + mods[0].size;
    assert NextStart(end) == RoundUpPage(end);
    var tmp' := NextStart(end);
    var l := Layout(mods, tmp);
    assert l[1..] == Layout(mods[1..], tmp');
    AfterBelow(mods[1..], tmp');
    if k == 0 {
      if 1 < |mods| {
        ModuleLayout(mods[1..], tmp', 0);
      }
    } else {
      ModuleLayout(mods[1..], tmp', k - 1);
      assert l[k] == Layout(mods[1..], tmp')[k - 1];
      if k + 1 < |mods| {
        assert l[k + 1] == Layout(mods[1..], tmp')[k];
      }
    }
  }

  /** The MBI address is at or above where the module loop started. */
  lemma {:induction false} AfterBelow(mods: seq<ModFile>, tmp: nat)
    requires Below4G(mods, tmp)
    ensures tmp <= AfterModules(mods, tmp) < U32_MOD
    decreases |mods|
  {
    if |mods| > 0 {
      var end := (tmp + mods[0].size) % U32_MOD;
      assert end == tmp + mods[0].size;
      AfterBelow(mods[1..], NextStart(end));
    }
  }

  /** Module ranges are increasing and pairwise disjoint. */
  lemma ModulesDisjoint(mods: seq<ModFile>, tmp: nat, i: nat, j: nat)
    requires Below4G(mods, tmp) && i < j < |mods|
    ensures Layout(mods, tmp)[i].1 <= Layout(mods, tmp)[j].0
    decreases j - i
  {
    var l := Layout(mods, tmp);
    ModuleLayout(mods, tmp, i);
    ModuleLayout(mods, tmp, i + 1);
    if i + 1 < j {
      ModulesDisjoint(mods, tmp, i + 1, j);
    }
  }

  // ------------------------------------------------------------------
  // module_size

  /** One module's contribution: the fixed part of the tag and num. */
  function ModuleTerm(f: ModFile): nat
  {
    MODULE_TAG_SIZE + CmdBufLen(f)
  }

  /** module_size's running total, continued from size over mods. */
  function ModuleSizeFrom(mods: seq<ModFile>, size: nat): nat
    decreases |mods|
  {
    if |mods| == 0 then size else ModuleSizeFrom(mods[1..], RoundUp8(size + ModuleTerm(mods[0])))
  }

  /** module_size: the loop over the modules. */
  method ModuleSize(mods: seq<ModFile>) returns (size: nat)
    ensures size == ModuleSizeFrom(mods, 0)
  {
    size := 0;
    var i := 0;
    while i < |mods|
      invariant i <= |mods|
      invariant ModuleSizeFrom(mods[i..], size) == ModuleSizeFrom(mods, 0)
    {
      assert mods[i..][1..] == mods[i + 1..];
      size := size + ModuleTerm(mods[i]);
      size := RoundUp8(size);
      i := i + 1;
    }
  }

  /** The estimator charges each module exactly the slot its tag takes. */
  lemma ModuleTagsCons(mods: seq<ModFile>, tmp: nat)
    requires |mods| > 0
    ensures var ts := ModuleTags(mods, tmp);
            ts[1..] == ModuleTags(mods[1..], NextStart((tmp + mods[0].size) % U32_MOD)) &&
            Slot(ts[0]) == RoundUp8(ModuleTerm(mods[0]))
  {
    var ts := ModuleTags(mods, tmp);
    ModuleTagAt(mods, tmp, 0);
  }

  lemma {:induction false} ModuleSizeIsSpan(mods: seq<ModFile>, size: nat, tmp: nat)
    requires size % 8 == 0
    ensures ModuleSizeFrom(mods, size) == size + Span(ModuleTags(mods, tmp))
    decreases |mods|
  {
    if |mods| > 0 {
      var ts := ModuleTags(mods, tmp);
      var next := NextStart((tmp + mods[0].size) % U32_MOD);
      ModuleTagsCons(mods, tmp);
      RoundUp8Shift(size, ModuleTerm(mods[0]));
      assert ModuleSizeFrom(mods, size) == ModuleSizeFrom(mods[1..], size + Slot(ts[0]));
      ModuleSizeIsSpan(mods[1..], size + Slot(ts[0]), next);
      assert Span(ts) == Slot(ts[0]) + Span(ModuleTags(mods[1..], next));
    }
  }

  // ------------------------------------------------------------------
  // The other tags

  /** A CMDLINE or BOOT_LOADER_NAME tag: 8 + strlen + 1 bytes, the string and its NUL. */
  function StringTag(typ: u32, s: CStr): (t: Tag)
    ensures ValidTag(t) && t.size == STRING_TAG_SIZE + |s| + 1
  {
    Tag(typ, STRING_TAG_SIZE + |s| + 1, CString(s))
  }

  /** A BIOS SMAP list as efi_getsmap attaches it (struct bios_smap is laid out as an mmap entry less its zero field). */
  type Smap = s: seq<MmapEntry> | |s| < 0x100_0000

  function Entries(es: seq<MmapEntry>): (r: seq<byte>)
    ensures |r| == MMAP_ENTRY_SIZE * |es|
  {
    if |es| == 0 then [] else EncodeMmapEntry(es[0]) + Entries(es[1..])
  }

  /** The i-th entry's 24 bytes sit at 24 * i. */
  lemma {:induction false} EntriesAt(es: seq<MmapEntry>, i: nat)
    requires i < |es|
    ensures Entries(es)[MMAP_ENTRY_SIZE * i..MMAP_ENTRY_SIZE * (i + 1)] == EncodeMmapEntry(es[i])
    decreases i
  {
    var r := Entries(es);
    if i == 0 {
      assert r[..MMAP_ENTRY_SIZE] == EncodeMmapEntry(es[0]);
    } else {
      EntriesAt(es[1..], i - 1);
      var a := MMAP_ENTRY_SIZE * i;
      assert r[MMAP_ENTRY_SIZE..] == Entries(es[1..]);
      SubSlice(r, MMAP_ENTRY_SIZE, |r|, a - MMAP_ENTRY_SIZE, a);
    }
  }

  /** The MMAP tag: 16 + 24n bytes, entry_size 24, entry_version 0, the entries in order. */
  function MmapTag(es: Smap): (t: Tag)
    ensures ValidTag(t) && t.typ == TAG_MMAP && t.size == MMAP_TAG_SIZE + MMAP_ENTRY_SIZE * |es|
  {
    Tag(TAG_MMAP, MMAP_TAG_SIZE + MMAP_ENTRY_SIZE * |es|, Put32(MMAP_ENTRY_SIZE) + Put32(0) + Entries(es))
  }

  /** What the kernel finds in that tag: entry_size 24, version 0, and entry i as given. */
  lemma MmapTagLayout(es: Smap, i: nat)
    requires i < |es|
    ensures var b := MmapTag(es).body;
            U32At(b, 0) == MMAP_ENTRY_SIZE && U32At(b, 4) == 0 &&
            b[8 + MMAP_ENTRY_SIZE * i..8 + MMAP_ENTRY_SIZE * (i + 1)] == EncodeMmapEntry(es[i])
  {
    var b := MmapTag(es).body;
    assert b[0..4] == Put32(MMAP_ENTRY_SIZE);
    assert b[4..8] == Put32(0);
    U32RoundTrip(b, 0, MMAP_ENTRY_SIZE);
    U32RoundTrip(b, 4, 0);
    EntriesAt(es, i);
    assert b[8..] == Entries(es);
    SubSlice(b, 8, |b|, MMAP_ENTRY_SIZE * i, MMAP_ENTRY_SIZE * (i + 1));
  }

  /** The RSDP's Length field; lengths near 2^31 would wrap the int the writer keeps them in. */
  type RsdpLen = x: int | 0 <= x < 0x7fff_0000

  /** The RSDP as the firmware tables give it: Revision, the Length field, and the bytes from its start. */
  datatype Rsdp = Rsdp(revision: byte, length: RsdpLen, table: seq<byte>)

  /** sizeof (ACPI_RSDP_COMMON): the ACPI 1.0 part of the RSDP. */
  const RSDP_COMMON_SIZE: nat := 20

  /** The bytes the writer copies are there to read. */
  predicate RsdpReadable(r: Rsdp)
  {
    RSDP_COMMON_SIZE <= |r.table| && (r.revision != 0 ==> r.length <= |r.table|)
  }

  /** How the old-ACPI tag is sized: by the Length field (the writer) or as the estimator counts it. */
  datatype OldAcpiSizing = ByLength | ByCommonPart

  /** The ACPI tag, if there is an RSDP: old (revision 0, 20 bytes copied) or new (Length bytes). */
  function AcpiTags(rsdp: Option<Rsdp>, sizing: OldAcpiSizing): (r: seq<Tag>)
    requires rsdp.Some? ==> RsdpReadable(rsdp.value)
    ensures |r| == (if rsdp.Some? then 1 else 0)
  {
    match rsdp
    case None => []
    case Some(p) =>
      if p.revision == 0 then
        var size := if sizing == ByLength then ACPI_TAG_SIZE + p.length else ACPI_TAG_SIZE + RSDP_COMMON_SIZE;
        [Tag(TAG_ACPI_OLD, size, p.table[..RSDP_COMMON_SIZE])]
      else [Tag(TAG_ACPI_NEW, ACPI_TAG_SIZE + p.length, p.table[..p.length])]
  }

  function Efi64Tag(systemTable: u64): (t: Tag)
    ensures ValidTag(t) && t.size == EFI64_TAG_SIZE
  {
    Tag(TAG_EFI64, EFI64_TAG_SIZE, Put64(systemTable))
  }

  /** The GOP framebuffer efi_find_framebuffer reports. */
  datatype EfiFb = EfiFb(addr: u64, width: u32, height: u32, stride: u32,
                         maskRed: u32, maskGreen: u32, maskBlue: u32, maskReserved: u32)

  /** fls: the position of the highest set bit, 0 for 0. */
  function Fls(x: nat): (r: nat)
  {
    if x == 0 then 0 else 1 + Fls(x / 2)
  }

  function Pow2(n: nat): (p: nat)
    ensures p > 0
  {
    if n == 0 then 1 else 2 * Pow2(n - 1)
  }

  /** fls(x) is the number of bits x needs. */
  lemma {:induction false} FlsBits(x: nat)
    ensures x < Pow2(Fls(x))
    ensures x > 0 ==> Pow2(Fls(x) - 1) <= x
  {
    if x > 0 {
      FlsBits(x / 2);
    }
  }

  lemma {:induction false} FlsMonotone(x: nat, n: nat)
    requires x < Pow2(n)
    ensures Fls(x) <= n
  {
    if x > 0 {
      FlsMonotone(x / 2, n - 1);
    }
  }

  /** Bitwise OR of two unsigned values. */
  function BitOr(a: nat, b: nat): nat
    decreases a + b
  {
    if a == 0 && b == 0 then 0
    else (if a % 2 == 1 || b % 2 == 1 then 1 else 0) + 2 * BitOr(a / 2, b / 2)
  }

  function Max(a: nat, b: nat): nat { if a < b then b else a }

  /** The highest bit set in a | b is the higher of the two highest bits. */
  lemma {:induction false} FlsOr(a: nat, b: nat)
    ensures Fls(BitOr(a, b)) == Max(Fls(a), Fls(b))
    decreases a + b
  {
    if a != 0 || b != 0 {
      FlsOr(a / 2, b / 2);
      var v := BitOr(a, b);
      assert v > 0 && v / 2 == BitOr(a / 2, b / 2);
    }
  }

  /** The OR of the four channel masks. */
  function MaskBits(fb: EfiFb): nat
  {
    BitOr(BitOr(BitOr(fb.maskRed, fb.maskGreen), fb.maskBlue), fb.maskReserved)
  }

  /** The framebuffer's bits per pixel: how many bits the masks span. */
  function FbBpp(fb: EfiFb): (r: byte)
    ensures r == Max(Max(Max(Fls(fb.maskRed), Fls(fb.maskGreen)), Fls(fb.maskBlue)), Fls(fb.maskReserved))
  {
    assert Pow2(32) == U32_MOD by {
      assert Pow2(8) == 0x100;
      assert Pow2(16) == 0x1_0000;
      assert Pow2(24) == 0x100_0000;
    }
    FlsOr(fb.maskRed, fb.maskGreen);
    FlsOr(BitOr(fb.maskRed, fb.maskGreen), fb.maskBlue);
    FlsOr(BitOr(BitOr(fb.maskRed, fb.maskGreen), fb.maskBlue), fb.maskReserved);
    FlsMonotone(fb.maskRed, 32);
    FlsMonotone(fb.maskGreen, 32);
    FlsMonotone(fb.maskBlue, 32);
    FlsMonotone(fb.maskReserved, 32);
    Fls(MaskBits(fb))
  }

  /** Red at bit 0 and blue at bit 16 when the red mask has low bits, else the other way round. */
  function RedPos(fb: EfiFb): byte
  {
    if fb.maskRed % 0x100 != 0 then 0 else 16
  }

  function BluePos(fb: EfiFb): byte
  {
    if fb.maskRed % 0x100 != 0 then 16 else 0
  }

  /** The FRAMEBUFFER tag: the common part, type RGB, then the six RGB field bytes. */
  function FbTag(fb: EfiFb): (t: Tag)
    ensures ValidTag(t) && t.typ == TAG_FRAMEBUFFER && t.size == FRAMEBUFFER_TAG_SIZE
  {
    var bpp := FbBpp(fb);
    var pitch := (fb.stride * (bpp / 8)) % U32_MOD;
    Tag(TAG_FRAMEBUFFER, FRAMEBUFFER_TAG_SIZE,
        Put64(fb.addr) + Put32(pitch) + Put32(fb.width) + Put32(fb.height) +
        [bpp, FRAMEBUFFER_TYPE_RGB] + Put16(0) +
        [RedPos(fb), 8, 8, 8, BluePos(fb), 8])
  }

  /** The red and blue fields never coincide. */
  lemma FbChannelsApart(fb: EfiFb)
    ensures {RedPos(fb), BluePos(fb)} == {0, 16}
  {
  }

  /** The UEFI map size a second GetMemoryMap reports, far below 2^31. */
  type MapSize = x: int | 0 <= x < 0x7fff_0000

  /**
   * The two GetMemoryMap calls made into the tag: whether the first (with
   * size 0) reported EFI_BUFFER_TOO_SMALL, whether the second succeeded, the
   * map size and descriptor size and version, and the map bytes the tag ends
   * up holding.
   */
  datatype EfiMap = EfiMap(firstTooSmall: bool, secondOk: bool, size: MapSize,
                           descSize: u64, descVers: u32, bytes: seq<byte>)

  /** The EFI_MMAP tag: 16 + map size bytes, descr_size (truncated to 32 bits), descr_vers, the map. */
  function EfiMmapTag(m: EfiMap): (t: Tag)
    requires |m.bytes| == m.size
    ensures ValidTag(t) && t.typ == TAG_EFI_MMAP && t.size == EFI_MMAP_TAG_SIZE + m.size
  {
    Tag(TAG_EFI_MMAP, EFI_MMAP_TAG_SIZE + m.size, Put32(m.descSize % U32_MOD) + Put32(m.descVers) + m.bytes)
  }

  const EndTag: Tag := Tag(TAG_END, TAG_HEADER_SIZE, [])

  // ------------------------------------------------------------------
  // multiboot2_exec

  /**
   * Everything multiboot2_exec depends on.  cmdline is mb_kernel_cmdline's
   * result (None: no memory); mapEstimate is efimemmap_size's result;
   * granted is the firmware's answer to the MBI page allocation;
   * firstAllocFailure is the first module whose command-line buffer cannot
   * be allocated.
   */
  datatype ExecInputs = ExecInputs(
    rootdevOk: bool, cmdline: Option<CStr>, loaderName: CStr,
    kernel: Kernel, mods: seq<ModFile>, firstAllocFailure: Option<nat>,
    loadAddr: u64, smap: Option<Smap>, rsdp: Option<Rsdp>, systemTable: u64,
    fb: Option<EfiFb>, mapEstimate: nat, memMap: EfiMap, granted: Option<u64>)

  /** The inputs describe memory the writer can read. */
  predicate Readable(inp: ExecInputs)
  {
    (inp.rsdp.Some? ==> RsdpReadable(inp.rsdp.value)) && |inp.memMap.bytes| == inp.memMap.size
  }

  predicate HasRootfs(mods: seq<ModFile>)
  {
    exists k :: 0 <= k < |mods| && mods[k].typ == "rootfs"
  }

  /** biossmap_size. */
  function BiosSmapSize(smap: Option<Smap>): nat
  {
    if smap.None? then 0 else MMAP_TAG_SIZE + MMAP_ENTRY_SIZE * |smap.value|
  }

  /** size += n; size = roundup2(size, 8): how mbi_size adds each tag. */
  function Grow(size: nat, n: nat): nat
  {
    RoundUp8(size + n)
  }

  lemma GrowAligned(size: nat, n: nat)
    requires size % 8 == 0
    ensures Grow(size, n) == size + RoundUp8(n)
  {
    RoundUp8Shift(size, n);
  }

  /** The unrounded map estimate, followed by the framebuffer tag, is rounded by it. */
  lemma GrowSlack(size: nat, est: nat, n: nat)
    requires size % 8 == 0 && n % 8 == 0
    ensures Grow(size + est, n) == size + n + RoundUp8(est)
  {
    RoundUp8Shift(size + n, est);
    assert size + est + n == size + n + est;
  }

  lemma BiosSmapAligned(smap: Option<Smap>)
    ensures BiosSmapSize(smap) % 8 == 0
  {
    if smap.Some? {
      var n := |smap.value|;
      assert BiosSmapSize(smap) == 8 * (2 + 3 * n);
    }
  }

  /**
   * mbi_size's sum on the EFI path, from the sizes of its parts: the two
   * string tags, module_size, efimemmap_size, biossmap_size and the ACPI tag.
   */
  function EstimateFrom(cmdline: nat, name: nat, modules: nat, efiMap: nat, smap: nat, acpi: Option<nat>): nat
  {
    var s2 := Grow(Grow(INFO_HEADER_SIZE, cmdline), name);
    var s4 := Grow(Grow(s2, modules), EFI64_TAG_SIZE);
    // efimemmap_size's result is added without rounding; the framebuffer tag rounds it
    var s7 := Grow(Grow(s4 + efiMap, FRAMEBUFFER_TAG_SIZE), smap);
    (if acpi.None? then s7 else Grow(s7, acpi.value)) + TAG_HEADER_SIZE
  }

  /** The ACPI tag as the estimator counts it: 8 + 20 for revision 0, else 8 + Length. */
  function AcpiEstimate(rsdp: Option<Rsdp>): Option<nat>
  {
    match rsdp
    case None => None
    case Some(p) => Some(ACPI_TAG_SIZE + (if p.revision == 0 then RSDP_COMMON_SIZE else p.length))
  }

  /** mbi_size on the EFI path: the estimate the MBI pages are allocated for. */
  function MbiSize(inp: ExecInputs, cl: CStr): nat
  {
    EstimateFrom(STRING_TAG_SIZE + |cl| + 1, STRING_TAG_SIZE + |inp.loaderName| + 1,
                 ModuleSizeFrom(inp.mods, 0), inp.mapEstimate, BiosSmapSize(inp.smap), AcpiEstimate(inp.rsdp))
  }

  /** The kernel's end, where efi_loadaddr is asked to place the MBI near: the last file's end. */
  function LastEnd(inp: ExecInputs): nat
  {
    if |inp.mods| == 0 then inp.kernel.addr + inp.kernel.size
    else inp.mods[|inp.mods| - 1].addr + inp.mods[|inp.mods| - 1].size
  }

  /** The MBI's address: efi_loadaddr(LOAD_MEM, &size, end of the last file), with size an int. */
  function MbiAddr(inp: ExecInputs, cl: CStr): u64
  {
    EfiLoadAddr.LoadAddr(EfiLoadAddr.LoadMem, EfiLoadAddr.ToInt(MbiSize(inp, cl)), 0, LastEnd(inp) % U64_MOD, inp.granted)
  }

  /** The bytes allocated for the MBI: whole pages for the estimate. */
  function Room(inp: ExecInputs, cl: CStr): nat
  {
    EfiLoadAddr.PagesFor(MbiSize(inp, cl)) * EfiLoadAddr.EFI_PAGE_SIZE
  }

  /** The tags written, in order, and the error that stops the writer if there is one. */
  datatype Plan = Plan(tags: seq<Tag>, err: Option<Mb2Header.Errno>)

  /** The first module index below n whose buffer allocation fails. */
  function FailingModule(inp: ExecInputs): Option<nat>
  {
    if inp.firstAllocFailure.Some? && inp.firstAllocFailure.value < |inp.mods| then inp.firstAllocFailure
    else None
  }

  /** The CMDLINE and BOOT_LOADER_NAME tags. */
  function HeadTags(inp: ExecInputs, cl: CStr): (r: seq<Tag>)
    ensures AllValid(r)
  {
    var r := [StringTag(TAG_CMDLINE, cl), StringTag(TAG_BOOT_LOADER_NAME, inp.loaderName)];
    assert ValidTag(r[0]) && ValidTag(r[1]);
    r
  }

  /** MMAP, ACPI, EFI64 and FRAMEBUFFER, in that order. */
  function FirmwareTags(inp: ExecInputs, smap: Smap, sizing: OldAcpiSizing): seq<Tag>
    requires Readable(inp)
  {
    [MmapTag(smap)] + AcpiTags(inp.rsdp, sizing) + [Efi64Tag(inp.systemTable)] +
    (if inp.fb.Some? then [FbTag(inp.fb.value)] else [])
  }

  /** EFI_MMAP and END. */
  function TailTags(inp: ExecInputs): (r: seq<Tag>)
    requires Readable(inp)
    ensures AllValid(r)
  {
    var r := [EfiMmapTag(inp.memMap), EndTag];
    assert ValidTag(r[0]) && ValidTag(r[1]);
    r
  }

  /** multiboot2_exec from the point the MBI exists: which tags it writes and where it stops. */
  function PlanTags(inp: ExecInputs, cl: CStr, sizing: OldAcpiSizing): (p: Plan)
    requires Readable(inp)
  {
    var head := HeadTags(inp, cl);
    if |inp.mods| == 0 || !HasRootfs(inp.mods) then Plan(head, Some(Mb2Header.EINVAL))
    else
      var tmp := FirstStart(inp.loadAddr, inp.kernel);
      var fail := FailingModule(inp);
      if fail.Some? then Plan(head + ModuleTags(inp.mods[..fail.value], tmp), Some(Mb2Header.ENOMEM))
      else if inp.smap.None? then Plan(head + ModuleTags(inp.mods, tmp), Some(Mb2Header.EINVAL))
      else
        var body := head + ModuleTags(inp.mods, tmp) + FirmwareTags(inp, inp.smap.value, sizing);
        if !inp.memMap.firstTooSmall || !inp.memMap.secondOk then Plan(body, Some(Mb2Header.EINVAL))
        else Plan(body + TailTags(inp), None)
  }

  /** The plan up to the module loop: the strings, then the modules or the errno that stops it before or inside the loop. */
  function FrontPlan(inp: ExecInputs, cl: CStr): (p: Plan)
  {
    var head := HeadTags(inp, cl);
    if |inp.mods| == 0 || !HasRootfs(inp.mods) then Plan(head, Some(Mb2Header.EINVAL))
    else
      var tmp := FirstStart(inp.loadAddr, inp.kernel);
      var fail := FailingModule(inp);
      if fail.Some? then Plan(head + ModuleTags(inp.mods[..fail.value], tmp), Some(Mb2Header.ENOMEM))
      else Plan(head + ModuleTags(inp.mods, tmp), None)
  }

  /** The whole plan continues the front one: SMAP, firmware tags, the EFI map and END. */
  lemma PlanFromFront(inp: ExecInputs, cl: CStr, sizing: OldAcpiSizing)
    requires Readable(inp)
    ensures var f := FrontPlan(inp, cl);
            var p := PlanTags(inp, cl, sizing);
            if f.err.Some? then p == f
            else if inp.smap.None? then p == Plan(f.tags, Some(Mb2Header.EINVAL))
            else
              var body := f.tags + FirmwareTags(inp, inp.smap.value, sizing);
              if !inp.memMap.firstTooSmall || !inp.memMap.secondOk then p == Plan(body, Some(Mb2Header.EINVAL))
              else p == Plan(body + TailTags(inp), None)
  {
  }

  /** Whatever follows, the plan starts with the front plan's tags. */
  lemma PlanExtendsFront(inp: ExecInputs, cl: CStr, sizing: OldAcpiSizing)
    requires Readable(inp)
    ensures var f := FrontPlan(inp, cl);
            var p := PlanTags(inp, cl, sizing);
            |f.tags| <= |p.tags| && p.tags == f.tags + p.tags[|f.tags|..]
  {
    PlanFromFront(inp, cl, sizing);
  }

  /** The relocator's chunk list: kernel, each module, then the MBI itself. */
  function Chunks(inp: ExecInputs, mbi: nat, total: nat): (cs: seq<Relocator.Chunk>)
    ensures |cs| == |inp.mods| + 2
  {
    var tmp := FirstStart(inp.loadAddr, inp.kernel);
    [Relocator.Chunk(inp.kernel.addr, inp.loadAddr, inp.kernel.size)] +
    ModChunks(inp.mods, Layout(inp.mods, tmp)) +
    [Relocator.Chunk(mbi, AfterModules(inp.mods, tmp), total)]
  }

  function ModChunks(mods: seq<ModFile>, l: seq<(u32, u32)>): (cs: seq<Relocator.Chunk>)
    requires |l| == |mods|
    ensures |cs| == |mods|
    ensures forall k :: 0 <= k < |mods| ==> cs[k] == Relocator.Chunk(mods[k].addr, l[k].0, mods[k].size)
  {
    seq(|mods|, k requires 0 <= k < |mods| => Relocator.Chunk(mods[k].addr, l[k].0, mods[k].size))
  }

  /** How multiboot2_exec ends: at the relocator with a chunk list, with an errno, or writing past the MBI pages. */
  datatype ExecResult = Handoff(mbi: u64, total: u32, chunks: seq<Relocator.Chunk>)
                      | Error(err: Mb2Header.Errno)
                      | Overrun

  /** Written: the bytes from the MBI start to the cursor after the last tag. */
  function Used(p: Plan): nat
  {
    INFO_HEADER_SIZE + Span(p.tags)
  }

  /** multiboot2_exec up to the relocator hand-off. */
  function Outcome(inp: ExecInputs, sizing: OldAcpiSizing): (r: ExecResult)
    requires Readable(inp)
  {
    if !inp.rootdevOk then Error(Mb2Header.EINVAL)
    else if inp.cmdline.None? then Error(Mb2Header.ENOMEM)
    else
      var cl := inp.cmdline.value;
      var mbi := MbiAddr(inp, cl);
      if mbi == 0 then Error(Mb2Header.ENOMEM)
      else
        var p := PlanTags(inp, cl, sizing);
        if !FitsFrom(p.tags, INFO_HEADER_SIZE, Room(inp, cl)) then Overrun
        else if p.err.Some? then Error(p.err.value)
        else
          var total := Used(p) % U32_MOD;
          Handoff(mbi, total, Chunks(inp, mbi, total))
  }

  /** Each chunk's destination ends before the next one's begins. */
  predicate DestinationsAscend(cs: seq<Relocator.Chunk>)
  {
    forall j, k :: 0 <= j < k < |cs| ==> cs[j].paddr + cs[j].size <= cs[k].paddr
  }

  /**
   * When neither the kernel's end nor any module's end wraps, the kernel,
   * the modules in list order and the MBI get ascending destinations.
   */
  lemma ChunksAscend(inp: ExecInputs, mbi: nat, total: nat)
    requires inp.loadAddr + inp.kernel.size + 4095 < U64_MOD
    requires Below4G(inp.mods, FirstStart(inp.loadAddr, inp.kernel))
    ensures DestinationsAscend(Chunks(inp, mbi, total))
  {
    var cs := Chunks(inp, mbi, total);
    forall j, k | 0 <= j < k < |cs| ensures cs[j].paddr + cs[j].size <= cs[k].paddr {
      PairAscends(inp, mbi, total, j, k);
    }
  }

  /** The i-th chunk: the kernel first, then each module at its laid-out address, the MBI last. */
  lemma ChunkAt(inp: ExecInputs, mbi: nat, total: nat, i: nat)
    requires i < |inp.mods| + 2
    ensures var tmp := FirstStart(inp.loadAddr, inp.kernel);
            var c := Chunks(inp, mbi, total)[i];
            (i == 0 ==> c == Relocator.Chunk(inp.kernel.addr, inp.loadAddr, inp.kernel.size)) &&
            (0 < i <= |inp.mods| ==> c == Relocator.Chunk(inp.mods[i - 1].addr, Layout(inp.mods, tmp)[i - 1].0, inp.mods[i - 1].size)) &&
            (i == |inp.mods| + 1 ==> c == Relocator.Chunk(mbi, AfterModules(inp.mods, tmp), total))
  {
  }

  /** ChunksAscend for one pair of chunks. */
  lemma PairAscends(inp: ExecInputs, mbi: nat, total: nat, j: nat, k: nat)
    requires inp.loadAddr + inp.kernel.size + 4095 < U64_MOD
    requires Below4G(inp.mods, FirstStart(inp.loadAddr, inp.kernel))
    requires j < k < |inp.mods| + 2
    ensures var cs := Chunks(inp, mbi, total); cs[j].paddr + cs[j].size <= cs[k].paddr
  {
    var tmp := FirstStart(inp.loadAddr, inp.kernel);
    var n := |inp.mods|;
    var l := Layout(inp.mods, tmp);
    var cs := Chunks(inp, mbi, total);
    ChunkAt(inp, mbi, total, j);
    ChunkAt(inp, mbi, total, k);
    var start := if k <= n then l[k - 1].0 else AfterModules(inp.mods, tmp);
    assert cs[k].paddr == start;
    if j == 0 {
      FirstStartAbove(inp.loadAddr, inp.kernel);
      if k <= n {
        ModuleLayout(inp.mods, tmp, k - 1);
      } else {
        AfterBelow(inp.mods, tmp);
      }
    } else {
      ModuleLayout(inp.mods, tmp, j - 1);
      assert cs[j].paddr + cs[j].size == l[j - 1].1;
      if k <= n {
        ModulesDisjoint(inp.mods, tmp, j - 1, k - 1);
      }
    }
  }

  /** The relocator's precondition: ascending destinations never share a byte. */
  lemma ChunksDisjoint(inp: ExecInputs, mbi: nat, total: nat)
    requires inp.loadAddr + inp.kernel.size + 4095 < U64_MOD
    requires Below4G(inp.mods, FirstStart(inp.loadAddr, inp.kernel))
    ensures Relocator.TargetsDisjoint(Chunks(inp, mbi, total))
  {
    var cs := Chunks(inp, mbi, total);
    ChunksAscend(inp, mbi, total);
    forall j, k | 0 <= j < |cs| && 0 <= k < |cs| && j != k ensures Relocator.ApartTargets(cs[j], cs[k]) {
      if j < k {
        assert cs[j].paddr + cs[j].size <= cs[k].paddr;
      } else {
        assert cs[k].paddr + cs[k].size <= cs[j].paddr;
      }
    }
  }

  // ------------------------------------------------------------------
  // The estimate against what is written

  /** The ordered module tags for a prefix of the list are a prefix of the tags. */
  lemma {:induction false} ModuleTagsPrefix(mods: seq<ModFile>, tmp: nat, k: nat)
    requires k <= |mods|
    ensures ModuleTags(mods[..k], tmp) == ModuleTags(mods, tmp)[..k]
    decreases k
  {
    if k > 0 {
      var tmp' := NextStart((tmp + mods[0].size) % U32_MOD);
      assert mods[..k][0] == mods[0];
      assert mods[..k][1..] == mods[1..][..k - 1];
      ModuleTagsPrefix(mods[1..], tmp', k - 1);
      ModuleTagsCons(mods, tmp);
      var ts := ModuleTags(mods, tmp);
      assert ts[..k] == [ts[0]] + ts[1..][..k - 1];
      ModuleTagAt(mods, tmp, 0);
      ModuleTagAt(mods[..k], tmp, 0);
    }
  }

  /** The bytes the ACPI tag's slot takes, under either sizing. */
  function AcpiSlot(rsdp: Option<Rsdp>, sizing: OldAcpiSizing): nat
  {
    match rsdp
    case None => 0
    case Some(p) =>
      if p.revision == 0 then RoundUp8(ACPI_TAG_SIZE + (if sizing == ByLength then p.length else RSDP_COMMON_SIZE))
      else RoundUp8(ACPI_TAG_SIZE + p.length)
  }

  lemma SpanHead(inp: ExecInputs, cl: CStr)
    ensures Span(HeadTags(inp, cl)) == RoundUp8(STRING_TAG_SIZE + |cl| + 1) + RoundUp8(STRING_TAG_SIZE + |inp.loaderName| + 1)
  {
    var h := HeadTags(inp, cl);
    assert h == [h[0]] + [h[1]];
    SpanAppend([h[0]], [h[1]]);
    SpanOne(h[0]);
    SpanOne(h[1]);
  }

  lemma MmapSlot(es: Smap)
    ensures Slot(MmapTag(es)) == MMAP_TAG_SIZE + MMAP_ENTRY_SIZE * |es|
  {
    var n := |es|;
    assert MMAP_TAG_SIZE + MMAP_ENTRY_SIZE * n == 8 * (2 + 3 * n);
    RoundUp8Id(MMAP_TAG_SIZE + MMAP_ENTRY_SIZE * n);
  }

  lemma AcpiSpan(rsdp: Option<Rsdp>, sizing: OldAcpiSizing)
    requires rsdp.Some? ==> RsdpReadable(rsdp.value)
    ensures Span(AcpiTags(rsdp, sizing)) == AcpiSlot(rsdp, sizing)
  {
    var a := AcpiTags(rsdp, sizing);
    if rsdp.Some? {
      assert a == [a[0]];
      SpanOne(a[0]);
    }
  }

  lemma SpanFirmware(inp: ExecInputs, smap: Smap, sizing: OldAcpiSizing)
    requires Readable(inp)
    ensures Span(FirmwareTags(inp, smap, sizing)) ==
            MMAP_TAG_SIZE + MMAP_ENTRY_SIZE * |smap| + AcpiSlot(inp.rsdp, sizing) + EFI64_TAG_SIZE +
            (if inp.fb.Some? then FRAMEBUFFER_TAG_SIZE else 0)
  {
    var m := [MmapTag(smap)];
    var a := AcpiTags(inp.rsdp, sizing);
    var e := [Efi64Tag(inp.systemTable)];
    var f := if inp.fb.Some? then [FbTag(inp.fb.value)] else [];
    SpanAppend(m, a);
    SpanAppend(m + a, e);
    SpanAppend(m + a + e, f);
    SpanOne(MmapTag(smap));
    MmapSlot(smap);
    AcpiSpan(inp.rsdp, sizing);
    SpanOne(Efi64Tag(inp.systemTable));
    if inp.fb.Some? {
      SpanOne(FbTag(inp.fb.value));
    }
  }

  lemma SpanTail(inp: ExecInputs)
    requires Readable(inp)
    ensures Span(TailTags(inp)) == RoundUp8(EFI_MMAP_TAG_SIZE + inp.memMap.size) + TAG_HEADER_SIZE
  {
    var t := TailTags(inp);
    assert t == [t[0]] + [t[1]];
    SpanAppend([t[0]], [t[1]]);
    SpanOne(t[0]);
    SpanOne(t[1]);
  }

  /** The estimate is the sum of the slots it charges when the module and SMAP parts are whole slots. */
  lemma EstimateFromValue(cmdline: nat, name: nat, modules: nat, efiMap: nat, smap: nat, acpi: Option<nat>)
    requires modules % 8 == 0 && smap % 8 == 0
    ensures EstimateFrom(cmdline, name, modules, efiMap, smap, acpi) ==
            INFO_HEADER_SIZE + RoundUp8(cmdline) + RoundUp8(name) + modules + EFI64_TAG_SIZE +
            RoundUp8(efiMap) + FRAMEBUFFER_TAG_SIZE + smap + (if acpi.None? then 0 else RoundUp8(acpi.value)) +
            TAG_HEADER_SIZE
  {
    var s1 := Grow(INFO_HEADER_SIZE, cmdline);
    GrowAligned(INFO_HEADER_SIZE, cmdline);
    var s2 := Grow(s1, name);
    GrowAligned(s1, name);
    var s3 := Grow(s2, modules);
    GrowAligned(s2, modules);
    RoundUp8Id(modules);
    var s4 := Grow(s3, EFI64_TAG_SIZE);
    GrowAligned(s3, EFI64_TAG_SIZE);
    var s6 := Grow(s4 + efiMap, FRAMEBUFFER_TAG_SIZE);
    GrowSlack(s4, efiMap, FRAMEBUFFER_TAG_SIZE);
    var s7 := Grow(s6, smap);
    GrowAligned(s6, smap);
    RoundUp8Id(smap);
    if acpi.Some? {
      GrowAligned(s7, acpi.value);
    }
  }

  /** mbi_size written out as the sum of the slots it charges. */
  lemma MbiSizeValue(inp: ExecInputs, cl: CStr, tmp: nat)
    ensures MbiSize(inp, cl) ==
            INFO_HEADER_SIZE + RoundUp8(STRING_TAG_SIZE + |cl| + 1) + RoundUp8(STRING_TAG_SIZE + |inp.loaderName| + 1) +
            Span(ModuleTags(inp.mods, tmp)) + EFI64_TAG_SIZE + RoundUp8(inp.mapEstimate) + FRAMEBUFFER_TAG_SIZE +
            BiosSmapSize(inp.smap) + AcpiSlot(inp.rsdp, ByCommonPart) + TAG_HEADER_SIZE
  {
    ModuleSizeIsSpan(inp.mods, 0, tmp);
    SpanAligned(ModuleTags(inp.mods, tmp));
    BiosSmapAligned(inp.smap);
    EstimateFromValue(STRING_TAG_SIZE + |cl| + 1, STRING_TAG_SIZE + |inp.loaderName| + 1,
                      ModuleSizeFrom(inp.mods, 0), inp.mapEstimate, BiosSmapSize(inp.smap), AcpiEstimate(inp.rsdp));
  }

  /** The map the firmware finally reports fits the room efimemmap_size set aside for it. */
  predicate MapCovered(inp: ExecInputs)
  {
    EFI_MMAP_TAG_SIZE + inp.memMap.size <= inp.mapEstimate
  }

  /**
   * With the old-ACPI tag sized as the estimator sizes it, mbi_size is an
   * upper bound on the bytes written, however the writer stops.
   */
  lemma EstimateCovers(inp: ExecInputs, cl: CStr)
    requires Readable(inp) && MapCovered(inp)
    ensures Used(PlanTags(inp, cl, ByCommonPart)) <= MbiSize(inp, cl)
  {
    var tmp := FirstStart(inp.loadAddr, inp.kernel);
    var head := HeadTags(inp, cl);
    var mt := ModuleTags(inp.mods, tmp);
    SpanHead(inp, cl);
    MbiSizeValue(inp, cl, tmp);
    SpanAppend(head, mt);
    if |inp.mods| == 0 || !HasRootfs(inp.mods) {
    } else if FailingModule(inp).Some? {
      var k := FailingModule(inp).value;
      ModuleTagsPrefix(inp.mods, tmp, k);
      SpanPrefix(mt, k);
      SpanAppend(head, mt[..k]);
    } else if inp.smap.Some? {
      FirmwareCovered(inp, head + mt, inp.smap.value);
    }
  }

  /** The tags after the modules take no more than the estimate charges for them. */
  lemma FirmwareCovered(inp: ExecInputs, front: seq<Tag>, smap: Smap)
    requires Readable(inp) && MapCovered(inp) && inp.smap == Some(smap)
    ensures Span(front + FirmwareTags(inp, smap, ByCommonPart)) <= Span(front + FirmwareTags(inp, smap, ByCommonPart) + TailTags(inp))
    ensures Span(front + FirmwareTags(inp, smap, ByCommonPart) + TailTags(inp)) <=
            Span(front) + BiosSmapSize(inp.smap) + AcpiSlot(inp.rsdp, ByCommonPart) + EFI64_TAG_SIZE +
            FRAMEBUFFER_TAG_SIZE + RoundUp8(inp.mapEstimate) + TAG_HEADER_SIZE
  {
    var fw := FirmwareTags(inp, smap, ByCommonPart);
    SpanFirmware(inp, smap, ByCommonPart);
    SpanAppend(front, fw);
    SpanTail(inp);
    SpanAppend(front + fw, TailTags(inp));
    RoundUp8Mono(EFI_MMAP_TAG_SIZE + inp.memMap.size, inp.mapEstimate);
  }

  /** Under the estimator's sizing every tag written holds its own body. */
  lemma PlanValid(inp: ExecInputs, cl: CStr)
    requires Readable(inp)
    ensures AllValid(PlanTags(inp, cl, ByCommonPart).tags)
  {
    var tmp := FirstStart(inp.loadAddr, inp.kernel);
    var head := HeadTags(inp, cl);
    var mt := ModuleTags(inp.mods, tmp);
    ModuleTagsValid(inp.mods, tmp);
    AllValidConcat(head, mt);
    if |inp.mods| > 0 && HasRootfs(inp.mods) {
      if FailingModule(inp).Some? {
        var k := FailingModule(inp).value;
        ModuleTagsPrefix(inp.mods, tmp, k);
        AllValidConcat(head, mt[..k]);
      } else if inp.smap.Some? {
        var fw := FirmwareTags(inp, inp.smap.value, ByCommonPart);
        assert AllValid(fw) by {
          var a := AcpiTags(inp.rsdp, ByCommonPart);
          assert AllValid(a);
          AllValidConcat([MmapTag(inp.smap.value)], a);
          AllValidConcat([MmapTag(inp.smap.value)] + a, [Efi64Tag(inp.systemTable)]);
          if inp.fb.Some? {
            assert ValidTag(FbTag(inp.fb.value));
          }
          AllValidConcat([MmapTag(inp.smap.value)] + a + [Efi64Tag(inp.systemTable)],
                         if inp.fb.Some? then [FbTag(inp.fb.value)] else []);
        }
        AllValidConcat(head + mt, fw);
        AllValidConcat(head + mt + fw, TailTags(inp));
      }
    }
  }

  /** An MBI sized by its estimate never overflows its pages when the tags are sized as estimated. */
  lemma CorrectedNeverOverruns(inp: ExecInputs)
    requires Readable(inp) && MapCovered(inp)
    ensures Outcome(inp, ByCommonPart) != Overrun
  {
    if inp.rootdevOk && inp.cmdline.Some? {
      var cl := inp.cmdline.value;
      var p := PlanTags(inp, cl, ByCommonPart);
      EstimateCovers(inp, cl);
      PlanValid(inp, cl);
      ValidFits(p.tags, INFO_HEADER_SIZE, Room(inp, cl));
    }
  }

  /** The two sizings differ only for a revision-0 RSDP. */
  lemma SizingOnlyOldAcpi(inp: ExecInputs, cl: CStr)
    requires Readable(inp)
    requires inp.rsdp.None? || inp.rsdp.value.revision != 0
    ensures PlanTags(inp, cl, ByLength) == PlanTags(inp, cl, ByCommonPart)
    ensures Outcome(inp, ByLength) == Outcome(inp, ByCommonPart)
  {
    assert AcpiTags(inp.rsdp, ByLength) == AcpiTags(inp.rsdp, ByCommonPart);
  }
}

/**
 * The old-ACPI tag: the estimator charges 8 + sizeof (ACPI_RSDP_COMMON)
 * bytes, the writer takes 8 + rsdp->Length (a field an ACPI 1.0 RSDP does
 * not have) while copying only the 20-byte common part.  A Length above 24
 * makes the writer use more than estimated, and when the estimate fills its
 * pages exactly the later tags run off the allocation.
 */
module Mb2InfoFindings {
  import opened Mb2
  import opened Wrappers
  import opened Mb2Tags
  import opened Mb2Info
  import EfiLoadAddr

  /** A revision-0 RSDP whose bytes 20..23 read as 36, and an estimate that fills one page exactly. */
  function OldAcpiInputs(): (inp: ExecInputs)
    ensures Readable(inp) && MapCovered(inp)
  {
    ExecInputs(
      rootdevOk := true, cmdline := Some(""), loaderName := "",
      kernel := Kernel(0x10_0000, 0x1000),
      mods := [ModFile("", "rootfs", None, 0x30_0000, 0)], firstAllocFailure := None,
      loadAddr := 0x10_0000, smap := Some([MmapEntry(0, 0x1000, MEMORY_AVAILABLE)]),
      rsdp := Some(Rsdp(0, 36, Zeros(RSDP_COMMON_SIZE))), systemTable := 0,
      fb := Some(EfiFb(0, 0, 0, 0, 0, 0, 0, 0)), mapEstimate := 3888,
      memMap := EfiMap(true, true, 3872, 48, 1, Zeros(3872)), granted := Some(0x20_0000))
  }

  /** The estimate for those inputs is exactly one page, granted below 4 GiB. */
  lemma OldAcpiEstimate()
    ensures MbiSize(OldAcpiInputs(), "") == 4096
    ensures Room(OldAcpiInputs(), "") == 4096
    ensures MbiAddr(OldAcpiInputs(), "") == 0x20_0000
  {
    var inp := OldAcpiInputs();
    assert |ModuleCmdline(inp.mods[0])| == 12;
    assert ModuleSizeFrom(inp.mods, 0) == 32 by {
      assert inp.mods[1..] == [];
    }
    assert BiosSmapSize(inp.smap) == 40;
    assert EstimateFrom(9, 9, 32, 3888, 40, Some(28)) == 4096;
  }

  /** As written, the tags before the EFI memory map tag take 208 bytes, 48 of them the old-ACPI tag. */
  lemma OldAcpiWritten()
    ensures var p := PlanTags(OldAcpiInputs(), "", ByLength);
      |p.tags| >= 2 && p.tags == p.tags[..|p.tags| - 2] + TailTags(OldAcpiInputs()) &&
      Span(p.tags[..|p.tags| - 2]) == 208
  {
    var inp := OldAcpiInputs();
    var tmp := FirstStart(inp.loadAddr, inp.kernel);
    assert inp.mods[0].typ == "rootfs";
    assert |ModuleCmdline(inp.mods[0])| == 12;
    assert ModuleSizeFrom(inp.mods, 0) == 32 by {
      assert inp.mods[1..] == [];
    }
    ModuleSizeIsSpan(inp.mods, 0, tmp);
    var head := HeadTags(inp, "");
    var mt := ModuleTags(inp.mods, tmp);
    SpanHead(inp, "");
    SpanAppend(head, mt);
    var fw := FirmwareTags(inp, inp.smap.value, ByLength);
    SpanFirmware(inp, inp.smap.value, ByLength);
    assert AcpiSlot(inp.rsdp, ByLength) == 48;
    SpanAppend(head + mt, fw);
    var body := head + mt + fw;
    var p := PlanTags(inp, "", ByLength);
    assert p.tags == body + TailTags(inp);
    assert p.tags[..|p.tags| - 2] == body;
  }

  /** As written, those inputs make multiboot2_exec write past the MBI's single page. */
  lemma OldAcpiOverrun()
    ensures Outcome(OldAcpiInputs(), ByLength) == Overrun
  {
    var inp := OldAcpiInputs();
    OldAcpiEstimate();
    OldAcpiWritten();
    var p := PlanTags(inp, "", ByLength);
    var body := p.tags[..|p.tags| - 2];
    var tail := TailTags(inp);
    assert |Encode(tail[0])| == 3888;
    assert !FitsFrom(tail, INFO_HEADER_SIZE + Span(body), 4096);
    if FitsFrom(p.tags, INFO_HEADER_SIZE, 4096) {
      FitsSuffix(body, tail, INFO_HEADER_SIZE, 4096);
    }
  }

  /** With the tag sized as estimated, the same inputs reach the relocator. */
  lemma OldAcpiCorrected()
    ensures Outcome(OldAcpiInputs(), ByCommonPart).Handoff?
  {
    var inp := OldAcpiInputs();
    OldAcpiEstimate();
    assert HasRootfs(inp.mods) by {
      assert inp.mods[0].typ == "rootfs";
    }
    assert FailingModule(inp) == None;
    assert PlanTags(inp, "", ByCommonPart).err == None;
    CorrectedNeverOverruns(inp);
  }
}
