/**
 * multiboot2_exec's writer: the mb_malloc cursor over the MBI pages and the
 * tag-by-tag fill, proved against Mb2Info.PlanTags and Mb2Info.Outcome.
 * Where the C code would store past the pages, the model stops and reports
 * the overrun instead.
 */
module Mb2Writer {
  import opened Mb2
  import opened Wrappers
  import opened Mb2Tags
  import opened Mb2Info
  import Mb2Header
  import EfiLoadAddr
  import Mb2Reader

  lemma PrefixStep(w: seq<Tag>, ts: seq<Tag>, i: nat)
    requires i < |ts|
    ensures w + ts[..i + 1] == (w + ts[..i]) + [ts[i]]
  {
    assert ts[..i + 1] == ts[..i] + [ts[i]];
  }

  /** The cursor moves past one more tag by the tag's size rounded up to 8. */
  lemma CursorGrows(w: seq<Tag>, t: Tag)
    ensures INFO_HEADER_SIZE + Span(w + [t]) == RoundUp8(INFO_HEADER_SIZE + Span(w) + t.size)
  {
    SpanAligned(w);
    RoundUp8Shift(INFO_HEADER_SIZE + Span(w), t.size);
    SpanAppend(w, [t]);
    SpanOne(t);
  }

  /** The MBI pages being filled and last_addr, kept as an offset from mbi. */
  class InfoBuilder {
    /** The pages efi_loadaddr returned; offset 0 is the info header. */
    const mem: array<byte>
    /** last_addr - mbi: where mb_malloc hands out the next tag. */
    var lastAddr: nat
    /** The tags filled so far, in order. */
    ghost var written: seq<Tag>
    /** What the pages held before the first tag. */
    ghost const blank: seq<byte>

    /** The cursor is just past the tags written, and the pages hold them laid out from mbi->tags. */
    ghost predicate Valid()
      reads this, mem
    {
      |blank| == mem.Length &&
      lastAddr == INFO_HEADER_SIZE + Span(written) &&
      FitsFrom(written, INFO_HEADER_SIZE, mem.Length) &&
      mem[..] == Place(blank, INFO_HEADER_SIZE, written)
    }

    /** last_addr = (vm_offset_t)mbi->tags. */
    constructor(pages: array<byte>)
      ensures Valid() && mem == pages && written == [] && blank == pages[..]
    {
      mem := pages;
      lastAddr := INFO_HEADER_SIZE;
      written := [];
      blank := pages[..];
    }

    /** mb_malloc: hands out the cursor and moves it to the 8-byte boundary after n more bytes. */
    method MbMalloc(n: nat) returns (ptr: nat)
      modifies this
      ensures ptr == old(lastAddr) && lastAddr == RoundUp8(old(lastAddr) + n)
      ensures written == old(written)
    {
      ptr := lastAddr;
      lastAddr := RoundUp8(lastAddr + n);
    }

    /** The field stores of one tag: bytes b at offset at, nothing else. */
    method Store(at: nat, b: seq<byte>)
      requires at + |b| <= mem.Length
      modifies mem
      ensures mem[..] == Put(old(mem[..]), at, b)
    {
      ghost var before := mem[..];
      for j := 0 to |b|
        invariant mem[..] == before[..at] + b[..j] + before[at + j..]
      {
        mem[at + j] := b[j];
      }
    }

    /** One tag that fits: mb_malloc its size, then store its header and body at the cursor. */
    method Append(t: Tag)
      requires Valid() && lastAddr + |Encode(t)| <= mem.Length
      modifies this, mem
      ensures Valid() && written == old(written) + [t]
    {
      var e := Encode(t);
      ghost var before := mem[..];
      ghost var w := written;
      ghost var after := Put(before, lastAddr, e);
      assert FitsFrom(w + [t], INFO_HEADER_SIZE, mem.Length) && Place(blank, INFO_HEADER_SIZE, w + [t]) == after by {
        PlaceAppend(blank, INFO_HEADER_SIZE, w, t);
      }
      ghost var next := RoundUp8(lastAddr + t.size);
      assert next == INFO_HEADER_SIZE + Span(w + [t]) by {
        CursorGrows(w, t);
      }
      var p := MbMalloc(t.size);
      Store(p, e);
      assert mem[..] == after && lastAddr == next;
      written := w + [t];
    }

    /** One tag: false where its stores would leave the pages, else Append. */
    method PutTag(t: Tag) returns (ok: bool)
      requires Valid()
      modifies this, mem
      ensures Valid()
      ensures ok <==> FitsFrom(old(written) + [t], INFO_HEADER_SIZE, mem.Length)
      ensures written == if ok then old(written) + [t] else old(written)
    {
      FitsAppendIff(written, INFO_HEADER_SIZE, mem.Length, t);
      if lastAddr + |Encode(t)| > mem.Length {
        return false;
      }
      Append(t);
      ok := true;
    }

    /**
     * PutTag for the i-th of a run of tags ts written after w: on success one
     * more of them is written, on failure the first k of them overrun.
     */
    method PutNext(ghost w: seq<Tag>, ghost ts: seq<Tag>, ghost i: nat, ghost k: nat, t: Tag) returns (ok: bool)
      requires Valid() && i < k <= |ts| && ts[i] == t && written == w + ts[..i]
      modifies this, mem
      ensures Valid()
      ensures ok ==> written == w + ts[..i + 1]
      ensures !ok ==> !FitsFrom(w + ts[..k], INFO_HEADER_SIZE, mem.Length)
    {
      PrefixStep(w, ts, i);
      ok := PutTag(t);
      if !ok {
        OverrunsAt(w, ts, i, k, t, INFO_HEADER_SIZE, mem.Length);
      }
    }

    /** The CMDLINE tag, then BOOT_LOADER_NAME. */
    method PutStrings(cl: CStr, name: CStr) returns (ok: bool)
      requires Valid()
      modifies this, mem
      ensures Valid()
      ensures var ts := [StringTag(TAG_CMDLINE, cl), StringTag(TAG_BOOT_LOADER_NAME, name)];
              (ok <==> FitsFrom(old(written) + ts, INFO_HEADER_SIZE, mem.Length)) &&
              (ok ==> written == old(written) + ts)
    {
      ghost var w := written;
      ghost var ts := [StringTag(TAG_CMDLINE, cl), StringTag(TAG_BOOT_LOADER_NAME, name)];
      assert w == w + ts[..0] && ts[..2] == ts;
      ok := PutNext(w, ts, 0, 2, StringTag(TAG_CMDLINE, cl));
      if ok {
        ok := PutNext(w, ts, 1, 2, StringTag(TAG_BOOT_LOADER_NAME, name));
      }
    }

    /**
     * The module loop: one MODULE tag per file, the first at tmp0 and each
     * next one at roundup2 of the previous mod_end; fail is the file whose
     * command-line buffer cannot be allocated.
     */
    method PutModules(mods: seq<ModFile>, tmp0: nat, fail: Option<nat>) returns (ok: bool, err: Option<Mb2Header.Errno>)
      requires Valid()
      requires fail.Some? ==> fail.value < |mods|
      modifies this, mem
      ensures Valid()
      ensures var n := if fail.Some? then fail.value else |mods|;
              var ts := ModuleTags(mods, tmp0)[..n];
              (ok <==> FitsFrom(old(written) + ts, INFO_HEADER_SIZE, mem.Length)) &&
              (ok ==> written == old(written) + ts && err == (if fail.Some? then Some(Mb2Header.ENOMEM) else None))
    {
      ghost var w := written;
      ghost var all := ModuleTags(mods, tmp0);
      ghost var n := if fail.Some? then fail.value else |mods|;
      assert w == w + all[..0];
      var tmp := tmp0;
      var i := 0;
      while i < |mods|
        invariant i <= |mods| && i <= n
        invariant Valid()
        invariant written == w + all[..i]
        invariant tmp == AfterModules(mods[..i], tmp0)
      {
        if fail == Some(i) {
          return true, Some(Mb2Header.ENOMEM);
        }
        var end := (tmp + mods[i].size) % U32_MOD;
        ModuleTagAfter(mods, tmp0, i);
        ok := PutNext(w, all, i, n, ModuleTag(mods[i], tmp % U32_MOD, end));
        if !ok {
          return false, None;
        }
        AfterModulesStep(mods, tmp0, i);
        tmp := NextStart(end);
        i := i + 1;
      }
      assert all[..i] == all[..n];
      return true, None;
    }

    /** MMAP from the BIOS SMAP, then the ACPI tag if there is an RSDP. */
    method PutMaps(inp: ExecInputs, smap: Smap, sizing: OldAcpiSizing) returns (ok: bool)
      requires Valid() && Readable(inp)
      modifies this, mem
      ensures Valid()
      ensures var ts := [MmapTag(smap)] + AcpiTags(inp.rsdp, sizing);
              (ok <==> FitsFrom(old(written) + ts, INFO_HEADER_SIZE, mem.Length)) &&
              (ok ==> written == old(written) + ts)
    {
      ghost var w := written;
      ghost var ts := [MmapTag(smap)] + AcpiTags(inp.rsdp, sizing);
      assert w == w + ts[..0] && ts[..|ts|] == ts;
      ok := PutNext(w, ts, 0, |ts|, MmapTag(smap));
      if ok && inp.rsdp.Some? {
        ok := PutNext(w, ts, 1, |ts|, AcpiTags(inp.rsdp, sizing)[0]);
      }
    }

    /** EFI64 with the system table, then FRAMEBUFFER if GOP reports one. */
    method PutEfi(inp: ExecInputs) returns (ok: bool)
      requires Valid() && Readable(inp)
      modifies this, mem
      ensures Valid()
      ensures var ts := [Efi64Tag(inp.systemTable)] + (if inp.fb.Some? then [FbTag(inp.fb.value)] else []);
              (ok <==> FitsFrom(old(written) + ts, INFO_HEADER_SIZE, mem.Length)) &&
              (ok ==> written == old(written) + ts)
    {
      ghost var w := written;
      ghost var ts := [Efi64Tag(inp.systemTable)] + (if inp.fb.Some? then [FbTag(inp.fb.value)] else []);
      assert w == w + ts[..0] && ts[..|ts|] == ts;
      ok := PutNext(w, ts, 0, |ts|, Efi64Tag(inp.systemTable));
      if ok && inp.fb.Some? {
        ok := PutNext(w, ts, 1, |ts|, FbTag(inp.fb.value));
      }
    }

    /** MMAP, the ACPI tag if there is an RSDP, EFI64, and FRAMEBUFFER if GOP reports one. */
    method PutFirmware(inp: ExecInputs, smap: Smap, sizing: OldAcpiSizing) returns (ok: bool)
      requires Valid() && Readable(inp)
      modifies this, mem
      ensures Valid()
      ensures var ts := FirmwareTags(inp, smap, sizing);
              (ok <==> FitsFrom(old(written) + ts, INFO_HEADER_SIZE, mem.Length)) &&
              (ok ==> written == old(written) + ts)
    {
      ghost var w := written;
      ghost var front := [MmapTag(smap)] + AcpiTags(inp.rsdp, sizing);
      ghost var back := [Efi64Tag(inp.systemTable)] + (if inp.fb.Some? then [FbTag(inp.fb.value)] else []);
      assert FirmwareTags(inp, smap, sizing) == front + back;
      assert w + front + back == w + (front + back);
      ok := PutMaps(inp, smap, sizing);
      if !ok {
        Overruns(w + front, back, INFO_HEADER_SIZE, mem.Length);
        return;
      }
      ok := PutEfi(inp);
    }

    /** EFI_MMAP with the map GetMemoryMap returned, then the END marker. */
    method PutTail(inp: ExecInputs) returns (ok: bool)
      requires Valid() && Readable(inp)
      modifies this, mem
      ensures Valid()
      ensures (ok <==> FitsFrom(old(written) + TailTags(inp), INFO_HEADER_SIZE, mem.Length)) &&
              (ok ==> written == old(written) + TailTags(inp))
    {
      ghost var w := written;
      ghost var ts := TailTags(inp);
      assert w == w + ts[..0] && ts[..2] == ts;
      ok := PutNext(w, ts, 0, 2, EfiMmapTag(inp.memMap));
      if ok {
        ok := PutNext(w, ts, 1, 2, EndTag);
      }
    }
    /**
     * multiboot2_exec from the first tag through the module loop: the
     * strings, the rootfs check, then one tag per module.
     */
    method FillFront(inp: ExecInputs, cl: CStr) returns (full: bool, err: Option<Mb2Header.Errno>)
      requires Valid() && written == []
      modifies this, mem
      ensures Valid()
      ensures var f := FrontPlan(inp, cl);
              (full <==> !FitsFrom(f.tags, INFO_HEADER_SIZE, mem.Length)) &&
              (!full ==> written == f.tags && err == f.err)
    {
      ghost var f := FrontPlan(inp, cl);
      ghost var head := HeadTags(inp, cl);
      assert [] + head == head;
      var ok := PutStrings(cl, inp.loaderName);
      if !ok {
        assert f.tags == head + f.tags[|head|..];
        Overruns(head, f.tags[|head|..], INFO_HEADER_SIZE, mem.Length);
        return true, None;
      }
      var num, rootfs := CountModules(inp.mods);
      if num == 0 || rootfs == 0 {
        return false, Some(Mb2Header.EINVAL);
      }
      var tmp := ((inp.loadAddr + inp.kernel.size + 4095) % U64_MOD) / 4096 * 4096;
      assert tmp == FirstStart(inp.loadAddr, inp.kernel);
      var fail := FailingModule(inp);
      ghost var n := if fail.Some? then fail.value else |inp.mods|;
      ModuleTagsPrefix(inp.mods, tmp, n);
      assert inp.mods[..|inp.mods|] == inp.mods;
      ok, err := PutModules(inp.mods, tmp, fail);
      full := !ok;
    }

    /**
     * multiboot2_exec from the first tag to the END marker: the tags of the
     * plan in order, stopping with its errno, or reporting that a store
     * would leave the pages.
     */
    method Fill(inp: ExecInputs, cl: CStr, sizing: OldAcpiSizing) returns (full: bool, err: Option<Mb2Header.Errno>)
      requires Valid() && written == [] && Readable(inp)
      modifies this, mem
      ensures Valid()
      ensures var p := PlanTags(inp, cl, sizing);
              (full <==> !FitsFrom(p.tags, INFO_HEADER_SIZE, mem.Length)) &&
              (!full ==> written == p.tags && err == p.err)
    {
      ghost var f := FrontPlan(inp, cl);
      PlanFromFront(inp, cl, sizing);
      full, err := FillFront(inp, cl);
      if full {
        ghost var p := PlanTags(inp, cl, sizing);
        PlanExtendsFront(inp, cl, sizing);
        Overruns(f.tags, p.tags[|f.tags|..], INFO_HEADER_SIZE, mem.Length);
        return;
      }
      if err.Some? {
        return;
      }
      if inp.smap.None? {
        return false, Some(Mb2Header.EINVAL);
      }
      ghost var fw := FirmwareTags(inp, inp.smap.value, sizing);
      ghost var rest := fw + TailTags(inp);
      assert f.tags + rest == (f.tags + fw) + TailTags(inp);
      var ok := PutFirmware(inp, inp.smap.value, sizing);
      if !ok {
        Overruns(f.tags + fw, TailTags(inp), INFO_HEADER_SIZE, mem.Length);
        return true, None;
      }
      if !inp.memMap.firstTooSmall || !inp.memMap.secondOk {
        return false, Some(Mb2Header.EINVAL);
      }
      ok := PutTail(inp);
      return !ok, None;
    }
  }

  /** The count of modules and of rootfs modules in the file list. */
  method CountModules(mods: seq<ModFile>) returns (num: nat, rootfs: nat)
    ensures num == |mods|
    ensures rootfs == 0 <==> !HasRootfs(mods)
  {
    num, rootfs := 0, 0;
    for i := 0 to |mods|
      invariant num == i
      invariant rootfs == 0 <==> forall k :: 0 <= k < i ==> mods[k].typ != "rootfs"
    {
      num := num + 1;
      if mods[i].typ == "rootfs" {
        rootfs := rootfs + 1;
      }
    }
  }

  /**
   * The MBI pages at the hand-off: the tags of the plan laid out from
   * mbi->tags over pages that start zeroed, and the header's total_size
   * (last_addr - mbi) and reserved word.
   */
  function Image(inp: ExecInputs, sizing: OldAcpiSizing): (img: seq<byte>)
    requires Readable(inp) && Outcome(inp, sizing).Handoff?
    ensures |img| == Room(inp, inp.cmdline.value)
  {
    var cl := inp.cmdline.value;
    var p := PlanTags(inp, cl, sizing);
    PlanExtendsFront(inp, cl, sizing);
    var placed := Place(Zeros(Room(inp, cl)), INFO_HEADER_SIZE, p.tags);
    Put(placed, 0, Put32(Outcome(inp, sizing).total) + Put32(0))
  }

  /** mbi_size: the estimate multiboot2_exec asks efi_loadaddr for. */
  method EstimateSize(inp: ExecInputs, cl: CStr) returns (size: nat)
    ensures size == MbiSize(inp, cl)
  {
    var modSize := ModuleSize(inp.mods);
    size := EstimateFrom(STRING_TAG_SIZE + |cl| + 1, STRING_TAG_SIZE + |inp.loaderName| + 1,
                         modSize, inp.mapEstimate, BiosSmapSize(inp.smap), AcpiEstimate(inp.rsdp));
  }

  /**
   * multiboot2_exec up to the relocator hand-off: the rootdev and command
   * line checks, mbi_size, efi_loadaddr, the tags, then total_size.  The
   * pages are returned with what was stored in them.
   */
  method Exec(inp: ExecInputs, sizing: OldAcpiSizing) returns (r: ExecResult, pages: array<byte>)
    requires Readable(inp)
    ensures r == Outcome(inp, sizing)
    ensures r.Handoff? ==> pages[..] == Image(inp, sizing)
  {
    pages := new byte[0];
    if !inp.rootdevOk {
      return Error(Mb2Header.EINVAL), pages;
    }
    if inp.cmdline.None? {
      return Error(Mb2Header.ENOMEM), pages;
    }
    var cl := inp.cmdline.value;
    var size := EstimateSize(inp, cl);
    var mbi := EfiLoadAddr.LoadAddr(EfiLoadAddr.LoadMem, EfiLoadAddr.ToInt(size), 0, LastEnd(inp) % U64_MOD, inp.granted);
    if mbi == 0 {
      return Error(Mb2Header.ENOMEM), pages;
    }
    r, pages := WriteInfo(inp, sizing, mbi);
  }

  /** multiboot2_exec once the MBI pages are granted at mbi: fill them, then set total_size. */
  method WriteInfo(inp: ExecInputs, sizing: OldAcpiSizing, mbi: u64) returns (r: ExecResult, pages: array<byte>)
    requires Readable(inp) && inp.rootdevOk && inp.cmdline.Some?
    requires mbi == MbiAddr(inp, inp.cmdline.value) && mbi != 0
    ensures r == Outcome(inp, sizing)
    ensures r.Handoff? ==> pages[..] == Image(inp, sizing)
  {
    var cl := inp.cmdline.value;
    var size := EstimateSize(inp, cl);
    pages := new byte[EfiLoadAddr.PagesFor(size) * EfiLoadAddr.EFI_PAGE_SIZE](i => 0);
    assert pages[..] == Zeros(Room(inp, cl));
    var b := new InfoBuilder(pages);
    var full, err := b.Fill(inp, cl, sizing);
    if full {
      return Overrun, pages;
    }
    if err.Some? {
      return Error(err.value), pages;
    }
    var total := b.lastAddr % U32_MOD;
    assert total == Outcome(inp, sizing).total;
    b.Store(0, Put32(total) + Put32(0));
    r := Handoff(mbi, total, Chunks(inp, mbi, total));
  }

  // ------------------------------------------------------------------
  // What the kernel reads back from the pages handed over

  /** Tags the kernel's walk passes over: none is END, each at least its type's fixed part. */
  predicate Inner(ts: seq<Tag>)
  {
    forall t :: t in ts ==> t.typ != TAG_END && Mb2Reader.MinSize(t.typ) <= t.size
  }

  /** Inner tags closed by END make a list the kernel can walk. */
  lemma InnerListOk(ts: seq<Tag>)
    requires Inner(ts)
    ensures Mb2Reader.ListOk(ts + [EndTag])
  {
    var us := ts + [EndTag];
    forall k | 0 <= k < |us| - 1
      ensures us[k].typ != TAG_END && Mb2Reader.MinSize(us[k].typ) <= us[k].size
    {
      assert us[k] == ts[k] && ts[k] in ts;
    }
  }

  lemma ModuleTagsKinds(mods: seq<ModFile>, tmp: nat)
    ensures forall t :: t in ModuleTags(mods, tmp) ==> t.typ == TAG_MODULE && MODULE_TAG_SIZE <= t.size
  {
    var ts := ModuleTags(mods, tmp);
    forall t | t in ts ensures t.typ == TAG_MODULE && MODULE_TAG_SIZE <= t.size {
      var k :| 0 <= k < |ts| && ts[k] == t;
      ModuleTagAt(mods, tmp, k);
    }
  }

  /** MMAP, ACPI, EFI64, FRAMEBUFFER and EFI_MMAP: no END and no MODULE among them. */
  lemma FirmwareKinds(inp: ExecInputs, smap: Smap, sizing: OldAcpiSizing)
    requires Readable(inp)
    ensures var rest := FirmwareTags(inp, smap, sizing) + [EfiMmapTag(inp.memMap)];
            Inner(rest) && forall t :: t in rest ==> t.typ != TAG_MODULE
  {
  }

  /** A plan that ends without an errno is a walkable list: its tags are inner, then END. */
  lemma PlanListOk(inp: ExecInputs, cl: CStr, sizing: OldAcpiSizing)
    requires Readable(inp) && PlanTags(inp, cl, sizing).err.None?
    ensures var p := PlanTags(inp, cl, sizing);
            Mb2Reader.ListOk(p.tags) && p.tags[|p.tags| - 1] == EndTag
  {
    var tmp := FirstStart(inp.loadAddr, inp.kernel);
    var head := HeadTags(inp, cl);
    var mt := ModuleTags(inp.mods, tmp);
    var rest := FirmwareTags(inp, inp.smap.value, sizing) + [EfiMmapTag(inp.memMap)];
    ModuleTagsKinds(inp.mods, tmp);
    FirmwareKinds(inp, inp.smap.value, sizing);
    var inner := head + mt + rest;
    assert PlanTags(inp, cl, sizing).tags == inner + [EndTag];
    InnerListOk(inner);
  }

  /** In a plan that ends without an errno, the module tags are the only ones of type MODULE, in order. */
  lemma PlanModuleMatches(inp: ExecInputs, cl: CStr, sizing: OldAcpiSizing)
    requires Readable(inp) && PlanTags(inp, cl, sizing).err.None?
    ensures var ms := Mb2Reader.Matches(INFO_HEADER_SIZE, PlanTags(inp, cl, sizing).tags, TAG_MODULE);
            var mt := ModuleTags(inp.mods, FirstStart(inp.loadAddr, inp.kernel));
            |ms| == |mt| && forall k :: 0 <= k < |mt| ==> ms[k].1 == mt[k]
  {
    var tmp := FirstStart(inp.loadAddr, inp.kernel);
    var head := HeadTags(inp, cl);
    var mt := ModuleTags(inp.mods, tmp);
    var rest := FirmwareTags(inp, inp.smap.value, sizing) + [EfiMmapTag(inp.memMap)] + [EndTag];
    ModuleTagsKinds(inp.mods, tmp);
    FirmwareKinds(inp, inp.smap.value, sizing);
    assert PlanTags(inp, cl, sizing).tags == head + (mt + rest);
    OnlyModules(INFO_HEADER_SIZE, head, mt, rest);
  }

  /** A walk over non-module tags, module tags, then more non-module tags matches exactly the middle run. */
  lemma OnlyModules(off: nat, head: seq<Tag>, mt: seq<Tag>, rest: seq<Tag>)
    requires forall t :: t in head ==> t.typ != TAG_END && t.typ != TAG_MODULE
    requires forall t :: t in mt ==> t.typ == TAG_MODULE
    requires forall t :: t in rest ==> t.typ != TAG_MODULE
    ensures var ms := Mb2Reader.Matches(off, head + (mt + rest), TAG_MODULE);
            |ms| == |mt| && forall k :: 0 <= k < |mt| ==> ms[k].1 == mt[k]
  {
    SkipRun(off, head, mt + rest, TAG_MODULE);
    ModulesThenRest(off + Span(head), mt, rest);
  }

  /** A run of module tags, then tags of other types: the walk matches exactly the module run. */
  lemma ModulesThenRest(o: nat, mt: seq<Tag>, rest: seq<Tag>)
    requires forall t :: t in mt ==> t.typ == TAG_MODULE
    requires forall t :: t in rest ==> t.typ != TAG_MODULE
    ensures var ms := Mb2Reader.Matches(o, mt + rest, TAG_MODULE);
            |ms| == |mt| && forall k :: 0 <= k < |mt| ==> ms[k].1 == mt[k]
  {
    DropRun(o, mt, rest, TAG_MODULE);
    assert forall k :: 0 <= k < |mt| ==> mt[k] in mt;
    Mb2Reader.MatchesAll(o, mt, TAG_MODULE);
  }

  /** A leading run with neither END nor typ is skipped over. */
  lemma SkipRun(off: nat, a: seq<Tag>, b: seq<Tag>, typ: u32)
    requires forall t :: t in a ==> t.typ != TAG_END && t.typ != typ
    ensures Mb2Reader.Matches(off, a + b, typ) == Mb2Reader.Matches(off + Span(a), b, typ)
  {
    assert forall k :: 0 <= k < |a| ==> a[k] in a;
    Mb2Reader.NoEndOf(a);
    Mb2Reader.MatchesAppend(off, a, b, typ);
    Mb2Reader.MatchesNone(off, a, typ);
  }

  /** After a run without END, a run without typ adds no match. */
  lemma DropRun(off: nat, a: seq<Tag>, b: seq<Tag>, typ: u32)
    requires forall t :: t in a ==> t.typ != TAG_END
    requires forall t :: t in b ==> t.typ != typ
    ensures Mb2Reader.Matches(off, a + b, typ) == Mb2Reader.Matches(off, a, typ)
  {
    var x := Mb2Reader.Matches(off, a, typ);
    assert Mb2Reader.Matches(off + Span(a), b, typ) == [] by {
      assert forall k :: 0 <= k < |b| ==> b[k] in b;
      Mb2Reader.MatchesNone(off + Span(a), b, typ);
    }
    assert Mb2Reader.Matches(off, a + b, typ) == x + Mb2Reader.Matches(off + Span(a), b, typ) by {
      Mb2Reader.NoEndOf(a);
      Mb2Reader.MatchesAppend(off, a, b, typ);
    }
    assert x + [] == x;
  }

  /** A list that fits and ends in END lies, padding included, inside the n bytes. */
  lemma {:induction false} FitsSpan(ts: seq<Tag>, off: nat, n: nat)
    requires FitsFrom(ts, off, n) && |ts| > 0 && ts[|ts| - 1] == EndTag
    ensures off + Span(ts) <= n
    decreases |ts|
  {
    if |ts| > 1 {
      assert ts[1..][|ts[1..]| - 1] == EndTag;
      FitsSpan(ts[1..], off + Slot(ts[0]), n);
    }
  }

  /** The pages handed over hold the plan's tags from mbi->tags, and total_size is last_addr - mbi. */
  lemma ImageLaid(inp: ExecInputs)
    requires Readable(inp) && Outcome(inp, ByCommonPart).Handoff?
    ensures var img := Image(inp, ByCommonPart);
            var p := PlanTags(inp, inp.cmdline.value, ByCommonPart);
            TagsAt(img, INFO_HEADER_SIZE, p.tags) && INFO_HEADER_SIZE + Span(p.tags) <= |img| &&
            U32At(img, 0) == Outcome(inp, ByCommonPart).total
  {
    var cl := inp.cmdline.value;
    var r := Outcome(inp, ByCommonPart);
    var p := PlanTags(inp, cl, ByCommonPart);
    var room := Room(inp, cl);
    var placed := Place(Zeros(room), INFO_HEADER_SIZE, p.tags);
    var img := Image(inp, ByCommonPart);
    var hdr := Put32(r.total) + Put32(0);
    PlanValid(inp, cl);
    PlanListOk(inp, cl, ByCommonPart);
    FitsSpan(p.tags, INFO_HEADER_SIZE, room);
    PlaceLays(Zeros(room), INFO_HEADER_SIZE, p.tags);
    assert img == Put(placed, 0, hdr);
    HeaderOverTags(placed, img, p.tags, r.total);
  }

  /** The 8-byte header stamped over laid-out tags leaves them in place and reads back total_size. */
  lemma HeaderOverTags(placed: seq<byte>, img: seq<byte>, ts: seq<Tag>, total: u32)
    requires TagsAt(placed, INFO_HEADER_SIZE, ts) && INFO_HEADER_SIZE <= |placed|
    requires img == Put(placed, 0, Put32(total) + Put32(0))
    ensures TagsAt(img, INFO_HEADER_SIZE, ts) && U32At(img, 0) == total
  {
    var hdr := Put32(total) + Put32(0);
    assert img[INFO_HEADER_SIZE..] == placed[INFO_HEADER_SIZE..];
    TagsAtSuffix(placed, img, INFO_HEADER_SIZE, ts);
    assert img[0..4] == hdr[0..4] == Put32(total);
    U32RoundTrip(img, 0, total);
  }

  /**
   * The kernel's reader on the pages handed over: the list is well formed,
   * total_size is last_addr - mbi, every module is found, and the k-th has
   * the mod_start and mod_end the relocator moves the k-th file to.
   */
  lemma ImageModules(inp: ExecInputs, k: nat)
    requires Readable(inp) && Outcome(inp, ByCommonPart).Handoff? && k < |inp.mods|
    ensures var img := Image(inp, ByCommonPart);
            var r := Outcome(inp, ByCommonPart);
            var (s, e) := Layout(inp.mods, FirstStart(inp.loadAddr, inp.kernel))[k];
            Mb2Reader.WellFormed(img) && Mb2Reader.HighestAddr(r.mbi, img) == r.mbi + r.total &&
            Mb2Reader.ModCount(img) == |inp.mods| &&
            Mb2Reader.ModStart(img, k) == s && Mb2Reader.ModEnd(img, k) == e
  {
    var cl := inp.cmdline.value;
    var p := PlanTags(inp, cl, ByCommonPart);
    var img := Image(inp, ByCommonPart);
    ImageLaid(inp);
    PlanListOk(inp, cl, ByCommonPart);
    var tmp := FirstStart(inp.loadAddr, inp.kernel);
    var (s, e) := Layout(inp.mods, tmp)[k];
    PlanModuleMatches(inp, cl, ByCommonPart);
    ModuleTagAt(inp.mods, tmp, k);
    ModuleTagFields(inp.mods[k], s, e);
    Mb2Reader.ModulesReadBack(img, p.tags, k);
    Pow256Values();
    LEOfToLE(s, 4);
    LEOfToLE(e, 4);
  }
}
