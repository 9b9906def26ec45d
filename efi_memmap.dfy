/**
 * The EFI memory map turned into a BIOS-style SMAP (memmap.c): each EFI
 * descriptor's type is mapped to an SMAP type (ACPI 6.1, Table 15-330), and
 * runs of adjacent descriptors of the same mapped type are merged into one
 * SMAP entry.  The loader keeps the result in the globals smapbase/smaplen
 * and attaches it to the kernel as metadata.
 */
module EfiMemmap {
  import opened Mb2
  import opened Wrappers

  // EFI_MEMORY_TYPE values (UEFI Specification, section 7.2).
  const EfiReservedMemoryType: u32 := 0
  const EfiLoaderCode: u32 := 1
  const EfiLoaderData: u32 := 2
  const EfiBootServicesCode: u32 := 3
  const EfiBootServicesData: u32 := 4
  const EfiRuntimeServicesCode: u32 := 5
  const EfiRuntimeServicesData: u32 := 6
  const EfiConventionalMemory: u32 := 7
  const EfiUnusableMemory: u32 := 8
  const EfiACPIReclaimMemory: u32 := 9
  const EfiACPIMemoryNVS: u32 := 10
  const EfiMemoryMappedIO: u32 := 11
  const EfiMemoryMappedIOPortSpace: u32 := 12
  const EfiPalCode: u32 := 13

  // SMAP entry types.
  const SMAP_TYPE_MEMORY: int := 1
  const SMAP_TYPE_RESERVED: int := 2
  const SMAP_TYPE_ACPI_RECLAIM: int := 3
  const SMAP_TYPE_ACPI_NVS: int := 4

  /** sizeof (struct bios_smap): packed { u64 base, u64 length, u32 type }. */
  const SMAP_ENTRY_SIZE: nat := 20

  const EFI_PAGE_SHIFT_MUL: nat := 4096

  /** One EFI_MEMORY_DESCRIPTOR, as far as the conversion looks at it. */
  datatype EfiDesc = EfiDesc(typ: u32, start: nat, pages: nat)

  /** One struct bios_smap; type is the int the conversion computed (-1 for an unknown EFI type). */
  datatype SmapEntry = SmapEntry(base: nat, length: nat, typ: int)

  /** smap_type: the SMAP type of an EFI memory type, or -1 for a type the table does not list. */
  function SmapType(t: u32): (r: int)
    ensures r == SMAP_TYPE_MEMORY <==>
      t == EfiLoaderCode || t == EfiLoaderData || t == EfiBootServicesCode ||
      t == EfiBootServicesData || t == EfiConventionalMemory
    ensures r == SMAP_TYPE_RESERVED <==>
      t == EfiReservedMemoryType || t == EfiRuntimeServicesCode || t == EfiRuntimeServicesData ||
      t == EfiMemoryMappedIO || t == EfiMemoryMappedIOPortSpace || t == EfiPalCode || t == EfiUnusableMemory
    ensures r == SMAP_TYPE_ACPI_RECLAIM <==> t == EfiACPIReclaimMemory
    ensures r == SMAP_TYPE_ACPI_NVS <==> t == EfiACPIMemoryNVS
    ensures r == -1 <==> t > EfiPalCode
  {
    match t
    case 1 | 2 | 3 | 4 | 7 => SMAP_TYPE_MEMORY
    case 0 | 5 | 6 | 11 | 12 | 13 | 8 => SMAP_TYPE_RESERVED
    case 9 => SMAP_TYPE_ACPI_RECLAIM
    case 10 => SMAP_TYPE_ACPI_NVS
    case _ => -1
  }

  /** The type a new run gets: page 0 is always reported as normal memory. */
  function RunType(d: EfiDesc): int
  {
    if d.start == 0 then SMAP_TYPE_MEMORY else SmapType(d.typ)
  }

  /** Descriptor d extends run r: same mapped type and it starts where r ends. */
  predicate Joins(r: SmapEntry, d: EfiDesc)
  {
    SmapType(d.typ) == r.typ && d.start == r.base + r.length
  }

  /**
   * The merge loop of efi_getsmap from a given point: `runs` is the list
   * built so far, `open` says whether `next` points at its last run, `i` is
   * the next descriptor; a new list node is refused once `limit` have been
   * allocated (malloc failure breaks out of the loop).
   */
  function Merge(ds: seq<EfiDesc>, limit: nat, runs: seq<SmapEntry>, open: bool, i: nat): seq<SmapEntry>
    requires i <= |ds| && (open ==> |runs| > 0)
    decreases 2 * (|ds| - i) + (if open then 1 else 0)
  {
    if i == |ds| then runs
    else if !open then
      if |runs| >= limit then runs
      else Merge(ds, limit, runs + [SmapEntry(ds[i].start, ds[i].pages * 4096, RunType(ds[i]))], true, i + 1)
    else
      var r := runs[|runs| - 1];
      if Joins(r, ds[i]) then
        Merge(ds, limit, runs[|runs| - 1 := r.(length := r.length + ds[i].pages * 4096)], true, i + 1)
      else
        Merge(ds, limit, runs, false, i)
  }

  /** The SMAP built from a whole descriptor list. */
  function Coalesce(ds: seq<EfiDesc>, limit: nat): seq<SmapEntry>
  {
    Merge(ds, limit, [], false, 0)
  }

  // ------------------------------------------------------------------
  // Properties of the merge

  /** No more entries than descriptors. */
  lemma {:induction false} MergeCount(ds: seq<EfiDesc>, limit: nat, runs: seq<SmapEntry>, open: bool, i: nat)
    requires i <= |ds| && (open ==> |runs| > 0)
    ensures |runs| <= |Merge(ds, limit, runs, open, i)| <= |runs| + (|ds| - i)
    decreases 2 * (|ds| - i) + (if open then 1 else 0)
  {
    if i < |ds| {
      if !open {
        if |runs| < limit {
          MergeCount(ds, limit, runs + [SmapEntry(ds[i].start, ds[i].pages * 4096, RunType(ds[i]))], true, i + 1);
        }
      } else {
        var r := runs[|runs| - 1];
        if Joins(r, ds[i]) {
          MergeCount(ds, limit, runs[|runs| - 1 := r.(length := r.length + ds[i].pages * 4096)], true, i + 1);
        } else {
          MergeCount(ds, limit, runs, false, i);
        }
      }
    }
  }

  lemma CoalesceCount(ds: seq<EfiDesc>, limit: nat)
    ensures |Coalesce(ds, limit)| <= |ds|
    ensures |Coalesce(ds, limit)| <= limit
  {
    MergeCount(ds, limit, [], false, 0);
    MergeWithinLimit(ds, limit, [], false, 0);
  }

  lemma {:induction false} MergeWithinLimit(ds: seq<EfiDesc>, limit: nat, runs: seq<SmapEntry>, open: bool, i: nat)
    requires i <= |ds| && (open ==> |runs| > 0) && |runs| <= limit
    ensures |Merge(ds, limit, runs, open, i)| <= limit
    decreases 2 * (|ds| - i) + (if open then 1 else 0)
  {
    if i < |ds| {
      if !open {
        if |runs| < limit {
          MergeWithinLimit(ds, limit, runs + [SmapEntry(ds[i].start, ds[i].pages * 4096, RunType(ds[i]))], true, i + 1);
        }
      } else {
        var r := runs[|runs| - 1];
        if Joins(r, ds[i]) {
          MergeWithinLimit(ds, limit, runs[|runs| - 1 := r.(length := r.length + ds[i].pages * 4096)], true, i + 1);
        } else {
          MergeWithinLimit(ds, limit, runs, false, i);
        }
      }
    }
  }

  /** The bytes covered by a list of entries. */
  function Total(rs: seq<SmapEntry>): nat
  {
    if |rs| == 0 then 0 else Total(rs[..|rs| - 1]) + rs[|rs| - 1].length
  }

  /** The bytes described by descriptors i.. of the EFI map. */
  function DescBytes(ds: seq<EfiDesc>, i: nat): nat
    requires i <= |ds|
    decreases |ds| - i
  {
    if i == |ds| then 0 else ds[i].pages * 4096 + DescBytes(ds, i + 1)
  }

  lemma TotalAppend(rs: seq<SmapEntry>, e: SmapEntry)
    ensures Total(rs + [e]) == Total(rs) + e.length
  {
    assert (rs + [e])[..|rs|] == rs;
  }

  lemma TotalGrowLast(rs: seq<SmapEntry>, n: nat)
    requires |rs| > 0
    ensures Total(rs[|rs| - 1 := rs[|rs| - 1].(length := rs[|rs| - 1].length + n)]) == Total(rs) + n
  {
    var rs' := rs[|rs| - 1 := rs[|rs| - 1].(length := rs[|rs| - 1].length + n)];
    assert rs'[..|rs'| - 1] == rs[..|rs| - 1];
  }

  /** Without an allocation failure, merging keeps the total length of the map. */
  lemma {:induction false} MergeTotal(ds: seq<EfiDesc>, limit: nat, runs: seq<SmapEntry>, open: bool, i: nat)
    requires i <= |ds| && (open ==> |runs| > 0) && |runs| <= i && |ds| <= limit
    ensures Total(Merge(ds, limit, runs, open, i)) == Total(runs) + DescBytes(ds, i)
    decreases 2 * (|ds| - i) + (if open then 1 else 0)
  {
    if i < |ds| {
      var n := ds[i].pages * 4096;
      if !open {
        var e := SmapEntry(ds[i].start, n, RunType(ds[i]));
        TotalAppend(runs, e);
        MergeTotal(ds, limit, runs + [e], true, i + 1);
      } else {
        var r := runs[|runs| - 1];
        if Joins(r, ds[i]) {
          TotalGrowLast(runs, n);
          MergeTotal(ds, limit, runs[|runs| - 1 := r.(length := r.length + n)], true, i + 1);
        } else {
          MergeTotal(ds, limit, runs, false, i);
        }
      }
    }
  }

  lemma CoalesceTotal(ds: seq<EfiDesc>, limit: nat)
    requires |ds| <= limit
    ensures Total(Coalesce(ds, limit)) == DescBytes(ds, 0)
  {
    MergeTotal(ds, limit, [], false, 0);
  }

  /** Entries that start at address 0 have type MEMORY. */
  predicate PageZeroIsMemory(rs: seq<SmapEntry>)
  {
    forall k :: 0 <= k < |rs| && rs[k].base == 0 ==> rs[k].typ == SMAP_TYPE_MEMORY
  }

  /** No two consecutive entries could have been one: they are not adjacent, or differ in type (page 0 aside). */
  predicate Maximal(rs: seq<SmapEntry>)
  {
    forall k :: 0 < k < |rs| ==>
      !(rs[k].base == rs[k - 1].base + rs[k - 1].length && rs[k].typ == rs[k - 1].typ && rs[k].base != 0)
  }

  /** Which descriptor began each entry: strictly increasing indices whose PhysicalStart is the entry's base. */
  predicate StartedBy(ds: seq<EfiDesc>, rs: seq<SmapEntry>, starts: seq<nat>)
  {
    |starts| == |rs| &&
    (forall k :: 0 <= k < |starts| ==> starts[k] < |ds| && rs[k].base == ds[starts[k]].start) &&
    (forall k :: 0 < k < |starts| ==> starts[k - 1] < starts[k])
  }

  /** The state between passes of the loop: what the merge has built so far is well formed. */
  predicate MergeInv(ds: seq<EfiDesc>, runs: seq<SmapEntry>, open: bool, i: nat, starts: seq<nat>)
    requires i <= |ds|
  {
    (open ==> |runs| > 0) &&
    PageZeroIsMemory(runs) && Maximal(runs) &&
    StartedBy(ds, runs, starts) && (forall k :: 0 <= k < |starts| ==> starts[k] < i) &&
    (!open && |runs| > 0 && i < |ds| ==> !Joins(runs[|runs| - 1], ds[i]))
  }

  /** Opening a new entry for descriptor i keeps the invariant. */
  lemma OpenKeepsInv(ds: seq<EfiDesc>, runs: seq<SmapEntry>, i: nat, starts: seq<nat>)
    requires i < |ds| && MergeInv(ds, runs, false, i, starts)
    ensures MergeInv(ds, runs + [SmapEntry(ds[i].start, ds[i].pages * 4096, RunType(ds[i]))], true, i + 1, starts + [i])
  {
    var e := SmapEntry(ds[i].start, ds[i].pages * 4096, RunType(ds[i]));
    var runs' := runs + [e];
    assert Maximal(runs') by {
      forall k | 0 < k < |runs'|
        ensures !(runs'[k].base == runs'[k - 1].base + runs'[k - 1].length && runs'[k].typ == runs'[k - 1].typ && runs'[k].base != 0)
      {
        if k < |runs| {
          assert runs'[k] == runs[k] && runs'[k - 1] == runs[k - 1];
        }
      }
    }
  }

  /** Growing the last entry by descriptor i, which joins it, keeps the invariant. */
  lemma JoinKeepsInv(ds: seq<EfiDesc>, runs: seq<SmapEntry>, i: nat, starts: seq<nat>)
    requires i < |ds| && MergeInv(ds, runs, true, i, starts) && Joins(runs[|runs| - 1], ds[i])
    ensures var r := runs[|runs| - 1];
            MergeInv(ds, runs[|runs| - 1 := r.(length := r.length + ds[i].pages * 4096)], true, i + 1, starts)
  {
    var r := runs[|runs| - 1];
    var runs' := runs[|runs| - 1 := r.(length := r.length + ds[i].pages * 4096)];
    assert Maximal(runs') by {
      forall k | 0 < k < |runs'|
        ensures !(runs'[k].base == runs'[k - 1].base + runs'[k - 1].length && runs'[k].typ == runs'[k - 1].typ && runs'[k].base != 0)
      {
        if k < |runs| - 1 {
          assert runs'[k] == runs[k] && runs'[k - 1] == runs[k - 1];
        } else {
          assert runs'[k].base == runs[k].base && runs'[k].typ == runs[k].typ && runs'[k - 1] == runs[k - 1];
        }
      }
    }
  }

  /**
   * The entries keep input order, entries at page 0 are MEMORY, and a new
   * entry starts only where the descriptor could not join the previous one.
   */
  lemma {:induction false} MergeShape(ds: seq<EfiDesc>, limit: nat, runs: seq<SmapEntry>, open: bool, i: nat, starts: seq<nat>)
    requires i <= |ds| && MergeInv(ds, runs, open, i, starts)
    ensures var rs := Merge(ds, limit, runs, open, i);
            PageZeroIsMemory(rs) && Maximal(rs) && exists st :: StartedBy(ds, rs, st)
    decreases 2 * (|ds| - i) + (if open then 1 else 0)
  {
    if i == |ds| {
      assert StartedBy(ds, runs, starts);
    } else if !open {
      if |runs| >= limit {
        assert StartedBy(ds, runs, starts);
      } else {
        OpenKeepsInv(ds, runs, i, starts);
        var e := SmapEntry(ds[i].start, ds[i].pages * 4096, RunType(ds[i]));
        MergeShape(ds, limit, runs + [e], true, i + 1, starts + [i]);
      }
    } else {
      var r := runs[|runs| - 1];
      if Joins(r, ds[i]) {
        JoinKeepsInv(ds, runs, i, starts);
        MergeShape(ds, limit, runs[|runs| - 1 := r.(length := r.length + ds[i].pages * 4096)], true, i + 1, starts);
      } else {
        MergeShape(ds, limit, runs, false, i, starts);
      }
    }
  }

  lemma CoalesceShape(ds: seq<EfiDesc>, limit: nat)
    ensures var rs := Coalesce(ds, limit);
            PageZeroIsMemory(rs) && Maximal(rs) && exists st :: StartedBy(ds, rs, st)
  {
    MergeShape(ds, limit, [], false, 0, []);
  }

  /** One list node does not merge two descriptors unless the second joins the first. */
  lemma CoalesceJoin(d0: EfiDesc, d1: EfiDesc)
    ensures var rs := Coalesce([d0, d1], 2);
            |rs| == 1 <==> Joins(SmapEntry(d0.start, d0.pages * 4096, RunType(d0)), d1)
  {
    var ds := [d0, d1];
    var e := SmapEntry(d0.start, d0.pages * 4096, RunType(d0));
    assert [] + [e] == [e];
    assert Coalesce(ds, 2) == Merge(ds, 2, [e], true, 1);
    if Joins(e, d1) {
      var e' := e.(length := e.length + d1.pages * 4096);
      assert [e][0 := e'] == [e'];
      assert Merge(ds, 2, [e], true, 1) == Merge(ds, 2, [e'], true, 2);
    } else {
      var e2 := SmapEntry(d1.start, d1.pages * 4096, RunType(d1));
      assert Merge(ds, 2, [e], true, 1) == Merge(ds, 2, [e], false, 1);
      assert Merge(ds, 2, [e], false, 1) == Merge(ds, 2, [e] + [e2], true, 2);
    }
  }

  // ------------------------------------------------------------------
  // The loader's globals

  /** The static smapbase/smaplen of memmap.c. */
  class SmapStore {
    var smapbase: Option<seq<SmapEntry>>
    var smaplen: nat

    /** A table that is in use holds smaplen entries (an empty map leaves smapbase as it was). */
    ghost predicate Valid()
      reads this
    {
      smapbase.Some? && smaplen > 0 ==> |smapbase.value| == smaplen
    }

    constructor ()
      ensures Valid() && smapbase == None && smaplen == 0
    {
      smapbase := None;
      smaplen := 0;
    }

    /**
     * efi_getsmap.  `mapOk` is GetMemoryMap's result, `ds` the descriptors
     * it returned, `nodes` how many list nodes malloc provides before it
     * fails, and `arrayOk` whether the final smapbase allocation succeeds.
     */
    method GetSmap(mapOk: bool, ds: seq<EfiDesc>, nodes: nat, arrayOk: bool)
      requires Valid()
      modifies this
      ensures Valid()
      ensures !mapOk ==> smapbase == old(smapbase) && smaplen == old(smaplen)
      ensures mapOk ==> smaplen == |Coalesce(ds, nodes)|
      ensures mapOk && smaplen > 0 ==> smapbase == (if arrayOk then Some(Coalesce(ds, nodes)) else None)
      ensures mapOk && smaplen == 0 ==> smapbase == old(smapbase)
    {
      if !mapOk {
        return;
      }
      var runs: seq<SmapEntry> := [];
      var open := false;
      var i := 0;
      var ty := -1;
      while i < |ds|
        invariant 0 <= i <= |ds| && (open ==> |runs| > 0)
        invariant open ==> ty == runs[|runs| - 1].typ
        invariant Merge(ds, nodes, runs, open, i) == Coalesce(ds, nodes)
        decreases 2 * (|ds| - i) + (if open then 1 else 0)
      {
        if !open {
          if |runs| >= nodes {
            assert Merge(ds, nodes, runs, open, i) == runs;
            break;
          }
          var p := ds[i];
          ty := if p.start == 0 then SMAP_TYPE_MEMORY else SmapType(p.typ);
          runs := runs + [SmapEntry(p.start, p.pages * 4096, ty)];
          open := true;
          i := i + 1;
        } else {
          var p := ds[i];
          var last := runs[|runs| - 1];
          if SmapType(p.typ) == ty && p.start == last.base + last.length {
            runs := runs[|runs| - 1 := last.(length := last.length + p.pages * 4096)];
            i := i + 1;
          } else {
            open := false;
          }
        }
      }
      assert runs == Coalesce(ds, nodes);
      smaplen := |runs|;
      if smaplen > 0 {
        smapbase := if arrayOk then Some(runs) else None;
      }
    }

    /**
     * efi_addsmapdata: the SMAP metadata attached to the kernel, or None
     * when there is no table or it is empty.
     */
    function AddSmapData(): (r: Option<seq<SmapEntry>>)
      requires Valid()
      reads this
      ensures r.None? <==> smapbase.None? || smaplen == 0
      ensures r.Some? ==> |r.value| == smaplen && r.value == smapbase.value
    {
      if smapbase.None? || smaplen == 0 then None else Some(smapbase.value)
    }
  }
}
