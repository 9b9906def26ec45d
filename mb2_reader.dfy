/**
 * The kernel's reader of the boot-information block
 * (dboot_multiboot2.c).  The block is a byte sequence whose offset 0 is
 * the mbi pointer: {u32 total_size, u32 reserved}, then the tags from
 * offset 8.  The reader checks nothing; what it relies on is WellFormed:
 * every tag's fixed part lies in the block, sizes are at least the fixed
 * part, and an END tag closes the list.
 */
module Mb2Reader {
  import opened Mb2
  import opened Wrappers
  import opened Mb2Tags

  /** The fixed part of each tag type the reader dereferences. */
  function MinSize(typ: u32): (n: nat)
    ensures TAG_HEADER_SIZE <= n
  {
    if typ == TAG_MODULE then MODULE_TAG_SIZE
    else if typ == TAG_BASIC_MEMINFO then MEMINFO_TAG_SIZE
    else if typ == TAG_MMAP then MMAP_TAG_SIZE
    else TAG_HEADER_SIZE
  }

  predicate WfFrom(m: seq<byte>, off: nat)
    decreases |m| + 8 - off
  {
    off + TAG_HEADER_SIZE <= |m| &&
    (U32At(m, off) == TAG_END ||
     (MinSize(U32At(m, off)) <= U32At(m, off + 4) && off + U32At(m, off + 4) <= |m| &&
      WfFrom(m, off + RoundUp8(U32At(m, off + 4)))))
  }

  /** MB2_FIRST_TAG: the list starts after the 8-byte info header. */
  predicate WellFormed(m: seq<byte>)
  {
    WfFrom(m, INFO_HEADER_SIZE)
  }

  /** MB2_NEXT_TAG: NULL after the END tag, else the next 8-byte boundary after size bytes. */
  function NextTag(m: seq<byte>, off: nat): (r: Option<nat>)
    requires WfFrom(m, off)
    ensures r.Some? ==> off + TAG_HEADER_SIZE <= r.value && WfFrom(m, r.value)
    ensures r.None? <==> U32At(m, off) == TAG_END
  {
    if U32At(m, off) == TAG_END then None else Some(off + RoundUp8(U32At(m, off + 4)))
  }

  /** find_tag_impl: the first tag of type typ from off, or NULL once END is passed. */
  function FindFrom(m: seq<byte>, off: nat, typ: u32): (r: Option<nat>)
    requires WfFrom(m, off)
    ensures r.Some? ==> off <= r.value && WfFrom(m, r.value) && U32At(m, r.value) == typ
    decreases |m| + 8 - off
  {
    if U32At(m, off) == typ then Some(off)
    else match NextTag(m, off)
      case None => None
      case Some(n) => FindFrom(m, n, typ)
  }

  /** find_tag. */
  function FindTag(m: seq<byte>, typ: u32): Option<nat>
    requires WellFormed(m)
  {
    FindFrom(m, INFO_HEADER_SIZE, typ)
  }

  /** find_tag_impl(MB2_NEXT_TAG(p), typ). */
  function FindAfter(m: seq<byte>, p: nat, typ: u32): (r: Option<nat>)
    requires WfFrom(m, p)
    ensures r.Some? ==> p < r.value && WfFrom(m, r.value) && U32At(m, r.value) == typ
  {
    match NextTag(m, p)
    case None => None
    case Some(n) => FindFrom(m, n, typ)
  }

  /** The tags of type typ that iterate visits, starting from the lookup l. */
  function HitsFrom(m: seq<byte>, l: Option<nat>, typ: u32): (ps: seq<nat>)
    requires l.Some? ==> WfFrom(m, l.value) && U32At(m, l.value) == typ
    decreases if l.Some? then |m| + 9 - l.value else 0
  {
    if l.None? then [] else [l.value] + HitsFrom(m, FindAfter(m, l.value, typ), typ)
  }

  /** Every tag iterate visits is a tag of type typ at which the list is still well formed. */
  lemma {:induction false} HitsAreTags(m: seq<byte>, l: Option<nat>, typ: u32)
    requires l.Some? ==> WfFrom(m, l.value) && U32At(m, l.value) == typ
    ensures forall i :: 0 <= i < |HitsFrom(m, l, typ)| ==>
              WfFrom(m, HitsFrom(m, l, typ)[i]) && U32At(m, HitsFrom(m, l, typ)[i]) == typ
    decreases if l.Some? then |m| + 9 - l.value else 0
  {
    if l.Some? {
      HitsAreTags(m, FindAfter(m, l.value, typ), typ);
    }
  }

  function Hits(m: seq<byte>, typ: u32): seq<nat>
    requires WellFormed(m)
  {
    HitsFrom(m, FindTag(m, typ), typ)
  }

  predicate Increasing(s: seq<nat>)
  {
    forall i, j :: 0 <= i < j < |s| ==> s[i] < s[j]
  }

  /** iterate meets the tags in strictly increasing address order, all at or after where it starts. */
  lemma {:induction false} HitsIncrease(m: seq<byte>, l: Option<nat>, typ: u32)
    requires l.Some? ==> WfFrom(m, l.value) && U32At(m, l.value) == typ
    ensures Increasing(HitsFrom(m, l, typ))
    ensures l.Some? ==> forall i :: 0 <= i < |HitsFrom(m, l, typ)| ==> l.value <= HitsFrom(m, l, typ)[i]
    decreases if l.Some? then |m| + 9 - l.value else 0
  {
    if l.Some? {
      var n := FindAfter(m, l.value, typ);
      var ps := HitsFrom(m, l, typ);
      var qs := HitsFrom(m, n, typ);
      assert ps == [l.value] + qs;
      assert Increasing(qs) && forall i :: 0 <= i < |qs| ==> l.value < qs[i] by {
        HitsIncrease(m, n, typ);
      }
      forall i, j | 0 <= i < j < |ps| ensures ps[i] < ps[j] {
        assert ps[j] == qs[j - 1];
        if i > 0 {
          assert ps[i] == qs[i - 1];
        }
      }
    }
  }

  /** The callback: NULL (count only), or iterate_callback with ctx->index. */
  datatype Callback = NoCallback | IndexCallback(index: int)

  /** The result of iterate and the ctx->tagp it leaves. */
  datatype Iterated = Iterated(count: int, tagp: Option<nat>)

  function IterateSpec(m: seq<byte>, typ: u32, cb: Callback): Iterated
    requires WellFormed(m)
  {
    var ps := Hits(m, typ);
    if cb.IndexCallback? && 0 <= cb.index < |ps| then Iterated(cb.index + 1, Some(ps[cb.index]))
    else Iterated(|ps|, None)
  }

  /** dboot_multiboot2_iterate, with ctx.callback either NULL or iterate_callback. */
  method Iterate(m: seq<byte>, typ: u32, cb: Callback) returns (r: Iterated)
    requires WellFormed(m)
    ensures r == IterateSpec(m, typ, cb)
  {
    var tagp := FindTag(m, typ);
    var index := 0;
    ghost var rest := Hits(m, typ);
    while tagp.Some?
      invariant 0 <= index <= |Hits(m, typ)|
      invariant tagp.Some? ==> WfFrom(m, tagp.value) && U32At(m, tagp.value) == typ
      invariant rest == HitsFrom(m, tagp, typ) && rest == Hits(m, typ)[index..]
      invariant !(cb.IndexCallback? && 0 <= cb.index < index)
      decreases |rest|
    {
      var next := FindAfter(m, tagp.value, typ);
      if cb.IndexCallback? && index == cb.index {
        assert rest[0] == tagp.value;
        return Iterated(index + 1, tagp);
      }
      rest := rest[1..];
      tagp := next;
      index := index + 1;
    }
    r := Iterated(index, None);
  }

  /** The callback stops the walk exactly at ctx->index: iterate returns index + 1 and the index-th tag. */
  lemma IterateStopsAtIndex(m: seq<byte>, typ: u32, k: int)
    requires WellFormed(m) && 0 <= k < |Hits(m, typ)|
    ensures IterateSpec(m, typ, IndexCallback(k)) == Iterated(k + 1, Some(Hits(m, typ)[k]))
  {
  }

  /** Without a callback, or with an index past the set, iterate counts the whole set and records nothing. */
  lemma IterateCounts(m: seq<byte>, typ: u32, cb: Callback)
    requires WellFormed(m) && (cb.NoCallback? || cb.index < 0 || cb.index >= |Hits(m, typ)|)
    ensures IterateSpec(m, typ, cb) == Iterated(|Hits(m, typ)|, None)
  {
  }

  // ------------------------------------------------------------------
  // Accessors

  /** dboot_multiboot2_modcount. */
  function ModCount(m: seq<byte>): int
    requires WellFormed(m)
  {
    IterateSpec(m, TAG_MODULE, NoCallback).count
  }

  /** The index-th module tag as modstart/modend/modcmdline find it. */
  function ModuleTag(m: seq<byte>, index: int): (r: Option<nat>)
    requires WellFormed(m)
    ensures r.Some? ==> WfFrom(m, r.value) && U32At(m, r.value) == TAG_MODULE
  {
    var it := IterateSpec(m, TAG_MODULE, IndexCallback(index));
    HitsAreTags(m, FindTag(m, TAG_MODULE), TAG_MODULE);
    if it.count != 0 && it.tagp.Some? then it.tagp else None
  }

  lemma ModuleFieldsInside(m: seq<byte>, p: nat)
    requires WfFrom(m, p) && U32At(m, p) == TAG_MODULE
    ensures p + MODULE_TAG_SIZE <= |m|
  {
  }

  /** dboot_multiboot2_modstart: mod_start of the index-th module, or 0. */
  function ModStart(m: seq<byte>, index: int): u32
    requires WellFormed(m)
  {
    match ModuleTag(m, index)
    case None => 0
    case Some(p) => ModuleFieldsInside(m, p); U32At(m, p + MOD_START_OFF)
  }

  /** dboot_multiboot2_modend. */
  function ModEnd(m: seq<byte>, index: int): u32
    requires WellFormed(m)
  {
    match ModuleTag(m, index)
    case None => 0
    case Some(p) => ModuleFieldsInside(m, p); U32At(m, p + MOD_END_OFF)
  }

  /** dboot_multiboot2_modcmdline: the offset of the index-th module's cmdline, or NULL. */
  function ModCmdline(m: seq<byte>, index: int): (r: Option<nat>)
    requires WellFormed(m)
    ensures r.Some? <==> 0 <= index < |Hits(m, TAG_MODULE)|
    ensures r.Some? ==> r.value == Hits(m, TAG_MODULE)[index] + MODULE_TAG_SIZE
  {
    match ModuleTag(m, index)
    case None => None
    case Some(p) => Some(p + MODULE_TAG_SIZE)
  }

  /** dboot_multiboot2_cmdline: the offset of the first CMDLINE tag's string, or NULL. */
  function Cmdline(m: seq<byte>): (r: Option<nat>)
    requires WellFormed(m)
    ensures r.Some? <==> FindTag(m, TAG_CMDLINE).Some?
  {
    match FindTag(m, TAG_CMDLINE)
    case None => None
    case Some(p) => Some(p + STRING_TAG_SIZE)
  }

  /** dboot_multiboot2_basicmeminfo: 1 and the tag's mem_lower/mem_upper, or 0 and the outputs untouched. */
  function BasicMeminfo(m: seq<byte>, lower: u32, upper: u32): (r: (int, u32, u32))
    requires WellFormed(m)
    ensures r.0 == 1 <==> FindTag(m, TAG_BASIC_MEMINFO).Some?
    ensures r.0 == 0 <==> FindTag(m, TAG_BASIC_MEMINFO).None?
    ensures r.0 == 0 ==> r.1 == lower && r.2 == upper
  {
    match FindTag(m, TAG_BASIC_MEMINFO)
    case None => (0, lower, upper)
    case Some(p) =>
      assert p + MEMINFO_TAG_SIZE <= |m|;
      (1, U32At(m, p + MEMINFO_LOWER_OFF), U32At(m, p + MEMINFO_UPPER_OFF))
  }

  /** dboot_multiboot2_get_mmap_tagp. */
  function MmapTag(m: seq<byte>): (r: Option<nat>)
    requires WellFormed(m)
    ensures r.Some? ==> r.value + MMAP_TAG_SIZE <= |m|
  {
    match FindTag(m, TAG_MMAP)
    case None => None
    case Some(p) => assert p + MMAP_TAG_SIZE <= |m|; Some(p)
  }

  /** The mmap tag an accessor uses: the one passed in, else the one found. */
  function MmapOf(m: seq<byte>, tagp: Option<nat>): Option<nat>
    requires WellFormed(m)
  {
    if tagp.Some? then tagp else MmapTag(m)
  }

  predicate MmapReadable(m: seq<byte>, tagp: Option<nat>)
    requires WellFormed(m)
  {
    MmapOf(m, tagp).Some? ==> MmapOf(m, tagp).value + MMAP_TAG_SIZE <= |m|
  }

  /** A two's-complement int of a 32-bit unsigned value. */
  function ToInt32(x: nat): (r: int)
    ensures -0x8000_0000 <= r < 0x8000_0000
    ensures x < 0x8000_0000 ==> r == x
  {
    var w := x % U32_MOD;
    if w < 0x8000_0000 then w else w - U32_MOD
  }

  /** (size - 16) / esize in unsigned 32-bit arithmetic, returned as an int. */
  function EntryCount(size: u32, esize: u32): int
    requires esize != 0
  {
    var diff: nat := if size >= MMAP_TAG_SIZE then size - MMAP_TAG_SIZE else size + U32_MOD - MMAP_TAG_SIZE;
    ToInt32(diff / esize)
  }

  /** A tag of 16 + 24 n bytes with 24-byte entries holds n entries. */
  lemma EntryCountExact(n: nat)
    requires MMAP_TAG_SIZE + MMAP_ENTRY_SIZE * n < U32_MOD
    ensures EntryCount(MMAP_TAG_SIZE + MMAP_ENTRY_SIZE * n, MMAP_ENTRY_SIZE as u32) == n
  {
    assert (MMAP_ENTRY_SIZE * n) / MMAP_ENTRY_SIZE == n;
  }

  /**
   * dboot_multiboot2_mmap_entries: (size - 16) / entry_size, in the 32-bit
   * unsigned arithmetic of the dboot build, or 0 without an mmap tag.
   */
  function MmapEntries(m: seq<byte>, tagp: Option<nat>): (r: int)
    requires WellFormed(m) && MmapReadable(m, tagp)
    requires MmapOf(m, tagp).Some? ==> U32At(m, MmapOf(m, tagp).value + MMAP_ENTRY_SIZE_OFF) != 0
    ensures MmapOf(m, tagp).None? ==> r == 0
  {
    match MmapOf(m, tagp)
    case None => 0
    case Some(p) =>
      var size := U32At(m, p + 4);
      var esize := U32At(m, p + MMAP_ENTRY_SIZE_OFF);
      EntryCount(size, esize)
  }

  /** entries[index] of the mmap tag lies inside the block: what the unchecked getters need of their callers. */
  predicate EntryInside(m: seq<byte>, tagp: Option<nat>, index: int)
    requires WellFormed(m)
  {
    MmapOf(m, tagp).Some? ==>
      0 <= index && MmapOf(m, tagp).value + MMAP_ENTRIES_OFF + MMAP_ENTRY_SIZE * (index + 1) <= |m|
  }

  function EntryOff(p: nat, index: nat): nat
  {
    p + MMAP_ENTRIES_OFF + MMAP_ENTRY_SIZE * index
  }

  /** dboot_multiboot2_mmap_get_base: entries[index].addr, or 0 without an mmap tag. */
  function MmapGetBase(m: seq<byte>, tagp: Option<nat>, index: int): (r: u64)
    requires WellFormed(m) && EntryInside(m, tagp, index)
    ensures MmapOf(m, tagp).None? ==> r == 0
    ensures MmapOf(m, tagp).Some? ==> r == U64At(m, EntryOff(MmapOf(m, tagp).value, index))
  {
    match MmapOf(m, tagp)
    case None => 0
    case Some(p) => U64At(m, EntryOff(p, index))
  }

  /** dboot_multiboot2_mmap_get_length: entries[index].len, or 0. */
  function MmapGetLength(m: seq<byte>, tagp: Option<nat>, index: int): (r: u64)
    requires WellFormed(m) && EntryInside(m, tagp, index)
    ensures MmapOf(m, tagp).None? ==> r == 0
    ensures MmapOf(m, tagp).Some? ==> r == U64At(m, EntryOff(MmapOf(m, tagp).value, index) + 8)
  {
    match MmapOf(m, tagp)
    case None => 0
    case Some(p) => U64At(m, EntryOff(p, index) + 8)
  }

  /** dboot_multiboot2_mmap_get_type: entries[index].type, or 0. */
  function MmapGetType(m: seq<byte>, tagp: Option<nat>, index: int): (r: u32)
    requires WellFormed(m) && EntryInside(m, tagp, index)
    ensures MmapOf(m, tagp).None? ==> r == 0
    ensures MmapOf(m, tagp).Some? ==> r == U32At(m, EntryOff(MmapOf(m, tagp).value, index) + 16)
  {
    match MmapOf(m, tagp)
    case None => 0
    case Some(p) => U32At(m, EntryOff(p, index) + 16)
  }

  /** dboot_multiboot2_highest_addr: the mbi address plus total_size. */
  function HighestAddr(mbi: nat, m: seq<byte>): (r: nat)
    requires |m| >= INFO_HEADER_SIZE
    ensures r == mbi + U32At(m, 0) && mbi <= r
  {
    mbi + U32At(m, 0)
  }

  // ------------------------------------------------------------------
  // Reading back a list that was laid out with Mb2Tags.Place

  /** The list as the loader builds it: one END tag, last; every other tag at least its fixed part. */
  predicate ListOk(ts: seq<Tag>)
  {
    |ts| > 0 && ts[|ts| - 1].typ == TAG_END &&
    forall k :: 0 <= k < |ts| - 1 ==> ts[k].typ != TAG_END && MinSize(ts[k].typ) <= ts[k].size
  }

  lemma ListOkTail(ts: seq<Tag>)
    requires ListOk(ts) && |ts| > 1
    ensures ListOk(ts[1..])
  {
    var us := ts[1..];
    assert us[|us| - 1] == ts[|ts| - 1];
    forall k | 0 <= k < |us| - 1 ensures us[k].typ != TAG_END && MinSize(us[k].typ) <= us[k].size {
      assert us[k] == ts[k + 1];
    }
  }

  /** The tags of type typ, with their offsets, that a walk from off meets before passing END. */
  function Matches(off: nat, ts: seq<Tag>, typ: u32): seq<(nat, Tag)>
    decreases |ts|
  {
    if |ts| == 0 then []
    else (if ts[0].typ == typ then [(off, ts[0])] else []) +
         (if ts[0].typ == TAG_END then [] else Matches(off + Slot(ts[0]), ts[1..], typ))
  }

  function Offsets(ps: seq<(nat, Tag)>): (r: seq<nat>)
    ensures |r| == |ps| && forall i :: 0 <= i < |ps| ==> r[i] == ps[i].0
  {
    if |ps| == 0 then [] else [ps[0].0] + Offsets(ps[1..])
  }

  lemma OffsetsAppend(a: seq<(nat, Tag)>, b: seq<(nat, Tag)>)
    ensures Offsets(a + b) == Offsets(a) + Offsets(b)
  {
    assert Offsets(a + b) == Offsets(a) + Offsets(b);
  }

  /** No tag of the run is END. */
  predicate NoEnd(a: seq<Tag>)
    decreases |a|
  {
    |a| == 0 || (a[0].typ != TAG_END && NoEnd(a[1..]))
  }

  lemma {:induction false} NoEndOf(a: seq<Tag>)
    requires forall t :: t in a ==> t.typ != TAG_END
    ensures NoEnd(a)
    decreases |a|
  {
    if |a| > 0 {
      assert a[0] in a;
      assert forall t :: t in a[1..] ==> t in a;
      NoEndOf(a[1..]);
    }
  }

  /** Before END, the walk over two runs of tags meets the first run's matches, then the second's. */
  lemma {:induction false} MatchesAppend(off: nat, a: seq<Tag>, b: seq<Tag>, typ: u32)
    requires NoEnd(a)
    ensures Matches(off, a + b, typ) == Matches(off, a, typ) + Matches(off + Span(a), b, typ)
    decreases |a|
  {
    if |a| == 0 {
      assert a + b == b;
      var y := Matches(off, b, typ);
      assert Matches(off, a, typ) + y == y;
    } else {
      var off1 := off + Slot(a[0]);
      var h := if a[0].typ == typ then [(off, a[0])] else [];
      assert (a + b)[0] == a[0];
      assert (a + b)[1..] == a[1..] + b;
      MatchesCons(off, a + b, typ);
      MatchesCons(off, a, typ);
      MatchesAppend(off1, a[1..], b, typ);
      assert off1 + Span(a[1..]) == off + Span(a);
      ConcatAssoc(h, Matches(off1, a[1..], typ), Matches(off + Span(a), b, typ));
    }
  }

  /** Before END, the walk matches the first tag or not, then goes on at the next slot. */
  lemma MatchesCons(off: nat, ts: seq<Tag>, typ: u32)
    requires |ts| > 0 && ts[0].typ != TAG_END
    ensures Matches(off, ts, typ) ==
            (if ts[0].typ == typ then [(off, ts[0])] else []) + Matches(off + Slot(ts[0]), ts[1..], typ)
  {
  }

  lemma ConcatAssoc<T>(h: seq<T>, x: seq<T>, y: seq<T>)
    ensures h + (x + y) == (h + x) + y
  {
  }

  /** A run with no tag of typ matches nothing. */
  lemma {:induction false} MatchesNone(off: nat, a: seq<Tag>, typ: u32)
    requires forall k :: 0 <= k < |a| ==> a[k].typ != typ
    ensures Matches(off, a, typ) == []
    decreases |a|
  {
    if |a| > 0 {
      MatchesNone(off + Slot(a[0]), a[1..], typ);
    }
  }

  /** A run made only of tags of typ, none of them END, matches each of its tags in order. */
  lemma {:induction false} MatchesAll(off: nat, a: seq<Tag>, typ: u32)
    requires typ != TAG_END && forall k :: 0 <= k < |a| ==> a[k].typ == typ
    ensures |Matches(off, a, typ)| == |a|
    ensures forall k :: 0 <= k < |a| ==> Matches(off, a, typ)[k].1 == a[k]
    decreases |a|
  {
    if |a| > 0 {
      MatchesAll(off + Slot(a[0]), a[1..], typ);
      var rest := Matches(off + Slot(a[0]), a[1..], typ);
      assert Matches(off, a, typ) == [(off, a[0])] + rest;
      forall k | 0 < k < |a| ensures Matches(off, a, typ)[k].1 == a[k] {
        assert Matches(off, a, typ)[k] == rest[k - 1];
      }
    }
  }

  /** A list laid out from off reads back: it is well formed, and the walk meets exactly its tags of typ, in order. */
  lemma {:induction false} ReadBack(m: seq<byte>, off: nat, ts: seq<Tag>, typ: u32)
    requires TagsAt(m, off, ts) && ListOk(ts) && off + Span(ts) <= |m|
    ensures WfFrom(m, off)
    ensures HitsFrom(m, FindFrom(m, off, typ), typ) == Offsets(Matches(off, ts, typ))
    decreases |ts|
  {
    HeaderReads(m, off, ts);
    var t := ts[0];
    if t.typ != TAG_END {
      ListOkTail(ts);
      TagsAtTail(m, off, ts);
      var n := off + Slot(t);
      ReadBack(m, n, ts[1..], typ);
      assert NextTag(m, off) == Some(n);
      if t.typ == typ {
        assert FindAfter(m, off, typ) == FindFrom(m, n, typ);
        OffsetsAppend([(off, t)], Matches(n, ts[1..], typ));
      } else {
        assert Matches(off, ts, typ) == Matches(n, ts[1..], typ);
      }
    } else {
      if t.typ == typ {
        assert FindAfter(m, off, typ) == None;
      }
    }
  }

  /** Every matched tag sits, encoded, at its offset. */
  lemma {:induction false} MatchesEncoded(m: seq<byte>, off: nat, ts: seq<Tag>, typ: u32)
    requires TagsAt(m, off, ts)
    ensures forall i :: 0 <= i < |Matches(off, ts, typ)| ==>
              var (p, t) := Matches(off, ts, typ)[i];
              t.typ == typ && TagsAt(m, p, [t])
    decreases |ts|
  {
    if |ts| > 0 {
      TagsAtTail(m, off, ts);
      MatchesEncoded(m, off + Slot(ts[0]), ts[1..], typ);
      assert TagsAt(m, off, [ts[0]]) by {
        assert [ts[0]][0] == ts[0];
        assert [ts[0]][1..] == [];
      }
    }
  }

  /** The module tag the accessors pick for index k is the k-th hit. */
  lemma ModuleTagIsHit(m: seq<byte>, k: int)
    requires WellFormed(m) && 0 <= k < |Hits(m, TAG_MODULE)|
    ensures ModuleTag(m, k) == Some(Hits(m, TAG_MODULE)[k])
  {
    IterateStopsAtIndex(m, TAG_MODULE, k);
  }

  /** A module tag encoded at p reads back its mod_start and mod_end. */
  lemma ModuleFieldsRead(m: seq<byte>, p: nat, t: Tag)
    requires TagsAt(m, p, [t]) && |t.body| >= 8
    ensures p + MODULE_TAG_SIZE <= |m|
    ensures U32At(m, p + MOD_START_OFF) == LE(t.body[0..4]) && U32At(m, p + MOD_END_OFF) == LE(t.body[4..8])
  {
    HeaderReads(m, p, [t]);
    SubSlice(m, p + TAG_HEADER_SIZE, p + TAG_HEADER_SIZE + |t.body|, 0, 4);
    SubSlice(m, p + TAG_HEADER_SIZE, p + TAG_HEADER_SIZE + |t.body|, 4, 8);
  }

  /** The k-th module the reader finds has the mod_start, mod_end and cmdline offset of the k-th module tag written. */
  lemma ModulesReadBack(m: seq<byte>, ts: seq<Tag>, k: int)
    requires TagsAt(m, INFO_HEADER_SIZE, ts) && ListOk(ts) && INFO_HEADER_SIZE + Span(ts) <= |m|
    requires 0 <= k < |Matches(INFO_HEADER_SIZE, ts, TAG_MODULE)|
    requires |Matches(INFO_HEADER_SIZE, ts, TAG_MODULE)[k].1.body| >= 8
    ensures WellFormed(m)
    ensures ModCount(m) == |Matches(INFO_HEADER_SIZE, ts, TAG_MODULE)|
    ensures var (p, t) := Matches(INFO_HEADER_SIZE, ts, TAG_MODULE)[k];
            ModStart(m, k) == LE(t.body[0..4]) && ModEnd(m, k) == LE(t.body[4..8]) &&
            ModCmdline(m, k) == Some(p + MODULE_TAG_SIZE)
  {
    var ms := Matches(INFO_HEADER_SIZE, ts, TAG_MODULE);
    assert WellFormed(m) && Hits(m, TAG_MODULE) == Offsets(ms) by {
      ReadBack(m, INFO_HEADER_SIZE, ts, TAG_MODULE);
    }
    IterateCounts(m, TAG_MODULE, NoCallback);
    var (p, t) := ms[k];
    assert Hits(m, TAG_MODULE)[k] == p;
    assert TagsAt(m, p, [t]) by {
      MatchesEncoded(m, INFO_HEADER_SIZE, ts, TAG_MODULE);
    }
    ModuleTagIsHit(m, k);
    ModuleFieldsRead(m, p, t);
  }
}
