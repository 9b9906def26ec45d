/**
 * The boot-information tag list as bytes, shared by the loader that writes
 * it (multiboot2.c) and the kernel that reads it (dboot_multiboot2.c).  A
 * tag is an 8-byte {u32 type, u32 size} header followed by its body; the
 * next tag starts at the next 8-byte boundary after size bytes.  Bytes the
 * writer does not set (padding, and any part of size beyond the body) keep
 * whatever the memory held.
 */
module Mb2Tags {
  import opened Mb2

  datatype Tag = Tag(typ: u32, size: u32, body: seq<byte>)

  /** The declared size covers the header and the body. */
  predicate ValidTag(t: Tag)
  {
    TAG_HEADER_SIZE + |t.body| <= t.size
  }

  predicate AllValid(ts: seq<Tag>)
  {
    forall k :: 0 <= k < |ts| ==> ValidTag(ts[k])
  }

  function Encode(t: Tag): (r: seq<byte>)
    ensures |r| == TAG_HEADER_SIZE + |t.body|
  {
    Put32(t.typ) + Put32(t.size) + t.body
  }

  /** The bytes a tag occupies in the list: its size rounded up to 8. */
  function Slot(t: Tag): (r: nat)
    ensures r % 8 == 0 && t.size <= r
  {
    RoundUp8(t.size)
  }

  function Span(ts: seq<Tag>): nat
  {
    if |ts| == 0 then 0 else Slot(ts[0]) + Span(ts[1..])
  }

  lemma {:induction false} SpanAppend(ts: seq<Tag>, us: seq<Tag>)
    ensures Span(ts + us) == Span(ts) + Span(us)
  {
    if |ts| == 0 {
      assert ts + us == us;
    } else {
      assert (ts + us)[1..] == ts[1..] + us;
      SpanAppend(ts[1..], us);
    }
  }

  lemma SpanOne(t: Tag)
    ensures Span([t]) == Slot(t)
  {
    assert [t][1..] == [];
  }

  /** A prefix of a list spans no more than the list. */
  lemma SpanPrefix(ts: seq<Tag>, k: nat)
    requires k <= |ts|
    ensures Span(ts[..k]) <= Span(ts)
  {
    assert ts == ts[..k] + ts[k..];
    SpanAppend(ts[..k], ts[k..]);
  }

  lemma {:induction false} SpanAligned(ts: seq<Tag>)
    ensures Span(ts) % 8 == 0
  {
    if |ts| > 0 {
      SpanAligned(ts[1..]);
    }
  }

  /** memcpy of b to offset off. */
  function Put(m: seq<byte>, off: nat, b: seq<byte>): (r: seq<byte>)
    requires off + |b| <= |m|
    ensures |r| == |m| && r[off..off + |b|] == b
    ensures r[..off] == m[..off] && r[off + |b|..] == m[off + |b|..]
  {
    m[..off] + b + m[off + |b|..]
  }

  /** Each tag's header and body, written at its slot from off, lies inside n bytes. */
  predicate FitsFrom(ts: seq<Tag>, off: nat, n: nat)
    decreases |ts|
  {
    |ts| == 0 || (off + |Encode(ts[0])| <= n && FitsFrom(ts[1..], off + Slot(ts[0]), n))
  }

  lemma {:induction false} ValidFits(ts: seq<Tag>, off: nat, n: nat)
    requires AllValid(ts) && off + Span(ts) <= n
    ensures FitsFrom(ts, off, n)
    decreases |ts|
  {
    if |ts| > 0 {
      AllValidTail(ts);
      ValidFits(ts[1..], off + Slot(ts[0]), n);
    }
  }

  lemma {:induction false} FitsAppend(ts: seq<Tag>, off: nat, n: nat, t: Tag)
    requires FitsFrom(ts, off, n) && off + Span(ts) + |Encode(t)| <= n
    ensures FitsFrom(ts + [t], off, n)
    decreases |ts|
  {
    if |ts| == 0 {
      assert ts + [t] == [t];
      assert [t][1..] == [];
    } else {
      assert (ts + [t])[0] == ts[0];
      assert (ts + [t])[1..] == ts[1..] + [t];
      FitsAppend(ts[1..], off + Slot(ts[0]), n, t);
    }
  }

  /** A list fits only if what follows its first part fits after that part's span. */
  lemma {:induction false} FitsSuffix(ts: seq<Tag>, us: seq<Tag>, off: nat, n: nat)
    requires FitsFrom(ts + us, off, n)
    ensures FitsFrom(us, off + Span(ts), n)
    decreases |ts|
  {
    if |ts| > 0 {
      assert (ts + us)[0] == ts[0];
      assert (ts + us)[1..] == ts[1..] + us;
      FitsSuffix(ts[1..], us, off + Slot(ts[0]), n);
    } else {
      assert ts + us == us;
    }
  }

  /** A list that fits takes one more tag exactly when that tag's bytes fit after it. */
  lemma FitsAppendIff(ts: seq<Tag>, off: nat, n: nat, t: Tag)
    requires FitsFrom(ts, off, n)
    ensures FitsFrom(ts + [t], off, n) <==> off + Span(ts) + |Encode(t)| <= n
  {
    if FitsFrom(ts + [t], off, n) {
      FitsSuffix(ts, [t], off, n);
      assert [t][0] == t;
    }
    if off + Span(ts) + |Encode(t)| <= n {
      FitsAppend(ts, off, n, t);
    }
  }

  /** What does not fit cannot be extended into something that fits. */
  lemma {:induction false} FitsPrefix(ts: seq<Tag>, us: seq<Tag>, off: nat, n: nat)
    requires FitsFrom(ts + us, off, n)
    ensures FitsFrom(ts, off, n)
    decreases |ts|
  {
    if |ts| > 0 {
      assert (ts + us)[0] == ts[0];
      assert (ts + us)[1..] == ts[1..] + us;
      FitsPrefix(ts[1..], us, off + Slot(ts[0]), n);
    }
  }

  /** The same, read the other way: once a prefix overruns, so does the whole list. */
  lemma Overruns(ts: seq<Tag>, us: seq<Tag>, off: nat, n: nat)
    requires !FitsFrom(ts, off, n)
    ensures !FitsFrom(ts + us, off, n)
  {
    if FitsFrom(ts + us, off, n) {
      FitsPrefix(ts, us, off, n);
    }
  }

  /** One tag of a list overruns, so the list does, whatever came before it. */
  lemma OverrunsAt(w: seq<Tag>, ts: seq<Tag>, i: nat, k: nat, t: Tag, off: nat, n: nat)
    requires i < k <= |ts| && t == ts[i]
    requires !FitsFrom((w + ts[..i]) + [t], off, n)
    ensures !FitsFrom(w + ts[..k], off, n)
  {
    assert (w + ts[..i]) + [t] == w + ts[..i + 1];
    assert w + ts[..k] == (w + ts[..i + 1]) + ts[i + 1..k];
    Overruns(w + ts[..i + 1], ts[i + 1..k], off, n);
  }

  /** n zero bytes. */
  function Zeros(n: nat): (r: seq<byte>)
    ensures |r| == n && forall i :: 0 <= i < n ==> r[i] == 0
  {
    seq(n, i => 0)
  }

  /** Writes the tags one after another from off: what the loader's mb_malloc-and-fill sequence leaves. */
  function Place(m: seq<byte>, off: nat, ts: seq<Tag>): (r: seq<byte>)
    requires FitsFrom(ts, off, |m|)
    ensures |r| == |m|
    decreases |ts|
  {
    if |ts| == 0 then m
    else Place(Put(m, off, Encode(ts[0])), off + Slot(ts[0]), ts[1..])
  }

  /** The tags are laid out in m from off: each header and body in place, each next tag at the next slot. */
  predicate TagsAt(m: seq<byte>, off: nat, ts: seq<Tag>)
    decreases |ts|
  {
    |ts| == 0 ||
    (off + TAG_HEADER_SIZE + |ts[0].body| <= |m| &&
     m[off..off + TAG_HEADER_SIZE + |ts[0].body|] == Encode(ts[0]) &&
     TagsAt(m, off + Slot(ts[0]), ts[1..]))
  }

  /** Writing tags leaves the bytes before off alone and establishes the layout. */
  lemma {:induction false} PlaceLays(m: seq<byte>, off: nat, ts: seq<Tag>)
    requires AllValid(ts) && off + Span(ts) <= |m|
    ensures FitsFrom(ts, off, |m|)
    ensures TagsAt(Place(m, off, ts), off, ts)
    ensures Place(m, off, ts)[..off] == m[..off]
    ensures Place(m, off, ts)[off + Span(ts)..] == m[off + Span(ts)..]
    decreases |ts|
  {
    ValidFits(ts, off, |m|);
    if |ts| > 0 {
      var e := Encode(ts[0]);
      var m1 := Put(m, off, e);
      var off1 := off + Slot(ts[0]);
      AllValidTail(ts);
      PlaceLays(m1, off1, ts[1..]);
      var r := Place(m1, off1, ts[1..]);
      var end := off1 + Span(ts[1..]);
      assert end == off + Span(ts);
      assert TagsAt(r, off, ts) && r[..off] == m[..off] && r[end..] == m[end..] by {
        Splice(m, m1, r, off, e, off1, end);
        TagsAtCons(r, off, ts);
      }
      assert Place(m, off, ts) == r;
    }
  }

  /** Bytes written at off survive a later write that keeps everything before off1 and from end on. */
  lemma Splice(m: seq<byte>, m1: seq<byte>, r: seq<byte>, off: nat, e: seq<byte>, off1: nat, end: nat)
    requires off + |e| <= off1 <= end <= |m| && |r| == |m| && m1 == Put(m, off, e)
    requires r[..off1] == m1[..off1] && r[end..] == m1[end..]
    ensures r[off..off + |e|] == e && r[..off] == m[..off] && r[end..] == m[end..]
  {
    assert r[off..off + |e|] == r[..off1][off..off + |e|];
    assert m1[off..off + |e|] == m1[..off1][off..off + |e|];
    assert r[..off] == r[..off1][..off];
    assert m1[..off] == m1[..off1][..off];
    assert m1[end..] == m1[off + |e|..][end - (off + |e|)..];
    assert m[end..] == m[off + |e|..][end - (off + |e|)..];
  }

  lemma AllValidConcat(ts: seq<Tag>, us: seq<Tag>)
    requires AllValid(ts) && AllValid(us)
    ensures AllValid(ts + us)
  {
    forall k | 0 <= k < |ts + us| ensures ValidTag((ts + us)[k]) {
      if k < |ts| {
        assert (ts + us)[k] == ts[k];
      } else {
        assert (ts + us)[k] == us[k - |ts|];
      }
    }
  }

  lemma AllValidTail(ts: seq<Tag>)
    requires |ts| > 0 && AllValid(ts)
    ensures ValidTag(ts[0]) && AllValid(ts[1..])
  {
    forall k | 0 <= k < |ts[1..]| ensures ValidTag(ts[1..][k]) {
      assert ts[1..][k] == ts[k + 1];
    }
  }

  /** Appending a tag writes it at the end of the list so far. */
  lemma {:induction false} PlaceAppend(m: seq<byte>, off: nat, ts: seq<Tag>, t: Tag)
    requires FitsFrom(ts, off, |m|) && off + Span(ts) + |Encode(t)| <= |m|
    ensures FitsFrom(ts + [t], off, |m|)
    ensures Place(m, off, ts + [t]) == Put(Place(m, off, ts), off + Span(ts), Encode(t))
    decreases |ts|
  {
    FitsAppend(ts, off, |m|, t);
    if |ts| == 0 {
      assert ts + [t] == [t];
      assert [t][1..] == [];
    } else {
      var us := ts + [t];
      assert us[0] == ts[0];
      assert us[1..] == ts[1..] + [t];
      var m1 := Put(m, off, Encode(ts[0]));
      var off1 := off + Slot(ts[0]);
      assert off1 + Span(ts[1..]) == off + Span(ts);
      PlaceAppend(m1, off1, ts[1..], t);
      assert Place(m, off, us) == Place(m1, off1, us[1..]);
      assert Place(m, off, ts) == Place(m1, off1, ts[1..]);
    }
  }

  lemma SubSlice(m: seq<byte>, a: nat, b: nat, i: nat, j: nat)
    requires a <= b <= |m| && i <= j <= b - a
    ensures m[a..b][i..j] == m[a + i..a + j]
  {
    assert forall k :: 0 <= k < j - i ==> m[a..b][i..j][k] == m[a + i + k];
  }

  /** The layout from off depends only on the bytes from off on. */
  lemma {:induction false} TagsAtSuffix(m: seq<byte>, m': seq<byte>, off: nat, ts: seq<Tag>)
    requires TagsAt(m, off, ts) && |m'| == |m| && off <= |m| && m'[off..] == m[off..]
    ensures TagsAt(m', off, ts)
    decreases |ts|
  {
    if |ts| > 0 {
      var n := off + TAG_HEADER_SIZE + |ts[0].body|;
      SubSlice(m, off, |m|, 0, n - off);
      SubSlice(m', off, |m'|, 0, n - off);
      var next := off + Slot(ts[0]);
      if next <= |m| {
        assert m'[next..] == m'[off..][next - off..];
        assert m[next..] == m[off..][next - off..];
        TagsAtSuffix(m, m', next, ts[1..]);
      } else {
        assert |ts| == 1;
      }
    }
  }

  /** The header fields of the first tag read back as written. */
  lemma HeaderReads(m: seq<byte>, off: nat, ts: seq<Tag>)
    requires |ts| > 0 && TagsAt(m, off, ts)
    ensures off + TAG_HEADER_SIZE <= |m|
    ensures U32At(m, off) == ts[0].typ && U32At(m, off + 4) == ts[0].size
    ensures m[off + TAG_HEADER_SIZE..off + TAG_HEADER_SIZE + |ts[0].body|] == ts[0].body
  {
    var e := Encode(ts[0]);
    var w := m[off..off + TAG_HEADER_SIZE + |ts[0].body|];
    assert w == e;
    assert e[0..4] == Put32(ts[0].typ);
    assert e[4..8] == Put32(ts[0].size);
    assert e[TAG_HEADER_SIZE..] == ts[0].body;
    var n := TAG_HEADER_SIZE + |ts[0].body|;
    SubSlice(m, off, off + n, 0, 4);
    SubSlice(m, off, off + n, 4, 8);
    SubSlice(m, off, off + n, TAG_HEADER_SIZE, n);
    assert w[TAG_HEADER_SIZE..] == w[TAG_HEADER_SIZE..n];
    U32RoundTrip(m, off, ts[0].typ);
    U32RoundTrip(m, off + 4, ts[0].size);
  }

  /** A 32-bit field at byte at of the first tag's body reads back from the list. */
  lemma BodyU32(m: seq<byte>, off: nat, ts: seq<Tag>, at: nat, v: u32)
    requires |ts| > 0 && TagsAt(m, off, ts)
    requires at + 4 <= |ts[0].body| && ts[0].body[at..at + 4] == Put32(v)
    ensures off + TAG_HEADER_SIZE + at + 4 <= |m| && U32At(m, off + TAG_HEADER_SIZE + at) == v
  {
    HeaderReads(m, off, ts);
    var b := m[off + TAG_HEADER_SIZE..off + TAG_HEADER_SIZE + |ts[0].body|];
    SubSlice(m, off + TAG_HEADER_SIZE, off + TAG_HEADER_SIZE + |ts[0].body|, at, at + 4);
    U32RoundTrip(m, off + TAG_HEADER_SIZE + at, v);
  }

  /** A tag encoded at off, followed by the rest of the list at the next slot, is the list laid out at off. */
  lemma TagsAtCons(m: seq<byte>, off: nat, ts: seq<Tag>)
    requires |ts| > 0 && off + |Encode(ts[0])| <= |m| && m[off..off + |Encode(ts[0])|] == Encode(ts[0])
    requires TagsAt(m, off + Slot(ts[0]), ts[1..])
    ensures TagsAt(m, off, ts)
  {
  }

  /** The rest of the list follows at the next slot. */
  lemma TagsAtTail(m: seq<byte>, off: nat, ts: seq<Tag>)
    requires |ts| > 0 && TagsAt(m, off, ts)
    ensures TagsAt(m, off + Slot(ts[0]), ts[1..])
  {
  }
}
