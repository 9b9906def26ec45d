/**
 * The EFI relocator, efi_copy_finish (copy.c).  After ExitBootServices every
 * staged chunk (struct chunk: vaddr, paddr, size) is copied from where the
 * loader staged it (vaddr) to where the kernel expects it (paddr).  A chunk
 * is moved only when the scan finds no chunk still waiting to move whose
 * source would be overwritten; after each move the scan starts again from
 * the head of the list.  Physical memory is a byte array and the chunk list
 * (the STAILQ of struct relocator) an array in list order.
 *
 * The loop as written has no cycle detection and, besides, can spin forever
 * on an acyclic list (LivelockAsWritten); CopyFinishFixed is the corrected
 * loop, which terminates whenever the "is blocked by" relation is acyclic.
 */
module Relocator {
  import opened Mb2
  import opened Wrappers

  datatype Chunk = Chunk(vaddr: nat, paddr: nat, size: nat)

  /** A chunk is in place once its current address is its destination. */
  predicate InPlace(c: Chunk) { c.vaddr == c.paddr }

  predicate Fits(c: Chunk, len: nat) { c.vaddr + c.size <= len && c.paddr + c.size <= len }

  predicate AllFit(cs: seq<Chunk>, len: nat) { forall k :: 0 <= k < |cs| ==> Fits(cs[k], len) }

  predicate AllInPlace(cs: seq<Chunk>) { forall k :: 0 <= k < |cs| ==> InPlace(cs[k]) }

  // ------------------------------------------------------------------
  // memmove

  /** memmove(dst, src, n): bytes [dst, dst+n) receive the old bytes [src, src+n); nothing else changes. */
  function Move(m: seq<byte>, dst: nat, src: nat, n: nat): (r: seq<byte>)
    requires dst + n <= |m| && src + n <= |m|
    ensures |r| == |m|
    ensures forall a :: 0 <= a < |m| && !(dst <= a < dst + n) ==> r[a] == m[a]
    ensures r[dst..dst + n] == m[src..src + n]
  {
    m[..dst] + m[src..src + n] + m[dst + n..]
  }

  /** Moving a chunk onto itself leaves memory as it is. */
  lemma MoveOntoItself(m: seq<byte>, d: nat, n: nat)
    requires d + n <= |m|
    ensures Move(m, d, d, n) == m
  {
    var r := Move(m, d, d, n);
    assert forall a :: 0 <= a < |m| ==> r[a] == m[a];
  }

  /** m is m0 after memmove(dst, src, n), stated byte by byte. */
  predicate MovedBytes(m: seq<byte>, m0: seq<byte>, dst: nat, src: nat, n: nat)
    requires dst + n <= |m0| && src + n <= |m0|
  {
    |m| == |m0| &&
    (forall a :: 0 <= a < |m| && !(dst <= a < dst + n) ==> m[a] == m0[a]) &&
    (forall a :: dst <= a < dst + n ==> m[a] == m0[src + (a - dst)])
  }

  lemma MovedBytesIsMove(m: seq<byte>, m0: seq<byte>, dst: nat, src: nat, n: nat)
    requires dst + n <= |m0| && src + n <= |m0| && MovedBytes(m, m0, dst, src, n)
    ensures m == Move(m0, dst, src, n)
  {
    var r := Move(m0, dst, src, n);
    forall a | 0 <= a < |m|
      ensures m[a] == r[a]
    {
      if dst <= a < dst + n {
        assert r[dst..dst + n][a - dst] == m0[src..src + n][a - dst];
      }
    }
  }

  /** The relocator's memmove: copy upward when the destination is below the source, downward otherwise. */
  method MemMove(mem: array<byte>, dst: nat, src: nat, n: nat)
    requires dst + n <= mem.Length && src + n <= mem.Length
    modifies mem
    ensures mem[..] == Move(old(mem[..]), dst, src, n)
  {
    ghost var m0 := mem[..];
    if dst <= src {
      CopyUp(mem, dst, src, n);
    } else {
      CopyDown(mem, dst, src, n);
    }
    MovedBytesIsMove(mem[..], m0, dst, src, n);
  }

  method CopyUp(mem: array<byte>, dst: nat, src: nat, n: nat)
    requires dst <= src && src + n <= mem.Length
    modifies mem
    ensures MovedBytes(mem[..], old(mem[..]), dst, src, n)
  {
    var i := 0;
    while i < n
      invariant 0 <= i <= n
      invariant forall a :: 0 <= a < mem.Length && !(dst <= a < dst + i) ==> mem[a] == old(mem[a])
      invariant forall a :: dst <= a < dst + i ==> mem[a] == old(mem[src + (a - dst)])
    {
      mem[dst + i] := mem[src + i];
      i := i + 1;
    }
  }

  method CopyDown(mem: array<byte>, dst: nat, src: nat, n: nat)
    requires src < dst && dst + n <= mem.Length
    modifies mem
    ensures MovedBytes(mem[..], old(mem[..]), dst, src, n)
  {
    var i := n;
    while i > 0
      invariant 0 <= i <= n
      invariant forall a :: 0 <= a < mem.Length && !(dst + i <= a < dst + n) ==> mem[a] == old(mem[a])
      invariant forall a :: dst + i <= a < dst + n ==> mem[a] == old(mem[src + (a - dst)])
    {
      i := i - 1;
      mem[dst + i] := mem[src + i];
    }
  }

  // ------------------------------------------------------------------
  // The loop as written

  /** The address test of the conflict scan: c's first or last address lies in the closed range [k.paddr, k.paddr + k.size]. */
  predicate EndpointInTarget(c: Chunk, k: Chunk)
  {
    (k.paddr <= c.vaddr && c.vaddr <= k.paddr + k.size) ||
    (k.paddr <= c.vaddr + c.size && c.vaddr + c.size <= k.paddr + k.size)
  }

  /** c holds k back: c has not moved yet, is not taken for k itself (equal vaddr and size) and passes the address test. */
  predicate HoldsBack(c: Chunk, k: Chunk)
  {
    !InPlace(c) && !(c.vaddr == k.vaddr && c.size == k.size) && EndpointInTarget(c, k)
  }

  predicate Conflict(cs: seq<Chunk>, k: nat)
    requires k < |cs|
  {
    exists j :: 0 <= j < |cs| && HoldsBack(cs[j], cs[k])
  }

  /** The first chunk at or after index i that is not in place. */
  function FirstUnplacedFrom(cs: seq<Chunk>, i: nat): (r: Option<nat>)
    requires i <= |cs|
    ensures r.Some? ==> i <= r.value < |cs| && !InPlace(cs[r.value]) &&
                        forall j :: i <= j < r.value ==> InPlace(cs[j])
    ensures r.None? <==> forall j :: i <= j < |cs| ==> InPlace(cs[j])
    decreases |cs| - i
  {
    if i == |cs| then None
    else if !InPlace(cs[i]) then Some(i)
    else FirstUnplacedFrom(cs, i + 1)
  }

  function FirstUnplaced(cs: seq<Chunk>): (r: Option<nat>)
    ensures r.Some? ==> r.value < |cs| && !InPlace(cs[r.value]) && forall j :: 0 <= j < r.value ==> InPlace(cs[j])
    ensures r.None? <==> AllInPlace(cs)
  {
    FirstUnplacedFrom(cs, 0)
  }

  /** The loop's state: chunk list, memory and the `chunk` cursor (None for NULL). */
  datatype State = State(cs: seq<Chunk>, mem: seq<byte>, cur: Option<nat>)

  predicate Valid(s: State)
  {
    AllFit(s.cs, |s.mem|) && (s.cur.Some? ==> s.cur.value < |s.cs|)
  }

  /**
   * One pass of the `while (done == 0)` body; None when the loop breaks.  With
   * no cursor it starts at the first chunk not in place; a chunk with no
   * conflict is moved and the cursor reset, otherwise the cursor goes to the
   * next chunk in the list, whether or not that one is in place.
   */
  function Step(s: State): (r: Option<State>)
    requires Valid(s)
    ensures r.None? <==> s.cur.None? && AllInPlace(s.cs)
    ensures r.Some? ==> Valid(r.value) && |r.value.cs| == |s.cs| && |r.value.mem| == |s.mem|
  {
    var k := if s.cur.Some? then s.cur else FirstUnplaced(s.cs);
    if k.None? then None
    else
      var c := s.cs[k.value];
      if Conflict(s.cs, k.value) then
        Some(State(s.cs, s.mem, if k.value + 1 < |s.cs| then Some(k.value + 1) else None))
      else
        Some(State(s.cs[k.value := c.(vaddr := c.paddr)], Move(s.mem, c.paddr, c.vaddr, c.size), None))
  }

  datatype Outcome = Outcome(s: State, exited: bool)

  /** At most `fuel` passes of the loop; `exited` says whether it broke out. */
  function Run(s: State, fuel: nat): (o: Outcome)
    requires Valid(s)
    ensures Valid(o.s) && |o.s.cs| == |s.cs| && |o.s.mem| == |s.mem|
    ensures o.exited ==> AllInPlace(o.s.cs)
    decreases fuel
  {
    if fuel == 0 then Outcome(s, false)
    else
      match Step(s)
      case None => Outcome(s, true)
      case Some(t) => Run(t, fuel - 1)
  }

  /** The STAILQ_FOREACH that looks for anything left to do. */
  method FindUnplaced(chunks: array<Chunk>) returns (k: Option<nat>)
    ensures k == FirstUnplaced(chunks[..])
  {
    var i := 0;
    while i < chunks.Length
      invariant 0 <= i <= chunks.Length
      invariant forall j :: 0 <= j < i ==> InPlace(chunks[j])
    {
      if chunks[i].paddr != chunks[i].vaddr {
        k := Some(i);
        assert FirstUnplacedFrom(chunks[..], i) == Some(i);
        FirstUnplacedSkips(chunks[..], 0, i);
        return;
      }
      i := i + 1;
    }
    k := None;
  }

  lemma {:induction false} FirstUnplacedSkips(cs: seq<Chunk>, i: nat, k: nat)
    requires i <= k <= |cs|
    requires forall j :: i <= j < k ==> InPlace(cs[j])
    ensures FirstUnplacedFrom(cs, i) == FirstUnplacedFrom(cs, k)
    decreases k - i
  {
    if i < k {
      FirstUnplacedSkips(cs, i + 1, k);
    }
  }

  /** The STAILQ_FOREACH conflict scan for chunk k. */
  method ScanConflicts(chunks: array<Chunk>, k: nat) returns (found: bool)
    requires k < chunks.Length
    ensures found == Conflict(chunks[..], k)
  {
    var ck := chunks[k];
    var j := 0;
    while j < chunks.Length
      invariant 0 <= j <= chunks.Length
      invariant forall i :: 0 <= i < j ==> !HoldsBack(chunks[i], ck)
    {
      var c := chunks[j];
      if c.vaddr == c.paddr {
      } else if c.vaddr == ck.vaddr && c.size == ck.size {
      } else if (c.vaddr >= ck.paddr && c.vaddr <= ck.paddr + ck.size) ||
                (c.vaddr + c.size >= ck.paddr && c.vaddr + c.size <= ck.paddr + ck.size) {
        assert HoldsBack(chunks[..][j], chunks[..][k]);
        return true;
      }
      j := j + 1;
    }
    assert forall i :: 0 <= i < |chunks[..]| ==> !HoldsBack(chunks[..][i], chunks[..][k]);
    return false;
  }

  /**
   * efi_copy_finish as written, run for at most `fuel` passes of its loop.
   * It returns the destination of the last chunk (the MBI); when the loop
   * breaks every chunk is in place, and the final state is that of Run.
   */
  method CopyFinish(mem: array<byte>, chunks: array<Chunk>, fuel: nat) returns (mbi: nat, exited: bool)
    requires chunks.Length > 0
    requires AllFit(chunks[..], mem.Length)
    modifies mem, chunks
    ensures mbi == old(chunks[chunks.Length - 1].paddr)
    ensures exited ==> AllInPlace(chunks[..])
    ensures var o := Run(State(old(chunks[..]), old(mem[..]), None), fuel);
            o.exited == exited && o.s.cs == chunks[..] && o.s.mem == mem[..]
  {
    mbi := chunks[chunks.Length - 1].paddr;
    ghost var s0 := State(chunks[..], mem[..], None);
    var cur: Option<nat> := None;
    var done := false;
    var steps := 0;
    while !done && steps < fuel
      invariant 0 <= steps <= fuel
      invariant Valid(State(chunks[..], mem[..], cur))
      invariant Run(s0, fuel) == if done then Outcome(State(chunks[..], mem[..], cur), true)
                                 else Run(State(chunks[..], mem[..], cur), fuel - steps)
      decreases fuel - steps
    {
      var next, broke := Pass(mem, chunks, cur);
      if broke {
        done := true;
      } else {
        cur := next;
      }
      steps := steps + 1;
    }
    exited := done;
  }

  /**
   * One pass of the loop body: with no cursor, look for a chunk not in
   * place and break when there is none; move the chunk at the cursor when
   * nothing conflicts with it, or else go on to the next chunk.
   */
  method Pass(mem: array<byte>, chunks: array<Chunk>, cur: Option<nat>) returns (next: Option<nat>, broke: bool)
    requires Valid(State(chunks[..], mem[..], cur))
    modifies mem, chunks
    ensures broke <==> Step(State(old(chunks[..]), old(mem[..]), cur)).None?
    ensures broke ==> chunks[..] == old(chunks[..]) && mem[..] == old(mem[..])
    ensures !broke ==> Step(State(old(chunks[..]), old(mem[..]), cur)) == Some(State(chunks[..], mem[..], next))
  {
    ghost var s := State(chunks[..], mem[..], cur);
    var chunk := cur;
    if chunk.None? {
      chunk := FindUnplaced(chunks);
      if chunk.None? {
        return None, true;
      }
    }
    var k := chunk.value;
    var c := chunks[k];
    var blocked := ScanConflicts(chunks, k);
    if !blocked {
      MemMove(mem, c.paddr, c.vaddr, c.size);
      chunks[k] := c.(vaddr := c.paddr);
      next := None;
    } else {
      next := if k + 1 < chunks.Length then Some(k + 1) else None;
    }
    broke := false;
    assert Step(s) == Some(State(chunks[..], mem[..], next));
  }

  // ------------------------------------------------------------------
  // What a pass changes

  /** cs is cs0 with some chunks moved: destinations and sizes are kept, and a chunk's address is either its original one or its destination. */
  predicate Related(cs0: seq<Chunk>, cs: seq<Chunk>)
  {
    |cs| == |cs0| && forall k {:trigger MovedFrom(cs0[k], cs[k])} :: 0 <= k < |cs| ==> MovedFrom(cs0[k], cs[k])
  }

  /** c is c0, possibly moved to its destination. */
  predicate MovedFrom(c0: Chunk, c: Chunk)
  {
    c.paddr == c0.paddr && c.size == c0.size && (c.vaddr == c0.vaddr || InPlace(c))
  }

  /** A pass keeps every destination and size and only ever sets a chunk's address to its destination. */
  lemma StepRelated(s: State)
    requires Valid(s) && Step(s).Some?
    ensures Related(s.cs, Step(s).value.cs)
    ensures Step(s).value.mem == s.mem ||
            (exists k :: 0 <= k < |s.cs| && !Conflict(s.cs, k) &&
               Step(s).value.mem == Move(s.mem, s.cs[k].paddr, s.cs[k].vaddr, s.cs[k].size))
  {
    var t := Step(s).value;
    forall k | 0 <= k < |s.cs|
      ensures MovedFrom(s.cs[k], t.cs[k])
    {
    }
  }

  lemma RelatedTrans(cs0: seq<Chunk>, cs1: seq<Chunk>, cs2: seq<Chunk>)
    requires Related(cs0, cs1) && Related(cs1, cs2)
    ensures Related(cs0, cs2)
  {
    forall k | 0 <= k < |cs2|
      ensures MovedFrom(cs0[k], cs2[k])
    {
      assert MovedFrom(cs0[k], cs1[k]) && MovedFrom(cs1[k], cs2[k]);
    }
  }

  /** The loop never changes a destination or a size, whatever the fuel. */
  lemma {:induction false} RunRelated(s: State, fuel: nat)
    requires Valid(s)
    ensures Related(s.cs, Run(s, fuel).s.cs)
    decreases fuel
  {
    if fuel > 0 && Step(s).Some? {
      var t := Step(s).value;
      StepRelated(s);
      RunRelated(t, fuel - 1);
      RelatedTrans(s.cs, t.cs, Run(t, fuel - 1).s.cs);
    }
  }

  // ------------------------------------------------------------------
  // Integrity of the data

  /** Bytes [at, at+n) of m hold bytes [from, from+n) of m0. */
  predicate Holds(m: seq<byte>, at: nat, m0: seq<byte>, from: nat, n: nat)
  {
    at + n <= |m| && from + n <= |m0| && m[at..at + n] == m0[from..from + n]
  }

  /** Every chunk's data, wherever the chunk now is, is the data it was staged with. */
  predicate Intact(cs0: seq<Chunk>, m0: seq<byte>, cs: seq<Chunk>, m: seq<byte>)
  {
    |cs| == |cs0| &&
    forall k {:trigger IntactAt(m0, cs0[k], m, cs[k])} :: 0 <= k < |cs| ==> IntactAt(m0, cs0[k], m, cs[k])
  }

  /** The bytes at c's current address are those c0 was staged with. */
  predicate IntactAt(m0: seq<byte>, c0: Chunk, m: seq<byte>, c: Chunk)
  {
    Holds(m, c.vaddr, m0, c0.vaddr, c.size)
  }

  /** Half-open overlap of c's current bytes with k's destination. */
  predicate Overlaps(c: Chunk, k: Chunk)
  {
    c.vaddr < k.paddr + k.size && k.paddr < c.vaddr + c.size
  }

  predicate ApartTargets(c: Chunk, d: Chunk)
  {
    !(c.paddr < d.paddr + d.size && d.paddr < c.paddr + c.size)
  }

  /** No two chunks share a destination byte. */
  predicate TargetsDisjoint(cs: seq<Chunk>)
  {
    forall j, k {:trigger ApartTargets(cs[j], cs[k])} ::
      0 <= j < |cs| && 0 <= k < |cs| && j != k ==> ApartTargets(cs[j], cs[k])
  }

  /** No other chunk still waiting to move has bytes in k's destination. */
  predicate Unblocked(cs: seq<Chunk>, k: nat)
    requires k < |cs|
  {
    forall j :: 0 <= j < |cs| && j != k && !InPlace(cs[j]) ==> !Overlaps(cs[j], cs[k])
  }

  /** Moving an unblocked chunk keeps every chunk's data intact when destinations are disjoint. */
  lemma MoveKeepsIntact(cs0: seq<Chunk>, m0: seq<byte>, cs: seq<Chunk>, m: seq<byte>, k: nat)
    requires AllFit(cs0, |m0|) && AllFit(cs, |m|) && Related(cs0, cs) && TargetsDisjoint(cs0)
    requires Intact(cs0, m0, cs, m)
    requires k < |cs| && Unblocked(cs, k)
    ensures var c := cs[k];
            var cs' := cs[k := c.(vaddr := c.paddr)];
            var m' := Move(m, c.paddr, c.vaddr, c.size);
            AllFit(cs', |m'|) && Related(cs0, cs') && Intact(cs0, m0, cs', m')
  {
    var c := cs[k];
    var cs' := cs[k := c.(vaddr := c.paddr)];
    var m' := Move(m, c.paddr, c.vaddr, c.size);
    forall j | 0 <= j < |cs'|
      ensures MovedFrom(cs0[j], cs'[j]) && IntactAt(m0, cs0[j], m', cs'[j])
    {
      MoveKeepsIntactAt(cs0, m0, cs, m, k, j);
    }
  }

  /** The same, for chunk j. */
  lemma MoveKeepsIntactAt(cs0: seq<Chunk>, m0: seq<byte>, cs: seq<Chunk>, m: seq<byte>, k: nat, j: nat)
    requires AllFit(cs0, |m0|) && AllFit(cs, |m|) && Related(cs0, cs) && TargetsDisjoint(cs0)
    requires Intact(cs0, m0, cs, m)
    requires k < |cs| && j < |cs| && Unblocked(cs, k)
    ensures var c := cs[k];
            var cs' := cs[k := c.(vaddr := c.paddr)];
            var m' := Move(m, c.paddr, c.vaddr, c.size);
            MovedFrom(cs0[j], cs'[j]) && IntactAt(m0, cs0[j], m', cs'[j])
  {
    var c := cs[k];
    assert MovedFrom(cs0[j], cs[j]) && IntactAt(m0, cs0[j], m, cs[j]);
    assert Fits(cs[j], |m|) && Fits(c, |m|);
    if j == k {
      MovedIntact(m0, cs0[k], m, c);
    } else {
      assert MovedFrom(cs0[k], c);
      if InPlace(cs[j]) {
        assert ApartTargets(cs0[j], cs0[k]);
      }
      assert !Overlaps(cs[j], c);
      MoveElsewhere(m, c, cs[j]);
    }
  }

  /** The chunk that moves carries its staged bytes to its destination. */
  lemma MovedIntact(m0: seq<byte>, c0: Chunk, m: seq<byte>, c: Chunk)
    requires Fits(c, |m|) && MovedFrom(c0, c) && IntactAt(m0, c0, m, c)
    ensures MovedFrom(c0, c.(vaddr := c.paddr))
    ensures IntactAt(m0, c0, Move(m, c.paddr, c.vaddr, c.size), c.(vaddr := c.paddr))
  {
  }

  /** Moving c leaves the bytes of a chunk d that lie outside c's destination alone. */
  lemma MoveElsewhere(m: seq<byte>, c: Chunk, d: Chunk)
    requires Fits(c, |m|) && Fits(d, |m|) && !Overlaps(d, c)
    ensures Move(m, c.paddr, c.vaddr, c.size)[d.vaddr..d.vaddr + d.size] == m[d.vaddr..d.vaddr + d.size]
  {
    var m' := Move(m, c.paddr, c.vaddr, c.size);
    forall a | d.vaddr <= a < d.vaddr + d.size
      ensures m'[a] == m[a]
    {
    }
  }

  /**
   * The conflict scan sees every overlap when no chunk's bytes strictly
   * contain another's destination and no two chunks share vaddr and size.
   */
  predicate ScanDetects(cs: seq<Chunk>)
  {
    forall j, k {:trigger SeenBy(cs[j], cs[k])} ::
      0 <= j < |cs| && 0 <= k < |cs| && j != k ==> SeenBy(cs[j], cs[k])
  }

  /** If c's bytes overlap k's destination, the scan's test reports it. */
  predicate SeenBy(c: Chunk, k: Chunk)
  {
    Overlaps(c, k) ==> EndpointInTarget(c, k) && !(c.vaddr == k.vaddr && c.size == k.size)
  }

  /** Where the scan detects every overlap, each pass keeps the data intact. */
  lemma StepKeepsIntact(cs0: seq<Chunk>, m0: seq<byte>, s: State)
    requires Valid(s) && AllFit(cs0, |m0|) && Related(cs0, s.cs) && TargetsDisjoint(cs0) && ScanDetects(cs0)
    requires Intact(cs0, m0, s.cs, s.mem)
    requires Step(s).Some?
    ensures Related(cs0, Step(s).value.cs) && Intact(cs0, m0, Step(s).value.cs, Step(s).value.mem)
  {
    var k := if s.cur.Some? then s.cur.value else FirstUnplaced(s.cs).value;
    var c := s.cs[k];
    if Conflict(s.cs, k) {
    } else if InPlace(c) {
      MoveOntoItself(s.mem, c.paddr, c.size);
      assert s.cs[k := c.(vaddr := c.paddr)] == s.cs;
    } else {
      assert MovedFrom(cs0[k], s.cs[k]);
      forall j | 0 <= j < |s.cs| && j != k && !InPlace(s.cs[j])
        ensures !Overlaps(s.cs[j], s.cs[k])
      {
        assert MovedFrom(cs0[j], s.cs[j]);
        assert SeenBy(cs0[j], cs0[k]);
        assert !HoldsBack(s.cs[j], s.cs[k]);
      }
      MoveKeepsIntact(cs0, m0, s.cs, s.mem, k);
    }
  }

  /** The state s of a run from (cs0, m0) keeps every chunk's data intact. */
  predicate IntactRun(cs0: seq<Chunk>, m0: seq<byte>, s: State)
  {
    Valid(s) && AllFit(cs0, |m0|) && Related(cs0, s.cs) && Intact(cs0, m0, s.cs, s.mem)
  }

  /**
   * Under those conditions the loop as written delivers every chunk's staged
   * data to its destination whenever it exits.
   */
  lemma {:induction false} RunKeepsIntact(cs0: seq<Chunk>, m0: seq<byte>, s: State, fuel: nat)
    requires TargetsDisjoint(cs0) && ScanDetects(cs0) && IntactRun(cs0, m0, s)
    ensures IntactRun(cs0, m0, Run(s, fuel).s)
    decreases fuel
  {
    if fuel == 0 {
      assert Run(s, fuel).s == s;
    } else {
      var r := Step(s);
      if r.None? {
        assert Run(s, fuel).s == s;
      } else {
        StepKeepsIntact(cs0, m0, s);
        assert IntactRun(cs0, m0, r.value);
        RunKeepsIntact(cs0, m0, r.value, fuel - 1);
        assert Run(s, fuel) == Run(r.value, fuel - 1);
      }
    }
  }
}

module RelocatorFindings {
  import opened Mb2
  import opened Wrappers
  import opened Relocator

  /** Move's bytes, one address at a time. */
  lemma MoveAt(m: seq<byte>, dst: nat, src: nat, n: nat, a: nat)
    requires dst + n <= |m| && src + n <= |m| && dst <= a < dst + n
    ensures Move(m, dst, src, n)[a] == m[src + (a - dst)]
  {
    var r := Move(m, dst, src, n);
    assert r[dst..dst + n][a - dst] == m[src..src + n][a - dst];
  }

  function Zeros(): seq<byte> { seq(40, i => 0) }

  /**
   * A waits for C, whose bytes lie in A's destination; B and C are free to
   * move.  The list order is A, B, C.
   */
  function LivelockList(): seq<Chunk>
  {
    [Chunk(20, 0, 4), Chunk(30, 10, 4), Chunk(2, 36, 2)]
  }

  /** The list once B has been moved. */
  function AfterB(): seq<Chunk>
  {
    [Chunk(20, 0, 4), Chunk(10, 10, 4), Chunk(2, 36, 2)]
  }

  lemma LivelockCycle(m: seq<byte>, fuel: nat)
    requires |m| == 40
    ensures !Run(State(AfterB(), m, None), fuel).exited
    decreases fuel
  {
    var s2 := State(AfterB(), m, None);
    var s3 := State(AfterB(), m, Some(1));
    var cs := AfterB();
    assert HoldsBack(cs[2], cs[0]);
    assert Step(s2) == Some(s3);
    assert !HoldsBack(cs[0], cs[1]) && !HoldsBack(cs[1], cs[1]) && !HoldsBack(cs[2], cs[1]);
    assert !Conflict(cs, 1);
    MoveOntoItself(m, 10, 4);
    assert cs[1 := cs[1].(vaddr := cs[1].paddr)] == cs;
    assert Step(s3) == Some(s2);
    if fuel >= 2 {
      LivelockCycle(m, fuel - 2);
    }
  }

  /**
   * The loop as written never exits on A, B, C: after B is moved the scan
   * keeps going from the blocked A to B, "moves" B onto itself and starts
   * over, so C (and then A) is never reached.  The list is acyclic:
   * CopyFinishFixed places all three (LivelockFixed).
   */
  lemma LivelockAsWritten(fuel: nat)
    ensures !Run(State(LivelockList(), Zeros(), None), fuel).exited
  {
    var cs := LivelockList();
    var s0 := State(cs, Zeros(), None);
    var s1 := State(cs, Zeros(), Some(1));
    assert HoldsBack(cs[2], cs[0]);
    assert Step(s0) == Some(s1);
    assert !HoldsBack(cs[0], cs[1]) && !HoldsBack(cs[1], cs[1]) && !HoldsBack(cs[2], cs[1]);
    assert !Conflict(cs, 1);
    var m' := Move(Zeros(), 10, 30, 4);
    assert cs[1 := cs[1].(vaddr := cs[1].paddr)] == AfterB();
    assert Step(s1) == Some(State(AfterB(), m', None));
    if fuel >= 2 {
      LivelockCycle(m', fuel - 2);
      assert Run(s0, fuel) == Run(State(AfterB(), m', None), fuel - 2);
    }
  }

  /** A's destination [10, 12) lies strictly inside B's staged bytes [8, 16). */
  function ContainmentList(): seq<Chunk>
  {
    [Chunk(20, 10, 2), Chunk(8, 30, 8)]
  }

  function Marked(): seq<byte> { seq(40, i => if i == 20 then 1 else 0) }

  /**
   * The scan's endpoint test misses B, so A is moved first and overwrites
   * part of B's staged bytes; the loop then exits with B's destination
   * holding a byte B was never staged with.
   */
  lemma ContainmentAsWritten()
    ensures var o := Run(State(ContainmentList(), Marked(), None), 3);
            o.exited && o.s.mem[32] != Marked()[10]
  {
    var cs0 := ContainmentList();
    var m0 := Marked();
    assert !HoldsBack(cs0[0], cs0[0]) && !HoldsBack(cs0[1], cs0[0]);
    assert !Conflict(cs0, 0);
    var cs1 := [Chunk(10, 10, 2), Chunk(8, 30, 8)];
    var m1 := Move(m0, 10, 20, 2);
    assert cs0[0 := cs0[0].(vaddr := cs0[0].paddr)] == cs1;
    assert Step(State(cs0, m0, None)) == Some(State(cs1, m1, None));
    assert FirstUnplaced(cs1) == Some(1) by {
      assert FirstUnplacedFrom(cs1, 1) == Some(1);
    }
    assert !HoldsBack(cs1[0], cs1[1]) && !HoldsBack(cs1[1], cs1[1]);
    assert !Conflict(cs1, 1);
    var cs2 := [Chunk(10, 10, 2), Chunk(30, 30, 8)];
    var m2 := Move(m1, 30, 8, 8);
    assert cs1[1 := cs1[1].(vaddr := cs1[1].paddr)] == cs2;
    assert Step(State(cs1, m1, None)) == Some(State(cs2, m2, None));
    assert AllInPlace(cs2);
    assert Step(State(cs2, m2, None)).None?;
    MoveAt(m0, 10, 20, 2, 10);
    MoveAt(m1, 30, 8, 8, 32);
    assert m2[32] == 1;
  }

  // ------------------------------------------------------------------
  // The corrected loop

  /** c, still waiting to move, has bytes in d's destination. */
  predicate Blocks(c: Chunk, d: Chunk)
  {
    !InPlace(c) && Overlaps(c, d)
  }

  /**
   * The relation "j blocks k" on the initial list is acyclic: some ranking
   * puts every blocker strictly below the chunk it blocks.
   */
  predicate Ranked(cs0: seq<Chunk>, rank: seq<nat>)
  {
    |rank| == |cs0| &&
    forall j, k {:trigger Blocks(cs0[j], cs0[k])} ::
      0 <= j < |cs0| && 0 <= k < |cs0| && j != k && Blocks(cs0[j], cs0[k]) ==> rank[j] < rank[k]
  }

  /** The number of chunks not yet in place. */
  function Unplaced(cs: seq<Chunk>): nat
  {
    if |cs| == 0 then 0 else (if InPlace(cs[0]) then 0 else 1) + Unplaced(cs[1..])
  }

  lemma {:induction false} PlaceDecreases(cs: seq<Chunk>, k: nat)
    requires k < |cs| && !InPlace(cs[k])
    ensures Unplaced(cs[k := cs[k].(vaddr := cs[k].paddr)]) < Unplaced(cs)
    decreases k
  {
    var cs' := cs[k := cs[k].(vaddr := cs[k].paddr)];
    if k == 0 {
      assert cs'[1..] == cs[1..];
    } else {
      assert cs'[1..] == cs[1..][k - 1 := cs[k].(vaddr := cs[k].paddr)];
      PlaceDecreases(cs[1..], k - 1);
    }
  }

  /** When the initial list is ranked, some chunk that is not in place can always move. */
  lemma {:induction false} ExistsMovable(cs0: seq<Chunk>, cs: seq<Chunk>, rank: seq<nat>, k: nat)
    requires Related(cs0, cs) && Ranked(cs0, rank)
    requires k < |cs| && !InPlace(cs[k])
    ensures exists j :: 0 <= j < |cs| && !InPlace(cs[j]) && Unblocked(cs, j)
    decreases rank[k]
  {
    if !Unblocked(cs, k) {
      var j :| 0 <= j < |cs| && j != k && !InPlace(cs[j]) && Overlaps(cs[j], cs[k]);
      assert MovedFrom(cs0[j], cs[j]) && MovedFrom(cs0[k], cs[k]);
      assert Blocks(cs0[j], cs0[k]);
      ExistsMovable(cs0, cs, rank, j);
    }
  }

  /** The overlap scan for chunk k of the corrected loop. */
  method FindBlocker(chunks: array<Chunk>, k: nat) returns (blocked: bool)
    requires k < chunks.Length
    ensures blocked == !Unblocked(chunks[..], k)
  {
    var ck := chunks[k];
    var j := 0;
    while j < chunks.Length
      invariant 0 <= j <= chunks.Length
      invariant forall i :: 0 <= i < j && i != k && !InPlace(chunks[i]) ==> !Overlaps(chunks[i], ck)
    {
      var c := chunks[j];
      if j != k && c.vaddr != c.paddr && c.vaddr < ck.paddr + ck.size && ck.paddr < c.vaddr + c.size {
        assert chunks[..][j] == c && chunks[..][k] == ck;
        return true;
      }
      j := j + 1;
    }
    return false;
  }

  /**
   * efi_copy_finish corrected: a chunk already in place is passed over
   * rather than "moved" onto itself with a restart, and a chunk moves only
   * when no waiting chunk's bytes overlap its destination.  The loop moves
   * the first movable chunk in list order and starts over, and stops when a
   * whole pass finds nothing to move.  With the blocking relation ranked it
   * terminates with every chunk in place, and when destinations are
   * disjoint every destination holds exactly the bytes its chunk was staged
   * with.
   */
  method CopyFinishFixed(mem: array<byte>, chunks: array<Chunk>, ghost rank: seq<nat>) returns (mbi: nat)
    requires chunks.Length > 0
    requires AllFit(chunks[..], mem.Length)
    requires Ranked(chunks[..], rank)
    modifies mem, chunks
    ensures mbi == old(chunks[chunks.Length - 1].paddr)
    ensures AllInPlace(chunks[..])
    ensures Related(old(chunks[..]), chunks[..])
    ensures TargetsDisjoint(old(chunks[..])) ==> Intact(old(chunks[..]), old(mem[..]), chunks[..], mem[..])
  {
    mbi := chunks[chunks.Length - 1].paddr;
    ghost var cs0 := chunks[..];
    ghost var m0 := mem[..];
    forall k | 0 <= k < |cs0|
      ensures MovedFrom(cs0[k], cs0[k]) && IntactAt(m0, cs0[k], m0, cs0[k])
    {
    }
    var i := 0;
    while i < chunks.Length
      invariant 0 <= i <= chunks.Length
      invariant AllFit(chunks[..], mem.Length)
      invariant Related(cs0, chunks[..])
      invariant TargetsDisjoint(cs0) ==> Intact(cs0, m0, chunks[..], mem[..])
      invariant forall j :: 0 <= j < i ==> InPlace(chunks[j]) || !Unblocked(chunks[..], j)
      decreases Unplaced(chunks[..]), chunks.Length - i
    {
      var c := chunks[i];
      if c.vaddr == c.paddr {
        i := i + 1;
      } else {
        var blocked := FindBlocker(chunks, i);
        if blocked {
          i := i + 1;
        } else {
          ghost var cs := chunks[..];
          ghost var m := mem[..];
          if TargetsDisjoint(cs0) {
            MoveKeepsIntact(cs0, m0, cs, m, i);
          } else {
            MoveKeepsRelated(cs0, cs, i);
          }
          PlaceDecreases(cs, i);
          MemMove(mem, c.paddr, c.vaddr, c.size);
          chunks[i] := c.(vaddr := c.paddr);
          assert chunks[..] == cs[i := c.(vaddr := c.paddr)];
          i := 0;
        }
      }
    }
    forall k | 0 <= k < chunks.Length
      ensures InPlace(chunks[k])
    {
      if !InPlace(chunks[k]) {
        ExistsMovable(cs0, chunks[..], rank, k);
        assert false;
      }
    }
  }

  lemma MoveKeepsRelated(cs0: seq<Chunk>, cs: seq<Chunk>, k: nat)
    requires Related(cs0, cs) && k < |cs|
    ensures Related(cs0, cs[k := cs[k].(vaddr := cs[k].paddr)])
  {
    var cs' := cs[k := cs[k].(vaddr := cs[k].paddr)];
    forall j | 0 <= j < |cs'|
      ensures MovedFrom(cs0[j], cs'[j])
    {
      assert MovedFrom(cs0[j], cs[j]);
    }
  }

  /** The list on which the loop as written spins is placed by the corrected loop. */
  lemma LivelockFixedRanked()
    ensures Ranked(LivelockList(), [1, 0, 0])
  {
    var cs := LivelockList();
    forall j, k | 0 <= j < 3 && 0 <= k < 3 && j != k && Blocks(cs[j], cs[k])
      ensures [1, 0, 0][j] < [1, 0, 0][k]
    {
    }
  }
}

/** The page arithmetic of efi_loadaddr (copy.c): staging space for a file or a memory blob. */
module EfiLoadAddr {
  import opened Mb2
  import opened Wrappers

  /** What the `data` argument describes. */
  datatype LoadType = LoadRaw | LoadElf | LoadMem

  const EFI_PAGE_SIZE: nat := 4096

  /** AllocateMaxAddress is asked for memory below 4 GiB. */
  const ALLOC_LIMIT: nat := 0x1_0000_0000

  const INT_MIN: int := -0x8000_0000
  const INT_MAX: int := 0x7fff_ffff

  /** A value of C's 32-bit int. */
  type CInt = x: int | INT_MIN <= x <= INT_MAX

  /** A value stored into an int: its low 32 bits, read as two's complement. */
  function ToInt(v: int): (r: CInt)
    ensures (v - r) % U32_MOD == 0
    ensures INT_MIN <= v <= INT_MAX ==> r == v
  {
    var w := v % U32_MOD;
    if w > INT_MAX then w - U32_MOD else w
  }

  /**
   * The `int size` efi_loadaddr computes with: `*(int *)data` for LOAD_MEM,
   * otherwise st.st_size (an off_t) stored into the int.
   */
  function SizeOf(kind: LoadType, blob: CInt, stSize: int): (size: CInt)
    ensures kind == LoadMem ==> size == blob
    ensures kind != LoadMem && 0 <= stSize <= INT_MAX ==> size == stSize
    ensures kind != LoadMem ==> (stSize - size) % U32_MOD == 0
  {
    if kind == LoadMem then blob else ToInt(stSize)
  }

  /** The fewest pages that hold size bytes: what the page count is meant to be. */
  function PagesFor(size: nat): (pages: nat)
    ensures pages * EFI_PAGE_SIZE >= size
    ensures pages == 0 || (pages - 1) * EFI_PAGE_SIZE < size
  {
    RoundUpPage(size) / 4096
  }

  /**
   * `pages = roundup2(size, EFI_PAGE_SIZE) >> 12` as compiled: the addition
   * and the mask are int arithmetic (the sum wraps at 2^31), the shift of a
   * negative int is arithmetic, and the result is converted to uint64_t.
   */
  function PagesOf(size: CInt): (pages: u64)
    ensures 0 <= size <= INT_MAX - (EFI_PAGE_SIZE - 1) ==> pages == PagesFor(size)
    ensures INT_MAX - (EFI_PAGE_SIZE - 1) < size ==> pages == U64_MOD - 0x8_0000
    ensures -(EFI_PAGE_SIZE - 1) <= size < 0 ==> pages == 0
    ensures size < -(EFI_PAGE_SIZE - 1) ==> pages >= U64_MOD - 0x8_0000
  {
    var rounded := ToInt(size + (EFI_PAGE_SIZE - 1));
    var masked := rounded - rounded % EFI_PAGE_SIZE;
    (masked / EFI_PAGE_SIZE) % U64_MOD
  }

  /**
   * A file of 2 GiB - 1 bytes (or a stat size past INT_MAX that truncates
   * to such an int) asks the firmware for 2^64 - 2^19 pages instead of
   * 2^19: the int sum overflows.
   */
  lemma PagesOverflowAsWritten()
    ensures PagesOf(SizeOf(LoadRaw, 0, INT_MAX)) == U64_MOD - 0x8_0000
    ensures PagesFor(INT_MAX) == 0x8_0000
  {
    assert RoundUpPage(INT_MAX) == 0x8000_0000;
  }

  /** The AllocatePages request efi_loadaddr makes: a page count and the highest address allowed. */
  datatype AllocRequest = AllocRequest(pages: u64, maxAddr: nat)

  /**
   * The allocation efi_loadaddr asks the firmware for, or None when it
   * returns before asking (addr 0: nothing to do; LOAD_ELF: unsupported).
   * `blob` is `*(int *)data` (LOAD_MEM), `stSize` the file's size from stat.
   */
  function LoadAddrRequest(kind: LoadType, blob: CInt, stSize: int, addr: u64): (r: Option<AllocRequest>)
    ensures r.None? <==> addr == 0 || kind == LoadElf
    ensures r.Some? ==> r.value.maxAddr == ALLOC_LIMIT && r.value.pages == PagesOf(SizeOf(kind, blob, stSize))
    ensures r.Some? && kind == LoadMem && 0 <= blob <= INT_MAX - (EFI_PAGE_SIZE - 1) ==> r.value.pages == PagesFor(blob)
    ensures r.Some? && kind == LoadRaw && 0 <= stSize <= INT_MAX - (EFI_PAGE_SIZE - 1) ==> r.value.pages == PagesFor(stSize)
  {
    if addr == 0 || kind == LoadElf then None
    else Some(AllocRequest(PagesOf(SizeOf(kind, blob, stSize)), ALLOC_LIMIT))
  }

  /**
   * efi_loadaddr's result: 0 when it returns early or the allocation fails
   * (`granted` is the firmware's answer to the request), else the address
   * the firmware chose.
   */
  function LoadAddr(kind: LoadType, blob: CInt, stSize: int, addr: u64, granted: Option<u64>): (r: u64)
    ensures LoadAddrRequest(kind, blob, stSize, addr).None? ==> r == 0
    ensures LoadAddrRequest(kind, blob, stSize, addr).Some? && granted.None? ==> r == 0
    ensures LoadAddrRequest(kind, blob, stSize, addr).Some? && granted.Some? ==> r == granted.value
  {
    if addr == 0 then addr
    else if kind == LoadElf then 0
    else if granted.None? then 0
    else granted.value
  }
}
