/**
 * The EFI loader's entry point (efi/loader/main.c): its UCS-2 to ASCII and
 * ASCII to UCS-2 string copies, its wide-string compare, and the loop over
 * its arguments that collects boot flags into howto and settings for the
 * environment, after which the console is chosen from the flags.  setenv and
 * putenv are recorded as the operations they are asked to do; whether a
 * keyboard was found is given as an input.
 */
module EfiMain {
  import opened Mb2
  import opened Wrappers

  /** CHAR16, a UCS-2 code unit. */
  type char16 = x: int | 0 <= x < 0x1_0000

  function Min(a: nat, b: nat): nat { if a < b then a else b }

  // ------------------------------------------------------------------
  // C strings

  /** strlen of a NUL-terminated wide string: the index of its first NUL. */
  function Len16(s: seq<char16>): (n: nat)
    requires 0 in s
    ensures n < |s| && s[n] == 0 && forall k :: 0 <= k < n ==> s[k] != 0
  {
    if s[0] == 0 then 0 else 1 + Len16(s[1..])
  }

  /** strlen of a NUL-terminated byte string. */
  function Len8(s: seq<byte>): (n: nat)
    requires 0 in s
    ensures n < |s| && s[n] == 0 && forall k :: 0 <= k < n ==> s[k] != 0
  {
    if s[0] == 0 then 0 else 1 + Len8(s[1..])
  }

  /** The C string a byte buffer holds: its bytes before the first NUL (all of them if it has none). */
  function BeforeNul(b: seq<byte>): (r: seq<byte>)
    ensures |r| <= |b| && r == b[..|r|] && 0 !in r
    ensures |r| < |b| <==> 0 in b
    ensures |r| < |b| ==> b[|r|] == 0
  {
    if |b| == 0 || b[0] == 0 then [] else [b[0]] + BeforeNul(b[1..])
  }

  /** What follows a NUL does not change the string. */
  lemma {:induction false} BeforeNulAppend(a: seq<byte>, b: seq<byte>)
    requires 0 in a
    ensures BeforeNul(a + b) == BeforeNul(a)
  {
    if a[0] != 0 {
      assert (a + b)[1..] == a[1..] + b;
      BeforeNulAppend(a[1..], b);
    }
  }

  /** (char)c: a CHAR16 cut to its low byte. */
  function Low(c: char16): byte
  {
    c % 0x100
  }

  /** Each unit of a wide string cut to its low byte. */
  function Narrow(a: seq<char16>): (r: seq<byte>)
    ensures |r| == |a| && forall k :: 0 <= k < |a| ==> r[k] == Low(a[k])
  {
    seq(|a|, k requires 0 <= k < |a| => Low(a[k]))
  }

  /** The characters of a byte string. */
  function Chars(b: seq<byte>): (s: string)
    ensures |s| == |b| && forall k :: 0 <= k < |b| ==> s[k] as int == b[k]
  {
    seq(|b|, k requires 0 <= k < |b| => b[k] as char)
  }

  /** A string literal as CHAR16s. */
  function Wide(s: string): (w: seq<char16>)
    ensures |w| == |s|
  {
    seq(|s|, k requires 0 <= k < |s| => s[k] as int % 0x1_0000)
  }

  // ------------------------------------------------------------------
  // cpy16to8

  /**
   * What cpy16to8(src, dst, len) leaves at the start of dst: the units of
   * src before its NUL, at most len of them, each cut to its low byte, then
   * a NUL only if fewer than len were copied.
   */
  function Narrowed(src: seq<char16>, len: nat): (r: seq<byte>)
    requires 0 in src
    ensures |r| == Min(Len16(src) + 1, len)
    ensures forall k :: 0 <= k < |r| && k < Len16(src) ==> r[k] == Low(src[k])
    ensures Len16(src) < len ==> r[Len16(src)] == 0
  {
    var n := Min(Len16(src), len);
    Narrow(src[..n]) + (if n < len then [0] else [])
  }

  /** The copy ends in a NUL exactly when the string is shorter than len. */
  lemma NarrowedTerminated(src: seq<char16>, len: nat)
    requires 0 in src && forall k :: 0 <= k < Len16(src) ==> Low(src[k]) != 0
    ensures 0 in Narrowed(src, len) <==> Len16(src) < len
  {
    var r := Narrowed(src, len);
    if 0 in r {
      var k :| 0 <= k < |r| && r[k] == 0;
    }
  }

  method Cpy16To8(src: seq<char16>, dst: array<byte>, len: nat)
    requires 0 in src && len <= dst.Length
    modifies dst
    ensures dst[..|Narrowed(src, len)|] == Narrowed(src, len)
    ensures dst[|Narrowed(src, len)|..] == old(dst[|Narrowed(src, len)|..])
  {
    var i := 0;
    while i < len && src[i] != 0
      invariant i <= len && i <= Len16(src)
      invariant forall k :: 0 <= k < i ==> dst[k] == Low(src[k])
      invariant forall k :: i <= k < dst.Length ==> dst[k] == old(dst[k])
    {
      dst[i] := Low(src[i]);
      i := i + 1;
    }
    if i < len {
      dst[i] := 0;
    }
    ghost var r := Narrowed(src, len);
    assert |r| == if i < len then i + 1 else i;
    assert dst[..|r|] == r;
  }

  // ------------------------------------------------------------------
  // cpy8to16

  /** size_t len <<= 1. */
  function Shl1(len: u64): u64
  {
    (len * 2) % U64_MOD
  }

  /**
   * What cpy8to16(src, dst, len) leaves at the start of dst as written: the
   * shift doubles len, so up to 2*len characters are copied (for a len that
   * is dst's size in bytes, four times the CHAR16s dst holds), and the NUL
   * is added whatever the count.
   */
  function Widened(src: seq<byte>, len: u64): (r: seq<char16>)
    requires 0 in src
    ensures |r| == Min(Len8(src), Shl1(len)) + 1 && r[|r| - 1] == 0
    ensures forall k :: 0 <= k < |r| - 1 ==> r[k] == src[k]
  {
    var n := Min(Len8(src), Shl1(len));
    seq(n, k requires 0 <= k < n => src[k] as char16) + [0]
  }

  method Cpy8To16(src: seq<byte>, dst: array<char16>, len: u64)
    requires 0 in src && Min(Len8(src), Shl1(len)) < dst.Length
    modifies dst
    ensures dst[..|Widened(src, len)|] == Widened(src, len)
    ensures dst[|Widened(src, len)|..] == old(dst[|Widened(src, len)|..])
  {
    var n: nat := Shl1(len);
    var i := 0;
    while n > 0 && src[i] != 0
      invariant i <= Len8(src) && i + n == Shl1(len)
      invariant forall k :: 0 <= k < i ==> dst[k] == src[k]
      invariant forall k :: i <= k < dst.Length ==> dst[k] == old(dst[k])
    {
      dst[i] := src[i];
      i := i + 1;
      n := n - 1;
    }
    dst[i] := 0;
    ghost var r := Widened(src, len);
    assert |r| == i + 1;
    assert dst[..|r|] == r;
  }

  /**
   * cpy8to16 as its comment describes it: len is the size of dst in bytes,
   * so at most len / 2 CHAR16s, the NUL included, are written.
   */
  function WidenedFixed(src: seq<byte>, len: nat): (r: seq<char16>)
    requires 0 in src
    ensures |r| <= len / 2
    ensures len >= 2 ==> |r| == Min(Len8(src), len / 2 - 1) + 1 && r[|r| - 1] == 0
    ensures forall k :: 0 <= k < |r| - 1 ==> r[k] == src[k]
  {
    if len < 2 then []
    else
      var n := Min(Len8(src), len / 2 - 1);
      seq(n, k requires 0 <= k < n => src[k] as char16) + [0]
  }

  method Cpy8To16Fixed(src: seq<byte>, dst: array<char16>, len: nat)
    requires 0 in src && len <= 2 * dst.Length
    modifies dst
    ensures dst[..|WidenedFixed(src, len)|] == WidenedFixed(src, len)
    ensures dst[|WidenedFixed(src, len)|..] == old(dst[|WidenedFixed(src, len)|..])
  {
    if len < 2 {
      return;
    }
    var n: nat := len / 2 - 1;
    var i := 0;
    while n > 0 && src[i] != 0
      invariant i <= Len8(src) && i + n == len / 2 - 1
      invariant forall k :: 0 <= k < i ==> dst[k] == src[k]
      invariant forall k :: i <= k < dst.Length ==> dst[k] == old(dst[k])
    {
      dst[i] := src[i];
      i := i + 1;
      n := n - 1;
    }
    dst[i] := 0;
    ghost var r := WidenedFixed(src, len);
    assert |r| == i + 1;
    assert dst[..|r|] == r;
  }

  /** A string that fits comes back from the wide copy through the narrow one. */
  lemma NarrowWiden(src: seq<byte>, n: nat)
    requires 0 in src && Len8(src) < n
    ensures 0 in WidenedFixed(src, 2 * n)
    ensures Narrowed(WidenedFixed(src, 2 * n), n) == src[..Len8(src) + 1]
  {
    var w := WidenedFixed(src, 2 * n);
    var L := Len8(src);
    assert |w| == L + 1 && w[L] == 0;
    assert forall k :: 0 <= k < L ==> w[k] == src[k] != 0;
    Len16At(w, L);
    var r := Narrowed(w, n);
    assert |r| == L + 1 && r[L] == 0 == src[L];
    forall k | 0 <= k < L
      ensures r[k] == src[k]
    {
      assert r[k] == Low(w[k]) && w[k] == src[k];
      LowOfByte(src[k]);
    }
    SamePrefix(r, src, L + 1);
  }

  /** Two byte strings that agree on their first n places: the first is the other's prefix. */
  lemma SamePrefix(r: seq<byte>, s: seq<byte>, n: nat)
    requires |r| == n <= |s| && forall k :: 0 <= k < n ==> r[k] == s[k]
    ensures r == s[..n]
  {
  }

  /** A unit below 0x100 keeps its value when cut to a byte. */
  lemma LowOfByte(b: byte)
    ensures Low(b) == b
  {
  }

  /** The first NUL of a wide string is where strlen stops. */
  lemma Len16At(s: seq<char16>, n: nat)
    requires n < |s| && s[n] == 0 && forall k :: 0 <= k < n ==> s[k] != 0
    ensures 0 in s && Len16(s) == n
  {
    var m := Len16(s);
    assert !(m < n) && !(n < m);
  }

  /** As written: sizeof(wvar) = 256 bytes for a 128-CHAR16 buffer, and a 200-character variable name needs 201 units. */
  lemma WvarOverrunAsWritten()
    ensures var src := seq(200, k => 'a' as int) + [0];
      0 in src && |Widened(src, 256)| == 201 > 128
  {
    var src: seq<byte> := seq(200, k => 'a' as int) + [0];
    assert src[200] == 0;
    assert Len8(src) == 200 by {
      assert forall k :: 0 <= k < 200 ==> src[k] != 0;
    }
  }

  /** With len taken as bytes, a 128-CHAR16 buffer is never overrun. */
  lemma WvarFitsFixed(src: seq<byte>)
    requires 0 in src
    ensures |WidenedFixed(src, 256)| <= 128
    ensures Len8(src) < 128 ==> WidenedFixed(src, 256)[..Len8(src)] == Widened(src, 256)[..Len8(src)]
  {
    var n := Len8(src);
    if n < 128 {
      var a, b := WidenedFixed(src, 256), Widened(src, 256);
      assert Shl1(256) == 512;
      assert |a| == n + 1 && |b| == n + 1;
      assert forall k :: 0 <= k < n ==> a[k] == src[k] as char16 == b[k];
    }
  }

  // ------------------------------------------------------------------
  // wcscmp

  /** wcscmp(a, b): the difference of the first units that differ, or of the NULs. */
  function WcsCmp(a: seq<char16>, b: seq<char16>): (r: int)
    requires 0 in a && 0 in b
    ensures -0xffff <= r <= 0xffff
    decreases |a|
  {
    if a[0] != 0 && b[0] != 0 && a[0] == b[0] then WcsCmp(a[1..], b[1..]) else a[0] as int - b[0] as int
  }

  /** The strings before the NULs, as wcscmp compares them. */
  function Text16(s: seq<char16>): (t: seq<char16>)
    requires 0 in s
  {
    s[..Len16(s)]
  }

  /** wcscmp is 0 exactly when the two strings are equal up to their NULs. */
  lemma {:induction false} WcsCmpZeroIff(a: seq<char16>, b: seq<char16>)
    requires 0 in a && 0 in b
    ensures WcsCmp(a, b) == 0 <==> Text16(a) == Text16(b)
    decreases |a|
  {
    if a[0] != 0 && b[0] != 0 && a[0] == b[0] {
      WcsCmpZeroIff(a[1..], b[1..]);
      assert Len16(a) == 1 + Len16(a[1..]) && Len16(b) == 1 + Len16(b[1..]);
      assert Text16(a) == [a[0]] + Text16(a[1..]);
      assert Text16(b) == [b[0]] + Text16(b[1..]);
    } else if a[0] as int - b[0] as int != 0 {
      assert Len16(a) == 0 || Len16(b) == 0 || a[0] != b[0];
      if Len16(a) > 0 && Len16(b) > 0 {
        assert Text16(a)[0] != Text16(b)[0];
      }
    }
  }

  /** At the first unit where the strings differ, wcscmp is the difference of those units. */
  lemma {:induction false} WcsCmpFirstDifference(a: seq<char16>, b: seq<char16>, k: nat)
    requires 0 in a && 0 in b && k <= Len16(a) && k <= Len16(b)
    requires a[..k] == b[..k] && a[k] != b[k]
    ensures WcsCmp(a, b) == a[k] as int - b[k] as int
    decreases k
  {
    if k > 0 {
      assert a[0] == a[..k][0] == b[..k][0] == b[0];
      assert a[1..][..k - 1] == a[..k][1..] && b[1..][..k - 1] == b[..k][1..];
      WcsCmpFirstDifference(a[1..], b[1..], k - 1);
    }
  }

  /** Swapping the arguments negates the result. */
  lemma {:induction false} WcsCmpAntisymmetric(a: seq<char16>, b: seq<char16>)
    requires 0 in a && 0 in b
    ensures WcsCmp(b, a) == -WcsCmp(a, b)
    decreases |a|
  {
    if a[0] != 0 && b[0] != 0 && a[0] == b[0] {
      WcsCmpAntisymmetric(a[1..], b[1..]);
    }
  }

  // ------------------------------------------------------------------
  // The argument loop of main

  /** The boot flags of sys/reboot.h that the loop sets. */
  const RB_ASKNAME: bv32 := 0x001
  const RB_SINGLE: bv32 := 0x002
  const RB_DFLTROOT: bv32 := 0x020
  const RB_KDB: bv32 := 0x040
  const RB_VERBOSE: bv32 := 0x800
  const RB_SERIAL: bv32 := 0x1000
  const RB_MUTE: bv32 := 0x10000
  const RB_PAUSE: bv32 := 0x100000
  const RB_MULTIPLE: bv32 := 0x2000_0000

  /** char var[128]. */
  const VAR_SIZE: nat := 128

  /** The bits a flag letter other than S adds to howto; none for a letter the loop does not know. */
  function FlagBit(c: char16, hasKbd: bool): bv32
  {
    if c == 'a' as int then RB_ASKNAME
    else if c == 'd' as int then RB_KDB
    else if c == 'D' as int then RB_MULTIPLE
    else if c == 'h' as int then RB_SERIAL
    else if c == 'm' as int then RB_MUTE
    else if c == 'p' as int then RB_PAUSE
    else if c == 'P' as int then (if hasKbd then 0 else RB_SERIAL | RB_MULTIPLE)
    else if c == 'r' as int then RB_DFLTROOT
    else if c == 's' as int then RB_SINGLE
    else if c == 'v' as int then RB_VERBOSE
    else 0
  }

  /** What the loop asks of the environment. */
  datatype EnvOp = SetEnv(name: string, value: string) | PutEnv(setting: string)

  /** Memory the loop touches outside the strings and the buffer it was given. */
  datatype Fault =
    | ReadsPastArgument(i: nat, j: nat)  // argv[i][j] beyond argv[i]'s NUL
    | ReadsPastArgv(i: nat)              // argv[i] with i == argc
    | ReadsPastVar(i: nat)               // setenv of var when the copy left it without a NUL
    | WritesPastVar(i: nat)              // var[128] = 0

  /** howto and the environment operations so far, and where the loop went wrong, if it did. */
  datatype Parse = Parse(howto: bv32, ops: seq<EnvOp>, fault: Option<Fault>)

  /** The loop as the source has it, and with its faults repaired. */
  datatype Variant = AsWritten | Corrected

  /** The argument strings, each without its NUL: a C string holds none before its end. */
  predicate NoNul(args: seq<seq<char16>>)
  {
    forall i, k :: 0 <= i < |args| && 0 <= k < |args[i]| ==> args[i][k] != 0
  }

  /** argv[i][j] as C reads it: the NUL after the last unit, nothing past that or past argv. */
  function ArgAt(args: seq<seq<char16>>, i: nat, j: nat): (r: Option<char16>)
    ensures r.Some? <==> i < |args| && j <= |args[i]|
  {
    if i < |args| && j < |args[i]| then Some(args[i][j])
    else if i < |args| && j == |args[i]| then Some(0)
    else None
  }

  /** A non-dash argument is a setting when a '=' follows its first unit. */
  predicate HasSetting(a: seq<char16>)
  {
    exists k :: 0 < k < |a| && a[k] == '=' as int
  }

  /**
   * The value setenv reads from var after cpy16to8 copied src into it. As
   * written the copy fills all of var when src is long enough, leaving no
   * NUL; corrected, it copies at most sizeof(var) - 1 units and terminates
   * var.
   */
  function CopiedValue(v: Variant, src: seq<char16>): (r: Option<string>)
    requires 0 in src
  {
    var b := if v == AsWritten then Narrowed(src, VAR_SIZE) else Narrowed(src, VAR_SIZE - 1) + [0];
    if 0 in b then Some(Chars(BeforeNul(b))) else None
  }

  /** setenv(name, var) after the copy of src into var. */
  function SetSpeed(v: Variant, i: nat, name: string, src: seq<char16>, p: Parse): (q: Parse)
    requires 0 in src
  {
    match CopiedValue(v, src)
    case None => p.(fault := Some(ReadsPastVar(i)))
    case Some(s) => p.(ops := p.ops + [SetEnv(name, s)])
  }

  /** A copy that yields a string sets the variable to it. */
  lemma SpeedSet(v: Variant, i: nat, name: string, src: seq<char16>, p: Parse, s: string)
    requires 0 in src && CopiedValue(v, src) == Some(s)
    ensures SetSpeed(v, i, name, src, p) == p.(ops := p.ops + [SetEnv(name, s)])
  {
  }

  /** The name a bare -S followed by an argument sets. */
  function BareSpeedName(v: Variant): string
  {
    if v == AsWritten then "comconsole_speedspeed" else "comconsole_speed"
  }

  /**
   * The non-dash branch for argument i: units are copied into var until
   * the copy reaches var's limit (sizeof(var) as written, one less
   * corrected), which drops the argument; a setting is then terminated in
   * var and put into the environment.
   */
  function VarArg(v: Variant, a: seq<char16>, i: nat, p: Parse): (q: Parse)
  {
    var limit := if v == AsWritten then VAR_SIZE else VAR_SIZE - 1;
    if |a| > limit || !HasSetting(a) then p
    else if |a| >= VAR_SIZE then p.(fault := Some(WritesPastVar(i)))
    else p.(ops := p.ops + [PutEnv(Chars(BeforeNul(Narrow(a) + [0])))])
  }

  /** How far the flag loop is from the end of argument i. */
  function Remaining(args: seq<seq<char16>>, i: nat, j: nat): nat
  {
    if i < |args| && j <= |args[i]| then |args[i]| + 1 - j else 0
  }

  /** main's for loop over argv from argument i on. */
  function Loop(v: Variant, args: seq<seq<char16>>, kbd: bool, i: nat, p: Parse): (q: Parse)
    requires p.fault.None?
    decreases |args| + 1 - i, Remaining(args, i, 0) + 1
  {
    if i >= |args| then p
    else if ArgAt(args, i, 0) == Some('-' as int) then Flags(v, args, kbd, i, 1, p)
    else
      var q := VarArg(v, args[i], i, p);
      if q.fault.Some? then q else Loop(v, args, kbd, i + 1, q)
  }

  /**
   * The inner loop over the letters of a dash argument from index j. As
   * written, the breaks in the S case leave only the switch: the scan goes
   * on from j + 1, in the argument after the one that was consumed when -S
   * stood alone.
   */
  function Flags(v: Variant, args: seq<seq<char16>>, kbd: bool, i: nat, j: nat, p: Parse): (q: Parse)
    requires p.fault.None?
    decreases |args| + 1 - i, Remaining(args, i, j)
  {
    match ArgAt(args, i, j)
    case None => p.(fault := Some(if i < |args| then ReadsPastArgument(i, j) else ReadsPastArgv(i)))
    case Some(c) =>
      if c == 0 then Loop(v, args, kbd, i + 1, p)
      else if c == 'S' as int then
        if ArgAt(args, i, j + 1) == Some(0) then
          var q :=
            if i + 1 == |args| then p.(ops := p.ops + [SetEnv("comconsole_speed", "115200")])
            else SetSpeed(v, i, BareSpeedName(v), args[i + 1] + [0], p);
          if q.fault.Some? then q
          else if v == AsWritten then Flags(v, args, kbd, i + 1, j + 1, q)
          else Loop(v, args, kbd, i + 2, q)
        else
          var q := SetSpeed(v, i, "comconsole_speed", args[i][j + 1..] + [0], p);
          if q.fault.Some? then q
          else if v == AsWritten then Flags(v, args, kbd, i, j + 1, q)
          else Loop(v, args, kbd, i + 1, q)
      else Flags(v, args, kbd, i, j + 1, AddBits(p, FlagBit(c, kbd)))
  }

  /** The console main sets from the serial and multiple-console flags. */
  function ConsoleOps(howto: bv32): seq<EnvOp>
  {
    if howto & RB_MULTIPLE != 0 then
      if howto & RB_SERIAL != 0 then [SetEnv("console", "ttya text")] else [SetEnv("console", "text ttya")]
    else if howto & RB_SERIAL != 0 then [SetEnv("console", "ttya")]
    else []
  }

  /** Lines 286-371 of main: the argument loop from argv[1], then the console. */
  function MainArgs(v: Variant, args: seq<seq<char16>>, kbd: bool): (q: Parse)
  {
    var p := Loop(v, args, kbd, 1, Parse(0, [], None));
    if p.fault.Some? then p else p.(ops := p.ops + ConsoleOps(p.howto))
  }

  /** The OR of the flag bits of the letters in s. */
  function Bits(s: seq<char16>, kbd: bool): bv32
  {
    if |s| == 0 then 0 else FlagBit(s[0], kbd) | Bits(s[1..], kbd)
  }

  /** p with the bits b added to its flags. */
  function AddBits(p: Parse, b: bv32): (q: Parse)
  {
    p.(howto := p.howto | b)
  }

  /** A letter other than S adds its bits, and the scan moves to the next letter. */
  lemma FlagStep(v: Variant, args: seq<seq<char16>>, kbd: bool, i: nat, j: nat, p: Parse)
    requires p.fault.None? && i < |args| && j < |args[i]| && args[i][j] != 0 && args[i][j] != 'S' as int
    ensures Flags(v, args, kbd, i, j, p) == Flags(v, args, kbd, i, j + 1, AddBits(p, FlagBit(args[i][j], kbd)))
  {
  }

  lemma OrAssoc(a: bv32, b: bv32, c: bv32)
    ensures a | (b | c) == (a | b) | c
  {
  }

  /** A dash argument without an S sets exactly the bits of its letters and nothing else. */
  lemma {:induction false} FlagArgument(v: Variant, args: seq<seq<char16>>, kbd: bool, i: nat, j: nat, p: Parse)
    requires p.fault.None? && i < |args| && j <= |args[i]|
    requires forall k :: j <= k < |args[i]| ==> args[i][k] != 'S' as int && args[i][k] != 0
    ensures Flags(v, args, kbd, i, j, p) == Loop(v, args, kbd, i + 1, AddBits(p, Bits(args[i][j..], kbd)))
    decreases |args[i]| - j
  {
    if j == |args[i]| {
      FlagEnd(v, args, kbd, i, j, p);
    } else {
      var p' := AddBits(p, FlagBit(args[i][j], kbd));
      FlagStep(v, args, kbd, i, j, p);
      FlagArgument(v, args, kbd, i, j + 1, p');
      HowtoStep(args[i], j, kbd, p);
    }
  }

  lemma HowtoStep(a: seq<char16>, j: nat, kbd: bool, p: Parse)
    requires j < |a|
    ensures AddBits(AddBits(p, FlagBit(a[j], kbd)), Bits(a[j + 1..], kbd)) == AddBits(p, Bits(a[j..], kbd))
  {
    BitsStep(a, j, kbd, p.howto);
  }

  /** At the argument's NUL the scan goes on with the next argument. */
  lemma FlagEnd(v: Variant, args: seq<seq<char16>>, kbd: bool, i: nat, j: nat, p: Parse)
    requires p.fault.None? && i < |args| && j == |args[i]|
    ensures Flags(v, args, kbd, i, j, p) == Loop(v, args, kbd, i + 1, AddBits(p, Bits(args[i][j..], kbd)))
  {
    assert args[i][j..] == [];
    assert AddBits(p, 0) == p;
  }

  lemma BitsStep(a: seq<char16>, j: nat, kbd: bool, h: bv32)
    requires j < |a|
    ensures h | Bits(a[j..], kbd) == (h | FlagBit(a[j], kbd)) | Bits(a[j + 1..], kbd)
  {
    assert a[j..][0] == a[j] && a[j..][1..] == a[j + 1..];
    OrAssoc(h, FlagBit(a[j], kbd), Bits(a[j + 1..], kbd));
  }

  /** 'P' asks for the serial console only when there is no keyboard; other unknown letters add nothing. */
  lemma KeyboardFlag(kbd: bool, c: char16)
    ensures FlagBit('P' as int, kbd) == if kbd then 0 else RB_SERIAL | RB_MULTIPLE
    ensures c !in Wide("adDhmpPrsv") ==> FlagBit(c, kbd) == 0
  {
    var w := Wide("adDhmpPrsv");
    if c !in w {
      assert w[0] == 'a' as int && w[1] == 'd' as int && w[2] == 'D' as int && w[3] == 'h' as int;
      assert w[4] == 'm' as int && w[5] == 'p' as int && w[6] == 'P' as int && w[7] == 'r' as int;
      assert w[8] == 's' as int && w[9] == 'v' as int;
    }
  }

  /** A non-dash argument no longer than var holds is put into the environment exactly when it is a setting. */
  lemma SettingArgument(v: Variant, args: seq<seq<char16>>, kbd: bool, i: nat, p: Parse)
    requires p.fault.None? && i < |args| && |args[i]| < VAR_SIZE && ArgAt(args, i, 0) != Some('-' as int)
    ensures HasSetting(args[i]) ==>
      Loop(v, args, kbd, i, p) == Loop(v, args, kbd, i + 1, p.(ops := p.ops + [PutEnv(Chars(BeforeNul(Narrow(args[i]) + [0])))]))
    ensures !HasSetting(args[i]) ==> Loop(v, args, kbd, i, p) == Loop(v, args, kbd, i + 1, p)
  {
  }

  /** The run with its faults repaired never touches memory outside argv and var. */
  lemma {:induction false} LoopNeverFaults(args: seq<seq<char16>>, kbd: bool, i: nat, p: Parse)
    requires NoNul(args) && p.fault.None?
    ensures Loop(Corrected, args, kbd, i, p).fault.None?
    decreases |args| + 1 - i, Remaining(args, i, 0) + 1
  {
    if i < |args| {
      if ArgAt(args, i, 0) == Some('-' as int) {
        FlagsNeverFault(args, kbd, i, 1, p);
      } else {
        LoopNeverFaults(args, kbd, i + 1, VarArg(Corrected, args[i], i, p));
      }
    }
  }

  lemma {:induction false} FlagsNeverFault(args: seq<seq<char16>>, kbd: bool, i: nat, j: nat, p: Parse)
    requires NoNul(args) && p.fault.None? && i < |args| && 1 <= j <= |args[i]|
    ensures Flags(Corrected, args, kbd, i, j, p).fault.None?
    decreases |args| + 1 - i, Remaining(args, i, j)
  {
    var v := Corrected;
    if j == |args[i]| {
      LoopNeverFaults(args, kbd, i + 1, p);
    } else {
      var c := args[i][j];
      if c == 'S' as int {
        if j + 1 == |args[i]| {
          if i + 1 < |args| {
            var src := args[i + 1] + [0];
            assert src[|args[i + 1]|] == 0;
            assert 0 in Narrowed(src, VAR_SIZE - 1) + [0];
            LoopNeverFaults(args, kbd, i + 2, SetSpeed(v, i, BareSpeedName(v), src, p));
          } else {
            LoopNeverFaults(args, kbd, i + 2, p.(ops := p.ops + [SetEnv("comconsole_speed", "115200")]));
          }
        } else {
          var src := args[i][j + 1..] + [0];
          assert src[|args[i][j + 1..]|] == 0;
          assert 0 in Narrowed(src, VAR_SIZE - 1) + [0];
          LoopNeverFaults(args, kbd, i + 1, SetSpeed(v, i, "comconsole_speed", src, p));
        }
      } else {
        FlagsNeverFault(args, kbd, i, j + 1, AddBits(p, FlagBit(c, kbd)));
      }
    }
  }

  lemma MainNeverFaults(args: seq<seq<char16>>, kbd: bool)
    requires NoNul(args)
    ensures MainArgs(Corrected, args, kbd).fault.None?
  {
    LoopNeverFaults(args, kbd, 1, Parse(0, [], None));
  }

  /** Repaired, a bare -S followed by an argument sets comconsole_speed to it and the scan resumes after it. */
  lemma CorrectedBareSpeed(args: seq<seq<char16>>, kbd: bool, i: nat, p: Parse)
    requires p.fault.None? && i + 1 < |args| && args[i] == ['-' as int, 'S' as int]
    requires |args[i + 1]| < VAR_SIZE && 0 !in Narrow(args[i + 1])
    ensures Loop(Corrected, args, kbd, i, p) ==
      Loop(Corrected, args, kbd, i + 2, p.(ops := p.ops + [SetEnv("comconsole_speed", Chars(Narrow(args[i + 1])))]))
  {
    var src := args[i + 1] + [0];
    assert src[|args[i + 1]|] == 0;
    CopiedUnits(Corrected, args[i + 1]);
    SpeedSet(Corrected, i, BareSpeedName(Corrected), src, p, Chars(Narrow(args[i + 1])));
    BareSpeedStep(Corrected, args, kbd, i, p);
  }

  /** An argument shorter than var, none of whose units has a zero low byte, reaches setenv whole. */
  lemma CopiedUnits(v: Variant, a: seq<char16>)
    requires |a| < VAR_SIZE && 0 !in Narrow(a)
    ensures CopiedValue(v, a + [0]) == Some(Chars(Narrow(a)))
  {
    var src := a + [0];
    assert src[|a|] == 0;
    assert forall k :: 0 <= k < |a| ==> Narrow(a)[k] == Low(a[k]) != 0;
    assert Len16(src) == |a| by {
      assert forall k :: 0 <= k < |a| ==> src[k] == a[k] != 0;
    }
    assert src[..|a|] == a;
    if v == AsWritten || |a| < VAR_SIZE - 1 {
      assert Narrowed(src, if v == AsWritten then VAR_SIZE else VAR_SIZE - 1) == Narrow(a) + [0];
      if v == AsWritten {
        BeforeNulOf(Narrow(a), []);
        assert Narrow(a) + [0] + [] == Narrow(a) + [0];
      } else {
        BeforeNulOf(Narrow(a), [0]);
      }
    } else {
      assert Narrowed(src, VAR_SIZE - 1) == Narrow(a);
      BeforeNulOf(Narrow(a), []);
      assert Narrow(a) + [0] + [] == Narrow(a) + [0];
    }
  }

  /** The string before an appended NUL is what came before it. */
  lemma {:induction false} BeforeNulOf(x: seq<byte>, y: seq<byte>)
    requires 0 !in x
    ensures BeforeNul(x + [0] + y) == x
  {
    if x != [] {
      assert (x + [0] + y)[1..] == x[1..] + [0] + y;
      BeforeNulOf(x[1..], y);
    }
  }

  /** An ASCII string survives the trip to CHAR16s and back to bytes. */
  lemma AsciiUnits(s: string)
    requires forall k :: 0 <= k < |s| ==> 0 < s[k] as int < 0x80
    ensures 0 !in Narrow(Wide(s)) && Chars(Narrow(Wide(s))) == s
  {
    var w := Wide(s);
    forall k | 0 <= k < |s|
      ensures Narrow(w)[k] == s[k] as int
    {
      assert w[k] == s[k] as int;
      LowOfByte(s[k] as int);
    }
    assert Chars(Narrow(w)) == s;
  }

  /** A bare -S followed by an argument: the speed is taken from that argument, then the scan goes on as each variant does. */
  lemma BareSpeedStep(v: Variant, args: seq<seq<char16>>, kbd: bool, i: nat, p: Parse)
    requires p.fault.None? && i + 1 < |args| && args[i] == ['-' as int, 'S' as int]
    ensures var q := SetSpeed(v, i, BareSpeedName(v), args[i + 1] + [0], p);
      Loop(v, args, kbd, i, p) ==
        if q.fault.Some? then q
        else if v == AsWritten then Flags(v, args, kbd, i + 1, 2, q)
        else Loop(v, args, kbd, i + 2, q)
  {
    assert ArgAt(args, i, 0) == Some('-' as int);
    assert ArgAt(args, i, 1) == Some('S' as int) && ArgAt(args, i, 2) == Some(0);
  }

  /** Digits carry no flag bits. */
  lemma {:induction false} DigitsNoBits(s: seq<char16>, kbd: bool)
    requires forall k :: 0 <= k < |s| ==> '0' as int <= s[k] <= '9' as int
    ensures Bits(s, kbd) == 0
  {
    if |s| > 0 {
      DigitsNoBits(s[1..], kbd);
    }
  }

  const P0 := Parse(0, [], None)

  /** A decimal number. */
  predicate Digits(w: seq<char16>)
  {
    forall k :: 0 <= k < |w| ==> '0' as int <= w[k] <= '9' as int
  }

  /** Digits narrow to bytes without a NUL. */
  lemma DigitsNarrow(w: seq<char16>)
    requires Digits(w)
    ensures 0 !in Narrow(w)
  {
    forall k | 0 <= k < |w|
      ensures Narrow(w)[k] != 0
    {
      LowOfByte(w[k]);
    }
  }

  /**
   * As written, "-S <number>" sets comconsole_speedspeed, and the scan
   * then reads the number from its third digit on as flags; a one-digit
   * number sends it past the argument's NUL.
   */
  lemma BareSpeedAsWritten(args: seq<seq<char16>>, kbd: bool)
    requires |args| == 3 && args[1] == ['-' as int, 'S' as int]
    requires 0 < |args[2]| < VAR_SIZE && Digits(args[2])
    ensures |args[2]| == 1 ==> MainArgs(AsWritten, args, kbd).fault == Some(ReadsPastArgument(2, 2))
    ensures |args[2]| > 1 ==>
      MainArgs(AsWritten, args, kbd) == Parse(0, [SetEnv("comconsole_speedspeed", Chars(Narrow(args[2])))], None)
  {
    DigitsNarrow(args[2]);
    AsWrittenSpeedStep(args, kbd);
    var q := Parse(0, [SetEnv("comconsole_speedspeed", Chars(Narrow(args[2])))], None);
    if |args[2]| == 1 {
      assert ArgAt(args, 2, 2) == None;
      assert Flags(AsWritten, args, kbd, 2, 2, q).fault == Some(ReadsPastArgument(2, 2));
    } else {
      FlagArgument(AsWritten, args, kbd, 2, 2, q);
      DigitsNoBits(args[2][2..], kbd);
      assert AddBits(q, 0) == q;
      assert ConsoleOps(0) == [] && q.(ops := q.ops + []) == q;
    }
  }

  /** As written, "-S <argument>" sets comconsole_speedspeed and scans on from index 2 of the argument. */
  lemma AsWrittenSpeedStep(args: seq<seq<char16>>, kbd: bool)
    requires |args| == 3 && args[1] == ['-' as int, 'S' as int]
    requires |args[2]| < VAR_SIZE && 0 !in Narrow(args[2])
    ensures Loop(AsWritten, args, kbd, 1, P0) ==
      Flags(AsWritten, args, kbd, 2, 2, Parse(0, [SetEnv("comconsole_speedspeed", Chars(Narrow(args[2])))], None))
  {
    CopiedUnits(AsWritten, args[2]);
    var q := P0.(ops := P0.ops + [SetEnv(BareSpeedName(AsWritten), Chars(Narrow(args[2])))]);
    assert q == Parse(0, [SetEnv("comconsole_speedspeed", Chars(Narrow(args[2])))], None);
    var src := args[2] + [0];
    assert src[|args[2]|] == 0;
    SpeedSet(AsWritten, 1, BareSpeedName(AsWritten), src, P0, Chars(Narrow(args[2])));
    BareSpeedStep(AsWritten, args, kbd, 1, P0);
  }

  /** "-S 115200" as written and repaired. */
  lemma SpeedTypoExample(kbd: bool)
    ensures MainArgs(AsWritten, [Wide("loader"), Wide("-S"), Wide("115200")], kbd)
      == Parse(0, [SetEnv("comconsole_speedspeed", "115200")], None)
    ensures MainArgs(Corrected, [Wide("loader"), Wide("-S"), Wide("115200")], kbd)
      == Parse(0, [SetEnv("comconsole_speed", "115200")], None)
  {
    var args := [Wide("loader"), Wide("-S"), Wide("115200")];
    AsciiUnits("115200");
    assert args[1] == ['-' as int, 'S' as int];
    assert args[2] == ['1' as int, '1' as int, '5' as int, '2' as int, '0' as int, '0' as int];
    BareSpeedAsWritten(args, kbd);
    CorrectedBareSpeed(args, kbd, 1, P0);
    var r := Parse(0, [SetEnv("comconsole_speed", "115200")], None);
    assert Loop(Corrected, args, kbd, 3, r) == r;
    assert ConsoleOps(0) == [] && r.(ops := r.ops + []) == r;
  }

  /** "-S 9" as written and repaired. */
  lemma ShortSpeedExample(kbd: bool)
    ensures MainArgs(AsWritten, [Wide("loader"), Wide("-S"), Wide("9")], kbd).fault == Some(ReadsPastArgument(2, 2))
    ensures MainArgs(Corrected, [Wide("loader"), Wide("-S"), Wide("9")], kbd)
      == Parse(0, [SetEnv("comconsole_speed", "9")], None)
  {
    var args := [Wide("loader"), Wide("-S"), Wide("9")];
    AsciiUnits("9");
    assert args[1] == ['-' as int, 'S' as int];
    assert args[2] == ['9' as int];
    BareSpeedAsWritten(args, kbd);
    CorrectedBareSpeed(args, kbd, 1, P0);
    var r := Parse(0, [SetEnv("comconsole_speed", "9")], None);
    assert Loop(Corrected, args, kbd, 3, r) == r;
    assert ConsoleOps(0) == [] && r.(ops := r.ops + []) == r;
  }

  /** "-Dh" asks for both consoles with the serial one first. */
  lemma DualConsoleExample(v: Variant, kbd: bool)
    ensures MainArgs(v, [Wide("loader"), Wide("-Dh")], kbd)
      == Parse(RB_MULTIPLE | RB_SERIAL, [SetEnv("console", "ttya text")], None)
  {
    var args := [Wide("loader"), Wide("-Dh")];
    assert args[1] == ['-' as int, 'D' as int, 'h' as int];
    assert ArgAt(args, 1, 0) == Some('-' as int);
    FlagArgument(v, args, kbd, 1, 1, P0);
    assert args[1][1..] == ['D' as int, 'h' as int];
    assert Bits(args[1][1..], kbd) == RB_MULTIPLE | RB_SERIAL;
  }

  /** As written, a bare -S as the last argument makes the scan read argv[argc]. */
  lemma LastSpeedAsWritten(kbd: bool)
    ensures MainArgs(AsWritten, [Wide("loader"), Wide("-S")], kbd).fault == Some(ReadsPastArgv(2))
    ensures MainArgs(Corrected, [Wide("loader"), Wide("-S")], kbd)
      == Parse(0, [SetEnv("comconsole_speed", "115200")], None)
  {
    var args := [Wide("loader"), Wide("-S")];
    assert args[1] == ['-' as int, 'S' as int];
    var q := Parse(0, [SetEnv("comconsole_speed", "115200")], None);
    assert Loop(AsWritten, args, kbd, 1, P0) == Flags(AsWritten, args, kbd, 1, 1, P0);
    assert Flags(AsWritten, args, kbd, 1, 1, P0) == Flags(AsWritten, args, kbd, 2, 2, q);
    assert ArgAt(args, 2, 2) == None;
    assert Loop(Corrected, args, kbd, 1, P0) == Flags(Corrected, args, kbd, 1, 1, P0);
    assert Flags(Corrected, args, kbd, 1, 1, P0) == Loop(Corrected, args, kbd, 3, q);
  }

  /** "x=" followed by 126 digits: a setting of exactly sizeof(var) units. */
  const LONG_SETTING: seq<char16> := ['x' as int, '=' as int] + seq(126, k => '1' as int)

  /** A setting of exactly sizeof(var) units has its NUL stored at var[128] as written; repaired, it is dropped. */
  lemma LongSettingAsWritten(kbd: bool)
    ensures MainArgs(AsWritten, [Wide("loader"), LONG_SETTING], kbd).fault == Some(WritesPastVar(1))
    ensures MainArgs(Corrected, [Wide("loader"), LONG_SETTING], kbd) == P0
  {
    var a := LONG_SETTING;
    var args := [Wide("loader"), a];
    assert |a| == VAR_SIZE && a[1] == '=' as int && HasSetting(a);
    assert ArgAt(args, 1, 0) == Some('x' as int);
    assert Loop(AsWritten, args, kbd, 1, P0) == VarArg(AsWritten, a, 1, P0);
    assert Loop(Corrected, args, kbd, 1, P0) == Loop(Corrected, args, kbd, 2, P0) == P0;
    assert ConsoleOps(0) == [] && P0.(ops := P0.ops + []) == P0;
  }

  /** "-S" followed by 128 digits. */
  const LONG_SPEED: seq<char16> := ['-' as int, 'S' as int] + seq(128, k => '9' as int)

  /** A 128-digit speed leaves var without a NUL as written, and setenv reads past it. */
  lemma LongSpeedAsWritten(kbd: bool)
    ensures MainArgs(AsWritten, [Wide("loader"), LONG_SPEED], kbd).fault == Some(ReadsPastVar(1))
  {
    var a := LONG_SPEED;
    var args := [Wide("loader"), a];
    var src := a[2..] + [0];
    assert forall k :: 0 <= k < 128 ==> src[k] == '9' as int;
    Len16At(src, 128);
    var n := Narrowed(src, VAR_SIZE);
    assert forall k :: 0 <= k < 128 ==> n[k] == Low('9' as int);
    assert 0 !in n;
    assert ArgAt(args, 1, 0) == Some('-' as int);
    assert ArgAt(args, 1, 1) == Some('S' as int);
    assert ArgAt(args, 1, 2) == Some('9' as int);
    assert SetSpeed(AsWritten, 1, "comconsole_speed", src, P0).fault == Some(ReadsPastVar(1));
    assert Loop(AsWritten, args, kbd, 1, P0) == Flags(AsWritten, args, kbd, 1, 1, P0);
  }

  /** main's argument loop and console choice, with var as its 128-byte buffer. */
  method ParseArgs(v: Variant, args: seq<seq<char16>>, kbd: bool) returns (p: Parse)
    requires NoNul(args)
    ensures p == MainArgs(v, args, kbd)
  {
    var buf := new byte[VAR_SIZE];
    ghost var total := Loop(v, args, kbd, 1, Parse(0, [], None));
    p := Parse(0, [], None);
    var i := 1;
    while i < |args|
      invariant p.fault.None? && Loop(v, args, kbd, i, p) == total
      decreases |args| + 1 - i
    {
      if |args[i]| > 0 && args[i][0] == '-' as int {
        p, i := ScanFlags(v, args, kbd, i, p, buf);
        if p.fault.Some? {
          return;
        }
      } else {
        p := ScanSetting(v, args[i], i, p, buf);
        if p.fault.Some? {
          return;
        }
        i := i + 1;
      }
    }
    p := p.(ops := p.ops + ConsoleOps(p.howto));
  }

  /** The inner loop over a dash argument; it returns where the outer loop resumes. */
  method ScanFlags(v: Variant, args: seq<seq<char16>>, kbd: bool, i0: nat, p0: Parse, buf: array<byte>)
    returns (p: Parse, i: nat)
    requires NoNul(args) && p0.fault.None? && i0 < |args| && 0 < |args[i0]| && args[i0][0] == '-' as int
    requires buf.Length == VAR_SIZE
    modifies buf
    ensures p.fault.None? ==> i > i0
    ensures p.fault.Some? ==> p == Loop(v, args, kbd, i0, p0)
    ensures p.fault.None? ==> Loop(v, args, kbd, i, p) == Loop(v, args, kbd, i0, p0)
  {
    p, i := p0, i0;
    var j := 1;
    while true
      invariant i0 <= i && p.fault.None? && Flags(v, args, kbd, i, j, p) == Loop(v, args, kbd, i0, p0)
      invariant i == i0 ==> j >= 1
      decreases |args| + 1 - i, Remaining(args, i, j)
    {
      var q, i', j', done := Letter(v, args, kbd, i, j, p, buf);
      if done {
        p, i := q, i';
        return;
      }
      p, i, j := q, i', j';
    }
  }

  /**
   * One turn of the inner loop, at letter j of argument i: done when the
   * scan leaves the argument (a fault, the argument's NUL, or the S case
   * repaired), with the scan resuming at argument next; otherwise the scan
   * goes on at letter j' of argument i'.
   */
  method Letter(v: Variant, args: seq<seq<char16>>, kbd: bool, i: nat, j: nat, p: Parse, buf: array<byte>)
    returns (q: Parse, next: nat, j': nat, done: bool)
    requires p.fault.None? && buf.Length == VAR_SIZE
    modifies buf
    ensures done && q.fault.Some? ==> q == Flags(v, args, kbd, i, j, p)
    ensures done && q.fault.None? ==> next > i && Loop(v, args, kbd, next, q) == Flags(v, args, kbd, i, j, p)
    ensures !done ==> q.fault.None? && Flags(v, args, kbd, next, j', q) == Flags(v, args, kbd, i, j, p)
    ensures !done ==> next > i || (next == i && Remaining(args, next, j') < Remaining(args, i, j))
  {
    var c := ArgAt(args, i, j);
    if c.None? {
      q, next, j', done := p.(fault := Some(if i < |args| then ReadsPastArgument(i, j) else ReadsPastArgv(i))), i, j, true;
      return;
    }
    var ch := c.value;
    if ch == 0 {
      q, next, j', done := p, i + 1, j, true;
      return;
    }
    if ch == 'S' as int {
      var n;
      q, n := SpeedFlag(v, args, kbd, i, j, p, buf);
      if q.fault.Some? || v == Corrected {
        next, j', done := n + 1, j, true;
        return;
      }
      next, j', done := n, j + 1, false;
    } else {
      FlagStep(v, args, kbd, i, j, p);
      q, next, j', done := AddBits(p, FlagBit(ch, kbd)), i, j + 1, false;
    }
  }

  /**
   * The S case of the inner loop: the speed is copied from the rest of
   * argument i, or from argument next = i + 1 when the S ends argument i.
   */
  method SpeedFlag(v: Variant, args: seq<seq<char16>>, kbd: bool, i: nat, j: nat, p: Parse, buf: array<byte>)
    returns (q: Parse, next: nat)
    requires p.fault.None? && i < |args| && j < |args[i]| && args[i][j] == 'S' as int
    requires buf.Length == VAR_SIZE
    modifies buf
    ensures next == i || (next == i + 1 && next <= |args|)
    ensures q.fault.Some? ==> q == Flags(v, args, kbd, i, j, p)
    ensures q.fault.None? && v == Corrected ==> Loop(v, args, kbd, next + 1, q) == Flags(v, args, kbd, i, j, p)
    ensures q.fault.None? && v == AsWritten ==> Flags(v, args, kbd, next, j + 1, q) == Flags(v, args, kbd, i, j, p)
  {
    if ArgAt(args, i, j + 1) == Some(0) {
      if i + 1 == |args| {
        q := p.(ops := p.ops + [SetEnv("comconsole_speed", "115200")]);
      } else {
        q := CopySpeed(v, i, BareSpeedName(v), args[i + 1] + [0], p, buf);
      }
      next := i + 1;
    } else {
      q := CopySpeed(v, i, "comconsole_speed", args[i][j + 1..] + [0], p, buf);
      next := i;
    }
  }

  /** cpy16to8(src, var, ...) followed by setenv(name, var). */
  method CopySpeed(v: Variant, i: nat, name: string, src: seq<char16>, p: Parse, buf: array<byte>)
    returns (q: Parse)
    requires 0 in src && buf.Length == VAR_SIZE
    modifies buf
    ensures q == SetSpeed(v, i, name, src, p)
  {
    if v == AsWritten {
      Cpy16To8(src, buf, VAR_SIZE);
      ghost var n := Narrowed(src, VAR_SIZE);
      assert buf[..] == n + buf[|n|..];
      if 0 in n {
        SameString(n, buf[|n|..], []);
        assert n + [] == n;
      }
    } else {
      Cpy16To8(src, buf, VAR_SIZE - 1);
      buf[VAR_SIZE - 1] := 0;
      ghost var n := Narrowed(src, VAR_SIZE - 1);
      assert buf[..] == n + buf[|n|..];
      if 0 in n {
        SameString(n, buf[|n|..], [0]);
      } else {
        assert buf[..] == n + [0];
      }
    }
    var s := CString(buf);
    q := if s.None? then p.(fault := Some(ReadsPastVar(i))) else p.(ops := p.ops + [SetEnv(name, s.value)]);
  }

  /** Two buffers that agree up to a NUL hold the same C string. */
  lemma SameString(n: seq<byte>, t: seq<byte>, u: seq<byte>)
    requires 0 in n
    ensures 0 in n + t && 0 in n + u && BeforeNul(n + t) == BeforeNul(n + u)
  {
    BeforeNulAppend(n, t);
    BeforeNulAppend(n, u);
  }

  /** setenv's reading of a char buffer as a C string; None when it has no NUL. */
  method CString(buf: array<byte>) returns (s: Option<string>)
    ensures s == if 0 in buf[..] then Some(Chars(BeforeNul(buf[..]))) else None
  {
    var k := 0;
    while k < buf.Length && buf[k] != 0
      invariant k <= buf.Length && forall m :: 0 <= m < k ==> buf[m] != 0
    {
      k := k + 1;
    }
    if k == buf.Length {
      s := None;
    } else {
      assert buf[..][k] == 0;
      assert BeforeNul(buf[..]) == buf[..k];
      s := Some(Chars(buf[..k]));
    }
  }

  /** The non-dash branch: copy the argument into var while looking for a '=' after its first unit. */
  method ScanSetting(v: Variant, a: seq<char16>, i: nat, p: Parse, buf: array<byte>) returns (q: Parse)
    requires buf.Length == VAR_SIZE && forall k :: 0 <= k < |a| ==> a[k] != 0
    modifies buf
    ensures q == VarArg(v, a, i, p)
  {
    var limit := if v == AsWritten then VAR_SIZE else VAR_SIZE - 1;
    var good := false;
    var j := 0;
    while j < |a|
      invariant j <= |a| && j <= limit
      invariant forall k :: 0 <= k < j ==> buf[k] == Low(a[k])
      invariant good <==> exists k :: 0 < k < j && a[k] == '=' as int
    {
      if j == limit {
        good := false;
        break;
      }
      if j > 0 && a[j] == '=' as int {
        good := true;
      }
      buf[j] := Low(a[j]);
      j := j + 1;
    }
    if !good {
      q := p;
    } else if j >= VAR_SIZE {
      q := p.(fault := Some(WritesPastVar(i)));
    } else {
      buf[j] := 0;
      assert buf[..j + 1] == Narrow(a) + [0];
      q := p.(ops := p.ops + [PutEnv(Chars(BeforeNul(buf[..j + 1])))]);
    }
  }
}
