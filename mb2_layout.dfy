/**
 * Constants and binary layouts of the Multiboot2 protocol as the boot loader
 * and the kernel share them: magic numbers, alignments, tag type numbers and
 * the fixed parts of the structures (Multiboot2 Specification, sections
 * 3.1.1-3.1.3 and 3.6).  Memory is a sequence of bytes; integers are stored
 * little-endian, as on x86.
 */
module Mb2 {
  type byte = x: int | 0 <= x < 0x100
  type u16 = x: int | 0 <= x < 0x1_0000
  type u32 = x: int | 0 <= x < 0x1_0000_0000
  type u64 = x: int | 0 <= x < 0x1_0000_0000_0000_0000

  const U32_MOD: nat := 0x1_0000_0000
  const U64_MOD: nat := 0x1_0000_0000_0000_0000

  // Search window and alignments.
  const SEARCH: nat := 32768
  const HEADER_ALIGN: nat := 8
  const MOD_ALIGN: nat := 0x1000
  const INFO_ALIGN: nat := 8
  const TAG_ALIGN: nat := 8

  const HEADER_MAGIC: u32 := 0xe85250d6
  const BOOTLOADER_MAGIC: u32 := 0x36d76289

  // Boot-information tag types.
  const TAG_END: u32 := 0
  const TAG_CMDLINE: u32 := 1
  const TAG_BOOT_LOADER_NAME: u32 := 2
  const TAG_MODULE: u32 := 3
  const TAG_BASIC_MEMINFO: u32 := 4
  const TAG_BOOTDEV: u32 := 5
  const TAG_MMAP: u32 := 6
  const TAG_VBE: u32 := 7
  const TAG_FRAMEBUFFER: u32 := 8
  const TAG_ELF_SECTIONS: u32 := 9
  const TAG_APM: u32 := 10
  const TAG_EFI32: u32 := 11
  const TAG_EFI64: u32 := 12
  const TAG_SMBIOS: u32 := 13
  const TAG_ACPI_OLD: u32 := 14
  const TAG_ACPI_NEW: u32 := 15
  const TAG_NETWORK: u32 := 16
  const TAG_EFI_MMAP: u32 := 17
  const TAG_EFI_BS: u32 := 18

  // Header tag types and flags.
  const HTAG_END: u16 := 0
  const HTAG_INFORMATION_REQUEST: u16 := 1
  const HTAG_ADDRESS: u16 := 2
  const HTAG_ENTRY_ADDRESS: u16 := 3
  const HTAG_CONSOLE_FLAGS: u16 := 4
  const HTAG_FRAMEBUFFER: u16 := 5
  const HTAG_MODULE_ALIGN: u16 := 6
  const HTAG_EFI_BS: u16 := 7
  const HTAG_OPTIONAL: u16 := 1

  const ARCH_I386: u32 := 0
  const ARCH_MIPS32: u32 := 4

  // Memory-map entry types.
  const MEMORY_AVAILABLE: u32 := 1
  const MEMORY_RESERVED: u32 := 2
  const MEMORY_ACPI_RECLAIMABLE: u32 := 3
  const MEMORY_NVS: u32 := 4
  const MEMORY_BADRAM: u32 := 5

  const FRAMEBUFFER_TYPE_INDEXED: byte := 0
  const FRAMEBUFFER_TYPE_RGB: byte := 1
  const FRAMEBUFFER_TYPE_EGA_TEXT: byte := 2

  // Sizes of the fixed parts of the structures, in bytes.
  const HEADER_SIZE: nat := 16          // { magic, architecture, header_length, checksum }
  const HEADER_TAG_SIZE: nat := 8       // { u16 type, u16 flags, u32 size }
  const INFO_REQUEST_SIZE: nat := 8     // header tag followed by u32 requests[]
  const ADDRESS_TAG_SIZE: nat := 24
  const ENTRY_TAG_SIZE: nat := 12
  const INFO_HEADER_SIZE: nat := 8      // { total_size, reserved }
  const TAG_HEADER_SIZE: nat := 8       // { u32 type, u32 size }
  const STRING_TAG_SIZE: nat := 8
  const MODULE_TAG_SIZE: nat := 16      // { type, size, mod_start, mod_end } then cmdline
  const MEMINFO_TAG_SIZE: nat := 16
  const MMAP_TAG_SIZE: nat := 16        // { type, size, entry_size, entry_version } then entries
  const MMAP_ENTRY_SIZE: nat := 24      // packed { u64 addr, u64 len, u32 type, u32 zero }
  const EFI32_TAG_SIZE: nat := 12
  const EFI64_TAG_SIZE: nat := 16
  const FRAMEBUFFER_TAG_SIZE: nat := 40 // 32-byte common part, 6-byte RGB part, padded to 8
  const ACPI_TAG_SIZE: nat := 8
  const NETWORK_TAG_SIZE: nat := 8
  const EFI_MMAP_TAG_SIZE: nat := 16

  // Field offsets used by both sides.
  const HDR_MAGIC: nat := 0
  const HDR_ARCH: nat := 4
  const HDR_LENGTH: nat := 8
  const HDR_CHECKSUM: nat := 12
  const HTAG_FLAGS: nat := 2
  const HTAG_SIZE: nat := 4
  const ADDR_LOAD_ADDR: nat := 12
  const ENTRY_ENTRY_ADDR: nat := 8
  const MOD_START_OFF: nat := 8
  const MOD_END_OFF: nat := 12
  const MMAP_ENTRY_SIZE_OFF: nat := 8
  const MMAP_ENTRIES_OFF: nat := 16
  const MEMINFO_LOWER_OFF: nat := 8
  const MEMINFO_UPPER_OFF: nat := 12

  /** roundup(x, 8): the least multiple of 8 that is at least x. */
  function RoundUp8(x: nat): (r: nat)
    ensures r % 8 == 0 && x <= r < x + 8
  {
    (x + 7) / 8 * 8
  }

  /** Rounding up commutes with adding a multiple of 8. */
  lemma RoundUp8Shift(a: nat, x: nat)
    requires a % 8 == 0
    ensures RoundUp8(a + x) == a + RoundUp8(x)
  {
    var q := a / 8;
    assert a == 8 * q;
    assert (a + x + 7) / 8 == q + (x + 7) / 8;
  }

  lemma RoundUp8Id(x: nat)
    requires x % 8 == 0
    ensures RoundUp8(x) == x
  {
  }

  lemma RoundUp8Mono(x: nat, y: nat)
    requires x <= y
    ensures RoundUp8(x) <= RoundUp8(y)
  {
    assert (x + 7) / 8 <= (y + 7) / 8;
  }

  /** roundup(x, 4096): the least page boundary at or above x. */
  function RoundUpPage(x: nat): (r: nat)
    ensures r % 4096 == 0 && x <= r < x + 4096
  {
    (x + 4095) / 4096 * 4096
  }

  /** The checksum a header must carry so that the four fields sum to 0 mod 2^32. */
  function HeaderChecksum(arch: u32, len: u32): (c: u32)
    ensures (HEADER_MAGIC + arch + len + c) % U32_MOD == 0
  {
    (U32_MOD - (HEADER_MAGIC + arch + len) % U32_MOD) % U32_MOD
  }

  /** Exactly one checksum value satisfies the header invariant. */
  lemma ChecksumUnique(arch: u32, len: u32, c: u32)
    requires (HEADER_MAGIC + arch + len + c) % U32_MOD == 0
    ensures c == HeaderChecksum(arch, len)
  {
    var d := HeaderChecksum(arch, len);
    assert (c - d) % U32_MOD == 0;
  }

  function Pow256(n: nat): (p: nat)
    ensures p > 0
  {
    if n == 0 then 1 else 0x100 * Pow256(n - 1)
  }

  lemma Pow256Values()
    ensures Pow256(2) == 0x1_0000
    ensures Pow256(4) == U32_MOD
    ensures Pow256(8) == U64_MOD
  {
    assert Pow256(1) == 0x100;
    assert Pow256(3) == 0x100_0000;
    assert Pow256(5) == 0x100_0000_0000;
    assert Pow256(6) == 0x1_0000_0000_0000;
    assert Pow256(7) == 0x100_0000_0000_0000;
  }

  /** The unsigned value of a little-endian byte string. */
  function LE(s: seq<byte>): nat
    decreases |s|
  {
    if |s| == 0 then 0 else s[0] + 0x100 * LE(s[1..])
  }

  /** The n-byte little-endian encoding of v (truncated to n bytes, as a store would). */
  function ToLE(v: nat, n: nat): (r: seq<byte>)
    ensures |r| == n
  {
    if n == 0 then [] else [v % 0x100] + ToLE(v / 0x100, n - 1)
  }

  lemma {:induction false} LEBound(s: seq<byte>)
    ensures LE(s) < Pow256(|s|)
    decreases |s|
  {
    if |s| > 0 {
      LEBound(s[1..]);
    }
  }

  /** Reading back a stored value gives that value. */
  lemma {:induction false} LEOfToLE(v: nat, n: nat)
    requires v < Pow256(n)
    ensures LE(ToLE(v, n)) == v
    decreases n
  {
    if n > 0 {
      var t := ToLE(v / 0x100, n - 1);
      assert ToLE(v, n)[1..] == t;
      LEOfToLE(v / 0x100, n - 1);
    }
  }

  /** Storing a value read from bytes reproduces those bytes. */
  lemma {:induction false} ToLEOfLE(s: seq<byte>)
    ensures ToLE(LE(s), |s|) == s
    decreases |s|
  {
    if |s| > 0 {
      ToLEOfLE(s[1..]);
      assert LE(s) % 0x100 == s[0];
      assert LE(s) / 0x100 == LE(s[1..]);
    }
  }

  function Put16(v: u16): (r: seq<byte>)
    ensures |r| == 2
  {
    ToLE(v, 2)
  }

  function Put32(v: u32): (r: seq<byte>)
    ensures |r| == 4
  {
    ToLE(v, 4)
  }

  function Put64(v: u64): (r: seq<byte>)
    ensures |r| == 8
  {
    ToLE(v, 8)
  }

  function U16At(m: seq<byte>, off: nat): u16
    requires off + 2 <= |m|
  {
    LEBound(m[off..off + 2]);
    Pow256Values();
    LE(m[off..off + 2])
  }

  function U32At(m: seq<byte>, off: nat): u32
    requires off + 4 <= |m|
  {
    LEBound(m[off..off + 4]);
    Pow256Values();
    LE(m[off..off + 4])
  }

  function U64At(m: seq<byte>, off: nat): u64
    requires off + 8 <= |m|
  {
    LEBound(m[off..off + 8]);
    Pow256Values();
    LE(m[off..off + 8])
  }

  /** A 32-bit field written at off reads back unchanged. */
  lemma U32RoundTrip(m: seq<byte>, off: nat, v: u32)
    requires off + 4 <= |m| && m[off..off + 4] == Put32(v)
    ensures U32At(m, off) == v
  {
    Pow256Values();
    LEOfToLE(v, 4);
  }

  lemma U64RoundTrip(m: seq<byte>, off: nat, v: u64)
    requires off + 8 <= |m| && m[off..off + 8] == Put64(v)
    ensures U64At(m, off) == v
  {
    Pow256Values();
    LEOfToLE(v, 8);
  }

  /** One entry of the memory-map tag; its zero field is always written as 0. */
  datatype MmapEntry = MmapEntry(addr: u64, len: u64, typ: u32)

  function EncodeMmapEntry(e: MmapEntry): (r: seq<byte>)
    ensures |r| == MMAP_ENTRY_SIZE
  {
    Put64(e.addr) + Put64(e.len) + Put32(e.typ) + Put32(0)
  }

  /** The packed entry layout: addr at 0, len at 8, type at 16, zero at 20. */
  lemma MmapEntryLayout(e: MmapEntry)
    ensures U64At(EncodeMmapEntry(e), 0) == e.addr
    ensures U64At(EncodeMmapEntry(e), 8) == e.len
    ensures U32At(EncodeMmapEntry(e), 16) == e.typ
    ensures U32At(EncodeMmapEntry(e), 20) == 0
  {
    var r := EncodeMmapEntry(e);
    var a, b, c, d := Put64(e.addr), Put64(e.len), Put32(e.typ), Put32(0);
    assert r == a + b + c + d;
    assert r[0..8] == a;
    assert r[8..16] == b;
    assert r[16..20] == c;
    assert forall k :: 0 <= k < 4 ==> r[20..24][k] == r[20 + k] == d[k];
    assert r[20..24] == d;
    U64RoundTrip(r, 0, e.addr);
    U64RoundTrip(r, 8, e.len);
    U32RoundTrip(r, 16, e.typ);
    U32RoundTrip(r, 20, 0);
  }
}
