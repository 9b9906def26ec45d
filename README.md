# Multiboot2 boot path of the illumos loader, modelled in Dafny

This project models how the illumos boot loader starts a Multiboot2
kernel on UEFI machines, and what the kernel's early boot code (dboot)
reads back. The modelled pieces are:

- **Header check** (`multiboot2_loadfile`). The loader searches the first
  32 KiB of the kernel image for the Multiboot2 header. It checks the
  header's checksum and walks its tags, validating every information
  request. The result is the load and entry addresses, or an errno.
- **Information block (MBI) writer** (`multiboot2_exec`). The loader
  estimates the block's size (`mbi_size`, `module_size`) and gets pages
  for it (`efi_loadaddr`). It then fills the pages tag by tag with the
  `mb_malloc` bump cursor. The tags are the command line, the loader
  name, one module tag per file, the BIOS-style memory map, ACPI, the EFI
  system table, the framebuffer, the EFI memory map and END. Modules are
  laid out page-aligned behind the kernel. The command line is built by
  `mb_kernel_cmdline` and `update_cmdline`.
- **Relocator** (`efi_copy_finish`). After exiting boot services, it
  moves every staged chunk (kernel, modules, MBI) to its destination.
  It repeatedly moves a chunk that no other chunk still waiting to move
  overlaps.
- **SMAP builder** (`efi_getsmap`, `smap_type`, `efi_addsmapdata`). It
  coalesces the EFI memory map into BIOS SMAP runs.
- **Kernel-side reader** (`dboot_multiboot2.c`). This covers tag lookup,
  iteration, the module accessors, the memory map accessors and
  `highest_addr`.
- **Smaller pieces**:
  - the serial console's mode string parser and printer, its variable
    hooks, and the probe and setup logic (`comconsole.c`);
  - the early frame-buffer console, with blit, scroll, cursor and
    putchar (`boot_fb.c`);
  - the loader's `main` argument loop, string copies and `wcscmp`
    (`main.c`);
  - libc's `tolower` and `toupper`.

Memory is a sequence (or array) of bytes, and little-endian stores are
explicit. C's unsigned 32- and 64-bit wrap-around is written out where
the source relies on it: `roundup` of a tag size, `mod_end`'s rounding,
and `(size - 16) / entry_size`. Firmware services, `malloc` results and
`getenv` lookups become inputs.

Each file and its modules:

| file | modules | what it covers |
|---|---|---|
| wrappers.dfy | Wrappers | `Option` |
| mb2_layout.dfy | Mb2 | multiboot2.h constants, little-endian fields, rounding |
| mb2_header.dfy | Mb2Header | `multiboot2_loadfile`, `is_info_request_valid` |
| mb2_cmdline.dfy | Mb2Cmdline | `mb_kernel_cmdline`, `update_cmdline` |
| mb2_tags.dfy | Mb2Tags | tags as values, their slots, encoding and placement |
| mb2_info.dfy | Mb2Info, Mb2InfoFindings | the tags `multiboot2_exec` builds, the module layout, `mbi_size` |
| mb2_writer.dfy | Mb2Writer | `mb_malloc` and the tag-by-tag fill, over an array |
| mb2_reader.dfy | Mb2Reader | `dboot_multiboot2.c` |
| efi_copy.dfy | Relocator, RelocatorFindings, EfiLoadAddr | `efi_copy_finish`, `efi_loadaddr` |
| efi_memmap.dfy | EfiMemmap | `smap_type`, `efi_getsmap`, `efi_addsmapdata` |
| efi_comconsole.dfy | ComConsole | `comconsole.c` |
| boot_fb.dfy | BootFb | `boot_fb.c` |
| efi_main.dfy | EfiMain | `main.c` |
| ctype.dfy | CType | `tolower.c` |

The main results:

- Writer and reader are proved to agree (`Mb2Writer.ImageModules`). On
  the pages handed to the kernel, the tag list is well formed, and
  `highest_addr` is the MBI address plus `total_size`. The kernel also
  counts one module per file, and it reads back for module k the same
  `mod_start` and `mod_end` that the relocator places file k at.
- `mbi_size` is an upper bound on the bytes written when the old-ACPI tag
  is sized as the estimator sizes it (`Mb2Info.EstimateCovers`). As
  written, it is not an upper bound (finding F1 below).
- The relocator, whenever it exits, has put every chunk in place and
  delivered every chunk's bytes. This needs pairwise disjoint
  destinations and a conflict test that sees every overlap
  (`Relocator.RunKeepsIntact`). Its termination is proved only for a
  corrected loop under an explicit acyclicity ranking
  (`RelocatorFindings.CopyFinishFixed`).

Source paths below are relative to the root of the illumos tree.

## Model

| member | source | states |
|---|---|---|
| Mb2.RoundUp8 | usr/src/boot/sys/sys/multiboot2.h:41 | roundup(x, MULTIBOOT_TAG_ALIGN) is the least multiple of 8 at or above x |
| Mb2.RoundUpPage | usr/src/boot/sys/sys/multiboot2.h:34 | roundup(x, MULTIBOOT_MOD_ALIGN) is the least page boundary at or above x |
| Mb2.HeaderChecksum | usr/src/boot/sys/sys/multiboot2.h:86-98 | the checksum field makes magic + architecture + header_length + checksum vanish mod 2^32 |
| Mb2.ChecksumUnique | usr/src/boot/sys/sys/multiboot2.h:86-98 | exactly one checksum value satisfies that invariant |
| Mb2.LEOfToLE | usr/src/boot/sys/sys/multiboot2.h:165-168 | reading back an n-byte little-endian store gives the value stored |
| Mb2.ToLEOfLE | usr/src/boot/sys/sys/multiboot2.h:165-168 | storing a value read from bytes gives back those bytes |
| Mb2.U32RoundTrip | usr/src/boot/sys/sys/multiboot2.h:165-168 | a 32-bit field written at an offset reads back unchanged |
| Mb2.U64RoundTrip | usr/src/boot/sys/sys/multiboot2.h:153-163 | a 64-bit field written at an offset reads back unchanged |
| Mb2.MmapEntryLayout | usr/src/boot/sys/sys/multiboot2.h:153-163 | a packed mmap entry holds addr at byte 0, len at 8, type at 16, and zero (always 0) at 20 |
| Mb2Header.SearchFromSpec | usr/src/boot/sys/boot/common/multiboot2.c:161-167 | from an aligned start with no magic before it, the probe stops at the first 8-aligned offset holding the magic, or else at 32752 with the header of the last probe, 32744 |
| Mb2Header.SearchSpec | usr/src/boot/sys/boot/common/multiboot2.c:161-170 | the whole search probes only 8-aligned offsets below 32768 - 16, takes the first magic, and otherwise keeps the last probe's header |
| Mb2Header.FindHeader | usr/src/boot/sys/boot/common/multiboot2.c:161-167 | the probe loop gives exactly the search's result |
| Mb2Header.ChecksumAccepts | usr/src/boot/sys/boot/common/multiboot2.c:172-182 | a header carrying HeaderChecksum passes the loader's checksum test |
| Mb2Header.InfoRequestValid | usr/src/boot/sys/boot/common/multiboot2.c:81-117 | an information request is valid exactly when it is optional or every requested type is supported |
| Mb2Header.CheckRequestsWords | usr/src/boot/sys/boot/common/multiboot2.c:93-114 | the check over the request words in the image is valid exactly when all the words read are supported types |
| Mb2Header.InfoRequestCheckValid | usr/src/boot/sys/boot/common/multiboot2.c:81-117 | on a request tag inside the buffer, the check on the image equals is_info_request_valid on its (size - 8) / 4 requests |
| Mb2Header.TagStep | usr/src/boot/sys/boot/common/multiboot2.c:184-186 | the walk's step is roundup(size, 8) in 32-bit arithmetic: a multiple of 8, and 0 for sizes above 2^32 - 8 |
| Mb2Header.TagEffectIdempotent | usr/src/boot/sys/boot/common/multiboot2.c:187-222 | visiting the same header tag twice has the same effect as visiting it once |
| Mb2Header.WalkTags | usr/src/boot/sys/boot/common/multiboot2.c:184-223 | the tag loop gives the same outcome as the recursive walk |
| Mb2Header.WalkScanSound | usr/src/boot/sys/boot/common/multiboot2.c:184-223 | whichever way the walk ends, the address and entry tags it remembers are tags of those types inside the buffer |
| Mb2Header.WalkRejectsUnknown | usr/src/boot/sys/boot/common/multiboot2.c:214-220 | a non-optional tag of an unknown type makes loading reject |
| Mb2Header.WalkRejectsRequest | usr/src/boot/sys/boot/common/multiboot2.c:188-193 | a mandatory information request naming an unsupported type makes loading reject |
| Mb2Header.WalkKeepsScan | usr/src/boot/sys/boot/common/multiboot2.c:194-213 | once seen, an address tag, an entry-address tag or keep_bs stays recorded to the end of the walk |
| Mb2Header.ZeroSizeLoops | usr/src/boot/sys/boot/common/multiboot2.c:184-186 | a module-align tag of size 0 makes the walk as written visit the same tag forever |
| Mb2Header.WalkCheckedEnds | usr/src/boot/sys/boot/common/multiboot2.c:184-223 | with a check for tags smaller than their header, the walk always ends, differs from the original only by rejecting, and rejects wherever the original spins |
| Mb2Header.LoadedImpliesValidHeader | usr/src/boot/sys/boot/common/multiboot2.c:161-229 | an accepted image has a header of non-zero length inside the window, a valid checksum, and a walk that reached END having seen both an address and an entry-address tag |
| Mb2Header.BadChecksumRejected | usr/src/boot/sys/boot/common/multiboot2.c:172-182 | a found header whose checksum fails is refused with EFTYPE |
| Mb2Header.MissingTagRejected | usr/src/boot/sys/boot/common/multiboot2.c:225-229 | a walk that ends without an address tag or without an entry-address tag gives EFTYPE |
| Mb2Header.WalkDoneInside | usr/src/boot/sys/boot/common/multiboot2.c:184-245 | a walk that reaches END leaves load_addr and entry_addr of the remembered tags inside the 32 KiB buffer, so reading them after the walk stays in bounds |
| Mb2Header.ReadsPastOnlyInWalk | usr/src/boot/sys/boot/common/multiboot2.c:184-245 | loading reads past the buffer only when the tag walk itself runs off the 32 KiB |
| Mb2Header.KernelHeader.constructor | usr/src/boot/sys/boot/common/multiboot2.c:61-63 | keep_bs starts false, and load_addr and entry_addr start at 0 |
| Mb2Header.KernelHeader.LoadFileInto | usr/src/boot/sys/boot/common/multiboot2.c:120-277 | multiboot2_loadfile, through its probe loop and tag loop, fails for the early errors, a zero or oversized header_length or a bad checksum, and otherwise reports the walk's outcome; it ORs keep_bs in and sets load_addr and entry_addr only when both tags were found |
| Mb2Cmdline.IndexFrom | usr/src/boot/sys/boot/common/multiboot2.c:323 | the search finds the first occurrence at or after i, and no earlier one |
| Mb2Cmdline.IndexOf | usr/src/boot/sys/boot/common/multiboot2.c:317-323 | strstr returns the first position of the pattern, or none when it does not occur |
| Mb2Cmdline.Token | usr/src/boot/sys/boot/common/multiboot2.c:305-311 | strsep on ", " gives the longest prefix without a comma or a space |
| Mb2Cmdline.ModeName | usr/src/boot/sys/boot/common/multiboot2.c:313-314 | snprintf into char mode[10] keeps at most 9 characters of "C-mode" |
| Mb2Cmdline.UpdateWithoutB | usr/src/boot/sys/boot/common/multiboot2.c:368-386 | without "-B", " -B console=C" is appended, plus ",C-mode=\"M\"" when C is a tty whose mode is set |
| Mb2Cmdline.UpdateKeepsNonTty | usr/src/boot/sys/boot/common/multiboot2.c:317-353 | with "-B" and a console= value that is not a tty, the original line is returned unchanged |
| Mb2Cmdline.UpdateExtends | usr/src/boot/sys/boot/common/multiboot2.c:295-390 | every outcome keeps the original line as a prefix |
| Mb2Cmdline.UpdateAllocation | usr/src/boot/sys/boot/common/multiboot2.c:325-385 | the buffer is exactly strlen + 1 when no mode is appended, and short by \|C\| - 4 bytes when a tty mode is appended |
| Mb2Cmdline.UpdateFixedAllocation | usr/src/boot/sys/boot/common/multiboot2.c:325-385 | with the mode term sized for the console name, the buffer always holds the line and its NUL |
| Mb2Cmdline.FixedSameLine | usr/src/boot/sys/boot/common/multiboot2.c:325-385 | the corrected sizing produces the same line and changes only the size asked of malloc |
| Mb2Cmdline.OverflowAsWritten | usr/src/boot/sys/boot/common/multiboot2.c:369-385 | os_console=ttyab with its mode set gives a line one byte longer than its buffer |
| Mb2Cmdline.BaseLenExact | usr/src/boot/sys/boot/common/multiboot2.c:404-426 | mb_kernel_cmdline's buffer is exactly strlen + 1 of "name[ args][ -B bootfs]" |
| Mb2Cmdline.KernelCmdlineStartsWith | usr/src/boot/sys/boot/common/multiboot2.c:396-429 | the kernel's line starts with the name, its arguments (f_args, else $boot-args) and the ZFS -B option |
| Mb2Tags.Encode | usr/src/boot/sys/sys/multiboot2.h:165-168 | a tag's bytes are its 8-byte header followed by its body |
| Mb2Tags.Slot | usr/src/boot/sys/sys/multiboot2.h:41 | a tag takes its size rounded up to 8 in the list |
| Mb2Tags.SpanAppend | usr/src/boot/sys/boot/common/multiboot2.c:433-440 | the bytes taken by two runs of tags add up |
| Mb2Tags.SpanAligned | usr/src/boot/sys/boot/common/multiboot2.c:433-440 | every tag start from an 8-aligned base stays 8-aligned |
| Mb2Tags.Put | usr/src/boot/sys/boot/common/multiboot2.c:714-721 | a memcpy writes its bytes at the offset and changes nothing else |
| Mb2Tags.FitsAppendIff | usr/src/boot/sys/boot/common/multiboot2.c:433-440 | a list that fits takes one more tag exactly when that tag's bytes fit after its span |
| Mb2Tags.FitsPrefix | usr/src/boot/sys/boot/common/multiboot2.c:433-440 | a prefix of a list that fits also fits |
| Mb2Tags.Overruns | usr/src/boot/sys/boot/common/multiboot2.c:433-440 | once a prefix overruns the pages, so does any extension of it |
| Mb2Tags.PlaceLays | usr/src/boot/sys/boot/common/multiboot2.c:630-930 | writing a list of tags lays each one at its slot, and leaves the bytes before and after the list alone |
| Mb2Tags.PlaceAppend | usr/src/boot/sys/boot/common/multiboot2.c:433-440 | writing one more tag is a memcpy of its bytes at the end of the list so far |
| Mb2Tags.TagsAtSuffix | usr/src/boot/sys/boot/common/multiboot2.c:630-930 | the layout from an offset depends only on the bytes from that offset on |
| Mb2Tags.HeaderReads | usr/src/boot/sys/sys/multiboot2.h:165-168 | a laid-out tag's type, size and body read back as written |
| Mb2Tags.TagsAtTail | usr/src/boot/sys/boot/common/multiboot2.c:433-440 | the rest of the list follows at the next 8-aligned slot |
| Mb2Info.CString | usr/src/boot/sys/boot/common/multiboot2.c:636-639 | a copied C string is its bytes followed by a NUL |
| Mb2Info.CmdBufLenCovers | usr/src/boot/sys/boot/common/multiboot2.c:696-712 | num, the module command line buffer, is exactly strlen + 1 of "name type=T[ args]" |
| Mb2Info.ModuleTag | usr/src/boot/sys/boot/common/multiboot2.c:714-721 | a module tag has type MODULE and size 16 + num |
| Mb2Info.ModuleTagFields | usr/src/boot/sys/sys/multiboot2.h:182-188 | the module tag's body is mod_start, mod_end, then the NUL-terminated command line |
| Mb2Info.NextStart | usr/src/boot/sys/boot/common/multiboot2.c:720 | the next module starts at a 32-bit roundup2(mod_end, 4096), which is page-aligned |
| Mb2Info.FirstStart | usr/src/boot/sys/boot/common/multiboot2.c:688 | the first module starts at roundup2(load_addr + kernel size, 4096), which is page-aligned |
| Mb2Info.ModuleTagAt | usr/src/boot/sys/boot/common/multiboot2.c:693-724 | the k-th module tag carries the k-th layout entry |
| Mb2Info.AfterModulesSnoc | usr/src/boot/sys/boot/common/multiboot2.c:716-720 | one more file moves tmp to the page after its wrapped end |
| Mb2Info.ModuleTagAfter | usr/src/boot/sys/boot/common/multiboot2.c:693-724 | the k-th module tag is built from the tmp reached after k files |
| Mb2Info.LayoutAligned | usr/src/boot/sys/boot/common/multiboot2.c:688-720 | every mod_start is page-aligned, whatever the addresses |
| Mb2Info.ModuleLayout | usr/src/boot/sys/boot/common/multiboot2.c:688-724 | below 4 GiB, module k spans exactly its size, the first starts at tmp, each next one starts at the page after the previous end, and all end before the MBI |
| Mb2Info.AfterBelow | usr/src/boot/sys/boot/common/multiboot2.c:688-724 | without wrap, the loop's final tmp lies at or above its start |
| Mb2Info.ModulesDisjoint | usr/src/boot/sys/boot/common/multiboot2.c:716-720 | module ranges are increasing and pairwise disjoint |
| Mb2Info.ModuleSize | usr/src/boot/sys/boot/common/multiboot2.c:442-459 | module_size's loop computes the running total of per-module terms |
| Mb2Info.ModuleSizeIsSpan | usr/src/boot/sys/boot/common/multiboot2.c:451-456 | module_size charges each module exactly the slot its tag takes |
| Mb2Info.StringTag | usr/src/boot/sys/boot/common/multiboot2.c:630-650 | a CMDLINE or BOOT_LOADER_NAME tag has size 8 + strlen + 1 |
| Mb2Info.EntriesAt | usr/src/boot/sys/boot/common/multiboot2.c:751-756 | the i-th SMAP entry's 24 bytes sit at 24 * i |
| Mb2Info.MmapTag | usr/src/boot/sys/boot/common/multiboot2.c:736-757 | the MMAP tag has size 16 + 24 n |
| Mb2Info.MmapTagLayout | usr/src/boot/sys/boot/common/multiboot2.c:744-756 | the MMAP tag holds entry_size 24, entry_version 0 and the entries in order |
| Mb2Info.AcpiTags | usr/src/boot/sys/boot/common/multiboot2.c:771-789 | there is one ACPI tag exactly when an RSDP was found |
| Mb2Info.Efi64Tag | usr/src/boot/sys/boot/common/multiboot2.c:793-801 | the EFI64 tag has the fixed size of its struct |
| Mb2Info.FlsBits | usr/src/boot/sys/boot/common/multiboot2.c:823-824 | fls(x) is the number of bits x needs |
| Mb2Info.FlsOr | usr/src/boot/sys/boot/common/multiboot2.c:823-824 | the highest bit of a \| b is the higher of their highest bits |
| Mb2Info.FbBpp | usr/src/boot/sys/boot/common/multiboot2.c:823-824 | bpp is the highest set bit over the four channel masks |
| Mb2Info.FbTag | usr/src/boot/sys/boot/common/multiboot2.c:814-849 | the FRAMEBUFFER tag has type FRAMEBUFFER and the RGB tag size |
| Mb2Info.FbChannelsApart | usr/src/boot/sys/boot/common/multiboot2.c:837-843 | the red and blue field positions are always {0, 16} |
| Mb2Info.EfiMmapTag | usr/src/boot/sys/boot/common/multiboot2.c:852-877 | the EFI_MMAP tag has size 16 + the memory map's size |
| Mb2Info.GrowAligned | usr/src/boot/sys/boot/common/multiboot2.c:519-554 | size += n followed by roundup2(size, 8) adds n's slot to an aligned size |
| Mb2Info.GrowSlack | usr/src/boot/sys/boot/common/multiboot2.c:532-535 | the unrounded memory map estimate is rounded by the framebuffer step after it |
| Mb2Info.BiosSmapAligned | usr/src/boot/sys/boot/common/multiboot2.c:495-511 | biossmap_size is a multiple of 8 |
| Mb2Info.HeadTags | usr/src/boot/sys/boot/common/multiboot2.c:630-650 | the command-line and loader-name tags are well formed |
| Mb2Info.TailTags | usr/src/boot/sys/boot/common/multiboot2.c:852-930 | the EFI_MMAP and END tags are well formed |
| Mb2Info.PlanFromFront | usr/src/boot/sys/boot/common/multiboot2.c:666-930 | exec stops with the errno of the module part, then with EINVAL without SMAP data or when the memory map cannot be fetched, and otherwise writes firmware tags, EFI_MMAP and END |
| Mb2Info.PlanExtendsFront | usr/src/boot/sys/boot/common/multiboot2.c:630-930 | whatever follows, the tags start with the strings and modules |
| Mb2Info.ModChunks | usr/src/boot/sys/boot/common/multiboot2.c:946-969 | the k-th module chunk moves file k's staged bytes to its laid-out mod_start |
| Mb2Info.Chunks | usr/src/boot/sys/boot/common/multiboot2.c:942-969 | the relocator gets a chunk for the kernel, one per module, and one for the MBI |
| Mb2Info.ChunksAscend | usr/src/boot/sys/boot/common/multiboot2.c:942-969 | without wrap, kernel, modules and MBI get ascending destinations |
| Mb2Info.ChunksDisjoint | usr/src/boot/sys/boot/common/multiboot2.c:942-969 | those destinations never share a byte, which the relocator needs |
| Mb2Info.SpanFirmware | usr/src/boot/sys/boot/common/multiboot2.c:736-849 | the firmware tags take MMAP + ACPI + EFI64 + optional FRAMEBUFFER slots |
| Mb2Info.SpanTail | usr/src/boot/sys/boot/common/multiboot2.c:852-930 | the EFI_MMAP and END tags take their two slots |
| Mb2Info.EstimateFromValue | usr/src/boot/sys/boot/common/multiboot2.c:513-559 | mbi_size's running sum equals the sum of the slots it charges |
| Mb2Info.MbiSizeValue | usr/src/boot/sys/boot/common/multiboot2.c:513-559 | mbi_size on the EFI path is header + strings + modules' span + EFI64 + map estimate + framebuffer + SMAP + ACPI + END |
| Mb2Info.EstimateCovers | usr/src/boot/sys/boot/common/multiboot2.c:513-559 | with the old-ACPI tag sized as estimated, mbi_size bounds the bytes written, however the writer stops |
| Mb2Info.FirmwareCovered | usr/src/boot/sys/boot/common/multiboot2.c:726-930 | the tags after the modules take no more than the estimate charges for them |
| Mb2Info.PlanValid | usr/src/boot/sys/boot/common/multiboot2.c:630-930 | under the estimator's sizing every tag written holds its own body |
| Mb2Info.CorrectedNeverOverruns | usr/src/boot/sys/boot/common/multiboot2.c:610-933 | an MBI allocated for its estimate never overflows when the old-ACPI tag is sized as estimated |
| Mb2Info.SizingOnlyOldAcpi | usr/src/boot/sys/boot/common/multiboot2.c:771-789 | the two old-ACPI sizings give the same tags and outcome unless the RSDP has revision 0 |
| Mb2InfoFindings.OldAcpiEstimate | usr/src/boot/sys/boot/common/multiboot2.c:548-554 | for the example inputs the estimate is a single page, granted below 4 GiB |
| Mb2InfoFindings.OldAcpiWritten | usr/src/boot/sys/boot/common/multiboot2.c:771-781 | as written, the tags before EFI_MMAP take 208 bytes, 48 of them the old-ACPI tag |
| Mb2InfoFindings.OldAcpiOverrun | usr/src/boot/sys/boot/common/multiboot2.c:776-781 | as written, those inputs make multiboot2_exec store past the MBI's page |
| Mb2InfoFindings.OldAcpiCorrected | usr/src/boot/sys/boot/common/multiboot2.c:548-551 | with the tag sized as estimated, the same inputs reach the relocator |
| Mb2Writer.InfoBuilder.constructor | usr/src/boot/sys/boot/common/multiboot2.c:622 | the cursor starts at mbi->tags and nothing is written yet |
| Mb2Writer.InfoBuilder.MbMalloc | usr/src/boot/sys/boot/common/multiboot2.c:433-440 | mb_malloc returns the old cursor and moves it to roundup(cursor + n, 8), so cursors never decrease |
| Mb2Writer.InfoBuilder.Store | usr/src/boot/sys/boot/common/multiboot2.c:714-721 | a tag's field stores write its bytes at the offset and nothing else |
| Mb2Writer.InfoBuilder.PutTag | usr/src/boot/sys/boot/common/multiboot2.c:630-650 | one tag is written exactly when its bytes fit in the pages, and the list grows by it |
| Mb2Writer.InfoBuilder.Append | usr/src/boot/sys/boot/common/multiboot2.c:630-640 | a tag that fits is laid out at the cursor after the ones before it, and the cursor moves past its rounded-up size |
| Mb2Writer.InfoBuilder.PutNext | usr/src/boot/sys/boot/common/multiboot2.c:433-440 | the next tag of a run is written when it fits, and otherwise the run so far overruns the pages |
| Mb2Writer.InfoBuilder.PutStrings | usr/src/boot/sys/boot/common/multiboot2.c:630-650 | the CMDLINE and BOOT_LOADER_NAME tags are written in that order |
| Mb2Writer.InfoBuilder.PutModules | usr/src/boot/sys/boot/common/multiboot2.c:693-724 | one MODULE tag per file in list order, stopping with ENOMEM at the file whose buffer allocation fails |
| Mb2Writer.InfoBuilder.PutFirmware | usr/src/boot/sys/boot/common/multiboot2.c:726-849 | MMAP, then ACPI if there is an RSDP, EFI64, and FRAMEBUFFER if GOP reports one |
| Mb2Writer.InfoBuilder.PutMaps | usr/src/boot/sys/boot/common/multiboot2.c:736-789 | MMAP, then the ACPI tag when there is an RSDP, written exactly when they fit |
| Mb2Writer.InfoBuilder.PutEfi | usr/src/boot/sys/boot/common/multiboot2.c:791-849 | EFI64, then FRAMEBUFFER when GOP reports one, written exactly when they fit |
| Mb2Writer.InfoBuilder.PutTail | usr/src/boot/sys/boot/common/multiboot2.c:852-930 | EFI_MMAP, then the END marker |
| Mb2Writer.InfoBuilder.FillFront | usr/src/boot/sys/boot/common/multiboot2.c:630-724 | the strings, the EINVAL check for no modules or no rootfs, then the module tags |
| Mb2Writer.InfoBuilder.Fill | usr/src/boot/sys/boot/common/multiboot2.c:630-930 | the pages receive the planned tags in order with their errno, or the fill reports a store that would leave the pages |
| Mb2Writer.CountModules | usr/src/boot/sys/boot/common/multiboot2.c:666-678 | num is the number of files, and rootfs is 0 exactly when none is typed "rootfs" |
| Mb2Writer.Image | usr/src/boot/sys/boot/common/multiboot2.c:932-933 | the pages handed over are of the allocated size |
| Mb2Writer.EstimateSize | usr/src/boot/sys/boot/common/multiboot2.c:513-559 | the mbi_size loop computes the estimate |
| Mb2Writer.Exec | usr/src/boot/sys/boot/common/multiboot2.c:562-933 | multiboot2_exec up to the relocator gives the modelled outcome, and on hand-off the pages hold the image |
| Mb2Writer.WriteInfo | usr/src/boot/sys/boot/common/multiboot2.c:622-933 | once pages are granted, filling them and setting total_size gives that outcome and image |
| Mb2Writer.InnerListOk | usr/src/boot/sys/boot/common/multiboot2.c:925-930 | inner tags closed by END form a list the kernel can walk |
| Mb2Writer.PlanListOk | usr/src/boot/sys/boot/common/multiboot2.c:630-930 | a successful exec writes a walkable list ending in END |
| Mb2Writer.PlanModuleMatches | usr/src/boot/sys/boot/common/multiboot2.c:693-724 | in that list the module tags are the only MODULE tags, in file order |
| Mb2Writer.OnlyModules | usr/src/uts/i86pc/dboot/dboot_multiboot2.c:90-108 | a walk over other tags, module tags, then other tags finds exactly the middle run |
| Mb2Writer.FitsSpan | usr/src/boot/sys/boot/common/multiboot2.c:932-933 | a list that fits and ends in END lies inside the pages, padding included |
| Mb2Writer.ImageLaid | usr/src/boot/sys/boot/common/multiboot2.c:622-933 | the handed-over pages hold the tags from mbi->tags, and total_size is last_addr - mbi |
| Mb2Writer.ImageModules | usr/src/uts/i86pc/dboot/dboot_multiboot2.c:140-190 | the kernel reads the handed-over pages as a well-formed list, with highest_addr = mbi + total_size, one module per file, and each module's mod_start and mod_end as laid out |
| Mb2Reader.MinSize | usr/src/uts/i86pc/dboot/dboot_multiboot2.c:153-231 | each tag type the reader dereferences has at least the 8-byte header |
| Mb2Reader.NextTag | usr/src/uts/i86pc/dboot/dboot_multiboot2.c:57-63 | the next tag is NULL exactly after END, else at least 8 bytes on, inside a well-formed rest |
| Mb2Reader.FindFrom | usr/src/uts/i86pc/dboot/dboot_multiboot2.c:57-63 | find_tag_impl returns a tag of the requested type at or after the start, in a well-formed list |
| Mb2Reader.FindAfter | usr/src/uts/i86pc/dboot/dboot_multiboot2.c:98-106 | a lookup after a tag finds a later tag of the type |
| Mb2Reader.HitsAreTags | usr/src/uts/i86pc/dboot/dboot_multiboot2.c:90-108 | every tag iterate visits has the requested type |
| Mb2Reader.HitsIncrease | usr/src/uts/i86pc/dboot/dboot_multiboot2.c:90-108 | iterate meets the tags in strictly increasing address order |
| Mb2Reader.Iterate | usr/src/uts/i86pc/dboot/dboot_multiboot2.c:90-108 | the iterate loop gives the counted result and the recorded tag of its specification |
| Mb2Reader.IterateStopsAtIndex | usr/src/uts/i86pc/dboot/dboot_multiboot2.c:98-137 | when the callback stops at index k, iterate returns k + 1 and records the k-th tag |
| Mb2Reader.IterateCounts | usr/src/uts/i86pc/dboot/dboot_multiboot2.c:90-150 | without a callback, or with an index past the set, iterate returns the number of tags of the type |
| Mb2Reader.ModuleTag | usr/src/uts/i86pc/dboot/dboot_multiboot2.c:153-170 | the index-th module tag, when found, is a MODULE tag in a well-formed list |
| Mb2Reader.ModCmdline | usr/src/uts/i86pc/dboot/dboot_multiboot2.c:193-210 | modcmdline is NULL exactly when the index is out of range, else the cmdline of the index-th module tag |
| Mb2Reader.Cmdline | usr/src/uts/i86pc/dboot/dboot_multiboot2.c:111-121 | cmdline is non-NULL exactly when there is a CMDLINE tag |
| Mb2Reader.BasicMeminfo | usr/src/uts/i86pc/dboot/dboot_multiboot2.c:219-231 | basicmeminfo returns 1 exactly when the tag exists, and otherwise leaves the outputs untouched |
| Mb2Reader.MmapTag | usr/src/uts/i86pc/dboot/dboot_multiboot2.c:213-216 | get_mmap_tagp's tag, when found, holds its 16-byte fixed part |
| Mb2Reader.ToInt32 | usr/src/uts/i86pc/dboot/dboot_multiboot2.c:282-294 | a 32-bit unsigned value read as an int keeps values below 2^31 |
| Mb2Reader.EntryCountExact | usr/src/uts/i86pc/dboot/dboot_multiboot2.c:282-294 | a tag of 16 + 24 n bytes with 24-byte entries holds n entries |
| Mb2Reader.MmapEntries | usr/src/uts/i86pc/dboot/dboot_multiboot2.c:282-294 | mmap_entries is 0 without an mmap tag |
| Mb2Reader.MmapGetBase | usr/src/uts/i86pc/dboot/dboot_multiboot2.c:266-279 | entries[index].addr, or 0 without an mmap tag |
| Mb2Reader.MmapGetLength | usr/src/uts/i86pc/dboot/dboot_multiboot2.c:250-263 | entries[index].len, or 0 without an mmap tag |
| Mb2Reader.MmapGetType | usr/src/uts/i86pc/dboot/dboot_multiboot2.c:234-247 | entries[index].type, or 0 without an mmap tag |
| Mb2Reader.HighestAddr | usr/src/uts/i86pc/dboot/dboot_multiboot2.c:297-300 | highest_addr is the mbi address plus total_size |
| Mb2Reader.MatchesAppend | usr/src/uts/i86pc/dboot/dboot_multiboot2.c:57-63 | before END, a walk over two runs finds the first run's tags of the type, then the second's |
| Mb2Reader.MatchesAll | usr/src/uts/i86pc/dboot/dboot_multiboot2.c:57-63 | a run made only of tags of the type is matched tag by tag |
| Mb2Reader.ReadBack | usr/src/uts/i86pc/dboot/dboot_multiboot2.c:57-108 | a list laid out from an offset is well formed, and iterate visits exactly its tags of the type, in order |
| Mb2Reader.MatchesEncoded | usr/src/uts/i86pc/dboot/dboot_multiboot2.c:57-63 | every matched tag sits, encoded, at its offset |
| Mb2Reader.ModuleTagIsHit | usr/src/uts/i86pc/dboot/dboot_multiboot2.c:153-170 | the tag the module accessors pick for index k is the k-th module found |
| Mb2Reader.ModuleFieldsRead | usr/src/uts/i86pc/dboot/dboot_multiboot2.c:153-190 | a module tag laid out at p reads back its mod_start and mod_end |
| Mb2Reader.ModulesReadBack | usr/src/uts/i86pc/dboot/dboot_multiboot2.c:140-210 | modcount counts the module tags written, and modstart, modend and modcmdline of k are the fields of the k-th one |
| Relocator.Move | usr/src/boot/sys/boot/efi/loader/copy.c:185-186 | memmove puts the old source bytes at the destination and changes nothing else |
| Relocator.MoveOntoItself | usr/src/boot/sys/boot/efi/loader/copy.c:185-191 | moving a chunk onto itself leaves memory unchanged |
| Relocator.CopyUp | usr/src/boot/sys/boot/efi/loader/copy.c:185-186 | copying forward when the destination is at or below the source delivers every old source byte, even where the ranges overlap |
| Relocator.CopyDown | usr/src/boot/sys/boot/efi/loader/copy.c:185-186 | copying backward when the destination is above the source delivers every old source byte, even where the ranges overlap |
| Relocator.MemMove | usr/src/boot/sys/boot/efi/loader/copy.c:185-186 | the relocator's memmove over the memory array is Move |
| Relocator.FirstUnplacedFrom | usr/src/boot/sys/boot/efi/loader/copy.c:155-160 | from index i, the first chunk not in place, and none exactly when all from i on are in place |
| Relocator.FirstUnplaced | usr/src/boot/sys/boot/efi/loader/copy.c:153-161 | the scan finds the first chunk not in place, or none exactly when all are in place |
| Relocator.FindUnplaced | usr/src/boot/sys/boot/efi/loader/copy.c:155-160 | the STAILQ_FOREACH loop computes that scan |
| Relocator.ScanConflicts | usr/src/boot/sys/boot/efi/loader/copy.c:169-182 | the conflict loop reports a conflict exactly as the endpoint test defines it |
| Relocator.Step | usr/src/boot/sys/boot/efi/loader/copy.c:151-191 | one pass breaks exactly when the cursor is empty and every chunk is in place |
| Relocator.Pass | usr/src/boot/sys/boot/efi/loader/copy.c:151-191 | one pass over the arrays breaks exactly when Step does, and otherwise leaves the arrays and the cursor in the state Step gives |
| Relocator.Run | usr/src/boot/sys/boot/efi/loader/copy.c:151-192 | the loop, whenever it exits, has every chunk in place |
| Relocator.CopyFinish | usr/src/boot/sys/boot/efi/loader/copy.c:132-195 | efi_copy_finish returns the last chunk's paddr (the MBI), and when it exits every chunk is in place, the chunks and memory being those of the loop's specification |
| Relocator.StepRelated | usr/src/boot/sys/boot/efi/loader/copy.c:184-191 | a pass keeps destinations and sizes, and changes memory only by moving one conflict-free chunk |
| Relocator.RunRelated | usr/src/boot/sys/boot/efi/loader/copy.c:151-192 | the loop never changes a destination or a size |
| Relocator.MoveKeepsIntact | usr/src/boot/sys/boot/efi/loader/copy.c:184-188 | moving an unblocked chunk keeps every chunk's data when destinations are disjoint |
| Relocator.StepKeepsIntact | usr/src/boot/sys/boot/efi/loader/copy.c:169-191 | where the scan detects every overlap, each pass keeps the data intact |
| Relocator.RunKeepsIntact | usr/src/boot/sys/boot/efi/loader/copy.c:151-192 | under those conditions, whenever the loop exits, every chunk's staged data is at its destination |
| RelocatorFindings.LivelockAsWritten | usr/src/boot/sys/boot/efi/loader/copy.c:171-191 | on three chunks with an acyclic blocking relation, the loop as written never exits |
| RelocatorFindings.LivelockCycle | usr/src/boot/sys/boot/efi/loader/copy.c:184-191 | once B is placed, the loop as written never exits, whatever memory holds |
| RelocatorFindings.ContainmentAsWritten | usr/src/boot/sys/boot/efi/loader/copy.c:177-180 | a chunk whose staged bytes strictly contain another's destination is not seen as a conflict, and its data is corrupted |
| RelocatorFindings.PlaceDecreases | usr/src/boot/sys/boot/efi/loader/copy.c:187 | placing a chunk lowers the number of chunks not in place |
| RelocatorFindings.ExistsMovable | usr/src/boot/sys/boot/efi/loader/copy.c:151-192 | with a ranked blocking relation, some waiting chunk can always move |
| RelocatorFindings.FindBlocker | usr/src/boot/sys/boot/efi/loader/copy.c:169-182 | the corrected scan reports a blocker exactly when a waiting chunk overlaps the destination |
| RelocatorFindings.CopyFinishFixed | usr/src/boot/sys/boot/efi/loader/copy.c:132-195 | the corrected loop returns the MBI's paddr and ends with all chunks in place, destinations unchanged, and with disjoint destinations every chunk's data delivered |
| RelocatorFindings.LivelockFixedRanked | usr/src/boot/sys/boot/efi/loader/copy.c:151-192 | the live-locking list has a ranking, so the corrected loop places it |
| EfiLoadAddr.PagesFor | usr/src/boot/sys/boot/efi/loader/copy.c:73-76 | the intended page count: the fewest pages holding size bytes |
| EfiLoadAddr.SizeOf | usr/src/boot/sys/boot/efi/loader/copy.c:56-71 | the int size is *(int *)data for LOAD_MEM, else st.st_size stored into an int: equal to it when it fits, congruent mod 2^32 otherwise |
| EfiLoadAddr.PagesOf | usr/src/boot/sys/boot/efi/loader/copy.c:73 | roundup2(size, 4096) >> 12 in int arithmetic, converted to uint64_t: the fewest pages for 0 <= size <= INT_MAX - 4095, 0 for -4095..-1, and at least 2^64 - 2^19 otherwise |
| EfiLoadAddr.PagesOverflowAsWritten | usr/src/boot/sys/boot/efi/loader/copy.c:56-76 | a file of INT_MAX bytes asks for 2^64 - 2^19 pages where 2^19 hold it |
| EfiLoadAddr.LoadAddrRequest | usr/src/boot/sys/boot/efi/loader/copy.c:60-80 | no allocation is requested exactly for addr 0 or LOAD_ELF; otherwise the request is for the int-computed page count below 4 GiB, which is the fewest pages when the size fits in an int with room for the rounding |
| EfiLoadAddr.LoadAddr | usr/src/boot/sys/boot/efi/loader/copy.c:52-87 | efi_loadaddr returns 0 on an early return or an allocation failure, else the granted address |
| EfiMemmap.SmapType | usr/src/boot/sys/boot/efi/loader/memmap.c:43-66 | each EFI type maps to MEMORY, RESERVED, ACPI_RECLAIM or ACPI_NVS as the table lists, both ways, and to -1 above PalCode |
| EfiMemmap.MergeCount | usr/src/boot/sys/boot/efi/loader/memmap.c:95-130 | the merge adds at most one run per descriptor consumed |
| EfiMemmap.CoalesceCount | usr/src/boot/sys/boot/efi/loader/memmap.c:95-130 | there are no more runs than descriptors, and no more than list nodes |
| EfiMemmap.MergeWithinLimit | usr/src/boot/sys/boot/efi/loader/memmap.c:95-130 | the merge never produces more runs than the array it allocated holds |
| EfiMemmap.MergeTotal | usr/src/boot/sys/boot/efi/loader/memmap.c:102-123 | without an allocation failure, merging keeps the total length |
| EfiMemmap.CoalesceTotal | usr/src/boot/sys/boot/efi/loader/memmap.c:95-130 | the SMAP covers exactly the bytes of the descriptors |
| EfiMemmap.MergeShape | usr/src/boot/sys/boot/efi/loader/memmap.c:96-127 | runs keep input order, page 0 is MEMORY, and a new run starts only where a descriptor cannot join the previous one |
| EfiMemmap.CoalesceShape | usr/src/boot/sys/boot/efi/loader/memmap.c:96-127 | the same for the whole descriptor list |
| EfiMemmap.CoalesceJoin | usr/src/boot/sys/boot/efi/loader/memmap.c:114-116 | two descriptors share a run exactly when the second has the run's type and starts at the run's end |
| EfiMemmap.SmapStore.constructor | usr/src/boot/sys/boot/efi/loader/memmap.c:38-39 | smapbase starts NULL and smaplen 0 |
| EfiMemmap.SmapStore.GetSmap | usr/src/boot/sys/boot/efi/loader/memmap.c:68-145 | efi_getsmap leaves the table alone when GetMemoryMap fails, else sets smaplen to the run count and smapbase to the runs (or NULL when the array allocation fails) |
| EfiMemmap.SmapStore.AddSmapData | usr/src/boot/sys/boot/efi/loader/memmap.c:148-156 | efi_addsmapdata attaches nothing without a table or with smaplen 0, and otherwise the smaplen entries |
| ComConsole.DigitValue | usr/src/boot/sys/boot/efi/loader/comconsole.c:339 | strtol's digit value of a character is at most 36 |
| ComConsole.RunEnd | usr/src/boot/sys/boot/efi/loader/comconsole.c:339 | the digit run ends at the first non-digit of the base |
| ComConsole.StrToL | usr/src/boot/sys/boot/efi/loader/comconsole.c:339-350 | strtol gives a value in long's range, and the end pointer is either the start or past it |
| ComConsole.ToInt32 | usr/src/boot/sys/boot/efi/loader/comconsole.c:339-345 | the conversion to int keeps every value already in int's range |
| ComConsole.ModeOf | usr/src/boot/sys/boot/efi/loader/comconsole.c:330-413 | an accepted mode has a baud rate in 1..INT_MAX, 7 or 8 data bits, parity n, e or o, and 1 or 2 stop bits |
| ComConsole.ReadDecimal | usr/src/boot/sys/boot/efi/loader/comconsole.c:339 | strtol reads back a printed positive decimal and stops after it |
| ComConsole.PrintedLayout | usr/src/boot/sys/boot/efi/loader/comconsole.c:304-327 | comc_print_mode prints "baud,databits,parity,stop,-" |
| ComConsole.PrintParse | usr/src/boot/sys/boot/efi/loader/comconsole.c:304-413 | parsing comc_print_mode's output restores baud, data bits, parity and stop bits |
| ComConsole.ModeShape | usr/src/boot/sys/boot/efi/loader/comconsole.c:360-406 | an accepted string ends with ",p,s,h" and nothing follows |
| ComConsole.Serial.constructor | usr/src/boot/sys/boot/efi/loader/comconsole.c:169-195 | a fresh port is 8,n,1 at COMSPEED, ignore_cd set, rtsdtr_off clear, and port index -1 unless the handle exists and opens |
| ComConsole.Serial.ParseMode | usr/src/boot/sys/boot/efi/loader/comconsole.c:330-413 | comc_parse_mode succeeds exactly on an accepted string and then takes its settings; on error the port is unchanged |
| ComConsole.Serial.ApplyEnv | usr/src/boot/sys/boot/efi/loader/comconsole.c:199-233 | a valid mode variable replaces the settings, the flags take "true" or "false" and are kept otherwise, and the published values describe the result |
| ComConsole.BoolRoundTrip | usr/src/boot/sys/boot/efi/loader/comconsole.c:209-233 | "true" and "false" are the only values the flag variables take and read back |
| ComConsole.Console.constructor | usr/src/boot/sys/boot/efi/loader/comconsole.c:68-112 | a console for ttya-ttyd starts with no port, neither active nor present |
| ComConsole.Console.Setup | usr/src/boot/sys/boot/efi/loader/comconsole.c:506-547 | comc_setup changes nothing for an inactive console, else sets both present flags exactly when the port is open and Reset and SetAttributes succeed |
| ComConsole.Console.Probe | usr/src/boot/sys/boot/efi/loader/comconsole.c:148-235 | comc_probe runs once, setting up a fresh port from the defaults and the environment, then comc_setup |
| ComConsole.GetConsole | usr/src/boot/sys/boot/efi/loader/comconsole.c:416-431 | get_console selects ttya-ttyd by the name's fourth character, and none otherwise |
| ComConsole.ModeSet | usr/src/boot/sys/boot/efi/loader/comconsole.c:434-451 | the mode hook succeeds exactly for a value, a known console and an accepted string, then the port has the new mode, its cd and rts-dtr flags are kept, comc_setup recomputes (506-531) the present flags of an active console, and the variable is stored (448); otherwise the port and the present flags are unchanged and nothing is stored |
| ComConsole.FlagSet | usr/src/boot/sys/boot/efi/loader/comconsole.c:454-503 | the cd and rts-dtr hooks accept only "true" or "false" for a known console, then set that flag, keep the mode and the other flag, let comc_setup recompute (506-531) the present flags of an active console, and store the variable (474, 500); otherwise the flag and the present flags are unchanged and nothing is stored |
| ComConsole.SetVar | usr/src/boot/sys/boot/efi/loader/comconsole.c:434-503 | a hook stores its variable with the given value exactly when it returns CMD_OK |
| BootFb.CopyAt | usr/src/uts/i86pc/boot/boot_fb.c:192-200 | a memcpy into the frame buffer writes the line at its offset and nothing else |
| BootFb.StampLine | usr/src/uts/i86pc/boot/boot_fb.c:192-200 | after a row-by-row copy, each line of the rectangle holds its row, and other bytes are unchanged |
| BootFb.LineCopyIsStamp | usr/src/uts/i86pc/boot/boot_fb.c:260-265 | a forward line copy whose source lies below its target writes the lines as they were before the copy |
| BootFb.CopyCommute | usr/src/uts/i86pc/boot/boot_fb.c:192-200 | two memcpys to disjoint places commute |
| BootFb.StampTwice | usr/src/uts/i86pc/boot/boot_fb.c:387-394 | drawing a rectangle over one of the same shape hides it completely |
| BootFb.StampSelf | usr/src/uts/i86pc/boot/boot_fb.c:308-325 | writing back the lines already there changes nothing |
| BootFb.BlankScreen | usr/src/uts/i86pc/boot/boot_fb.c:149-154 | clearing every scan line leaves only zero bytes |
| BootFb.InvertRow | usr/src/uts/i86pc/boot/boot_fb.c:302-304 | 0xFF ^ b is 255 - b on each byte |
| BootFb.InvertTwice | usr/src/uts/i86pc/boot/boot_fb.c:302-304 | inverting twice gives the saved area back |
| BootFb.NewLine | usr/src/uts/i86pc/boot/boot_fb.c:328-340 | set_cursor_row goes to x 0 on the next row, or stays on the last row, and keeps y on the screen |
| BootFb.Next | usr/src/uts/i86pc/boot/boot_fb.c:356-399 | '\r' goes to column 0, '\b' steps back unless at column 0, and a printable character advances one column; the cursor stays on the terminal |
| BootFb.WalkInside | usr/src/uts/i86pc/boot/boot_fb.c:328-353 | whatever is written, the cursor stays on a cell of the terminal |
| BootFb.WalkAlongRow | usr/src/uts/i86pc/boot/boot_fb.c:343-353 | characters that fit on the row move the cursor right by their number |
| BootFb.FullRow | usr/src/uts/i86pc/boot/boot_fb.c:343-353 | a full row of characters from column 0 wraps to the next row, or scrolls on the last |
| BootFb.WalkSplit | usr/src/uts/i86pc/boot/boot_fb.c:356-399 | the cursor after s + t is the cursor after t from the cursor after s |
| BootFb.Centre | usr/src/uts/i86pc/boot/boot_fb.c:136-139 | the centring offset leaves margins that differ by at most one |
| BootFb.BlockCursor.Home | usr/src/uts/i86pc/boot/boot_fb.c:142-146 | the cursor is at the window's first cell with its origin, visible |
| BootFb.FbInfo.constructor | usr/src/uts/i86pc/boot/boot_fb.c:58-63 | the frame buffer description starts zeroed, with no memory mapped |
| BootFb.BlockCursor.constructor | usr/src/uts/i86pc/boot/boot_fb.c:58-63 | the cursor starts hidden at the origin with nothing saved |
| BootFb.FbInfo.CopyLine | usr/src/uts/i86pc/boot/boot_fb.c:195-199 | one memcpy of a scan line into the frame buffer, and nothing else changes |
| BootFb.FbInfo.BlitPixels | usr/src/uts/i86pc/boot/boot_fb.c:168-201 | after a blit, each byte inside the rectangle is the data's, and every other byte is as before |
| BootFb.FbInfo.Blit | usr/src/uts/i86pc/boot/boot_fb.c:168-201 | boot_fb_blit writes nothing unless the rectangle lies entirely on the screen, and then exactly its scan lines |
| BootFb.FbInfo.ScrollHeight | usr/src/uts/i86pc/boot/boot_fb.c:240-259 | the moved height runs from the second row to the bottom margin |
| BootFb.FbInfo.ScrollWidth | usr/src/uts/i86pc/boot/boot_fb.c:240-259 | the moved width runs from the origin's column to the right margin, within the pitch |
| BootFb.FbInfo.MovedPixels | usr/src/uts/i86pc/boot/boot_fb.c:258-265 | inside the moved area each byte comes from one character row lower |
| BootFb.FbInfo.ClearedPixels | usr/src/uts/i86pc/boot/boot_fb.c:268-277 | the last line is zero after the clean-up, and everything else is as before |
| BootFb.FbInfo.ScrollPixels | usr/src/uts/i86pc/boot/boot_fb.c:231-278 | after a scroll the last row is blank, the rows above show what was one row lower, and nothing else changes |
| BootFb.FbInfo.Scroll | usr/src/uts/i86pc/boot/boot_fb.c:231-278 | boot_fb_scroll, with exclusive end bounds, moves the window up and clears its last line |
| BootFb.FbInfo.MoveUp | usr/src/uts/i86pc/boot/boot_fb.c:258-265 | the copy loop moves the window's lines up by one row |
| BootFb.FbInfo.CopyLines | usr/src/uts/i86pc/boot/boot_fb.c:258-265 | copying lines up, from a source below the target, writes the source lines as they were before the copy |
| BootFb.FbInfo.PutLines | usr/src/uts/i86pc/boot/boot_fb.c:192-200 | the rows are written from the offset, one scan line every pitch bytes, and nothing else changes |
| BootFb.FbInfo.ClearLastLine | usr/src/uts/i86pc/boot/boot_fb.c:268-277 | the memset loop clears the last line |
| BootFb.FbInfo.ScrollExtentAsWritten | usr/src/uts/i86pc/boot/boot_fb.c:240-265 | with inclusive end bounds, the copy reads one extra scan line and one extra pixel |
| BootFb.FbInfo.ScrollOverreadAsWritten | usr/src/uts/i86pc/boot/boot_fb.c:240-265 | with no top margin, the as-written copy reads past the frame buffer |
| BootFb.FbInfo.CellOnScreen | usr/src/uts/i86pc/boot/boot_fb.c:140-146 | every character cell of the window lies on the screen, so a glyph blit is never refused |
| BootFb.FbInfo.CursorRestores | usr/src/uts/i86pc/boot/boot_fb.c:308-325 | drawing the cursor and then the saved area gives the screen back |
| BootFb.FbInfo.CursorCreate | usr/src/uts/i86pc/boot/boot_fb.c:287-305 | the area under the cursor is saved, and the cursor image is its inverse |
| BootFb.FbInfo.SaveLines | usr/src/uts/i86pc/boot/boot_fb.c:294-299 | the saved rows are exactly the lines of the screen under the cursor |
| BootFb.FbInfo.InvertLines | usr/src/uts/i86pc/boot/boot_fb.c:301-304 | the cursor image is the byte-wise inverse of the saved area |
| BootFb.FbInfo.Cursor | usr/src/uts/i86pc/boot/boot_fb.c:308-325 | showing saves the area and draws it inverted; hiding draws the saved area back |
| BootFb.FbInfo.SetCursorRow | usr/src/uts/i86pc/boot/boot_fb.c:328-340 | the cursor moves to x 0 on the next row, scrolling on the last row |
| BootFb.FbInfo.SetCursorCol | usr/src/uts/i86pc/boot/boot_fb.c:343-353 | the cursor moves one column on, wrapping to the next row at terminal.x |
| BootFb.FbInfo.Put | usr/src/uts/i86pc/boot/boot_fb.c:365-396 | '\n' and '\r' draw nothing, and a printable character is drawn at the cursor's cell |
| BootFb.FbInfo.Emit | usr/src/uts/i86pc/boot/boot_fb.c:365-396 | between the cursor switches, the cursor moves as Next says and the screen changes as Put says |
| BootFb.FbInfo.Draw | usr/src/uts/i86pc/boot/boot_fb.c:377-397 | for backspace and printing characters, the cursor moves as Next says and the glyph lands as Put says |
| BootFb.FbInfo.PutChar | usr/src/uts/i86pc/boot/boot_fb.c:356-399 | boot_fb_putchar writes the character with a visible cursor switched off first and drawn again at the new cell |
| BootFb.FbInfo.XbiFbInit | usr/src/uts/i86pc/boot/boot_fb.c:77-105 | xbi_fb_init fails, changing nothing, without an RGB framebuffer tag, and otherwise copies the geometry with bpp = bits >> 3 and the colour fields |
| BootFb.FbInfo.SetMode | usr/src/uts/i86pc/boot/boot_fb.c:88-93 | address, pitch, depth and screen size come from the tag |
| BootFb.FbInfo.SetColours | usr/src/uts/i86pc/boot/boot_fb.c:95-103 | the RGB field layout comes from the tag, and the screen is not inverted |
| BootFb.FbInfo.Init | usr/src/uts/i86pc/boot/boot_fb.c:126-164 | boot_fb_init centres the window, sets fb_size = x * y * bpp, shows the cursor at the first cell, and clears the screen when it is the console |
| BootFb.FbInfo.SetWindow | usr/src/uts/i86pc/boot/boot_fb.c:136-160 | the centred origin, the last line, and the cursor shown at the window's first cell |
| BootFb.FbInfo.SetTerminal | usr/src/uts/i86pc/boot/boot_fb.c:136-160 | the terminal and font sizes are set, the window is centred on the screen and the last line is precomputed; the cursor and memory are left to SetWindow |
| BootFb.FbInfo.ClearScreen | usr/src/uts/i86pc/boot/boot_fb.c:149-154 | every byte of the frame buffer is zero |
| EfiMain.Len16 | usr/src/boot/sys/boot/efi/loader/main.c:94-103 | strlen of a wide string is the index of its first NUL |
| EfiMain.BeforeNul | usr/src/boot/sys/boot/efi/loader/main.c:357 | the C string in a buffer is its bytes before the first NUL |
| EfiMain.Narrowed | usr/src/boot/sys/boot/efi/loader/main.c:94-103 | cpy16to8 copies at most len units, stopping at the NUL, each cut to its low byte, and terminates only when fewer than len were copied |
| EfiMain.NarrowedTerminated | usr/src/boot/sys/boot/efi/loader/main.c:94-103 | the copy holds a NUL exactly when the string is shorter than len |
| EfiMain.Cpy16To8 | usr/src/boot/sys/boot/efi/loader/main.c:94-103 | the loop writes exactly that prefix of dst and leaves the rest |
| EfiMain.Widened | usr/src/boot/sys/boot/efi/loader/main.c:84-92 | cpy8to16 as written copies min(strlen, 2 len) units and always adds the NUL |
| EfiMain.Cpy8To16 | usr/src/boot/sys/boot/efi/loader/main.c:84-92 | the loop writes exactly that prefix of dst and leaves the rest |
| EfiMain.WidenedFixed | usr/src/boot/sys/boot/efi/loader/main.c:79-82 | taking len as dst's size in bytes, at most len / 2 units, NUL included, are written |
| EfiMain.Cpy8To16Fixed | usr/src/boot/sys/boot/efi/loader/main.c:79-92 | the corrected loop writes exactly that prefix of dst |
| EfiMain.NarrowWiden | usr/src/boot/sys/boot/efi/loader/main.c:79-103 | a short string survives the corrected widening and the narrowing back |
| EfiMain.WvarOverrunAsWritten | usr/src/boot/sys/boot/efi/loader/main.c:1206-1223 | passing sizeof(wvar) lets a 200-character name need 201 units of a 128-unit buffer |
| EfiMain.WvarFitsFixed | usr/src/boot/sys/boot/efi/loader/main.c:1241-1258 | with len taken as bytes, wvar is never overrun, and short names copy the same |
| EfiMain.WcsCmp | usr/src/boot/sys/boot/efi/loader/main.c:467-476 | wcscmp's result is a difference of two 16-bit units |
| EfiMain.WcsCmpZeroIff | usr/src/boot/sys/boot/efi/loader/main.c:467-476 | wcscmp is 0 exactly when the strings agree up to their NULs |
| EfiMain.WcsCmpFirstDifference | usr/src/boot/sys/boot/efi/loader/main.c:467-476 | at the first differing unit, wcscmp is the difference of those units |
| EfiMain.WcsCmpAntisymmetric | usr/src/boot/sys/boot/efi/loader/main.c:467-476 | swapping the arguments negates the result |
| EfiMain.ArgAt | usr/src/boot/sys/boot/efi/loader/main.c:286-288 | argv[i][j] is readable exactly up to the argument's NUL, and only inside argv |
| EfiMain.FlagArgument | usr/src/boot/sys/boot/efi/loader/main.c:287-343 | a dash argument without S ORs exactly the bits of its letters, then moves to the next argument |
| EfiMain.FlagEnd | usr/src/boot/sys/boot/efi/loader/main.c:287-343 | at the argument's NUL, the scan continues with the next argument |
| EfiMain.KeyboardFlag | usr/src/boot/sys/boot/efi/loader/main.c:312-315 | 'P' sets SERIAL \| MULTIPLE only without a keyboard, and unknown letters add nothing |
| EfiMain.SettingArgument | usr/src/boot/sys/boot/efi/loader/main.c:344-358 | a non-dash argument that fits is put into the environment exactly when it has '=' after its first unit |
| EfiMain.DualConsoleExample | usr/src/boot/sys/boot/efi/loader/main.c:364-371 | "-Dh" selects both consoles, serial first: "ttya text" |
| EfiMain.BareSpeedAsWritten | usr/src/boot/sys/boot/efi/loader/main.c:323-332 | as written, "-S n" sets comconsole_speedspeed and then reads the number's third digit on as flags; one digit reads past its NUL |
| EfiMain.SpeedTypoExample | usr/src/boot/sys/boot/efi/loader/main.c:323-332 | "-S 115200" sets comconsole_speedspeed as written, and comconsole_speed repaired |
| EfiMain.ShortSpeedExample | usr/src/boot/sys/boot/efi/loader/main.c:323-332 | "-S 9" reads past the argument as written, and sets the speed repaired |
| EfiMain.LastSpeedAsWritten | usr/src/boot/sys/boot/efi/loader/main.c:323-327 | a bare -S as the last argument reads argv[argc] as written; repaired, it sets "115200" |
| EfiMain.LongSettingAsWritten | usr/src/boot/sys/boot/efi/loader/main.c:235-358 | a 128-unit setting stores its NUL at var[128] as written; repaired, it is dropped |
| EfiMain.LongSpeedAsWritten | usr/src/boot/sys/boot/efi/loader/main.c:235-337 | a 128-digit speed leaves var without a NUL, and setenv reads past it |
| EfiMain.CorrectedBareSpeed | usr/src/boot/sys/boot/efi/loader/main.c:322-338 | repaired, a bare -S followed by an argument sets comconsole_speed to it and resumes after it |
| EfiMain.LoopNeverFaults | usr/src/boot/sys/boot/efi/loader/main.c:286-359 | the repaired loop never reads or writes outside argv and var |
| EfiMain.MainNeverFaults | usr/src/boot/sys/boot/efi/loader/main.c:286-371 | the repaired argument loop and console choice never fault |
| EfiMain.ParseArgs | usr/src/boot/sys/boot/efi/loader/main.c:286-371 | main's loop over argv with its 128-byte var buffer gives the modelled flags, environment operations and fault |
| EfiMain.Letter | usr/src/boot/sys/boot/efi/loader/main.c:288-343 | one letter of the scan agrees with Flags, and when the scan goes on the remaining letters strictly decrease |
| EfiMain.ScanFlags | usr/src/boot/sys/boot/efi/loader/main.c:288-343 | the inner letter loop continues the argument loop exactly where its specification does |
| EfiMain.SpeedFlag | usr/src/boot/sys/boot/efi/loader/main.c:322-338 | the S case copies the speed from the rest of the argument or from the next one, and resumes as each variant does |
| EfiMain.CopySpeed | usr/src/boot/sys/boot/efi/loader/main.c:329-337 | cpy16to8 into var followed by setenv gives the modelled speed setting |
| EfiMain.CString | usr/src/boot/sys/boot/efi/loader/main.c:357 | setenv reads var as the bytes before its NUL, and finds no string without one |
| EfiMain.ScanSetting | usr/src/boot/sys/boot/efi/loader/main.c:344-358 | the copy loop with its '=' search gives the modelled setting branch |
| CType.Unsigned | usr/src/lib/libc/port/locale/tolower.c:24 | (unsigned)c keeps non-negative ints and adds 2^32 to negative ones |
| CType.GuardAdmitsUnsignedChars | usr/src/lib/libc/port/locale/tolower.c:24 | the guard (unsigned)c > 255 lets through exactly 0..255, so the table is never indexed outside it |
| CType.ToLower | usr/src/lib/libc/port/locale/tolower.c:21-25 | tolower is the table entry for 0..255, and c itself for c < 0 (EOF included) or c > 255 |
| CType.ToUpper | usr/src/lib/libc/port/locale/tolower.c:27-31 | toupper is the same with the upper-case table |
| CType.EofUnchanged | usr/src/lib/libc/port/locale/tolower.c:21-31 | EOF passes through both unchanged, whatever the locale |
| CType.ToLowerIdempotent | usr/src/lib/libc/port/locale/tolower.c:21-25 | with a table whose entries are its own fixed points, tolower is idempotent |
| CType.CaseRoundTrip | usr/src/lib/libc/port/locale/tolower.c:21-31 | upper after lower gives back a letter the two tables map to each other |

## Left out

- Firmware services are not modelled. GetMemoryMap, AllocatePages, ExitBootServices, OpenProtocol, and the serial Reset, SetAttributes, Read and Write calls become boolean or value inputs.
- `efimemmap_size`'s retry loop (multiboot2.c:462-492) is not modelled. Its result is an input (`mapEstimate`).
- The EFI_MMAP tag's firmware calls are not modelled (multiboot2.c:852-919), including the 32-bit-shift descriptor workaround. Two booleans and the map stand for GetMemoryMap's answers.
- The trampoline, the scratch page and the jump into the kernel (multiboot2.c:935-997, except the chunk list) are not modelled: they copy machine code and hand off control.
- The non-EFI paths of `multiboot2_exec` and `mbi_size` are not modelled: BASIC_MEMINFO, BOOTDEV and network tags, and the BIOS MBI placement at multiboot2.c:623-627.
- File I/O in `multiboot2_loadfile` and `multiboot2_exec` is not modelled (open, read, lseek, `arch_readin`, `file_loadraw`). The 32 KiB search buffer and the I/O results are inputs.
- `malloc` and `strdup` failures are boolean inputs, and `getenv` is a map from names to values.
- Relocator.CopyFinish: runs for at most `fuel` passes, because the loop as written need not terminate (finding F2). Exiting within the fuel is reported, not assumed.
- ComConsole.StrToL: models only the parts of `strtol` that `comc_parse_mode` relies on: base 0, saturation to long, and the end pointer. It does not model errno or locales.
- The `howto_names` loop in `main` (main.c:361-363) is not modelled. Its table lives in sys/reboot.h, which is not part of this model, so the flag bits are modelled but not their environment names.
- The interactive commands, pager output, keyboard detection, device probing and chain loading in `main.c` are not modelled.
- Glyph rendering (`bit_to_pix` and `set_font`) is not modelled. A character's rendered glyph and the chosen font size are inputs.
- The shadow frame buffer in `boot_fb.c` is not modelled: only the visible frame buffer is.
- BootFb.FbInfo.Scroll: models the copy with exclusive end bounds (finding F10). The as-written extent is stated separately by BootFb.FbInfo.ScrollExtentAsWritten.
- BootFb.FbInfo.ScrollHeight: the moved height is e_row - s_row, without the + 1 of boot_fb.c:259 (the exclusive bounds of finding F10).
- BootFb.FbInfo.ScrollWidth: the moved width is (e_col - s_col) * bpp, without the + 1 of boot_fb.c:258 (finding F10).
- BootFb.FbInfo.MovedPixels: states the copy with the exclusive bounds of finding F10, not the as-written one scan line and one pixel more.
- BootFb.FbInfo.ScrollPixels: states the scroll with the exclusive bounds of finding F10.
- BootFb.FbInfo.MoveUp: moves the window with the exclusive bounds of finding F10.
- BootFb.FbInfo.CopyLines: copies the lines of the exclusive-bound window of finding F10.
- MB2_NEXT_TAG's header (multiboot2_impl.h) is not part of this model. It is assumed to give NULL after the END tag and otherwise the next 8-byte boundary after the tag's size.
- struct efi_fb is not part of this model. The framebuffer tag's address, geometry and channel masks are inputs.
- Mb2Reader.MmapGetBase, Mb2Reader.MmapGetLength, Mb2Reader.MmapGetType: like the source, these read entries[index] unchecked, so their callers must keep index in range.
- Mb2Reader.MmapEntries: like the source (dboot_multiboot2.c:282-294), it divides by the tag's entry_size unchecked, so it requires a non-zero entry_size; a tag with entry_size 0 is not modelled.
- Mb2Writer.Image, Mb2Writer.WriteInfo: the MBI pages are taken to start zeroed. AllocatePages does not clear memory, so in the source the padding bytes between tags are unspecified; the tags, total_size and reserved word are as stated.
- Mb2Info.Room: counts the MBI pages from the estimate as an unbounded number. mbi_size sums in an int and efi_loadaddr rounds in an int (finding F11), so an estimate of INT_MAX - 4095 bytes or more is not modelled as the smaller allocation the source would make.

## Findings

| source | as written | input that shows it | evidently intended | confidence | as-written member | corrected member |
|---|---|---|---|---|---|---|
| F1: usr/src/boot/sys/boot/common/multiboot2.c:776-781 | the old-ACPI tag is sized 8 + rsdp->Length, while mbi_size charges 8 + sizeof (ACPI_RSDP_COMMON) (20) at 548-551 and only 20 bytes are copied | a revision-0 RSDP whose bytes 20..23 read 36, and an estimate that fills one page exactly (`Mb2InfoFindings.OldAcpiInputs`) | size the tag 8 + 20, as estimated and as copied | not executed | Mb2InfoFindings.OldAcpiOverrun | Mb2InfoFindings.OldAcpiCorrected, Mb2Info.CorrectedNeverOverruns |
| F2: usr/src/boot/sys/boot/efi/loader/copy.c:171-191 | after a move, the scan goes on from a blocked chunk to the next one; a chunk already in place has no conflict, is "moved" onto itself, and the loop restarts at the same blocked head | chunks A (20→0, 4), B (30→10, 4), C (36→2, 2): A waits for C, and C is never reached (`RelocatorFindings.LivelockList`) | skip chunks already in place, and move any unblocked chunk | not executed | RelocatorFindings.LivelockAsWritten | RelocatorFindings.CopyFinishFixed, RelocatorFindings.LivelockFixedRanked |
| F3: usr/src/boot/sys/boot/efi/loader/copy.c:177-180 | the conflict test only looks at the two ends of a waiting chunk's staged bytes, so a chunk that strictly contains the destination is missed | A (20→10, 2) and B (8→30, 8): A is moved into B's staged bytes before B moves (`RelocatorFindings.ContainmentList`) | block on any overlap of the destination | not executed | RelocatorFindings.ContainmentAsWritten | RelocatorFindings.CopyFinishFixed |
| F4: usr/src/boot/sys/boot/efi/loader/main.c:344-358 | the copy into var[128] stops at j == sizeof (var), so a 128-unit setting stores its NUL at var[128]; a 128-digit speed via cpy16to8 leaves var unterminated | `LONG_SETTING` and `LONG_SPEED` in `EfiMain` | stop one unit earlier and keep var terminated | not executed | EfiMain.LongSettingAsWritten, EfiMain.LongSpeedAsWritten | EfiMain.MainNeverFaults |
| F5: usr/src/boot/sys/boot/efi/loader/main.c:84-92 | callers pass dst's size in bytes (sizeof (wvar) = 256 at 1206 and 1223, as the comment at 79-82 describes), and `len <<= 1` doubles it to 512 units, four times wvar's 128-unit capacity | a 200-character variable name into wvar[128] | len is dst's size in bytes: at most len / 2 units, NUL included | not executed | EfiMain.WvarOverrunAsWritten | EfiMain.WvarFitsFixed, EfiMain.Cpy8To16Fixed |
| F6: usr/src/boot/sys/boot/common/multiboot2.c:325-329, 369-376 | the allocation adds a fixed 12 or 13 bytes for ",ttyX-mode=\"\"", which assumes a 4-character tty name | os_console=ttyab with $ttyab-mod set (`Mb2Cmdline.OverflowAsWritten`) | size the term for the console name printed | not executed | Mb2Cmdline.OverflowAsWritten | Mb2Cmdline.UpdateFixedAllocation |
| F7: usr/src/boot/sys/boot/efi/loader/main.c:329 | a bare -S followed by an argument sets the variable "comconsole_speedspeed" | loader -S 115200 | set comconsole_speed | not executed | EfiMain.SpeedTypoExample, EfiMain.BareSpeedAsWritten | EfiMain.CorrectedBareSpeed |
| F8: usr/src/boot/sys/boot/efi/loader/main.c:323-338 | the breaks leave only the switch, so after consuming argv[i+1] the letter scan continues inside it from index 2; with a bare -S last it reads argv[argc] | loader -S 9, and loader -S | resume with the argument after the speed | not executed | EfiMain.ShortSpeedExample, EfiMain.LastSpeedAsWritten | EfiMain.CorrectedBareSpeed, EfiMain.MainNeverFaults |
| F9: usr/src/boot/sys/boot/common/multiboot2.c:184-186 | the header tag walk advances by roundup(size, 8) with no check of size, so a tag of size 0 is visited forever | a module-align header tag with size 0 (`Mb2Header.ZeroSizeLoops`) | reject a tag smaller than its own header | not executed | Mb2Header.ZeroSizeLoops | Mb2Header.WalkCheckedEnds |
| F10: usr/src/uts/i86pc/boot/boot_fb.c:258-265 | e_row and e_col are used as inclusive bounds, so the copy moves one scan line and one pixel more than the window | a font whose rows fill the screen's height (no top margin) | exclusive bounds | not executed | BootFb.FbInfo.ScrollOverreadAsWritten | BootFb.FbInfo.Scroll, BootFb.FbInfo.ScrollPixels |
| F11: usr/src/boot/sys/boot/efi/loader/copy.c:56-73 | size is an int, so st.st_size is truncated and roundup2(size, EFI_PAGE_SIZE) overflows for sizes from 2^31 - 4095; the negative result, shifted and converted to uint64_t, asks for about 2^64 pages | a kernel or module file of INT_MAX bytes (`EfiLoadAddr.PagesOverflowAsWritten`) | compute the page count from the unsigned 64-bit size | not executed | EfiLoadAddr.PagesOverflowAsWritten, EfiLoadAddr.PagesOf | EfiLoadAddr.PagesFor |
