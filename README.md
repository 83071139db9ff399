# Lockpick_RCM boot core in Dafny

A model of the sequential logic in `source/main.c` of Lockpick_RCM, a bare-metal
payload for the Nintendo Switch's boot processor. The model covers the
following parts:

- **SD card layer** (`sd.dfy`). The `sd_mounted` flag and its two fallible
  steps, controller init and `f_mount`. Whole-file read into a freshly
  allocated buffer (`sd_file_read`) and whole-file write (`sd_save_to_file`).
  The files live in a file table, and allocations live in a heap (`alloc.dfy`).
- **Relocation patcher** (`reloc.dfy`). `reloc_patcher` runs over the 32-bit
  physical address space, modelled as an `array` of 2^32 bytes. The method
  is proved equal to a byte-wise specification (`Patched`). Lemmas about that
  specification state the following:
  - the four metadata words read back;
  - the rest of the stub is the loader's header;
  - the bootblock and the magic control word are written exactly on a coreboot
    hand-off;
  - nothing else changes.
- **Menu and session flags** (`menu.dfy`, `boot.dfy`). The `ment_top` table is
  an array of `ment_t` records. The model covers:
  - the `dump_sysnand` and `dump_emunand` handlers over `h_cfg`, `b_cfg` and
    `emu_cfg`;
  - the startup resolution in `ipl_main`, which force-disables EmuNAND and
    greys out its menu entry;
  - the key-generation inspector `_get_key_generations`. It writes the
    package1 key generation into the two dump captions with `"% 3d"`
    (`labels.dfy`).

Drivers and FatFs are not modelled. Each of their answers (init success,
`FRESULT`s, block contents, `pkg1_identify`, `emummc_load_cfg`) is a parameter
supplied by the caller. `dump_keys` is modelled as a counter.

Behaviour of the code worth noting:

- **Startup force-disable.** `emummc_force_disable` is forced on only inside
  the `BOOT_CFG_SEPT_RUN` branch (source/main.c:240-245). Otherwise it keeps
  the `emummc_load_cfg` result.
- **Inspector failures.** `_get_key_generations` checks neither the
  controller init nor the block read. A caption is therefore left unchanged
  only when `pkg1_identify` does not recognise the buffer.
  - When the SysNAND read fails, the buffer still holds whatever `malloc`
    returned (`SysnandBuffer`).
  - The EmuNAND buffer is zeroed first (`EmunandBuffer`).
  - An unrecognised package leaves the "unk" caption as it was.
- **Write failures.** `sd_save_to_file` ignores the status of `f_write` and
  returns 0 once the open succeeded. A failed or short write is not reported.
- **Controller teardown.** After a failed `f_mount` the SD controller stays
  initialised. A later `sd_unmount` does nothing, because the flag is clear.

## Model

| member | source | states |
|---|---|---|
| Sd.SdCard.Mount | source/main.c:49-74 | The new mount state and the result are exactly `MountStep` of the old state and the two driver answers; files are untouched |
| Sd.MountWhenMounted | source/main.c:51-52 | On a mounted card `sd_mount` returns true and changes nothing, whatever the drivers would answer |
| Sd.MountOutcome | source/main.c:54-73 | From unmounted, the result is true iff init and `f_mount` both succeed, the flag equals the result, and a failed init changes nothing |
| Sd.MountIdempotent | source/main.c:49-74 | A second `sd_mount` with the same driver answers returns the same result and leaves the same state |
| Sd.SdCard.Unmount | source/main.c:76-84 | The new state is `UnmountStep` of the old: a mounted card ends the controller and clears the flag, otherwise nothing changes |
| Sd.UnmountIdempotent | source/main.c:76-84 | `sd_unmount(); sd_unmount()` equals one `sd_unmount()` |
| Sd.UnmountWhenUnmounted | source/main.c:78 | Unmounting an unmounted card, including before any mount and after a failed `f_mount`, changes nothing |
| Sd.UnmountUndoesMount | source/main.c:49-84 | Unmount after a successful mount returns to the boot state |
| Sd.StepsKeepConsistent | source/main.c:41-84 | Both transitions keep "mounted implies controller initialised" |
| Sd.SdCard.FileRead | source/main.c:86-109 | Returns a buffer iff open and read succeed. On failure the heap is as before, so nothing leaks. On success a fresh block holds exactly the file. `*fsize` is set to the file size iff the open succeeded and `fsize` is non-null |
| Sd.SdCard.SaveToFile | source/main.c:111-126 | Returns the `f_open` status on failure and leaves the files unchanged. On success returns 0 and the file is replaced by the bytes written |
| Alloc.FreeUndoesMalloc | source/main.c:96-100 | Freeing a freshly allocated block restores the previous set of live allocations |
| Alloc.Heap.Malloc | source/main.c:96 | Returns a block no live allocation uses, holding uninitialised bytes |
| Alloc.Heap.Fill | source/main.c:201 | Overwrites exactly that live block with data of its own size, as `memset` and the block reads at lines 98, 188 and 203 do; every other block is unchanged |
| Alloc.Heap.Free | source/main.c:100 | Removes exactly that block from the live allocations |
| Reloc.AlignedHeaderSize | source/main.c:142 | `ALIGN(0x94, 0x10)` is 0xA0, the least multiple of 16 holding the 0x94-byte header |
| Reloc.MetaOrdered | source/main.c:142-145 | start = dst - 0xA0, stack = 0x40007000, end = dst + size, ep = dst (mod 2^32). `start < ep` iff `dst >= 0xA0`; `ep <= end` iff `dst + size < 2^32`; then `end - ep == size` |
| Reloc.LE32RoundTrip | source/main.c:142-145 | A little-endian `u32` store read back gives the stored word |
| Reloc.LE32Inverse | source/main.c:142-145 | Encoding the word read from four bytes gives back those bytes |
| Reloc.MemCopy | source/main.c:138 | `memcpy` sets exactly the destination range to the data and leaves every other byte alone |
| Reloc.StoreWord | source/main.c:150 | A `u32` store changes exactly four bytes to the word's encoding |
| Reloc.RelocPatcher | source/main.c:136-152 | Memory afterwards equals the byte-wise specification `Patched` of memory before |
| Reloc.PatchWritesMetadata | source/main.c:140-145 | The four metadata words at `src + 0x7C` read back as start, stack, end, ep |
| Reloc.PatchCopiesHeader | source/main.c:138 | The stub bytes outside the metadata equal the loader's header byte for byte |
| Reloc.PatchCopiesBootblockIff | source/main.c:147-149 | The bootblock lands at `src + 0xA0` iff size is 0x7000; otherwise those bytes are unchanged |
| Reloc.PatchSetsControlWordIff | source/main.c:147-151 | The control word at 0x4003E000 reads 0x4452414D iff size is 0x7000; otherwise it is unchanged |
| Reloc.PatchFrame | source/main.c:136-152 | No byte outside the stub, the bootblock and the control word changes |
| Menu.Disabled | source/main.c:247-252 | The downgraded entry keeps its caption and can no longer be selected |
| Labels.Decimal | source/main.c:193 | The `%d` digits of `kb`: non-empty, all digits, no leading zero, one digit iff `kb < 10` |
| Labels.DecimalRoundTrip | source/main.c:193 | Parsing the printed digits gives back the number |
| Labels.DecimalWidth | source/main.c:193 | The number fits three columns iff it is below 1000 |
| Labels.PadLeft | source/main.c:193 | The padded string has the field width (or the number's own length), ends with the digits and is spaces before them |
| Labels.TrimPadding | source/main.c:193 | Stripping the leading spaces of the padded field gives back the digits |
| Labels.Format3 | source/main.c:193 | What `"% 3d"` writes: at least three characters, exactly three iff `kb < 1000`, and `kb` once the padding spaces are stripped |
| Labels.InsertGeneration | source/main.c:193 | The first 36 characters are kept, the caption shows `kb` after column 36, and it is exactly 39 characters long iff `kb < 1000` |
| Labels.Labelled | source/main.c:192-194 | A caption changes only when the package is recognised; then it shows the generation and keeps its first 36 characters |
| Boot.DumpFlagEdits | source/main.c:157 | Clearing `EXTRA_CFG_DUMP_EMUMMC` clears bit 5 and no other bit. Setting it, as at line 166, sets bit 5 and no other |
| Boot.DumpCaptionsFit | source/main.c:170-172 | Both dump captions are 39 characters with "unk" at column 36. A generation replaces it without changing the length iff it is below 1000 |
| Boot.Context.DumpSysnand | source/main.c:154-159 | Force-disables EmuNAND, clears only the dump-EmuNAND flag, dumps keys once, touches nothing else |
| Boot.Context.DumpEmunand | source/main.c:161-168 | When EmuNAND is force-disabled, nothing changes. Otherwise it sets `emu_cfg.enabled` and the dump-EmuNAND flag and dumps keys once |
| Boot.Context.ResolveStartup | source/main.c:238-252 | The force-disable flag is the loaded config or (sept run and not dump-EmuNAND). Keys are dumped once iff sept ran. Entry 1 is downgraded iff force-disabled, and every other entry is unchanged |
| Boot.ReadPkg1 | source/main.c:187-189 | The buffer holds the block read, or keeps its contents when the read fails, and the result is `pkg1_identify` of the buffer |
| Boot.Context.GetKeyGenerations | source/main.c:182-211 | Entry 0 is relabelled from the SysNAND buffer. Entry 1 is relabelled from the zeroed-then-read EmuNAND buffer unless force-disabled, in which case it is untouched. Other entries are unchanged and the heap is as before, so `pkg1` is freed on both paths |
| Boot.IplMain | source/main.c:226-254 | The card is mounted per `MountStep`, the startup flags are resolved, and the menu ends downgraded and labelled as the three steps specify; the heap, the files, `emu_cfg.enabled` and `b_cfg` are unchanged |

## Left out

- Hardware bring-up (`config_hw`, `pivot_stack`, `heap_init`, `minerva_*`, `display_*`, `gfx_*`, `bpmp_clk_rate_set`, `bpmp_halt`): register and clock sequencing with no logic to state.
- `dump_keys` and the key derivation: not part of this model. It is counted as an event (`keyDumps`).
- SDMMC, emuMMC and FatFs drivers: foreign I/O. Their results are parameters. The driver sessions (`*_storage_init_mmc`, `set_mmc_partition`, `*_storage_end`) have no state in the model. The block read (byte 0x100000 of BOOT0) is not part of the model: the read result is the parameter.
- `pkg1_identify` internals: its signature table is not part of this model. It is an arbitrary function from a block to an optional generation.
- `tui_do_menu`, rendering, user input, `EPRINTF` messages, and the reboot and power-off handlers: UI and platform calls. Handlers appear only as names in the menu table.
- The `while (true)` loops after the menu: they do not terminate and hold no state.
- The `volatile` and MMIO meaning of the magic-word store: it is an ordinary memory store.
- `dump_keys` and `emummc_load_cfg` are assumed to return and to leave `h_cfg`, `b_cfg` and `emu_cfg` unchanged (apart from the value `emummc_load_cfg` returns), and to leave the SD mount state, the card's files and the heap unchanged. Their bodies are not part of this model, so the "unchanged" clauses of Boot.Context.DumpSysnand, Boot.Context.DumpEmunand, Boot.Context.ResolveStartup and Boot.IplMain rest on that.
- Labels.Format3: the firmware's own `sprintf` is not part of this model; it is taken to read `"% 3d"` as space fill to width 3 with unsigned digits (standard C would add a sign blank, giving " 100" for 100).
- `set_default_configuration`: its defaults are in a file that is not part of this model. The startup state is the constructor's parameters.
- The bit values of `BOOT_CFG_SEPT_RUN` (0x80), `EXTRA_CFG_DUMP_EMUMMC` (0x20) and the `COLOR_*` palette: they are defined in headers that are not part of this model. The colours are named constructors. Only the grey 0xFF555555 is a literal in main.c.
- Reloc.RelocPatcher: requires the stub (and, for a coreboot hand-off, the bootblock) to lie below 2^32. The source would wrap the `u32` address instead.
- Reloc.RelocPatcher: the header and bootblock are given as values. The model does not capture overlap between the staging region and `IPL_LOAD_ADDR` or `COREBOOT_ADDR`.
- Reloc.PatchWritesMetadata: assumes that on a coreboot hand-off the control word is not stored over the stub `[src, src + 0x94)`. The byte-wise specification `Patched` covers that case, where the later store wins.
- Reloc.PatchCopiesHeader: assumes that on a coreboot hand-off the control word is not stored over the stub `[src, src + 0x94)`; `Patched` covers that case.
- Reloc.PatchCopiesBootblockIff: assumes that on a coreboot hand-off the control word lies outside the staging region `[src, src + 0x70A0)`, padding included; `Patched` covers that case.
- Reloc.PatchSetsControlWordIff: for a call that is not a coreboot hand-off, assumes the stub is not copied over the control word.
- Sd.SdCard.FileRead: `f_read`'s byte count (passed as NULL in the source) and the case where `malloc` returns NULL are not modelled. A successful read delivers the whole file.
- Sd.SdCard.SaveToFile: how many bytes `f_write` stores is a parameter. Its status and `f_close` are ignored, as in the source.
- Labels.InsertGeneration: `sprintf` also writes a NUL after the digits. The model ends the caption there and does not model a write past the end of a 39-character literal when `kb >= 1000`. Boot.DumpCaptionsFit states when that would happen.
- Boot.Context.GetKeyGenerations: the captions are values stored back into the menu. The model does not capture that the source writes into the caption's own storage, which aliases the menu entry.
