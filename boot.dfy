/** The boot orchestration of source/main.c: the two dump handlers
    (154-168), the key-generation inspector (182-211) and the part of
    `ipl_main` that mounts the card, resolves the session configuration,
    greys out the EmuNAND entry and labels the menu (226-254). Key dumping
    itself is opaque and is counted, not modelled. */
module Boot {
  import opened Base
  import opened Menu
  import opened Labels
  import opened Alloc
  import opened Sd

  /** `b_cfg.boot_cfg`: this boot follows a sept run. */
  const BOOT_CFG_SEPT_RUN: bv8 := 0x80
  /** `b_cfg.extra_cfg`: dump from the emulated NAND. */
  const EXTRA_CFG_DUMP_EMUMMC: bv8 := 0x20
  /** Bit position of `EXTRA_CFG_DUMP_EMUMMC`. */
  const DUMP_EMUMMC_BIT: nat := 5

  const NX_EMMC_BLOCKSIZE: nat := 0x200

  /** One eMMC block, as a block read delivers it. */
  type Block = b: seq<Byte> | |b| == 0x200 witness seq(0x200, _ => 0)

  /** Bit `k` of a flag byte. */
  predicate Bit(x: bv8, k: nat)
    requires k < 8
  {
    (x >> k) & 1 == 1
  }

  predicate HasFlag(x: bv8, mask: bv8)
  {
    x & mask != 0
  }

  /** Clearing and setting `EXTRA_CFG_DUMP_EMUMMC` touch that bit and no
      other. */
  lemma DumpFlagEdits(x: bv8)
    ensures forall k: nat :: k < 8 ==>
      (Bit(x & !EXTRA_CFG_DUMP_EMUMMC, k) <==> Bit(x, k) && k != DUMP_EMUMMC_BIT)
    ensures forall k: nat :: k < 8 ==>
      (Bit(x | EXTRA_CFG_DUMP_EMUMMC, k) <==> Bit(x, k) || k == DUMP_EMUMMC_BIT)
  {
    forall k: nat | k < 8
      ensures Bit(x & !EXTRA_CFG_DUMP_EMUMMC, k) <==> Bit(x, k) && k != DUMP_EMUMMC_BIT
      ensures Bit(x | EXTRA_CFG_DUMP_EMUMMC, k) <==> Bit(x, k) || k == DUMP_EMUMMC_BIT
    {
      if k == 0 {} else if k == 1 {} else if k == 2 {} else if k == 3 {}
      else if k == 4 {} else if k == 5 {} else if k == 6 {} else {}
    }
  }

  /** The two dump captions of `ment_top` put their "unk" at column 36 and
      are 39 characters long, so a recognised generation below 1000 takes
      exactly the place of "unk"; a larger one would run past the string. */
  lemma DumpCaptionsFit(i: nat, kb: nat)
    requires i < 2
    ensures |MENT_TOP[i].caption| == LABEL_OFFSET + LABEL_WIDTH
    ensures MENT_TOP[i].caption[LABEL_OFFSET..] == "unk"
    ensures |Labelled(MENT_TOP[i].caption, Some(kb))| == |MENT_TOP[i].caption| <==> kb < 1000
    ensures Labelled(MENT_TOP[i].caption, Some(kb))[..LABEL_OFFSET] == MENT_TOP[i].caption[..LABEL_OFFSET]
  {
  }

  /** What `pkg1` holds when `pkg1_identify` looks at the SysNAND copy: the
      block read, or, when the read fails, the bytes `malloc` left there. */
  function SysnandBuffer(read: Option<Block>, stale: Block): Block
  {
    if read.Some? then read.value else stale
  }

  /** What `pkg1` holds for the EmuNAND copy: it is zeroed before the read. */
  function EmunandBuffer(read: Option<Block>): Block
  {
    if read.Some? then read.value else Zeros(NX_EMMC_BLOCKSIZE)
  }

  /** The loader's globals: `h_cfg.emummc_force_disable`, `b_cfg`,
      `emu_cfg.enabled`, the menu table, and how often `dump_keys` ran. */
  class Context {
    var emummcForceDisable: bool
    var bootCfg: bv8
    var extraCfg: bv8
    var emuEnabled: int
    var keyDumps: nat
    const menu: array<Entry>

    ghost predicate Valid()
      reads this, menu
    {
      menu.Length == |MENT_TOP|
      && |menu[0].caption| >= LABEL_OFFSET && |menu[1].caption| >= LABEL_OFFSET
    }

    /** The state at entry: `b_cfg` as the previous stage left it in the
        persisted region, the menu as loaded, nothing dumped yet. */
    constructor (bootCfg: bv8, extraCfg: bv8)
      ensures Valid() && fresh(menu) && menu[..] == MENT_TOP
      ensures this.bootCfg == bootCfg && this.extraCfg == extraCfg
      ensures !emummcForceDisable && emuEnabled == 0 && keyDumps == 0
    {
      this.bootCfg, this.extraCfg := bootCfg, extraCfg;
      emummcForceDisable, emuEnabled, keyDumps := false, 0, 0;
      menu := new Entry[7] [MENT_TOP[0], MENT_TOP[1], MENT_TOP[2], MENT_TOP[3],
                            MENT_TOP[4], MENT_TOP[5], MENT_TOP[6]];
    }

    /** `dump_sysnand` (source/main.c:154-159). */
    method DumpSysnand()
      requires Valid()
      modifies this
      ensures Valid()
      ensures emummcForceDisable
      ensures extraCfg == old(extraCfg) & !EXTRA_CFG_DUMP_EMUMMC
      ensures !HasFlag(extraCfg, EXTRA_CFG_DUMP_EMUMMC)
      ensures keyDumps == old(keyDumps) + 1
      ensures bootCfg == old(bootCfg) && emuEnabled == old(emuEnabled)
    {
      emummcForceDisable := true;
      extraCfg := extraCfg & !EXTRA_CFG_DUMP_EMUMMC;
      keyDumps := keyDumps + 1;  // dump_keys()
    }

    /** `dump_emunand` (source/main.c:161-168): nothing at all when EmuNAND
        is disabled for the session. */
    method DumpEmunand()
      requires Valid()
      modifies this
      ensures Valid()
      ensures old(emummcForceDisable) ==> unchanged(this)
      ensures !old(emummcForceDisable) ==>
        && emuEnabled == 1
        && extraCfg == old(extraCfg) | EXTRA_CFG_DUMP_EMUMMC
        && keyDumps == old(keyDumps) + 1
        && !emummcForceDisable && bootCfg == old(bootCfg)
    {
      if emummcForceDisable {
        return;
      }
      emuEnabled := 1;
      extraCfg := extraCfg | EXTRA_CFG_DUMP_EMUMMC;
      keyDumps := keyDumps + 1;  // dump_keys()
    }

    /** Lines 238-252 of `ipl_main`. `loadCfg` is what `emummc_load_cfg`
        returns. After a sept run the keys are dumped once, and EmuNAND is
        disabled unless the persisted flags ask to dump from it; a disabled
        EmuNAND greys out menu entry 1 and leaves every other entry alone. */
    method ResolveStartup(loadCfg: bool)
      requires Valid()
      modifies this, menu
      ensures Valid()
      ensures emummcForceDisable ==
        (loadCfg || (HasFlag(bootCfg, BOOT_CFG_SEPT_RUN) && !HasFlag(extraCfg, EXTRA_CFG_DUMP_EMUMMC)))
      ensures keyDumps == old(keyDumps) + if HasFlag(bootCfg, BOOT_CFG_SEPT_RUN) then 1 else 0
      ensures bootCfg == old(bootCfg) && extraCfg == old(extraCfg) && emuEnabled == old(emuEnabled)
      ensures menu[1] == if emummcForceDisable then Disabled(old(menu[1])) else old(menu[1])
      ensures forall i :: 0 <= i < menu.Length && i != 1 ==> menu[i] == old(menu[i])
    {
      emummcForceDisable := loadCfg;
      if bootCfg & BOOT_CFG_SEPT_RUN != 0 {
        if extraCfg & EXTRA_CFG_DUMP_EMUMMC == 0 {
          emummcForceDisable := true;
        }
        keyDumps := keyDumps + 1;  // dump_keys()
      }
      if emummcForceDisable {
        menu[1] := Disabled(menu[1]);
      }
    }

    /** `_get_key_generations(sysnand_label, emunand_label)` (source/main.c:182-211).
        `sysRead` and `emuRead` are the block at byte 0x100000 of BOOT0 as each
        backend reads it, `None` when the read fails (the init and read
        statuses are not checked), `stale` what `malloc` leaves in `pkg1`, and
        `identify` is `pkg1_identify`, giving the key generation `kb` of a
        recognised package1. The `pkg1` buffer is freed on both paths. */
    method GetKeyGenerations(heap: Heap, sysnandLabel: string, emunandLabel: string,
                             identify: Block -> Option<nat>,
                             sysRead: Option<Block>, emuRead: Option<Block>, stale: Block)
      requires Valid() && heap.Valid()
      requires |sysnandLabel| >= LABEL_OFFSET
      requires !emummcForceDisable ==> |emunandLabel| >= LABEL_OFFSET
      modifies menu, heap
      ensures Valid() && heap.Valid()
      ensures heap.blocks == old(heap.blocks)
      ensures menu[0] == old(menu[0]).(caption := Labelled(sysnandLabel, identify(SysnandBuffer(sysRead, stale))))
      ensures menu[1] == if emummcForceDisable then old(menu[1])
        else old(menu[1]).(caption := Labelled(emunandLabel, identify(EmunandBuffer(emuRead))))
      ensures forall i :: 2 <= i < menu.Length ==> menu[i] == old(menu[i])
    {
      ghost var before := heap.blocks;
      var pkg1 := heap.Malloc(stale);
      // sdmmc_storage_init_mmc, set partition 1 (BOOT0), read, identify, end
      var id := ReadPkg1(heap, pkg1, identify, sysRead);
      assert heap.blocks == before[pkg1 := SysnandBuffer(sysRead, stale)];
      var sysnand := Labelled(sysnandLabel, id);
      menu[0] := menu[0].(caption := sysnand);
      if emummcForceDisable {
        FreeUndoesMalloc(before, pkg1, SysnandBuffer(sysRead, stale));
        heap.Free(pkg1);
        return;
      }

      heap.Fill(pkg1, Zeros(NX_EMMC_BLOCKSIZE));
      // emummc_storage_init_mmc, set partition 1, read, identify, end
      id := ReadPkg1(heap, pkg1, identify, emuRead);
      assert heap.blocks == before[pkg1 := EmunandBuffer(emuRead)];
      var emunand := Labelled(emunandLabel, id);
      FreeUndoesMalloc(before, pkg1, EmunandBuffer(emuRead));
      heap.Free(pkg1);
      menu[1] := menu[1].(caption := emunand);
    }
  }

  /** One backend's part of the inspector: read the package1 block into
      `pkg1` (a failed read leaves it as it was) and classify it. */
  method ReadPkg1(heap: Heap, pkg1: Ptr, identify: Block -> Option<nat>, read: Option<Block>)
    returns (id: Option<nat>)
    requires heap.Valid() && pkg1 in heap.blocks && |heap.blocks[pkg1]| == NX_EMMC_BLOCKSIZE
    modifies heap
    ensures heap.Valid() && pkg1 in heap.blocks
    ensures heap.blocks == old(heap.blocks)[pkg1 := if read.Some? then read.value else old(heap.blocks[pkg1])]
    ensures id == identify(heap.blocks[pkg1])
  {
    if read.Some? {
      heap.Fill(pkg1, read.value);
    }
    id := identify(heap.blocks[pkg1]);
  }

  /** `ipl_main` from the card mount to the first menu (source/main.c:226-254),
      without the hardware bring-up. `initOk` and `fres` answer the mount,
      `loadCfg` is what `emummc_load_cfg` returns, and the rest feed the
      inspector, which labels the two dump entries with their own captions. */
  method IplMain(sd: SdCard, ctx: Context, heap: Heap, initOk: bool, fres: FResult, loadCfg: bool,
                 identify: Block -> Option<nat>, sysRead: Option<Block>, emuRead: Option<Block>, stale: Block)
    requires sd.Valid() && ctx.Valid() && heap.Valid()
    modifies sd, ctx, ctx.menu, heap
    ensures sd.Valid() && ctx.Valid() && heap.Valid()
    ensures sd.State() == MountStep(old(sd.State()), initOk, fres).state
    ensures heap.blocks == old(heap.blocks)
    ensures ctx.keyDumps == old(ctx.keyDumps) + if HasFlag(ctx.bootCfg, BOOT_CFG_SEPT_RUN) then 1 else 0
    ensures ctx.emummcForceDisable ==
      (loadCfg || (HasFlag(ctx.bootCfg, BOOT_CFG_SEPT_RUN) && !HasFlag(ctx.extraCfg, EXTRA_CFG_DUMP_EMUMMC)))
    ensures ctx.bootCfg == old(ctx.bootCfg) && ctx.extraCfg == old(ctx.extraCfg)
    ensures ctx.emuEnabled == old(ctx.emuEnabled) && sd.files == old(sd.files)
    ensures ctx.menu[0] == old(ctx.menu[0]).(caption :=
      Labelled(old(ctx.menu[0].caption), identify(SysnandBuffer(sysRead, stale))))
    ensures ctx.menu[1] == if ctx.emummcForceDisable then Disabled(old(ctx.menu[1]))
      else old(ctx.menu[1]).(caption := Labelled(old(ctx.menu[1].caption), identify(EmunandBuffer(emuRead))))
    ensures forall i :: 2 <= i < ctx.menu.Length ==> ctx.menu[i] == old(ctx.menu[i])
  {
    var _ := sd.Mount(initOk, fres);
    ctx.ResolveStartup(loadCfg);
    ctx.GetKeyGenerations(heap, ctx.menu[0].caption, ctx.menu[1].caption, identify, sysRead, emuRead, stale);
  }
}
