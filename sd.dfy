/** The SD-card layer (source/main.c:41-126): one `sd_mounted` flag guarded by
    two fallible steps, and whole-file read and write over the FAT volume.
    The SDMMC controller and FatFs are not modelled; each call into them is an
    outcome supplied by the caller. */
module Sd {
  import opened Base
  import opened Alloc

  /** A FatFs `FRESULT`; 0 is `FR_OK`. */
  type FResult = nat

  const FR_OK: FResult := 0

  /** The mount state: the `sd_mounted` flag and whether the SD controller
      (`sd_storage`) has been initialised and not ended since. */
  datatype SdState = SdState(mounted: bool, controllerUp: bool)

  /** A mounted card always has a running controller. */
  predicate Consistent(s: SdState)
  {
    s.mounted ==> s.controllerUp
  }

  /** The state of a freshly loaded image: `sd_mounted` is zero-initialised. */
  const BOOT_STATE := SdState(false, false)

  datatype MountResult = MountResult(state: SdState, ok: bool)

  /** `sd_mount` as a state transition. `initOk` is what
      `sdmmc_storage_init_sd` returns and `fres` what `f_mount` returns. */
  function MountStep(s: SdState, initOk: bool, fres: FResult): MountResult
  {
    if s.mounted then MountResult(s, true)
    else if !initOk then MountResult(s, false)
    else if fres == FR_OK then MountResult(SdState(true, true), true)
    else MountResult(SdState(false, true), false)
  }

  /** `sd_unmount` as a state transition. */
  function UnmountStep(s: SdState): SdState
  {
    if s.mounted then SdState(false, false) else s
  }

  /** Mounting an already-mounted card succeeds and changes nothing, whatever
      the drivers would have answered. */
  lemma MountWhenMounted(s: SdState, initOk: bool, fres: FResult)
    requires s.mounted
    ensures MountStep(s, initOk, fres) == MountResult(s, true)
  {
  }

  /** From an unmounted state the flag is set exactly when both steps succeed,
      and the result reports the flag; a failure leaves the flag clear, and a
      failed controller init changes nothing at all. */
  lemma MountOutcome(s: SdState, initOk: bool, fres: FResult)
    requires !s.mounted
    ensures var r := MountStep(s, initOk, fres);
      && r.ok == (initOk && fres == FR_OK)
      && r.state.mounted == r.ok
      && (!initOk ==> r.state == s)
      && (initOk ==> r.state.controllerUp)
  {
  }

  /** `sd_mount(); sd_mount()` is one `sd_mount()` when the drivers answer
      the same way both times. */
  lemma MountIdempotent(s: SdState, initOk: bool, fres: FResult)
    ensures var r := MountStep(s, initOk, fres);
      MountStep(r.state, initOk, fres) == r
  {
  }

  /** `sd_unmount(); sd_unmount()` is one `sd_unmount()`. */
  lemma UnmountIdempotent(s: SdState)
    ensures UnmountStep(UnmountStep(s)) == UnmountStep(s)
  {
  }

  /** Unmounting what is not mounted is a no-op; in particular before any
      mount, and after a mount whose `f_mount` failed, which leaves the
      controller running. */
  lemma UnmountWhenUnmounted(s: SdState)
    requires !s.mounted
    ensures UnmountStep(s) == s
  {
  }

  /** Unmounting after a successful mount returns to the boot state. */
  lemma UnmountUndoesMount(s: SdState, initOk: bool, fres: FResult)
    requires !s.mounted && initOk && fres == FR_OK
    ensures UnmountStep(MountStep(s, initOk, fres).state) == BOOT_STATE
  {
  }

  /** Both transitions keep the state consistent. */
  lemma StepsKeepConsistent(s: SdState, initOk: bool, fres: FResult)
    requires Consistent(s)
    ensures Consistent(MountStep(s, initOk, fres).state)
    ensures Consistent(UnmountStep(s))
  {
  }

  /** The card: the globals `sd_mounted`, `sd_storage`, `sd_fs`, and the
      files on its FAT volume. */
  class SdCard {
    var mounted: bool
    var controllerUp: bool
    /** The volume's files by path. FAT32 bounds a file below 4 GiB. */
    var files: map<string, seq<Byte>>

    function State(): SdState
      reads this
    {
      SdState(mounted, controllerUp)
    }

    ghost predicate Valid()
      reads this
    {
      Consistent(State())
      && forall path :: path in files ==> |files[path]| < TWO_32
    }

    constructor (contents: map<string, seq<Byte>>)
      requires forall path :: path in contents ==> |contents[path]| < TWO_32
      ensures Valid() && State() == BOOT_STATE && files == contents
    {
      mounted, controllerUp := false, false;
      files := contents;
    }

    /** `sd_mount` (source/main.c:49-74). */
    method Mount(initOk: bool, fres: FResult) returns (ok: bool)
      requires Valid()
      modifies this
      ensures Valid() && files == old(files)
      ensures MountResult(State(), ok) == MountStep(old(State()), initOk, fres)
    {
      if mounted {
        return true;
      }
      if !initOk {
        // "Failed to init SD card."
        return false;
      }
      controllerUp := true;
      if fres == FR_OK {
        mounted := true;
        return true;
      }
      // "Failed to mount SD card (FatFS Error %d)."
      return false;
    }

    /** `sd_unmount` (source/main.c:76-84): `f_mount(NULL, ...)`, then
        `sdmmc_storage_end`, then the flag is cleared. */
    method Unmount()
      requires Valid()
      modifies this
      ensures Valid() && files == old(files)
      ensures State() == UnmountStep(old(State()))
    {
      if mounted {
        controllerUp := false;
        mounted := false;
      }
    }

    /** `sd_file_read(path, fsize)` (source/main.c:86-109). `openRes` and
        `readRes` are what `f_open` and `f_read` return; a read-only open
        finds only a file that exists. `fsize` is NULL (`None`) or holds the
        current value of `*fsize`; `fsizeOut` is its value afterwards. */
    method FileRead(heap: Heap, path: string, fsize: Option<U32>, openRes: FResult, readRes: FResult)
      returns (buf: Option<Ptr>, fsizeOut: Option<U32>)
      requires Valid() && heap.Valid()
      modifies heap
      ensures heap.Valid()
      ensures buf.Some? <==> openRes == FR_OK && path in files && readRes == FR_OK
      ensures buf.None? ==> heap.blocks == old(heap.blocks)
      ensures buf.Some? ==>
        buf.value !in old(heap.blocks) && heap.blocks == old(heap.blocks)[buf.value := files[path]]
      ensures fsizeOut ==
        if openRes == FR_OK && path in files && fsize.Some? then Some(|files[path]|) else fsize
    {
      fsizeOut := fsize;
      if openRes != FR_OK || path !in files {
        return None, fsizeOut;
      }
      var size: U32 := |files[path]|;
      if fsize.Some? {
        fsizeOut := Some(size);
      }
      // The contents malloc leaves are overwritten by the read or discarded.
      var p := heap.Malloc(Zeros(size));
      if readRes != FR_OK {
        heap.Free(p);
        return None, fsizeOut;
      }
      heap.Fill(p, files[path]);
      buf := Some(p);
    }

    /** `sd_save_to_file(buf, size, filename)` (source/main.c:111-126).
        `openRes` is what `f_open(..., FA_CREATE_ALWAYS | FA_WRITE)` returns
        and `written` how many bytes `f_write` stores; its status is ignored. */
    method SaveToFile(data: seq<Byte>, size: U32, filename: string, openRes: FResult, written: nat)
      returns (res: FResult)
      requires Valid() && size <= |data|
      modifies this
      ensures Valid() && State() == old(State())
      ensures res == openRes
      ensures openRes != FR_OK ==> files == old(files)
      ensures openRes == FR_OK ==>
        files == old(files)[filename := data[..if written < size then written else size]]
    {
      if openRes != FR_OK {
        // "Error (%d) creating file"
        return openRes;
      }
      // The file is created empty (or truncated), then written.
      var stored := if written < size then written else size;
      files := files[filename := data[..stored]];
      return 0;
    }
  }
}
