/** The relocation patcher (source/main.c:128-152). Memory is the 32-bit
    physical address space, one byte per address; `u32` stores are
    little-endian, as on the ARM cores this loader runs on. */
module Reloc {
  import opened Base

  const RELOC_META_OFF: nat := 0x7C
  const PATCHED_RELOC_SZ: nat := 0x94
  const PATCHED_RELOC_STACK: U32 := 0x4000_7000
  const CBFS_DRAM_EN_ADDR: nat := 0x4003_E000
  const CBFS_DRAM_MAGIC: U32 := 0x4452_414D
  /** The payload size that marks a coreboot hand-off, and the size of the
      bootblock copied from `COREBOOT_ADDR`. */
  const BOOTBLOCK_SZ: nat := 0x7000

  /** `ALIGN(x, a)`: `x` rounded up to a multiple of `a` (the macro masks
      with `~(a - 1)`, which is the same for the power of two used here). */
  function Align(x: nat, a: nat): nat
    requires a > 0
  {
    (x + a - 1) / a * a
  }

  /** `ALIGN(PATCHED_RELOC_SZ, 0x10)`: where the stub's header ends and the
      bootblock begins. */
  const RELOC_HDR_ALIGNED: nat := Align(PATCHED_RELOC_SZ, 0x10)

  /** The aligned header size is the smallest multiple of 16 that holds
      the header. */
  lemma AlignedHeaderSize()
    ensures RELOC_HDR_ALIGNED == 0xA0
    ensures RELOC_HDR_ALIGNED % 0x10 == 0
    ensures PATCHED_RELOC_SZ <= RELOC_HDR_ALIGNED < PATCHED_RELOC_SZ + 0x10
  {
  }

  /** `reloc_meta_t`: the four words the stub reads at offset 0x7C. */
  datatype RelocMeta = RelocMeta(start: U32, stack: U32, end: U32, ep: U32)

  /** The metadata `reloc_patcher` computes, with `u32` wrap-around. */
  function MetaFor(dst: U32, size: U32): RelocMeta
  {
    RelocMeta(Wrap32(dst - RELOC_HDR_ALIGNED), PATCHED_RELOC_STACK, Wrap32(dst + size), dst)
  }

  /** The metadata is ordered exactly when no address wraps: the entry point
      lies above the start iff `dst` leaves room for the aligned header, and
      the end lies at or above the entry point iff `dst + size` fits in 32
      bits. Then the image spans `size` bytes from the entry point and the
      header sits just below it. */
  lemma {:induction false} MetaOrdered(dst: U32, size: U32)
    ensures var m := MetaFor(dst, size);
      && (m.start < m.ep <==> dst >= RELOC_HDR_ALIGNED)
      && (m.ep <= m.end <==> dst + size < TWO_32)
      && m.ep == dst && m.stack == PATCHED_RELOC_STACK
      && (dst >= RELOC_HDR_ALIGNED ==> m.ep - m.start == RELOC_HDR_ALIGNED)
      && (dst + size < TWO_32 ==> m.end - m.ep == size)
  {
    AlignedHeaderSize();
  }

  /** A `u32` as the four bytes a little-endian store writes. */
  function LE32(w: U32): (b: seq<Byte>)
    ensures |b| == 4
  {
    [w % 0x100, (w / 0x100) % 0x100, (w / 0x1_0000) % 0x100, w / 0x100_0000]
  }

  /** The `u32` a little-endian load reads from four bytes. */
  function ReadLE32(b: seq<Byte>): U32
    requires |b| == 4
  {
    b[0] as int + 0x100 * b[1] as int + 0x1_0000 * b[2] as int + 0x100_0000 * b[3] as int
  }

  /** A store followed by a load gives back the word. */
  lemma LE32RoundTrip(w: U32)
    ensures ReadLE32(LE32(w)) == w
  {
    var b := LE32(w);
    assert w / 0x100 == b[1] + 0x100 * (w / 0x1_0000);
    assert w / 0x1_0000 == b[2] as int + 0x100 * b[3] as int;
  }

  /** Four bytes stored as a word are stored back unchanged. */
  lemma LE32Inverse(b: seq<Byte>)
    requires |b| == 4
    ensures LE32(ReadLE32(b)) == b
  {
    var w := ReadLE32(b);
    assert w / 0x100 == b[1] as int + 0x100 * b[2] as int + 0x1_0000 * b[3] as int;
    assert w / 0x1_0000 == b[2] as int + 0x100 * b[3] as int;
  }

  /** The 16 bytes of `reloc_meta_t` in memory. */
  function MetaBytes(m: RelocMeta): (b: seq<Byte>)
    ensures |b| == 16
  {
    LE32(m.start) + LE32(m.stack) + LE32(m.end) + LE32(m.ep)
  }

  /** The word at `addr` in a memory image. */
  function ReadWord(mem: seq<Byte>, addr: nat): U32
    requires addr + 4 <= |mem|
  {
    ReadLE32(mem[addr..addr + 4])
  }

  /** Whether the call copies the bootblock and raises the magic word. */
  predicate IsCorebootHandoff(size: U32)
  {
    size == BOOTBLOCK_SZ
  }

  /** The staging region the call writes at `src`. */
  function StagingExtent(size: U32): nat
  {
    if IsCorebootHandoff(size) then RELOC_HDR_ALIGNED + BOOTBLOCK_SZ else PATCHED_RELOC_SZ
  }

  /** The caller's staging and destination addresses; the stub and, for a
      coreboot hand-off, the bootblock must lie inside the address space. */
  predicate RegionsFit(src: U32, size: U32)
  {
    src + StagingExtent(size) <= TWO_32
  }

  /** Whether `a` is one of the four bytes of the control word. */
  predicate InControlWord(a: nat)
  {
    CBFS_DRAM_EN_ADDR <= a < CBFS_DRAM_EN_ADDR + 4
  }

  /** The byte at address `a` after `reloc_patcher(dst, src, size)`, given
      the byte `prior` there before. `header` is what `IPL_LOAD_ADDR` holds
      and `blob` what `COREBOOT_ADDR` holds. Later stores win over earlier
      ones. */
  function PatchedByte(a: nat, prior: Byte, dst: U32, src: U32, size: U32,
                       header: seq<Byte>, blob: seq<Byte>): Byte
    requires |header| == PATCHED_RELOC_SZ && |blob| == BOOTBLOCK_SZ
  {
    if IsCorebootHandoff(size) && InControlWord(a) then
      LE32(CBFS_DRAM_MAGIC)[a - CBFS_DRAM_EN_ADDR]
    else if IsCorebootHandoff(size) && src + RELOC_HDR_ALIGNED <= a < src + RELOC_HDR_ALIGNED + BOOTBLOCK_SZ then
      blob[a - src - RELOC_HDR_ALIGNED]
    else if src + RELOC_META_OFF <= a < src + RELOC_META_OFF + 16 then
      MetaBytes(MetaFor(dst, size))[a - src - RELOC_META_OFF]
    else if src <= a < src + PATCHED_RELOC_SZ then
      header[a - src]
    else
      prior
  }

  /** The whole memory image after the call. */
  function Patched(mem: seq<Byte>, dst: U32, src: U32, size: U32,
                   header: seq<Byte>, blob: seq<Byte>): (r: seq<Byte>)
    requires |header| == PATCHED_RELOC_SZ && |blob| == BOOTBLOCK_SZ
    ensures |r| == |mem|
  {
    seq(|mem|, a requires 0 <= a < |mem| => PatchedByte(a, mem[a], dst, src, size, header, blob))
  }

  /** The control word lies outside the staging region, or is not written. */
  predicate ControlWordClear(src: U32, size: U32)
  {
    !IsCorebootHandoff(size)
    || CBFS_DRAM_EN_ADDR + 4 <= src || src + StagingExtent(size) <= CBFS_DRAM_EN_ADDR
  }

  /** On a coreboot hand-off the control word lies outside the stub. */
  predicate ControlWordOffStub(src: U32, size: U32)
  {
    IsCorebootHandoff(size) ==>
      CBFS_DRAM_EN_ADDR + 4 <= src || src + PATCHED_RELOC_SZ <= CBFS_DRAM_EN_ADDR
  }

  /** The addresses the call stores to. */
  predicate Written(a: nat, src: U32, size: U32)
  {
    (src <= a < src + PATCHED_RELOC_SZ)
    || (IsCorebootHandoff(size)
        && (src + RELOC_HDR_ALIGNED <= a < src + RELOC_HDR_ALIGNED + BOOTBLOCK_SZ || InControlWord(a)))
  }

  /** Four consecutive bytes of `p` equal to a word's encoding read back as
      that word. */
  lemma WordAt(p: seq<Byte>, addr: nat, w: U32)
    requires addr + 4 <= |p|
    requires forall k :: 0 <= k < 4 ==> p[addr + k] == LE32(w)[k]
    ensures ReadWord(p, addr) == w
  {
    assert p[addr..addr + 4] == LE32(w);
    LE32RoundTrip(w);
  }

  /** The stub's metadata reads back as the four words `reloc_patcher`
      computes, unless the control word is stored over them. */
  lemma PatchWritesMetadata(mem: seq<Byte>, dst: U32, src: U32, size: U32,
                            header: seq<Byte>, blob: seq<Byte>)
    requires |mem| == TWO_32 && |header| == PATCHED_RELOC_SZ && |blob| == BOOTBLOCK_SZ
    requires RegionsFit(src, size) && ControlWordOffStub(src, size)
    ensures var p := Patched(mem, dst, src, size, header, blob);
      && ReadWord(p, src + RELOC_META_OFF) == Wrap32(dst - RELOC_HDR_ALIGNED)
      && ReadWord(p, src + RELOC_META_OFF + 4) == PATCHED_RELOC_STACK
      && ReadWord(p, src + RELOC_META_OFF + 8) == Wrap32(dst + size)
      && ReadWord(p, src + RELOC_META_OFF + 12) == dst
  {
    var p := Patched(mem, dst, src, size, header, blob);
    var m := MetaFor(dst, size);
    var base := src + RELOC_META_OFF;
    assert forall k :: 0 <= k < 16 ==> p[base + k] == MetaBytes(m)[k];
    WordAt(p, base, m.start);
    WordAt(p, base + 4, m.stack);
    WordAt(p, base + 8, m.end);
    WordAt(p, base + 12, m.ep);
  }

  /** The staging bytes before and after the metadata are the loader's own
      header, byte for byte. */
  lemma PatchCopiesHeader(mem: seq<Byte>, dst: U32, src: U32, size: U32,
                          header: seq<Byte>, blob: seq<Byte>)
    requires |mem| == TWO_32 && |header| == PATCHED_RELOC_SZ && |blob| == BOOTBLOCK_SZ
    requires RegionsFit(src, size) && ControlWordOffStub(src, size)
    ensures var p := Patched(mem, dst, src, size, header, blob);
      && p[src..src + RELOC_META_OFF] == header[..RELOC_META_OFF]
      && p[src + RELOC_META_OFF + 16..src + PATCHED_RELOC_SZ] == header[RELOC_META_OFF + 16..]
  {
    var p := Patched(mem, dst, src, size, header, blob);
    assert forall k :: 0 <= k < RELOC_META_OFF ==> p[src + k] == header[k];
    assert forall k :: RELOC_META_OFF + 16 <= k < PATCHED_RELOC_SZ ==> p[src + k] == header[k];
  }

  /** The bootblock lands after the aligned header exactly on a coreboot
      hand-off; otherwise those bytes keep their contents. */
  lemma PatchCopiesBootblockIff(mem: seq<Byte>, dst: U32, src: U32, size: U32,
                                header: seq<Byte>, blob: seq<Byte>)
    requires |mem| == TWO_32 && |header| == PATCHED_RELOC_SZ && |blob| == BOOTBLOCK_SZ
    requires src + RELOC_HDR_ALIGNED + BOOTBLOCK_SZ <= TWO_32 && ControlWordClear(src, size)
    ensures var p := Patched(mem, dst, src, size, header, blob);
      var lo := src + RELOC_HDR_ALIGNED;
      && (IsCorebootHandoff(size) ==> p[lo..lo + BOOTBLOCK_SZ] == blob)
      && (!IsCorebootHandoff(size) ==> p[lo..lo + BOOTBLOCK_SZ] == mem[lo..lo + BOOTBLOCK_SZ])
  {
    AlignedHeaderSize();
    var p := Patched(mem, dst, src, size, header, blob);
    var lo := src + RELOC_HDR_ALIGNED;
    if IsCorebootHandoff(size) {
      assert forall k :: 0 <= k < BOOTBLOCK_SZ ==> p[lo + k] == blob[k];
    } else {
      assert forall a :: lo <= a < lo + BOOTBLOCK_SZ ==> p[a] == mem[a];
    }
  }

  /** The control word reads `CBFS_DRAM_MAGIC` after a coreboot hand-off,
      wherever the staging region lies, since that store comes last; any
      other call leaves it untouched unless the stub is copied over it. */
  lemma PatchSetsControlWordIff(mem: seq<Byte>, dst: U32, src: U32, size: U32,
                                header: seq<Byte>, blob: seq<Byte>)
    requires |mem| == TWO_32 && |header| == PATCHED_RELOC_SZ && |blob| == BOOTBLOCK_SZ
    requires RegionsFit(src, size)
    requires !IsCorebootHandoff(size) ==>
      CBFS_DRAM_EN_ADDR + 4 <= src || src + PATCHED_RELOC_SZ <= CBFS_DRAM_EN_ADDR
    ensures var p := Patched(mem, dst, src, size, header, blob);
      && (IsCorebootHandoff(size) ==> ReadWord(p, CBFS_DRAM_EN_ADDR) == CBFS_DRAM_MAGIC)
      && (!IsCorebootHandoff(size) ==>
            p[CBFS_DRAM_EN_ADDR..CBFS_DRAM_EN_ADDR + 4] == mem[CBFS_DRAM_EN_ADDR..CBFS_DRAM_EN_ADDR + 4])
  {
    var p := Patched(mem, dst, src, size, header, blob);
    if IsCorebootHandoff(size) {
      WordAt(p, CBFS_DRAM_EN_ADDR, CBFS_DRAM_MAGIC);
    } else {
      assert forall a :: CBFS_DRAM_EN_ADDR <= a < CBFS_DRAM_EN_ADDR + 4 ==> p[a] == mem[a];
    }
  }

  /** No byte outside the stub, the bootblock and the control word changes. */
  lemma PatchFrame(mem: seq<Byte>, dst: U32, src: U32, size: U32,
                   header: seq<Byte>, blob: seq<Byte>)
    requires |mem| == TWO_32 && |header| == PATCHED_RELOC_SZ && |blob| == BOOTBLOCK_SZ
    ensures var p := Patched(mem, dst, src, size, header, blob);
      forall a :: 0 <= a < |mem| && !Written(a, src, size) ==> p[a] == mem[a]
  {
  }

  /** `memcpy(mem + dst, data, |data|)`. */
  method MemCopy(mem: array<Byte>, dst: nat, data: seq<Byte>)
    requires dst + |data| <= mem.Length
    modifies mem
    ensures forall a :: 0 <= a < mem.Length ==>
      mem[a] == if dst <= a < dst + |data| then data[a - dst] else old(mem[a])
  {
    forall i | 0 <= i < |data| {
      mem[dst + i] := data[i];
    }
  }

  /** A `u32` store to `addr`. */
  method StoreWord(mem: array<Byte>, addr: nat, w: U32)
    requires addr + 4 <= mem.Length
    modifies mem
    ensures forall a :: 0 <= a < mem.Length ==>
      mem[a] == if addr <= a < addr + 4 then LE32(w)[a - addr] else old(mem[a])
  {
    MemCopy(mem, addr, LE32(w));
  }

  /** `reloc_patcher(payload_dst, payload_src, payload_size)`. */
  method RelocPatcher(mem: array<Byte>, dst: U32, src: U32, size: U32,
                      header: seq<Byte>, blob: seq<Byte>)
    requires mem.Length == TWO_32
    requires |header| == PATCHED_RELOC_SZ && |blob| == BOOTBLOCK_SZ
    requires RegionsFit(src, size)
    modifies mem
    ensures mem[..] == Patched(old(mem[..]), dst, src, size, header, blob)
  {
    MemCopy(mem, src, header);
    var meta := src + RELOC_META_OFF;
    StoreWord(mem, meta, Wrap32(dst - RELOC_HDR_ALIGNED));  // start
    StoreWord(mem, meta + 4, PATCHED_RELOC_STACK);          // stack
    StoreWord(mem, meta + 8, Wrap32(dst + size));           // end
    StoreWord(mem, meta + 12, dst);                         // ep
    if size == BOOTBLOCK_SZ {
      MemCopy(mem, src + RELOC_HDR_ALIGNED, blob);           // bootblock
      StoreWord(mem, CBFS_DRAM_EN_ADDR, CBFS_DRAM_MAGIC);
    }
    forall a | 0 <= a < mem.Length
      ensures mem[a] == PatchedByte(a, old(mem[a]), dst, src, size, header, blob)
    {
    }
  }
}
