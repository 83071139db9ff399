/** The firmware heap as far as the core uses it: `malloc` hands out a block
    that no live allocation uses, `free` returns it. A block is named by an
    abstract pointer; its contents are a byte sequence. */
module Alloc {
  import opened Base

  type Ptr = nat

  /** Freeing a block that was allocated fresh gives back the heap as it
      was before the allocation, whatever the block held meanwhile. */
  lemma FreeUndoesMalloc(before: map<Ptr, seq<Byte>>, p: Ptr, contents: seq<Byte>)
    requires p !in before
    ensures before[p := contents] - {p} == before
  {
    assert (before[p := contents] - {p}).Keys == before.Keys;
  }

  class Heap {
    /** The live allocations and what they hold. */
    var blocks: map<Ptr, seq<Byte>>
    /** Every pointer handed out so far is below this bound. */
    var next: Ptr

    ghost predicate Valid()
      reads this
    {
      forall p :: p in blocks ==> p < next
    }

    /** The heap right after `heap_init`: nothing allocated. */
    constructor ()
      ensures Valid() && blocks == map[]
    {
      blocks := map[];
      next := 0;
    }

    /** `malloc(|stale|)`: a fresh block. Its contents are not initialised,
        so it holds whatever bytes the memory held before: `stale`. */
    method Malloc(stale: seq<Byte>) returns (p: Ptr)
      requires Valid()
      modifies this
      ensures Valid()
      ensures p !in old(blocks) && blocks == old(blocks)[p := stale]
    {
      p := next;
      blocks := blocks[p := stale];
      next := next + 1;
    }

    /** `free(p)` on a live block. */
    method Free(p: Ptr)
      requires Valid() && p in blocks
      modifies this
      ensures Valid() && blocks == old(blocks) - {p}
    {
      blocks := blocks - {p};
    }

    /** A driver or `memset` filling a live block completely. */
    method Fill(p: Ptr, data: seq<Byte>)
      requires Valid() && p in blocks && |data| == |blocks[p]|
      modifies this
      ensures Valid() && blocks == old(blocks)[p := data]
    {
      blocks := blocks[p := data];
    }
  }
}
