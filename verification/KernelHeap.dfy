/** The kernel allocator as the driver uses it: kmalloc, krealloc, kfree and memcpy into a block. */
module KernelHeap {
  import opened Streams

  const NULL: nat := 0

  /** What n bytes of memory that is no longer allocated happen to hold. */
  function StaleBytes(stale: Bytes, n: nat): (data: Bytes)
    ensures |data| == n
  {
    seq(n, i requires 0 <= i < n => if i < |stale| then stale[i] else 0)
  }

  class KernelHeap {
    /** The allocated blocks, by address. */
    var blocks: map<nat, Bytes>
    var next: nat

    ghost predicate Valid()
      reads this
    {
      NULL < next && forall p :: p in blocks ==> NULL < p < next
    }

    constructor ()
      ensures Valid() && blocks == map[]
    {
      blocks, next := map[], 1;
    }

    /** A new block of unspecified bytes, or NULL. */
    method Kmalloc(size: nat, fails: bool) returns (p: nat)
      requires Valid()
      modifies this
      ensures Valid()
      ensures fails ==> p == NULL && blocks == old(blocks)
      ensures !fails ==> p != NULL && p !in old(blocks)
      ensures !fails ==> p in blocks && |blocks[p]| == size && blocks == old(blocks)[p := blocks[p]]
    {
      if fails {
        return NULL;
      }
      p := next;
      blocks := blocks[p := seq(size, _ => 0)];
      next := next + 1;
    }

    method Memcpy(p: nat, at: nat, data: Bytes)
      requires Valid() && p in blocks && at + |data| <= |blocks[p]|
      modifies this
      ensures Valid()
      ensures blocks == old(blocks)[p := old(blocks[p])[..at] + data + old(blocks[p])[at + |data|..]]
    {
      blocks := blocks[p := blocks[p][..at] + data + blocks[p][at + |data|..]];
    }

    /** n bytes from address p; what a released address still reads as comes from outside. */
    method Load(p: nat, n: nat, stale: Bytes) returns (data: Bytes)
      requires Valid() && (p in blocks ==> n <= |blocks[p]|)
      ensures data == if p in blocks then blocks[p][..n] else StaleBytes(stale, n)
    {
      data := if p in blocks then blocks[p][..n] else StaleBytes(stale, n);
    }

    /** Grows a block, in place or by moving it; its bytes are kept. A failure leaves it as it was. */
    method Krealloc(p: nat, size: nat, fails: bool, moves: bool) returns (q: nat)
      requires Valid() && p in blocks && |blocks[p]| <= size
      modifies this
      ensures Valid()
      ensures fails ==> q == NULL && blocks == old(blocks)
      ensures !fails ==> q != NULL && (if moves then q !in old(blocks) else q == p)
      ensures !fails ==> q in blocks && |blocks[q]| == size && old(blocks[p]) <= blocks[q]
      ensures !fails ==> blocks == (old(blocks) - {p})[q := blocks[q]]
    {
      if fails {
        return NULL;
      }
      q := if moves then next else p;
      blocks := (blocks - {p})[q := blocks[p] + seq(size - |blocks[p]|, _ => 0)];
      next := next + 1;
    }

    /** Only an allocated block can be freed, so no block is ever freed twice. */
    method Kfree(p: nat)
      requires Valid() && p in blocks
      modifies this
      ensures Valid()
      ensures blocks == old(blocks) - {p}
    {
      blocks := blocks - {p};
    }
  }
}
