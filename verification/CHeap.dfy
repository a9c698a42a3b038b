/** The C heap as the connector uses it: blocks allocated, written and freed by address. */
module CHeap {

  import opened CTypes

  type Bytes = seq<uchar>

  function Times(m: nat, n: nat): (p: nat)
    ensures m == 1 ==> p == n
  {
    m * n
  }

  function Zeros(n: nat): (z: Bytes)
    ensures |z| == n && forall i | 0 <= i < n :: z[i] == 0
  {
    seq<uchar>(n, i => 0)
  }

  /** Allocating a block and freeing it leaves the heap as it was. */
  lemma Freed(blocks: map<nat, Bytes>, p: nat, b: Bytes)
    requires p !in blocks
    ensures blocks[p := b] - {p} == blocks
  {
    var m := blocks[p := b] - {p};
    assert forall q :: q in m <==> q in blocks;
  }

  class Heap {
    var blocks: map<nat, Bytes>  // the live blocks
    var next: nat                // an address not used yet

    ghost predicate Valid()
      reads this
    {
      forall p | p in blocks :: p < next
    }

    constructor ()
      ensures Valid() && blocks == map[]
    {
      blocks, next := map[], 0;
    }

    /** `calloc(count, size)`, and `malloc(size)` with its contents settled at zero. */
    method Calloc(count: nat, size: nat) returns (p: nat)
      requires Valid()
      modifies this
      ensures Valid() && p == old(next) && next == p + 1 && p !in old(blocks)
      ensures blocks == old(blocks)[p := Zeros(Times(count, size))]
    {
      p := next;
      blocks := blocks[p := Zeros(Times(count, size))];
      next := next + 1;
    }

    method Write(p: nat, bytes: Bytes)
      requires Valid() && p in blocks && |bytes| == |blocks[p]|
      modifies this
      ensures Valid() && next == old(next) && blocks == old(blocks)[p := bytes]
    {
      blocks := blocks[p := bytes];
    }

    /** Only a live block may be freed, so none is freed twice. */
    method Free(p: nat)
      requires Valid() && p in blocks
      modifies this
      ensures Valid() && next == old(next) && blocks == old(blocks) - {p}
    {
      blocks := blocks - {p};
    }
  }
}
