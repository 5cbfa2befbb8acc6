/** The debug heap: DmAllocatePoolWithTag and DmFreePool, or any allocator passed to the loader. */
module Pools {
  import opened Words

  /**
    An allocator whose behaviour is fixed in advance but otherwise arbitrary: `address(n)` is the answer to its
    n-th request, 0 standing for NULL, and `fill(n, k)` is the k-th byte that the n-th block holds at first.
  */
  class Pool {
    const address: nat -> Dword
    const fill: (nat, nat) -> Byte
    var requests: nat
    /** The blocks that have been allocated and not freed. */
    ghost var live: set<object>

    constructor (address: nat -> Dword, fill: (nat, nat) -> Byte)
      ensures this.address == address && this.fill == fill
      ensures requests == 0 && live == {}
    {
      this.address, this.fill := address, fill;
      requests, live := 0, {};
    }

    /** Makes a request for a block that is then adopted by the caller. */
    method Request() returns (granted: bool)
      modifies this`requests
      ensures requests == old(requests) + 1
      ensures granted == (address(old(requests)) != 0)
    {
      granted := address(requests) != 0;
      requests := requests + 1;
    }

    ghost method Adopt(block: object)
      requires block !in live
      modifies this`live
      ensures live == old(live) + {block}
      ensures multiset(live) == multiset(old(live)) + multiset{block}
    {
      live := live + {block};
    }

    method AllocBytes(size: nat) returns (block: array?<Byte>)
      modifies this
      ensures requests == old(requests) + 1
      ensures block == null <==> address(old(requests)) == 0
      ensures block == null ==> live == old(live)
      ensures block != null ==>
        && fresh(block) && block.Length == size && live == old(live) + {block}
        && forall k :: 0 <= k < size ==> block[k] == fill(old(requests), k)
    {
      var granted := Request();
      if !granted {
        return null;
      }
      var n, contents := requests - 1, fill;
      block := new Byte[size](k requires 0 <= k => contents(n, k));
      Adopt(block);
    }

    /** A block of `size` elements, with arbitrary first contents. */
    method AllocArray<T(0)>(size: nat) returns (block: array?<T>)
      modifies this
      ensures requests == old(requests) + 1
      ensures block == null <==> address(old(requests)) == 0
      ensures block == null ==> live == old(live)
      ensures block != null ==> fresh(block) && block.Length == size && live == old(live) + {block}
    {
      var granted := Request();
      if !granted {
        return null;
      }
      block := new T[size];
      Adopt(block);
    }

    /** Every request from the `from`-th to before the `to`-th is granted. */
    ghost predicate Granted(from: nat, to: nat) {
      forall n: nat :: from <= n < to ==> address(n) != 0
    }

    /** Frees a block; a block that is not live must never be freed. */
    method Free(ghost block: object)
      requires block in live
      modifies this`live
      ensures live == old(live) - {block}
      ensures multiset(live) == multiset(old(live)) - multiset{block}
    {
      ghost var rest := live - {block};
      live := rest;
    }
  }
}
