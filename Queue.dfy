/**
 * The typed queues of photon's queue.h over a kfifo. Whatever the element
 * type T, every element moves through the fifo as the first sizeof(T*)
 * bytes of its in-memory representation. `spsc_queue` calls the unlocked
 * fifo operations and `mpmc_queue` the locked ones; one class with a
 * `locked` flag models both.
 */
module Queue {
  import opened Bytes
  import opened Kfifo

  /** sizeof(T*) on a 64-bit host: the bytes moved per element. */
  const PTR_SIZE: nat := 8

  /** `capacity * ptrSize` in unsigned 32-bit arithmetic: the fifo size asked for. */
  function FifoSize(capacity: nat): (r: nat)
    ensures r < U32 && r % PTR_SIZE == 0
  {
    var r := (capacity * PTR_SIZE) % U32;
    assert capacity * PTR_SIZE == U32 * ((capacity * PTR_SIZE) / U32) + r;
    assert r == PTR_SIZE * (capacity - 0x2000_0000 * ((capacity * PTR_SIZE) / U32));
    ModUnique(r, PTR_SIZE, capacity - 0x2000_0000 * ((capacity * PTR_SIZE) / U32), 0);
    r
  }

  /** `ptrSize * n` for an int n, converted to the fifo's unsigned length. */
  function PopBytes(n: int): (r: nat)
    ensures r < U32 && r % PTR_SIZE == 0
    ensures 0 <= n ==> r <= PTR_SIZE * n
  {
    var r := (PTR_SIZE * n) % U32;
    assert PTR_SIZE * n == U32 * ((PTR_SIZE * n) / U32) + r;
    assert r == PTR_SIZE * (n - 0x2000_0000 * ((PTR_SIZE * n) / U32));
    ModUnique(r, PTR_SIZE, n - 0x2000_0000 * ((PTR_SIZE * n) / U32), 0);
    r
  }

  /** The bytes of a sequence of elements, one after the other. */
  function Flatten(elems: seq<seq<byte>>): seq<byte>
  {
    if |elems| == 0 then [] else elems[0] + Flatten(elems[1..])
  }

  /** Every element is one pointer-sized chunk. */
  predicate Uniform(elems: seq<seq<byte>>)
  {
    forall i :: 0 <= i < |elems| ==> |elems[i]| == PTR_SIZE
  }

  lemma {:induction false} FlattenAppend(a: seq<seq<byte>>, b: seq<seq<byte>>)
    ensures Flatten(a + b) == Flatten(a) + Flatten(b)
    decreases |a|
  {
    if |a| == 0 {
      assert a + b == b;
    } else {
      FlattenAppend(a[1..], b);
      assert (a + b)[1..] == a[1..] + b;
      calc {
        Flatten(a + b);
        a[0] + Flatten(a[1..] + b);
        a[0] + (Flatten(a[1..]) + Flatten(b));
        (a[0] + Flatten(a[1..])) + Flatten(b);
      }
    }
  }

  lemma {:induction false} FlattenLength(elems: seq<seq<byte>>)
    requires Uniform(elems)
    ensures |Flatten(elems)| == PTR_SIZE * |elems|
    decreases |elems|
  {
    if |elems| > 0 {
      FlattenLength(elems[1..]);
    }
  }

  /** Taking the first r whole elements takes the first r * sizeof(T*) bytes. */
  lemma FlattenSplit(elems: seq<seq<byte>>, r: nat)
    requires Uniform(elems) && r <= |elems|
    ensures |Flatten(elems)| == PTR_SIZE * |elems|
    ensures Flatten(elems)[..PTR_SIZE * r] == Flatten(elems[..r])
    ensures Flatten(elems)[PTR_SIZE * r..] == Flatten(elems[r..])
  {
    FlattenLength(elems);
    assert elems == elems[..r] + elems[r..];
    FlattenAppend(elems[..r], elems[r..]);
    FlattenLength(elems[..r]);
  }

  /**
   * With whole elements stored in a fifo of whole elements, the free space is
   * either 0 or at least one element.
   */
  lemma WholeElementFits(size: nat, count: nat)
    requires size % PTR_SIZE == 0 && PTR_SIZE * count <= size
    ensures Min(PTR_SIZE, size - PTR_SIZE * count) == if count < size / PTR_SIZE then PTR_SIZE else 0
  {
  }

  /** A get of a whole number of elements from whole stored elements fetches whole elements. */
  lemma WholeElementsFetched(len: nat, count: nat)
    requires len % PTR_SIZE == 0
    ensures Min(len, PTR_SIZE * count) == PTR_SIZE * Min(len / PTR_SIZE, count)
    ensures Min(len, PTR_SIZE * count) / PTR_SIZE == Min(len / PTR_SIZE, count)
  {
  }

  class PtrQueue {
    const fifo: Fifo
    const locked: bool
    ghost var elems: seq<seq<byte>>

    ghost predicate Valid()
      reads this, fifo, fifo.buffer
    {
      && fifo.Valid() && fifo.size % PTR_SIZE == 0
      && Uniform(elems) && fifo.contents == Flatten(elems)
    }

    /** The number of elements the fifo can hold. */
    function Capacity(): nat
      reads this
    {
      fifo.size / PTR_SIZE
    }

    /**
     * The queue constructor: a fifo of `capacity * ptrSize` bytes. The source
     * aborts the process when kfifo_alloc refuses that size.
     */
    constructor (capacity: nat, locked: bool)
      requires AllocAccepts(FifoSize(capacity))
      ensures Valid() && fresh(fifo) && fresh(fifo.buffer)
      ensures fifo.size == FifoSize(capacity) && this.locked == locked && elems == []
    {
      fifo := new Fifo(FifoSize(capacity));
      this.locked := locked;
      elems := [];
    }

    /**
     * push: puts the first sizeof(T*) bytes of `t` and reports whether any byte
     * was stored. Since the fifo only ever holds whole elements, a push stores
     * the whole element or nothing.
     */
    method Push(t: seq<byte>) returns (ok: bool)
      requires Valid() && |t| >= PTR_SIZE
      modifies this, fifo, fifo.buffer
      ensures Valid()
      ensures ok <==> |old(elems)| < Capacity()
      ensures elems == if ok then old(elems) + [t[..PTR_SIZE]] else old(elems)
    {
      FlattenLength(elems);
      WholeElementFits(fifo.size, |elems|);
      var n: nat;
      if locked {
        n := fifo.LockedPut(t[..PTR_SIZE]);
      } else {
        n := fifo.Put(t[..PTR_SIZE]);
      }
      ok := n > 0;
      if ok {
        FlattenAppend(elems, [t[..PTR_SIZE]]);
        elems := elems + [t[..PTR_SIZE]];
      }
    }

    /**
     * pop: gets `ptrSize * n` bytes (the product taken as unsigned) and returns
     * the number of whole elements fetched. The bytes written to the caller's
     * array are returned as `got`.
     */
    method Pop(n: int) returns (r: int, got: seq<byte>)
      requires Valid()
      modifies this, fifo
      ensures Valid()
      ensures r == Min(PopBytes(n) / PTR_SIZE, |old(elems)|)
      ensures 0 <= n ==> 0 <= r <= n
      ensures got == Flatten(old(elems)[..r]) && elems == old(elems)[r..]
    {
      var len := PopBytes(n);
      ghost var count := Min(len / PTR_SIZE, |elems|);
      FlattenSplit(elems, count);
      WholeElementsFetched(len, |elems|);
      var fetched: nat;
      if locked {
        fetched, got := fifo.LockedGet(len);
      } else {
        fetched, got := fifo.Get(len);
      }
      r := fetched / PTR_SIZE;
      elems := elems[count..];
    }

    /** read_available (const overload, unlocked length): the number of stored elements. */
    function ReadAvailable(): (r: nat)
      reads this, fifo, fifo.buffer
      requires Valid()
      ensures r == |elems| && r <= Capacity()
    {
      FlattenLength(elems);
      fifo.Len() / PTR_SIZE
    }

    /** read_available (non-const overload, locked length). */
    method LockedReadAvailable() returns (r: nat)
      requires Valid()
      ensures r == |elems| && r == ReadAvailable()
    {
      var len := fifo.LockedLen();
      FlattenLength(elems);
      r := len / PTR_SIZE;
    }
  }
}
