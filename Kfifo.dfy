/**
 * photon's kfifo: a byte ring buffer whose size is a power of two and whose
 * `in`/`out` indices (here `inIdx`/`outIdx`) are free-running unsigned 32-bit counters. The slot of
 * counter value x is `x & (size - 1)`, which for a power-of-two size is
 * `x % size`; the model writes it with `%`.
 *
 * The ghost sequence `contents` is the bytes stored, oldest first; `putLog`
 * and `getLog` are the bytes accepted by puts and handed out by gets since
 * the last reset. The spinlock of the locked variants only serialises calls
 * and is not modelled.
 */
module Kfifo {
  import opened Bytes

  const U32: nat := 0x1_0000_0000

  predicate IsPow2(n: nat)
    decreases n
  {
    n == 1 || (n >= 2 && n % 2 == 0 && IsPow2(n / 2))
  }

  /** kfifo_alloc refuses a size below 2 or one that is not a power of two. */
  predicate AllocAccepts(size: nat)
  {
    2 <= size && IsPow2(size)
  }

  /** The exponent of a power of two. */
  function Log2(n: nat): (e: nat)
    requires IsPow2(n)
    ensures Pow2(e) == n
    decreases n
  {
    if n == 1 then 0 else Log2(n / 2) + 1
  }

  lemma {:induction false} Pow2Add(a: nat, b: nat)
    ensures Pow2(a + b) == Pow2(a) * Pow2(b)
    decreases a
  {
    if a > 0 {
      Pow2Add(a - 1, b);
      assert Pow2(a + b) == 2 * Pow2(a - 1 + b);
    }
  }

  lemma {:induction false} Pow2Grows(a: nat, b: nat)
    requires a <= b
    ensures Pow2(a) <= Pow2(b)
    decreases b
  {
    if a < b {
      Pow2Grows(a, b - 1);
    }
  }

  lemma Pow2ThirtyTwo()
    ensures Pow2(32) == U32
  {
    assert Pow2(4) == 16;
    Pow2Add(4, 4);
    Pow2Add(8, 8);
    Pow2Add(16, 16);
  }

  /** Every power of two below 2^32 divides 2^32, so slots survive counter wrap-around. */
  lemma Pow2DividesU32(n: nat)
    requires IsPow2(n) && n < U32
    ensures U32 % n == 0
  {
    var e := Log2(n);
    Pow2ThirtyTwo();
    if e > 32 {
      Pow2Grows(32, e);
      assert false;
    }
    Pow2Add(e, 32 - e);
    var q := Pow2(32 - e);
    assert U32 == n * q;
    ModUnique(U32, n, q, 0);
  }

  lemma MulAtLeast(m: nat, k: int)
    requires k >= 1
    ensures m * k >= m
  {
    assert m * k == m + m * (k - 1);
  }

  lemma ModUnique(x: int, m: nat, q: int, s: int)
    requires 0 <= s < m && x == m * q + s
    ensures x % m == s
  {
    var r := x % m;
    var d := x / m;
    assert x == m * d + r;
    if d < q {
      assert m * (q - d) == m * q - m * d;
      MulAtLeast(m, q - d);
      assert false;
    } else if d > q {
      assert m * (d - q) == m * d - m * q;
      MulAtLeast(m, d - q);
      assert false;
    }
  }

  lemma ModModDivisor(x: nat, m: nat, big: nat)
    requires m >= 1 && big >= 1 && big % m == 0
    ensures (x % big) % m == x % m
  {
    var a := x / big;
    var b := x % big;
    var c := big / m;
    assert big == m * c;
    assert x == big * a + b;
    assert x == m * (c * a) + b;
    assert b == m * (b / m) + b % m;
    assert x == m * (c * a + b / m) + b % m;
    ModUnique(x, m, c * a + b / m, b % m);
  }

  /** p reduced once modulo size, for 0 <= p < 2 * size. */
  function Wrap(p: nat, size: nat): (r: nat)
    requires p < 2 * size
    ensures r < size && (r == p || r == p - size)
  {
    if p < size then p else p - size
  }

  lemma ModAddSmall(x: nat, n: nat, m: nat)
    requires 1 <= m && n <= m
    ensures (x + n) % m == Wrap(x % m + n, m)
  {
    var q := x / m;
    var r := x % m;
    assert x == m * q + r;
    if r + n < m {
      ModUnique(x + n, m, q, r + n);
    } else {
      assert x + n == m * (q + 1) + (r + n - m);
      ModUnique(x + n, m, q + 1, r + n - m);
    }
  }

  /** How far slot i lies ahead of slot `from`, going round the ring. */
  function Ahead(from: nat, i: nat, size: nat): (d: nat)
    requires from < size && i < size
    ensures d < size && Wrap(from + d, size) == i
  {
    if i >= from then i - from else i + size - from
  }

  /** Advancing a counter by n <= size moves its slot n places round the ring, wrap-around included. */
  lemma SlotAdvance(x: nat, n: nat, size: nat)
    requires AllocAccepts(size) && size < U32 && n <= size
    ensures Advance(x, n) % size == Wrap(x % size + n, size)
  {
    Pow2DividesU32(size);
    ModModDivisor(x + n, size, U32);
    ModAddSmall(x, n, size);
  }

  /** `x += n` on an unsigned 32-bit counter. */
  function Advance(x: nat, n: nat): (r: nat)
    ensures r < U32
  {
    (x + n) % U32
  }

  /** (in - out) in unsigned 32-bit arithmetic: the number of stored bytes. */
  function Distance(a: nat, b: nat): (d: nat)
    requires a < U32 && b < U32
    ensures d < U32 && (d == a - b || d == a - b + U32)
  {
    (a - b) % U32
  }

  lemma DistanceAfterAdvance(a: nat, b: nat, n: nat)
    requires a < U32 && b < U32 && Distance(a, b) + n < U32
    ensures Distance(Advance(a, n), b) == Distance(a, b) + n
  {
  }

  lemma DistanceAfterConsume(a: nat, b: nat, n: nat)
    requires a < U32 && b < U32 && n <= Distance(a, b)
    ensures Distance(a, Advance(b, n)) == Distance(a, b) - n
  {
  }

  /** `fifo->size - fifo->in + fifo->out` in unsigned arithmetic is the free space. */
  function FreeSpace(size: nat, a: nat, b: nat): (r: nat)
    requires a < U32 && b < U32 && Distance(a, b) <= size < U32
    ensures r == size - Distance(a, b)
  {
    (size - a + b) % U32
  }

  /**
   * The ring layout of a fifo of `size` bytes whose buffer holds `cells`:
   * the stored bytes sit at consecutive slots from the slot of `outIdx`,
   * wrapping at the end of the buffer, and the slot of `inIdx` follows them.
   */
  ghost predicate Layout(size: nat, inIdx: nat, outIdx: nat, contents: seq<byte>, cells: seq<byte>)
  {
    && AllocAccepts(size) && size < U32 && |cells| == size
    && inIdx < U32 && outIdx < U32
    && |contents| == Distance(inIdx, outIdx) && |contents| <= size
    && inIdx % size == Wrap(outIdx % size + |contents|, size)
    && Ring(size, outIdx % size, contents, cells)
  }

  /** The stored bytes sit at consecutive slots from `outPos`, wrapping at the end of the buffer. */
  ghost predicate Ring(size: nat, outPos: nat, contents: seq<byte>, cells: seq<byte>)
  {
    && outPos < size && |contents| <= size && |cells| == size
    && forall k :: 0 <= k < |contents| ==> contents[k] == cells[Wrap(outPos + k, size)]
  }

  /** The slots the two copies of __kfifo_put write, and what they write there. */
  ghost predicate Placed(size: nat, start: nat, n: nat, data: seq<byte>, before: seq<byte>, after: seq<byte>)
    requires start < size && n <= |data| && |before| == size && |after| == size
  {
    forall i :: 0 <= i < size ==>
      after[i] == (if Ahead(start, i, size) < n then data[Ahead(start, i, size)] else before[i])
  }

  /** The two copies of __kfifo_put, slot by slot. */
  lemma PutPlacement(size: nat, start: nat, l: nat, n: nat, data: seq<byte>, before: seq<byte>, after: seq<byte>)
    requires start < size && l == Min(n, size - start) && n <= size && n <= |data|
    requires |before| == size && |after| == size
    requires forall k :: 0 <= k < l ==> after[start + k] == data[k]
    requires forall k :: 0 <= k < n - l ==> after[k] == data[l + k]
    requires forall i :: 0 <= i < size && !(start <= i < start + l) && !(i < n - l) ==> after[i] == before[i]
    ensures Placed(size, start, n, data, before, after)
  {
    forall i | 0 <= i < size
      ensures after[i] == (if Ahead(start, i, size) < n then data[Ahead(start, i, size)] else before[i])
    {
      if start <= i < start + l {
        assert after[start + (i - start)] == data[i - start];
      } else if i < n - l {
        assert after[i] == data[l + i];
      }
    }
  }

  /** The bytes a put places after the stored ones extend the ring. */
  lemma PutExtendsRing(size: nat, outPos: nat, contents: seq<byte>, n: nat, data: seq<byte>,
                       before: seq<byte>, after: seq<byte>)
    requires Ring(size, outPos, contents, before)
    requires |contents| + n <= size && n <= |data| && |after| == size
    requires Placed(size, Wrap(outPos + |contents|, size), n, data, before, after)
    ensures Ring(size, outPos, contents + data[..n], after)
  {
    var c := |contents|;
    var start := Wrap(outPos + c, size);
    var contents' := contents + data[..n];
    forall k | 0 <= k < c + n
      ensures contents'[k] == after[Wrap(outPos + k, size)]
    {
      var i := Wrap(outPos + k, size);
      if k >= c {
        assert Ahead(start, i, size) == k - c;
      } else {
        assert Ahead(start, i, size) >= n;
      }
    }
  }

  /** A put of n bytes that fit, placed from the slot of `inIdx`, appends them to the layout. */
  lemma PutKeepsLayout(size: nat, inIdx: nat, outIdx: nat, contents: seq<byte>, n: nat, data: seq<byte>,
                       before: seq<byte>, after: seq<byte>)
    requires Layout(size, inIdx, outIdx, contents, before)
    requires |contents| + n <= size && n <= |data| && |after| == size
    requires Placed(size, inIdx % size, n, data, before, after)
    ensures Layout(size, Advance(inIdx, n), outIdx, contents + data[..n], after)
  {
    PutExtendsRing(size, outIdx % size, contents, n, data, before, after);
    SlotAdvance(inIdx, n, size);
    DistanceAfterAdvance(inIdx, outIdx, n);
  }

  /** The n bytes read round the ring from slot `start`: to the buffer end, then from slot 0. */
  function ReadRing(cells: seq<byte>, start: nat, n: nat): seq<byte>
    requires start < |cells| && n <= |cells|
  {
    var l := Min(n, |cells| - start);
    cells[start..start + l] + cells[..n - l]
  }

  /**
   * The two copies of __kfifo_get, from `outPos` to the buffer end and then
   * from slot 0, read the n oldest bytes; the others stay a ring from n slots on.
   */
  lemma GetShrinksRing(size: nat, outPos: nat, contents: seq<byte>, n: nat, cells: seq<byte>)
    requires Ring(size, outPos, contents, cells) && n <= |contents|
    ensures ReadRing(cells, outPos, n) == contents[..n]
    ensures Ring(size, Wrap(outPos + n, size), contents[n..], cells)
  {
    var l := Min(n, size - outPos);
    var got := ReadRing(cells, outPos, n);
    forall k | 0 <= k < n
      ensures got[k] == contents[k]
    {
      assert contents[k] == cells[Wrap(outPos + k, size)];
    }
    assert got == contents[..n];
    forall k | 0 <= k < |contents| - n
      ensures contents[n..][k] == cells[Wrap(Wrap(outPos + n, size) + k, size)]
    {
      assert contents[n + k] == cells[Wrap(outPos + n + k, size)];
    }
  }

  /** A get of n stored bytes advances `outIdx` by n and keeps the layout of the rest. */
  lemma GetKeepsLayout(size: nat, inIdx: nat, outIdx: nat, contents: seq<byte>, n: nat, cells: seq<byte>)
    requires Layout(size, inIdx, outIdx, contents, cells) && n <= |contents|
    ensures ReadRing(cells, outIdx % size, n) == contents[..n]
    ensures Layout(size, inIdx, Advance(outIdx, n), contents[n..], cells)
  {
    GetShrinksRing(size, outIdx % size, contents, n, cells);
    SlotAdvance(outIdx, n, size);
    DistanceAfterConsume(inIdx, outIdx, n);
  }

  /** Accepting bytes appends them to both `contents` and `putLog`. */
  lemma LogAppend(putLog: seq<byte>, getLog: seq<byte>, contents: seq<byte>, added: seq<byte>)
    requires putLog == getLog + contents
    ensures putLog + added == getLog + (contents + added)
  {
  }

  /** Handing out the first n stored bytes moves them from `contents` to the end of `getLog`. */
  lemma LogShift(putLog: seq<byte>, getLog: seq<byte>, contents: seq<byte>, n: nat)
    requires putLog == getLog + contents && n <= |contents|
    ensures putLog == (getLog + contents[..n]) + contents[n..]
  {
    assert contents == contents[..n] + contents[n..];
  }

  class Fifo {
    const size: nat
    const buffer: array<byte>
    var inIdx: nat
    var outIdx: nat
    ghost var contents: seq<byte>
    ghost var putLog: seq<byte>
    ghost var getLog: seq<byte>

    ghost predicate Valid()
      reads this, buffer
    {
      && buffer.Length == size
      && Layout(size, inIdx, outIdx, contents, buffer[..])
      && putLog == getLog + contents
    }

    /** kfifo_alloc, once the size has been accepted. */
    constructor (size: nat)
      requires AllocAccepts(size) && size < U32
      ensures Valid() && this.size == size && fresh(buffer)
      ensures inIdx == 0 && outIdx == 0 && contents == [] && putLog == [] && getLog == []
    {
      this.size := size;
      buffer := new byte[size];
      inIdx, outIdx := 0, 0;
      contents, putLog, getLog := [], [], [];
    }

    /** __kfifo_len: the number of stored bytes. */
    function Len(): (r: nat)
      reads this, buffer
      requires Valid()
      ensures r == |contents| && r <= size
    {
      Distance(inIdx, outIdx)
    }

    /** __kfifo_reset: both indices back to 0, emptying the fifo. */
    method Reset()
      requires Valid()
      modifies this
      ensures Valid() && inIdx == 0 && outIdx == 0
      ensures contents == [] && putLog == [] && getLog == []
    {
      inIdx, outIdx := 0, 0;
      contents, putLog, getLog := [], [], [];
    }

    /**
     * __kfifo_put: stores as many leading bytes of `data` as fit, first from
     * the slot of `in` to the end of the buffer and then from slot 0. Only
     * the n slots following that of `in` are written.
     */
    method Put(data: seq<byte>) returns (n: nat)
      requires Valid() && |data| < U32
      modifies this, buffer
      ensures Valid()
      ensures n == Min(|data|, size - |old(contents)|)
      ensures contents == old(contents) + data[..n]
      ensures inIdx == Advance(old(inIdx), n) && outIdx == old(outIdx)
      ensures putLog == old(putLog) + data[..n] && getLog == old(getLog)
      ensures old(inIdx) % size < size && Placed(size, old(inIdx) % size, n, data, old(buffer[..]), buffer[..])
    {
      n := Min(|data|, FreeSpace(size, inIdx, outIdx));
      Store(inIdx % size, n, data);
      PutKeepsLayout(size, inIdx, outIdx, contents, n, data, old(buffer[..]), buffer[..]);
      LogAppend(putLog, getLog, contents, data[..n]);
      inIdx := Advance(inIdx, n);
      contents := contents + data[..n];
      putLog := putLog + data[..n];
    }

    /**
     * The two memcpy calls of __kfifo_put: the first l bytes from slot `start`
     * to the end of the buffer, the remaining n - l from slot 0.
     */
    method Store(start: nat, n: nat, data: seq<byte>)
      requires start < size == buffer.Length && n <= size && n <= |data|
      modifies buffer
      ensures Placed(size, start, n, data, old(buffer[..]), buffer[..])
    {
      var l := Min(n, size - start);
      forall k | 0 <= k < l {
        buffer[start + k] := data[k];
      }
      forall k | 0 <= k < n - l {
        buffer[k] := data[l + k];
      }
      PutPlacement(size, start, l, n, data, old(buffer[..]), buffer[..]);
    }

    /**
     * __kfifo_get: hands out up to `len` of the oldest bytes, reading from the
     * slot of `out` to the end of the buffer and then from slot 0. The buffer
     * is only read.
     */
    method Get(len: nat) returns (n: nat, got: seq<byte>)
      requires Valid() && len < U32
      modifies this
      ensures Valid()
      ensures n == Min(len, |old(contents)|) && |got| == n
      ensures got == old(contents)[..n] && contents == old(contents)[n..]
      ensures outIdx == Advance(old(outIdx), n) && inIdx == old(inIdx)
      ensures getLog == old(getLog) + got && putLog == old(putLog)
    {
      n := Min(len, Distance(inIdx, outIdx));
      var cells := buffer[..];
      got := ReadRing(cells, outIdx % size, n);
      var newOut := Advance(outIdx, n);
      ghost var rest := contents[n..];
      GetKeepsLayout(size, inIdx, outIdx, contents, n, cells);
      LogShift(putLog, getLog, contents, n);
      outIdx := newOut;
      contents := rest;
      getLog := getLog + got;
      assert buffer[..] == cells;
    }

    /** kfifo_put: __kfifo_put under the lock. */
    method LockedPut(data: seq<byte>) returns (n: nat)
      requires Valid() && |data| < U32
      modifies this, buffer
      ensures Valid()
      ensures n == Min(|data|, size - |old(contents)|)
      ensures contents == old(contents) + data[..n]
      ensures inIdx == Advance(old(inIdx), n) && outIdx == old(outIdx)
      ensures putLog == old(putLog) + data[..n] && getLog == old(getLog)
    {
      n := Put(data);
    }

    /**
     * kfifo_get: __kfifo_get under the lock, after which an emptied fifo has
     * both indices set back to 0. The stored bytes are the same either way.
     */
    method LockedGet(len: nat) returns (n: nat, got: seq<byte>)
      requires Valid() && len < U32
      modifies this
      ensures Valid()
      ensures n == Min(len, |old(contents)|) && |got| == n
      ensures got == old(contents)[..n] && contents == old(contents)[n..]
      ensures getLog == old(getLog) + got && putLog == old(putLog)
      ensures contents == [] ==> inIdx == 0 && outIdx == 0
      ensures contents != [] ==> inIdx == old(inIdx) && outIdx == Advance(old(outIdx), n)
    {
      n, got := Get(len);
      if inIdx == outIdx {
        inIdx, outIdx := 0, 0;
      }
    }

    /** kfifo_len: __kfifo_len under the lock. */
    method LockedLen() returns (r: nat)
      requires Valid()
      ensures r == |contents| && r == Len()
    {
      r := Len();
    }

    /** kfifo_reset: __kfifo_reset under the lock. */
    method LockedReset()
      requires Valid()
      modifies this
      ensures Valid() && inIdx == 0 && outIdx == 0
      ensures contents == [] && putLog == [] && getLog == []
    {
      Reset();
    }
  }

  /**
   * kfifo_alloc: null for a refused size; otherwise a fresh empty fifo.
   * A failing malloc is not modelled.
   */
  method Alloc(size: nat) returns (f: Fifo?)
    requires size < U32
    ensures f == null <==> !AllocAccepts(size)
    ensures f != null ==> fresh(f) && fresh(f.buffer) && f.Valid() && f.size == size
    ensures f != null ==> f.inIdx == 0 && f.outIdx == 0 && f.contents == []
  {
    if size < 2 || !IsPow2(size) {
      return null;
    }
    f := new Fifo(size);
  }

  /** FIFO order: the bytes handed outIdx since the last reset are a prefix of the bytes accepted. */
  lemma GetsArePrefixOfPuts(f: Fifo)
    requires f.Valid()
    ensures f.getLog <= f.putLog && f.putLog[|f.getLog|..] == f.contents
  {
  }
}
