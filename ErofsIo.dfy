/**
 * Byte-granular reads and writes of the EROFS target file through the sector
 * cache. The target only takes whole 512-byte sectors, so a request for
 * [offset, offset + len) is split into an optional partial head sector,
 * whole middle sectors and an optional partial tail sector; a partial sector
 * is read before it is rewritten, so the bytes around the request survive.
 *
 * What the builder sees is the cache's view: a map from sector address to
 * sector. A byte of the file is a byte of the sector holding it.
 */
module ErofsIo {
  import opened Bytes
  import opened Wrappers
  import opened ErofsCache

  const EINVAL: int := 22

  /** round_down_blk: the sector holding byte `x`. */
  function RoundDown(x: nat): (r: nat)
    ensures Aligned(r) && r <= x < r + SECTOR_SIZE
  {
    x - x % SECTOR_SIZE
  }

  /** round_up_blk: the first sector boundary at or after `x`. */
  function RoundUp(x: nat): (r: nat)
    ensures Aligned(r) && x <= r < x + SECTOR_SIZE
  {
    RoundDown(x + SECTOR_SIZE - 1)
  }

  /** Byte `p` as the view shows it (0 where the view has no such sector). */
  ghost function ByteAt(v: map<nat, seq<byte>>, p: nat): byte
  {
    var a := RoundDown(p);
    if a in v && |v[a]| == SECTOR_SIZE then v[a][p - a] else 0
  }

  /** The `len` bytes at `offset` as the view shows them. */
  ghost function ReadBytes(v: map<nat, seq<byte>>, offset: nat, len: nat): seq<byte>
  {
    seq<byte>(len, k requires 0 <= k < len => ByteAt(v, offset + k))
  }

  /** The sectors a request for [offset, offset + len) reads or writes. */
  ghost function Touched(offset: nat, len: nat): set<nat>
  {
    set a: nat | RoundDown(offset) <= a < RoundUp(offset + len) && Aligned(a)
  }

  /** A sector lies wholly inside [offset, offset + len). */
  predicate Covered(a: nat, offset: nat, len: nat)
  {
    offset <= a && a + SECTOR_SIZE <= offset + len
  }

  /** Sector `a` once `data` is written at `offset`: the data where it falls, the old bytes elsewhere. */
  ghost function SectorAfter(v: map<nat, seq<byte>>, a: nat, offset: nat, data: seq<byte>): seq<byte>
  {
    seq<byte>(SECTOR_SIZE, k requires 0 <= k < SECTOR_SIZE => ByteAfter(v, a + k, offset, data))
  }

  /** Byte `p` once `data` is written at `offset`. */
  ghost function ByteAfter(v: map<nat, seq<byte>>, p: nat, offset: nat, data: seq<byte>): byte
  {
    if offset <= p < offset + |data| then data[p - offset] else ByteAt(v, p)
  }

  /** The new contents of the sectors in `done`, for a write of `data` at `offset`. */
  ghost function Partial(v: map<nat, seq<byte>>, offset: nat, data: seq<byte>, done: set<nat>): map<nat, seq<byte>>
  {
    map a | a in done :: SectorAfter(v, a, offset, data)
  }

  /** The new contents of every sector a write of `data` at `offset` touches. */
  ghost function Written(v: map<nat, seq<byte>>, offset: nat, data: seq<byte>): map<nat, seq<byte>>
  {
    Partial(v, offset, data, Touched(offset, |data|))
  }

  /** The aligned sectors in [from, to). */
  ghost function Run(from: nat, to: nat): set<nat>
  {
    set a: nat | from <= a < to && Aligned(a)
  }

  // ---------------------------------------------------------------------
  // The split of a request into head, middle and tail, as the source
  // computes it.
  // ---------------------------------------------------------------------

  /** `i`: the first byte after the head sector, or `start` when there is no head. */
  function First(offset: nat, len: nat): nat
  {
    var start := RoundDown(offset);
    if start == offset then start else start + SECTOR_SIZE
  }

  /** `j`: the start of the tail sector, or `end` when there is no tail. */
  function Last(offset: nat, len: nat): nat
  {
    var end := RoundUp(offset + len);
    if end == offset + len then end else end - SECTOR_SIZE
  }

  /** The tail sector is read unless it is the head sector, already done. */
  predicate TailRead(offset: nat, len: nat)
  {
    var start, end := RoundDown(offset), RoundUp(offset + len);
    Last(offset, len) != end && (First(offset, len) == start || end - start > SECTOR_SIZE)
  }

  predicate HeadRead(offset: nat, len: nat)
  {
    First(offset, len) != RoundDown(offset)
  }

  /** The head sector, when it is read and rewritten on its own. */
  function HeadSet(offset: nat, len: nat): set<nat>
  {
    if HeadRead(offset, len) then {RoundDown(offset)} else {}
  }

  /** The tail sector, when it is read and rewritten on its own. */
  function TailSet(offset: nat, len: nat): set<nat>
  {
    if TailRead(offset, len) then {RoundUp(offset + len) - SECTOR_SIZE} else {}
  }

  /** The bytes the head sector contributes. */
  function HeadLen(offset: nat, len: nat): nat
  {
    if HeadRead(offset, len) then Min(RoundDown(offset) + SECTOR_SIZE - offset, len) else 0
  }

  /** The bytes the tail sector contributes. */
  function TailLen(offset: nat, len: nat): nat
  {
    if TailRead(offset, len) then offset + len + SECTOR_SIZE - RoundUp(offset + len) else 0
  }

  /** The bytes the whole middle sectors contribute. */
  function MiddleLen(offset: nat, len: nat): nat
  {
    if First(offset, len) <= Last(offset, len) then Last(offset, len) - First(offset, len) else 0
  }

  /**
   * The head, middle and tail pieces tile the request exactly, the head and
   * tail are the partial sectors, and the middle sectors are covered.
   */
  lemma Split(offset: nat, len: nat)
    requires RoundDown(offset) != offset || RoundUp(offset + len) != offset + len
    ensures RoundDown(offset) + SECTOR_SIZE <= RoundUp(offset + len)
    ensures Aligned(RoundUp(offset + len) - SECTOR_SIZE)
    ensures HeadLen(offset, len) + MiddleLen(offset, len) + TailLen(offset, len) == len
    ensures MiddleLen(offset, len) > 0 ==> First(offset, len) == offset + HeadLen(offset, len)
    ensures TailRead(offset, len) ==>
      RoundUp(offset + len) - SECTOR_SIZE == offset + HeadLen(offset, len) + MiddleLen(offset, len)
    ensures HeadRead(offset, len) ==> RoundDown(offset) < offset && offset - RoundDown(offset) + HeadLen(offset, len) <= SECTOR_SIZE
    ensures TailRead(offset, len) ==> 0 < TailLen(offset, len) < SECTOR_SIZE
    ensures TailRead(offset, len) && HeadRead(offset, len) ==> RoundDown(offset) != RoundUp(offset + len) - SECTOR_SIZE
    ensures Aligned(First(offset, len)) && Aligned(Last(offset, len))
    ensures TailRead(offset, len) ==> First(offset, len) <= Last(offset, len)
  {
  }

  /** What reading the head sector needs. */
  lemma HeadFacts(offset: nat, len: nat)
    requires RoundDown(offset) != offset || RoundUp(offset + len) != offset + len
    ensures HeadRead(offset, len) ==> offset - RoundDown(offset) + HeadLen(offset, len) <= SECTOR_SIZE
  {
    Split(offset, len);
  }

  /** What reading the tail sector needs. */
  lemma TailFacts(offset: nat, len: nat)
    requires RoundDown(offset) != offset || RoundUp(offset + len) != offset + len
    ensures TailRead(offset, len) ==>
      SECTOR_SIZE <= RoundUp(offset + len) && Aligned(RoundUp(offset + len) - SECTOR_SIZE) && TailLen(offset, len) <= SECTOR_SIZE
    ensures TailRead(offset, len) ==>
      offset <= RoundUp(offset + len) - SECTOR_SIZE < offset + len < RoundUp(offset + len)
    ensures TailRead(offset, len) ==> RoundUp(offset + len) - SECTOR_SIZE !in HeadSet(offset, len)
  {
    Split(offset, len);
  }

  /**
   * The plan of an unaligned write: the middle run is aligned and inside the
   * request, the head, tail and middle pieces add up to the request, and the
   * head sector, the tail sector and the run are exactly the touched sectors.
   */
  lemma WritePlan(offset: nat, len: nat)
    requires RoundDown(offset) != offset || RoundUp(offset + len) != offset + len
    ensures Aligned(First(offset, len)) && Aligned(Last(offset, len))
    ensures offset <= First(offset, len) && Last(offset, len) <= offset + len
    ensures HeadLen(offset, len) + TailLen(offset, len)
          + (if First(offset, len) <= Last(offset, len) then Last(offset, len) - First(offset, len) else 0) == len
    ensures Touched(offset, len) == HeadSet(offset, len) + TailSet(offset, len) + Run(First(offset, len), Last(offset, len))
  {
    Split(offset, len);
    SplitSectors(offset, len);
  }

  /**
   * The head and tail of an unaligned write, stated over the source's own
   * variables start, end and i and j.
   */
  lemma EdgePlan(offset: nat, len: nat, start: nat, end: nat, i: nat, j: nat, last: int)
    requires start == RoundDown(offset) && end == RoundUp(offset + len) && last == end - SECTOR_SIZE
    requires i == First(offset, len) && j == Last(offset, len)
    requires start != offset || end != offset + len
    ensures HeadSet(offset, len) == if i != start then {start} else {}
    ensures HeadLen(offset, len) == if i != start then Min(start + SECTOR_SIZE - offset, len) else 0
    ensures i != start ==> start < offset < start + SECTOR_SIZE && offset - start + Min(start + SECTOR_SIZE - offset, len) <= SECTOR_SIZE
    ensures 0 <= last
    ensures TailSet(offset, len) == if j != end && (i == start || end - start > SECTOR_SIZE) then {last} else {}
    ensures TailLen(offset, len) == if j != end && (i == start || end - start > SECTOR_SIZE) then offset + len + SECTOR_SIZE - end else 0
    ensures j != end && (i == start || end - start > SECTOR_SIZE) ==>
      offset <= last < offset + len < last + SECTOR_SIZE && last !in HeadSet(offset, len)
  {
    Split(offset, len);
  }

  /** A subset of one part of a union is a subset of the whole. */
  lemma SubsetUnion(a: set<nat>, b: set<nat>, c: set<nat>, t: set<nat>)
    requires a <= b && t == b + c
    ensures a <= t
  {
  }

  /** Adding nothing to a set. */
  lemma UnionEmpty(s: set<nat>)
    ensures s + {} == s && {} + s == s
  {
  }

  /** The middle run starts and ends on sector boundaries. */
  lemma RunFacts(offset: nat, len: nat)
    ensures Aligned(First(offset, len)) && Aligned(Last(offset, len))
    ensures offset <= First(offset, len) && Last(offset, len) <= offset + len
  {
  }

  /**
   * The head sector, the tail sector and the middle run are exactly the
   * touched sectors; the middle sectors are covered by the request and the
   * head sector is not.
   */
  lemma SplitSectors(offset: nat, len: nat)
    requires RoundDown(offset) != offset || RoundUp(offset + len) != offset + len
    ensures Touched(offset, len) == HeadSet(offset, len) + TailSet(offset, len) + Run(First(offset, len), Last(offset, len))
  {
    var start, end := RoundDown(offset), RoundUp(offset + len);
    var i, j := First(offset, len), Last(offset, len);
    var lhs := Touched(offset, len);
    var rhs := HeadSet(offset, len) + TailSet(offset, len) + Run(i, j);
    forall a | a in lhs ensures a in rhs {
      if a != start && a != end - SECTOR_SIZE {
        SectorBetween(start, a, end);
        assert a in Run(i, j);
      } else if a == start {
        assert i == start || a in HeadSet(offset, len);
      } else {
        assert j == end || a in TailSet(offset, len) || a == start;
      }
    }
    forall a | a in rhs ensures a in lhs {
      if a in Run(i, j) {
        assert start <= i && j <= end;
      }
    }
  }

  /** Every byte of the sector at an aligned address rounds down to that address. */
  lemma SameSector(a: nat, x: nat)
    requires Aligned(a) && a <= x < a + SECTOR_SIZE
    ensures RoundDown(x) == a
  {
    var q, m := x / SECTOR_SIZE, a / SECTOR_SIZE;
    assert x == SECTOR_SIZE * q + x % SECTOR_SIZE;
    assert a == SECTOR_SIZE * m;
    assert q == m;
  }

  /** An aligned address strictly between two sector boundaries is a whole sector inside them. */
  lemma SectorBetween(start: nat, a: nat, end: nat)
    requires Aligned(start) && Aligned(a) && Aligned(end) && start < a < end
    ensures start + SECTOR_SIZE <= a && a + SECTOR_SIZE <= end
  {
  }

  // ---------------------------------------------------------------------
  // What a write does to the bytes, and the read-after-write round trip.
  // ---------------------------------------------------------------------

  /** Every byte of a request lies in a sector the request touches. */
  lemma InTouched(offset: nat, len: nat, p: nat)
    requires offset <= p < offset + len
    ensures RoundDown(p) in Touched(offset, len)
  {
  }

  /**
   * After a write of `data` at `offset`, byte p reads as the data where it
   * falls in [offset, offset + |data|) and as before everywhere else: the
   * bytes around the request survive the read-modify-write.
   */
  lemma WrittenBytes(v: map<nat, seq<byte>>, offset: nat, data: seq<byte>, p: nat)
    ensures ByteAt(v + Written(v, offset, data), p) == ByteAfter(v, p, offset, data)
  {
    var a := RoundDown(p);
    var w := v + Written(v, offset, data);
    if offset <= p < offset + |data| {
      InTouched(offset, |data|, p);
    }
    if a in Touched(offset, |data|) {
      assert w[a] == SectorAfter(v, a, offset, data);
      assert w[a][p - a] == ByteAfter(v, a + (p - a), offset, data);
    }
  }

  /** Reading back what was written gives the data, and every touched sector is present. */
  lemma ReadAfterWrite(v: map<nat, seq<byte>>, offset: nat, data: seq<byte>)
    ensures Touched(offset, |data|) <= (v + Written(v, offset, data)).Keys
    ensures ReadBytes(v + Written(v, offset, data), offset, |data|) == data
  {
    var r := ReadBytes(v + Written(v, offset, data), offset, |data|);
    forall k | 0 <= k < |data| ensures r[k] == data[k] {
      WrittenBytes(v, offset, data, offset + k);
    }
  }

  /** A write leaves the bytes of the sectors it does not touch as they were. */
  lemma WriteKeepsUntouched(v: map<nat, seq<byte>>, offset: nat, data: seq<byte>, a: nat)
    requires a in v && a !in Touched(offset, |data|)
    ensures (v + Written(v, offset, data))[a] == v[a]
  {
  }

  // ---------------------------------------------------------------------
  // Pieces of the proofs about the sector loops.
  // ---------------------------------------------------------------------

  /** The `n` bytes from position p inside the sector at `a` are the view's bytes there. */
  lemma SectorSlice(v: map<nat, seq<byte>>, a: nat, p: nat, n: nat)
    requires Sectors(v) && a in v && a <= p && p - a + n <= SECTOR_SIZE
    ensures v[a][p - a..p - a + n] == ReadBytes(v, p, n)
  {
    var slice, bytes := v[a][p - a..p - a + n], ReadBytes(v, p, n);
    forall k | 0 <= k < n ensures slice[k] == bytes[k] {
      SameSector(a, p + k);
      assert |v[a]| == SECTOR_SIZE;
      assert bytes[k] == ByteAt(v, p + k) == v[a][p + k - a];
    }
  }

  lemma ReadBytesSplit(v: map<nat, seq<byte>>, offset: nat, m: nat, n: nat)
    ensures ReadBytes(v, offset, m + n) == ReadBytes(v, offset, m) + ReadBytes(v, offset + m, n)
  {
  }

  /** The bytes of a run followed by those of the next sector are the bytes of the longer run. */
  lemma RunBytesStep(v: map<nat, seq<byte>>, from: nat, addr: nat, next: nat, bytes: seq<byte>, sector: seq<byte>)
    requires from <= addr && next == addr + SECTOR_SIZE
    requires bytes == ReadBytes(v, from, addr - from) && sector == ReadBytes(v, addr, SECTOR_SIZE)
    ensures bytes + sector == ReadBytes(v, from, next - from)
  {
    ReadBytesSplit(v, from, addr - from, SECTOR_SIZE);
  }

  /** The sector after an aligned address below an aligned bound ends at or before it. */
  lemma NextSector(addr: nat, to: nat)
    requires Aligned(addr) && Aligned(to) && addr < to
    ensures Aligned(addr + SECTOR_SIZE) && addr + SECTOR_SIZE <= to
  {
  }

  /** Where the loop over a run stops, the run read or written so far is the whole run. */
  lemma RunEnd(from: nat, addr: nat, to: nat)
    requires from <= addr && to <= addr && (addr == from || addr <= to)
    ensures Run(from, addr) == Run(from, to)
  {
  }

  /** A run stopped early is part of the whole run. */
  lemma RunPrefix(from: nat, addr: nat, to: nat)
    requires addr <= to
    ensures Run(from, addr) <= Run(from, to)
  {
  }

  /** One more sector of a run. */
  lemma RunGrow(from: nat, addr: nat, next: nat)
    requires Aligned(addr) && from <= addr && next == addr + SECTOR_SIZE
    ensures Aligned(next) && Run(from, next) == Run(from, addr) + {addr}
  {
    var q := addr / SECTOR_SIZE;
    assert addr == SECTOR_SIZE * q;
    assert next == SECTOR_SIZE * (q + 1);
    assert Aligned(next);
    forall a | a in Run(from, next) ensures a in Run(from, addr) + {addr} {
      if a != addr {
        SectorsApart(a, addr);
      }
    }
    assert Run(from, addr) + {addr} <= Run(from, next);
  }

  /** Writing one more sector's new contents extends the set of written sectors. */
  lemma PartialStep(v: map<nat, seq<byte>>, offset: nat, data: seq<byte>, done: set<nat>, a: nat)
    ensures (v + Partial(v, offset, data, done))[a := SectorAfter(v, a, offset, data)]
         == v + Partial(v, offset, data, done + {a})
  {
  }

  /** Whatever part of a write has happened, the sectors it does not touch are as they were. */
  lemma PartialOutside(v: map<nat, seq<byte>>, offset: nat, data: seq<byte>, done: set<nat>)
    requires done <= Touched(offset, |data|)
    ensures forall a :: a in v && a !in Touched(offset, |data|) ==>
      a in v + Partial(v, offset, data, done) && (v + Partial(v, offset, data, done))[a] == v[a]
    ensures (v + Partial(v, offset, data, done)).Keys <= v.Keys + Touched(offset, |data|)
  {
  }

  /** A whole sector inside the request is the request's own bytes. */
  lemma MiddlePatch(v: map<nat, seq<byte>>, a: nat, offset: nat, data: seq<byte>)
    requires Covered(a, offset, |data|)
    ensures data[a - offset..a - offset + SECTOR_SIZE] == SectorAfter(v, a, offset, data)
  {
    var piece := data[a - offset..a - offset + SECTOR_SIZE];
    forall k | 0 <= k < SECTOR_SIZE ensures piece[k] == ByteAfter(v, a + k, offset, data) {
    }
  }

  /** The head sector with the first `h` request bytes copied in at `offset - start`. */
  lemma HeadPatch(v: map<nat, seq<byte>>, start: nat, offset: nat, data: seq<byte>, h: nat)
    requires Sectors(v) && start in v && start < offset && offset - start + h <= SECTOR_SIZE
    requires h == Min(start + SECTOR_SIZE - offset, |data|)
    ensures v[start][..offset - start] + data[..h] + v[start][offset - start + h..]
         == SectorAfter(v, start, offset, data)
  {
    var s := v[start];
    var patched := s[..offset - start] + data[..h] + s[offset - start + h..];
    forall k | 0 <= k < SECTOR_SIZE ensures patched[k] == ByteAfter(v, start + k, offset, data) {
      SameSector(start, start + k);
    }
  }

  /** The tail sector with the last `t` request bytes copied in at its start. */
  lemma TailPatch(v: map<nat, seq<byte>>, s: nat, offset: nat, data: seq<byte>)
    requires Sectors(v) && s in v && offset <= s < offset + |data| < s + SECTOR_SIZE
    ensures data[s - offset..] + v[s][offset + |data| - s..] == SectorAfter(v, s, offset, data)
  {
    var patched := data[s - offset..] + v[s][offset + |data| - s..];
    forall k | 0 <= k < SECTOR_SIZE ensures patched[k] == ByteAfter(v, s + k, offset, data) {
      SameSector(s, s + k);
    }
  }

  /** For a sector-aligned request the touched sectors are just the run it spans. */
  lemma AlignedTouched(offset: nat, len: nat, start: nat, end: nat)
    requires start == RoundDown(offset) && end == RoundUp(offset + len)
    requires start == offset && end == offset + len
    ensures Aligned(start) && Aligned(end)
    ensures Touched(offset, len) == Run(start, end)
  {
  }

  /**
   * The head, middle and tail bytes read from their sectors make up the
   * request, and the sectors they came from are all the touched sectors.
   */
  lemma Assemble(v: map<nat, seq<byte>>, offset: nat, len: nat, head: seq<byte>, middle: seq<byte>, tail: seq<byte>)
    requires RoundDown(offset) != offset || RoundUp(offset + len) != offset + len
    requires head == if HeadRead(offset, len) then ReadBytes(v, offset, HeadLen(offset, len)) else []
    requires middle == ReadBytes(v, First(offset, len), MiddleLen(offset, len))
    requires tail == if TailRead(offset, len) then ReadBytes(v, RoundUp(offset + len) - SECTOR_SIZE, TailLen(offset, len)) else []
    requires HeadRead(offset, len) ==> RoundDown(offset) in v
    requires TailRead(offset, len) ==> RoundUp(offset + len) - SECTOR_SIZE in v
    requires Run(First(offset, len), Last(offset, len)) <= v.Keys
    ensures head + middle + tail == ReadBytes(v, offset, len)
    ensures |head| + |middle| + |tail| == len
    ensures Touched(offset, len) <= v.Keys
  {
    Split(offset, len);
    SplitSectors(offset, len);
    var h, m, t := HeadLen(offset, len), MiddleLen(offset, len), TailLen(offset, len);
    ReadBytesSplit(v, offset, h, m);
    ReadBytesSplit(v, offset, h + m, t);
    if m == 0 {
      assert middle == ReadBytes(v, offset + h, m);
    }
    if t == 0 {
      assert tail == ReadBytes(v, offset + h + m, t);
    }
  }

  /**
   * `w` is `v` part-way through a write of `data` at `offset`: no sector has
   * gone, and each sector is either as it was or, if the write touches it,
   * fully rewritten.
   */
  ghost predicate Between(v: map<nat, seq<byte>>, w: map<nat, seq<byte>>, offset: nat, data: seq<byte>)
  {
    && v.Keys <= w.Keys
    && forall a :: a in w ==>
         (a in v && w[a] == v[a]) || (a in Touched(offset, |data|) && w[a] == SectorAfter(v, a, offset, data))
  }

  /** Having written some of the touched sectors is a state between the old view and the written one. */
  lemma PartialBetween(v: map<nat, seq<byte>>, offset: nat, data: seq<byte>, done: set<nat>)
    requires done <= Touched(offset, |data|)
    ensures Between(v, v + Partial(v, offset, data, done), offset, data)
  {
  }

  /**
   * However far a write got, every byte outside [offset, offset + |data|)
   * reads as before: a partial sector is only ever replaced by its
   * read-modify-write result.
   */
  lemma {:induction false} BetweenKeepsBytes(v: map<nat, seq<byte>>, w: map<nat, seq<byte>>, offset: nat, data: seq<byte>, p: nat)
    requires Sectors(v) && Between(v, w, offset, data)
    requires !(offset <= p < offset + |data|)
    ensures ByteAt(w, p) == ByteAt(v, p)
  {
    var a: nat := RoundDown(p);
    if a in w && !(a in v && w[a] == v[a]) {
      assert w[a] == SectorAfter(v, a, offset, data);
      assert w[a][p - a] == ByteAfter(v, a + (p - a), offset, data);
    }
  }

  /** No sector written yet: the view is the old one. */
  lemma PartialNone(v: map<nat, seq<byte>>, offset: nat, data: seq<byte>)
    ensures v + Partial(v, offset, data, {}) == v
  {
  }

  /** The first sector written. */
  lemma PartialFirst(v: map<nat, seq<byte>>, offset: nat, data: seq<byte>, a: nat)
    ensures v[a := SectorAfter(v, a, offset, data)] == v + Partial(v, offset, data, {a})
  {
  }

  /** A sector the write has not reached reads as before. */
  lemma PartialOther(v: map<nat, seq<byte>>, offset: nat, data: seq<byte>, done: set<nat>, a: nat)
    requires a !in done && a in v + Partial(v, offset, data, done)
    ensures a in v && (v + Partial(v, offset, data, done))[a] == v[a]
  {
  }

  // ---------------------------------------------------------------------
  // The operations.
  // ---------------------------------------------------------------------

  /**
   * The loop over whole sectors [from, to): each is read straight into the
   * caller's buffer. Stops with false at the first sector the cache cannot
   * deliver. The view never changes.
   */
  method ReadRun(cache: Cache, from: nat, to: nat, ghost v: map<nat, seq<byte>>) returns (ok: bool, bytes: seq<byte>)
    requires cache.Valid() && cache.view == v && Aligned(from) && Aligned(to)
    modifies cache
    ensures cache.Valid() && cache.view == v && |cache.disk| == |old(cache.disk)|
    ensures ok ==> Run(from, to) <= v.Keys
    ensures ok ==> bytes == ReadBytes(v, from, if from <= to then to - from else 0)
  {
    bytes := [];
    var addr := from;
    while addr < to
      invariant cache.Valid() && cache.view == v && |cache.disk| == |old(cache.disk)|
      invariant from <= addr && Aligned(addr) && (addr == from || addr <= to)
      invariant Run(from, addr) <= v.Keys
      invariant bytes == ReadBytes(v, from, addr - from)
      decreases if addr <= to then to - addr else 0
    {
      var got, sector := ReadPiece(cache, addr, addr, SECTOR_SIZE, v);
      if !got {
        return false, bytes;
      }
      var next := addr + SECTOR_SIZE;
      RunBytesStep(v, from, addr, next, bytes, sector);
      RunGrow(from, addr, next);
      NextSector(addr, to);
      bytes := bytes + sector;
      addr := next;
    }
    ok := true;
  }

  /**
   * One partial sector: the sector at `a` is read into the side buffer and
   * the `n` bytes from file position `p` copied out. The view never changes.
   */
  method ReadPiece(cache: Cache, a: nat, p: nat, n: nat, ghost v: map<nat, seq<byte>>) returns (ok: bool, piece: seq<byte>)
    requires cache.Valid() && cache.view == v && Aligned(a) && a <= p && p - a + n <= SECTOR_SIZE
    modifies cache
    ensures cache.Valid() && cache.view == v && |cache.disk| == |old(cache.disk)|
    ensures ok ==> a in v && piece == ReadBytes(v, p, n) && |piece| == n
  {
    ViewIsSectors(cache.view, cache.disk, cache.caches, cache.dirty);
    var rc, sector := cache.ReadSector(a);
    ok := rc == SECTOR_SIZE;
    piece := [];
    if ok {
      SectorSlice(v, a, p, n);
      piece := sector[p - a..p - a + n];
    }
  }

  /**
   * erofs_read_photon_file: reads [offset, offset + len) through the cache.
   * Returns len with the view's bytes, or -1 when a sector read fails. The
   * view never changes.
   */
  method ReadPhotonFile(cache: Cache, offset: nat, len: nat) returns (r: int, buf: seq<byte>)
    requires cache.Valid()
    modifies cache
    ensures cache.Valid() && cache.view == old(cache.view) && |cache.disk| == |old(cache.disk)|
    ensures r == len || r == -1
    ensures r == len ==> Touched(offset, len) <= old(cache.view).Keys
    ensures r == len ==> buf == ReadBytes(old(cache.view), offset, len)
  {
    ghost var v := cache.view;
    var start := RoundDown(offset);
    var end := RoundUp(offset + len);
    if start != offset || end != offset + len {
      r, buf := ReadUnaligned(cache, offset, len, v);
    } else {
      AlignedTouched(offset, len, start, end);
      var ok, whole := ReadRun(cache, start, end, v);
      if !ok {
        return -1, [];
      }
      r, buf := |whole|, whole;
    }
  }

  /**
   * The unaligned case of erofs_read_photon_file: the head and tail sectors
   * go through a side buffer from which the wanted bytes are copied; a head
   * and tail in one sector are read once; the whole sectors between are read
   * directly. The pieces are read head, tail, middle, as in the source.
   */
  method ReadUnaligned(cache: Cache, offset: nat, len: nat, ghost v: map<nat, seq<byte>>) returns (r: int, buf: seq<byte>)
    requires cache.Valid() && cache.view == v
    requires RoundDown(offset) != offset || RoundUp(offset + len) != offset + len
    modifies cache
    ensures cache.Valid() && cache.view == v && |cache.disk| == |old(cache.disk)|
    ensures r == len || r == -1
    ensures r == len ==> Touched(offset, len) <= v.Keys && buf == ReadBytes(v, offset, len)
  {
    RunFacts(offset, len);
    var ok, head := ReadHead(cache, offset, len, v);
    if !ok {
      return -1, [];
    }
    var tail;
    ok, tail := ReadTail(cache, offset, len, v);
    if !ok {
      return -1, [];
    }
    var middle;
    ok, middle := ReadRun(cache, First(offset, len), Last(offset, len), v);
    if !ok {
      return -1, [];
    }
    Assemble(v, offset, len, head, middle, tail);
    r, buf := |head| + |middle| + |tail|, head + middle + tail;
  }

  /** The head sector of an unaligned read, when `offset` is not aligned. */
  method ReadHead(cache: Cache, offset: nat, len: nat, ghost v: map<nat, seq<byte>>) returns (ok: bool, head: seq<byte>)
    requires cache.Valid() && cache.view == v
    requires RoundDown(offset) != offset || RoundUp(offset + len) != offset + len
    modifies cache
    ensures cache.Valid() && cache.view == v && |cache.disk| == |old(cache.disk)|
    ensures ok ==> (HeadRead(offset, len) ==> RoundDown(offset) in v)
    ensures ok ==> head == if HeadRead(offset, len) then ReadBytes(v, offset, HeadLen(offset, len)) else []
  {
    HeadFacts(offset, len);
    var start := RoundDown(offset);
    if First(offset, len) != start {
      ok, head := ReadPiece(cache, start, offset, HeadLen(offset, len), v);
    } else {
      ok, head := true, [];
    }
  }

  /** The tail sector of an unaligned read, unless it is the head sector. */
  method ReadTail(cache: Cache, offset: nat, len: nat, ghost v: map<nat, seq<byte>>) returns (ok: bool, tail: seq<byte>)
    requires cache.Valid() && cache.view == v
    requires RoundDown(offset) != offset || RoundUp(offset + len) != offset + len
    modifies cache
    ensures cache.Valid() && cache.view == v && |cache.disk| == |old(cache.disk)|
    ensures ok ==> (TailRead(offset, len) ==> RoundUp(offset + len) - SECTOR_SIZE in v)
    ensures ok ==> tail == if TailRead(offset, len) then ReadBytes(v, RoundUp(offset + len) - SECTOR_SIZE, TailLen(offset, len)) else []
  {
    TailFacts(offset, len);
    var end := RoundUp(offset + len);
    if TailRead(offset, len) {
      ok, tail := ReadPiece(cache, end - SECTOR_SIZE, end - SECTOR_SIZE, TailLen(offset, len), v);
    } else {
      ok, tail := true, [];
    }
  }

  /** read_sector as the byte-level code relies on it: a success returns the sector the builder sees. */
  method ReadSectorOf(cache: Cache, a: nat, ghost w: map<nat, seq<byte>>) returns (ok: bool, sector: seq<byte>)
    requires cache.Valid() && cache.view == w
    modifies cache
    ensures cache.Valid() && cache.view == w && |cache.disk| == |old(cache.disk)|
    ensures ok ==> a in w && sector == w[a]
  {
    var rc;
    rc, sector := cache.ReadSector(a);
    ok := rc == SECTOR_SIZE;
  }

  /** write_sector as the byte-level code relies on it: a success replaces that sector of the view. */
  method WriteSectorOf(cache: Cache, a: nat, buf: seq<byte>, ghost w: map<nat, seq<byte>>) returns (ok: bool)
    requires cache.Valid() && cache.view == w && |buf| == SECTOR_SIZE
    modifies cache
    ensures cache.Valid() && |cache.disk| == |old(cache.disk)|
    ensures ok ==> cache.view == w[a := buf]
    ensures !ok ==> cache.view == w
  {
    var rc := cache.WriteSector(a, buf);
    ok := rc == SECTOR_SIZE;
  }

  /** One whole sector of a write, straight from the caller's buffer. */
  method WriteWhole(cache: Cache, offset: nat, data: seq<byte>, addr: nat,
                    ghost v: map<nat, seq<byte>>, ghost done: set<nat>) returns (ok: bool)
    requires cache.Valid() && cache.view == v + Partial(v, offset, data, done)
    requires Aligned(addr) && Covered(addr, offset, |data|)
    modifies cache
    ensures cache.Valid() && |cache.disk| == |old(cache.disk)|
    ensures ok ==> cache.view == v + Partial(v, offset, data, done + {addr})
    ensures !ok ==> cache.view == v + Partial(v, offset, data, done)
  {
    MiddlePatch(v, addr, offset, data);
    var rc := cache.WriteSector(addr, data[addr - offset..addr - offset + SECTOR_SIZE]);
    ok := rc == SECTOR_SIZE;
    if ok {
      PartialStep(v, offset, data, done, addr);
    }
  }

  /**
   * The loop over whole sectors [from, to) of a write: each is written
   * straight from the caller's buffer. Stops with false at the first sector
   * the cache refuses, leaving the sectors before it written.
   */
  method WriteRun(cache: Cache, offset: nat, data: seq<byte>, from: nat, to: nat,
                  ghost v: map<nat, seq<byte>>, ghost done: set<nat>, ghost total: set<nat>)
    returns (ok: bool, count: nat, ghost reached: set<nat>)
    requires cache.Valid() && cache.view == v + Partial(v, offset, data, done)
    requires Aligned(from) && Aligned(to) && offset <= from && to <= offset + |data|
    requires total == done + Run(from, to)
    modifies cache
    ensures cache.Valid() && |cache.disk| == |old(cache.disk)|
    ensures cache.view == v + Partial(v, offset, data, reached) && reached <= total
    ensures ok ==> reached == total && count == if from <= to then to - from else 0
  {
    var addr := from;
    count := 0;
    ghost var d := done;
    while addr < to
      invariant cache.Valid() && |cache.disk| == |old(cache.disk)|
      invariant from <= addr && Aligned(addr) && (addr == from || addr <= to)
      invariant d == done + Run(from, addr) && count == addr - from
      invariant cache.view == v + Partial(v, offset, data, d)
      decreases if addr <= to then to - addr else 0
    {
      var next := addr + SECTOR_SIZE;
      NextSector(addr, to);
      var written := WriteWhole(cache, offset, data, addr, v, d);
      if !written {
        RunPrefix(from, addr, to);
        return false, count, d;
      }
      RunGrow(from, addr, next);
      count := count + SECTOR_SIZE;
      d := d + {addr};
      addr := next;
    }
    RunEnd(from, addr, to);
    ok, reached := true, d;
  }

  /**
   * erofs_write_photon_file: writes `data` at `offset` through the cache and
   * returns |data|, or -1 at the first sector read or write that fails. On
   * success every touched sector holds its new contents; whatever happens,
   * the view is a state between the old one and the written one.
   */
  method WritePhotonFile(cache: Cache, offset: nat, data: seq<byte>) returns (r: int)
    requires cache.Valid()
    modifies cache
    ensures cache.Valid() && |cache.disk| == |old(cache.disk)|
    ensures r == |data| || r == -1
    ensures r == |data| ==> cache.view == old(cache.view) + Written(old(cache.view), offset, data)
    ensures Between(old(cache.view), cache.view, offset, data)
  {
    ghost var v := cache.view;
    ghost var reached;
    ViewIsSectors(cache.view, cache.disk, cache.caches, cache.dirty);
    var start := RoundDown(offset);
    var end := RoundUp(offset + |data|);
    if start != offset || end != offset + |data| {
      r, reached := WriteUnaligned(cache, offset, data, start, end, v);
    } else {
      r, reached := WriteAligned(cache, offset, data, start, end, v);
    }
    PartialBetween(v, offset, data, reached);
  }

  /**
   * The aligned case of erofs_write_photon_file: every sector is written
   * straight from the caller's buffer. `reached` is the set of sectors
   * written before any failure.
   */
  method WriteAligned(cache: Cache, offset: nat, data: seq<byte>, start: nat, end: nat, ghost v: map<nat, seq<byte>>)
    returns (r: int, ghost reached: set<nat>)
    requires cache.Valid() && cache.view == v
    requires start == RoundDown(offset) && end == RoundUp(offset + |data|)
    requires start == offset && end == offset + |data|
    modifies cache
    ensures cache.Valid() && |cache.disk| == |old(cache.disk)|
    ensures r == |data| || r == -1
    ensures cache.view == v + Partial(v, offset, data, reached) && reached <= Touched(offset, |data|)
    ensures r == |data| ==> reached == Touched(offset, |data|)
  {
    AlignedTouched(offset, |data|, start, end);
    UnionEmpty(Run(start, end));
    PartialNone(v, offset, data);
    var ok, count;
    ok, count, reached := WriteRun(cache, offset, data, start, end, v, {}, Touched(offset, |data|));
    if !ok {
      return -1, reached;
    }
    r := count;
  }

  /**
   * The unaligned case of erofs_write_photon_file: the head sector, then the
   * tail sector unless it is the head sector, each read, patched and written
   * back; then the whole sectors between, written directly. The count
   * returned is summed piece by piece, as in the source.
   */
  method WriteUnaligned(cache: Cache, offset: nat, data: seq<byte>, start: nat, end: nat, ghost v: map<nat, seq<byte>>)
    returns (r: int, ghost reached: set<nat>)
    requires cache.Valid() && cache.view == v && Sectors(v)
    requires start == RoundDown(offset) && end == RoundUp(offset + |data|)
    requires start != offset || end != offset + |data|
    modifies cache
    ensures cache.Valid() && |cache.disk| == |old(cache.disk)|
    ensures r == |data| || r == -1
    ensures cache.view == v + Partial(v, offset, data, reached) && reached <= Touched(offset, |data|)
    ensures r == |data| ==> reached == Touched(offset, |data|)
  {
    var i, j := First(offset, |data|), Last(offset, |data|);
    WritePlan(offset, |data|);
    ghost var edges := HeadSet(offset, |data|) + TailSet(offset, |data|);
    var ok, write;
    ok, write, reached := WriteEdges(cache, offset, data, start, end, i, j, v);
    if !ok {
      SubsetUnion(reached, edges, Run(i, j), Touched(offset, |data|));
      return -1, reached;
    }
    var count;
    ok, count, reached := WriteRun(cache, offset, data, i, j, v, edges, Touched(offset, |data|));
    if !ok {
      return -1, reached;
    }
    r := write + count;
  }

  /**
   * The head and tail sectors of an unaligned write, in the source's order.
   * `write` counts the request bytes they took; `reached` is the set of
   * sectors written before any failure.
   */
  method WriteEdges(cache: Cache, offset: nat, data: seq<byte>, start: nat, end: nat, i: nat, j: nat, ghost v: map<nat, seq<byte>>)
    returns (ok: bool, write: nat, ghost reached: set<nat>)
    requires cache.Valid() && cache.view == v && Sectors(v)
    requires start == RoundDown(offset) && end == RoundUp(offset + |data|)
    requires i == First(offset, |data|) && j == Last(offset, |data|)
    requires start != offset || end != offset + |data|
    modifies cache
    ensures cache.Valid() && |cache.disk| == |old(cache.disk)|
    ensures cache.view == v + Partial(v, offset, data, reached)
    ensures reached <= HeadSet(offset, |data|) + TailSet(offset, |data|)
    ensures ok ==> reached == HeadSet(offset, |data|) + TailSet(offset, |data|)
    ensures ok ==> write == HeadLen(offset, |data|) + TailLen(offset, |data|)
  {
    var last := end - SECTOR_SIZE;
    EdgePlan(offset, |data|, start, end, i, j, last);
    ghost var head := HeadSet(offset, |data|);
    PartialNone(v, offset, data);
    write := 0;
    if i != start {
      var h := Min(start + SECTOR_SIZE - offset, |data|);
      ok := WriteHead(cache, offset, data, start, h, v);
      if !ok {
        return false, 0, {};
      }
      write := h;
    }
    UnionEmpty(head);
    if j != end && (i == start || end - start > SECTOR_SIZE) {
      ok := WriteTail(cache, offset, data, last, v, head);
      if !ok {
        return false, 0, head;
      }
      write := write + (offset + |data| + SECTOR_SIZE - end);
    }
    ok, reached := true, head + TailSet(offset, |data|);
  }

  /** The head sector of an unaligned write: read, patched with the first `h` request bytes, written back. */
  method WriteHead(cache: Cache, offset: nat, data: seq<byte>, start: nat, h: nat, ghost v: map<nat, seq<byte>>) returns (ok: bool)
    requires cache.Valid() && cache.view == v && Sectors(v)
    requires start < offset && offset - start + h <= SECTOR_SIZE && h == Min(start + SECTOR_SIZE - offset, |data|)
    modifies cache
    ensures cache.Valid() && |cache.disk| == |old(cache.disk)|
    ensures ok ==> cache.view == v + Partial(v, offset, data, {start})
    ensures !ok ==> cache.view == v
  {
    var got, sector := ReadSectorOf(cache, start, v);
    if !got {
      return false;
    }
    HeadPatch(v, start, offset, data, h);
    ok := WriteSectorOf(cache, start, sector[..offset - start] + data[..h] + sector[offset - start + h..], v);
    if ok {
      PartialFirst(v, offset, data, start);
    }
  }

  /** The tail sector `s` of an unaligned write: read, patched with the last request bytes, written back. */
  method WriteTail(cache: Cache, offset: nat, data: seq<byte>, s: nat, ghost v: map<nat, seq<byte>>, ghost head: set<nat>) returns (ok: bool)
    requires cache.Valid() && cache.view == v + Partial(v, offset, data, head) && Sectors(v)
    requires s !in head && offset <= s < offset + |data| < s + SECTOR_SIZE
    modifies cache
    ensures cache.Valid() && |cache.disk| == |old(cache.disk)|
    ensures ok ==> cache.view == v + Partial(v, offset, data, head + {s})
    ensures !ok ==> cache.view == v + Partial(v, offset, data, head)
  {
    ghost var w := v + Partial(v, offset, data, head);
    var got, sector := ReadSectorOf(cache, s, w);
    if !got {
      return false;
    }
    PartialOther(v, offset, data, head, s);
    TailPatch(v, s, offset, data);
    ok := WriteSectorOf(cache, s, data[s - offset..] + sector[offset + |data| - s..], w);
    if ok {
      PartialStep(v, offset, data, head, s);
    }
  }

  // ---------------------------------------------------------------------
  // The target file's operations as the EROFS builder calls them. A null
  // target is `null`; a null buffer is `None`.
  // ---------------------------------------------------------------------

  /** erofs_target_pread: len on success, -1 on a failed read, -EINVAL without a target. */
  method TargetPread(cache: Cache?, offset: nat, len: nat) returns (r: int, buf: seq<byte>)
    requires cache != null ==> cache.Valid()
    modifies cache
    ensures cache == null ==> r == -EINVAL
    ensures cache != null ==> cache.Valid() && cache.view == old(cache.view) && |cache.disk| == |old(cache.disk)|
    ensures cache != null ==> (r == len || r == -1)
    ensures cache != null && r == len ==> buf == ReadBytes(old(cache.view), offset, len)
  {
    if cache == null {
      return -EINVAL, [];
    }
    var got;
    got, buf := ReadPhotonFile(cache, offset, len);
    if got != len {
      return -1, buf;
    }
    r := len;
  }

  /** erofs_target_pwrite: the write's result, or -EINVAL without a target or a buffer. */
  method TargetPwrite(cache: Cache?, buf: Option<seq<byte>>, offset: nat) returns (r: int)
    requires cache != null ==> cache.Valid()
    modifies cache
    ensures cache == null || buf == None ==> r == -EINVAL
    ensures cache != null ==> cache.Valid() && |cache.disk| == |old(cache.disk)|
    ensures cache != null && buf == None ==> cache.view == old(cache.view)
    ensures cache != null && buf.Some? ==> r == |buf.value| || r == -1
    ensures cache != null && buf.Some? && r == |buf.value| ==>
      cache.view == old(cache.view) + Written(old(cache.view), offset, buf.value)
    ensures cache != null && buf.Some? ==> Between(old(cache.view), cache.view, offset, buf.value)
  {
    if cache == null {
      return -EINVAL;
    }
    if buf == None {
      return -EINVAL;
    }
    r := WritePhotonFile(cache, offset, buf.value);
  }

  /** erofs_target_fsync: the cache's flush, or -EINVAL without a target. */
  method TargetFsync(cache: Cache?) returns (r: int)
    requires cache != null ==> cache.Valid()
    modifies cache
    ensures cache == null ==> r == -EINVAL
    ensures cache != null ==> cache.Valid() && cache.view == old(cache.view) && |cache.disk| == |old(cache.disk)|
    ensures cache != null ==> (r == 0 || r == -1)
    ensures cache != null && r == 0 ==> cache.caches == map[] && cache.dirty == {}
  {
    if cache == null {
      return -EINVAL;
    }
    r := cache.Flush();
  }

  /** The size of erofs_target_fallocate's zero buffer. */
  const ZERO_CHUNK: nat := 4096

  /**
   * erofs_target_fallocate: zeroes [offset, offset + len). Every pass of the
   * source's loop over 4096-byte chunks returns, since a successful write
   * reports 4096, not 0; so a request longer than 4096 writes one chunk and
   * returns 4096 (or the failed write's result), and a shorter one writes
   * its bytes and returns 0, or -1 when the write falls short.
   */
  method TargetFallocate(cache: Cache?, offset: nat, len: nat) returns (r: int)
    requires cache != null ==> cache.Valid()
    modifies cache
    ensures cache == null ==> r == if len > ZERO_CHUNK then -EINVAL else -1
    ensures cache != null ==> cache.Valid() && |cache.disk| == |old(cache.disk)|
    ensures cache != null && len > ZERO_CHUNK ==> (r == ZERO_CHUNK || r == -1)
    ensures cache != null && len > ZERO_CHUNK && r == ZERO_CHUNK ==>
      cache.view == old(cache.view) + Written(old(cache.view), offset, Zeros(ZERO_CHUNK))
    ensures cache != null && len <= ZERO_CHUNK ==> (r == 0 || r == -1)
    ensures cache != null && len <= ZERO_CHUNK && r == 0 ==>
      cache.view == old(cache.view) + Written(old(cache.view), offset, Zeros(len))
  {
    if len > ZERO_CHUNK {
      r := TargetPwrite(cache, Some(Zeros(ZERO_CHUNK)), offset);
      return;
    }
    var written := TargetPwrite(cache, Some(Zeros(len)), offset);
    if written != len {
      return -1;
    }
    r := 0;
  }
}
