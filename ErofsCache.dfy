/**
 * The write-back sector cache that sits between the EROFS builder and the
 * target file: a map from sector address to 512-byte sector plus the set of
 * dirty addresses. When the map is full, a miss evicts the lowest address,
 * writing it back first if it is dirty.
 *
 * The target file is a byte sequence of fixed size; a one-sector pwrite or
 * pread succeeds only when the sector lies inside it.
 */
module ErofsCache {
  import opened Bytes

  const SECTOR_SIZE: nat := 512
  const EIO: int := 5

  predicate Aligned(addr: nat)
  {
    addr % SECTOR_SIZE == 0
  }

  /** A one-sector pwrite or pread at `addr` transfers the whole sector. */
  predicate InFile(disk: seq<byte>, addr: nat)
  {
    addr + SECTOR_SIZE <= |disk|
  }

  /** The target file after a successful one-sector pwrite at `addr`. */
  function WriteBack(disk: seq<byte>, addr: nat, data: seq<byte>): (r: seq<byte>)
    requires InFile(disk, addr) && |data| == SECTOR_SIZE
    ensures |r| == |disk| && r[addr..addr + SECTOR_SIZE] == data
    ensures forall p :: 0 <= p < |disk| && !(addr <= p < addr + SECTOR_SIZE) ==> r[p] == disk[p]
  {
    disk[..addr] + data + disk[addr + SECTOR_SIZE..]
  }

  /** The addresses of the sectors that lie wholly inside the file. */
  ghost function FileSectors(disk: seq<byte>): set<nat>
  {
    set a: nat | a < |disk| && Aligned(a) && InFile(disk, a)
  }

  /** The sectors as the builder sees them: a cached copy if there is one, else the file's. */
  ghost function ViewOf(disk: seq<byte>, caches: map<nat, seq<byte>>): map<nat, seq<byte>>
  {
    map a | a in caches.Keys + FileSectors(disk) ::
      if a in caches then caches[a] else disk[a..a + SECTOR_SIZE]
  }

  /**
   * Sector `a` is in the view. Shows's quantifiers fire only on this term, so
   * a proof that merely passes a cache along does not unfold them.
   */
  ghost predicate InView(view: map<nat, seq<byte>>, a: nat)
  {
    a in view
  }

  /**
   * `view` is what the builder sees over `disk` and `caches`, stated pointwise:
   * the same map as ViewOf (ShowsViewOf).
   */
  ghost predicate Shows(view: map<nat, seq<byte>>, disk: seq<byte>, caches: map<nat, seq<byte>>)
  {
    && caches.Keys <= view.Keys
    && (forall a: nat {:trigger InView(view, a)} :: InView(view, a) ==> Aligned(a) && (a in caches || InFile(disk, a)))
    && (forall a: nat {:trigger InView(view, a)} :: InView(view, a) ==>
          view[a] == if a in caches then caches[a] else disk[a..a + SECTOR_SIZE])
    && (forall a: nat {:trigger InView(view, a)} :: Aligned(a) && InFile(disk, a) ==> InView(view, a))
  }

  /** A map of whole sectors at aligned addresses. */
  ghost predicate Sectors(v: map<nat, seq<byte>>)
  {
    forall a :: a in v ==> Aligned(a) && |v[a]| == SECTOR_SIZE
  }

  /** The lowest address of a non-empty set: the first key of a std::map. */
  method Lowest(s: set<nat>) returns (m: nat)
    requires s != {}
    ensures m in s && forall x :: x in s ==> m <= x
  {
    m :| m in s;
    var rest := s - {m};
    while rest != {}
      invariant m in s && rest <= s
      invariant forall x :: x in s && x !in rest ==> m <= x
      decreases |rest|
    {
      var x :| x in rest;
      if x < m {
        m := x;
      }
      rest := rest - {x};
    }
  }

  /**
   * Every cached sector is an aligned, whole sector, and every clean one is
   * the file's own copy.
   */
  ghost predicate Coherent(disk: seq<byte>, caches: map<nat, seq<byte>>, dirty: set<nat>)
  {
    && (forall a :: a in caches ==> Aligned(a) && |caches[a]| == SECTOR_SIZE)
    && (forall a :: a in caches && a !in dirty ==> InFile(disk, a) && caches[a] == disk[a..a + SECTOR_SIZE])
  }

  class Cache {
    var disk: seq<byte>
    const capacity: nat
    var caches: map<nat, seq<byte>>
    var dirty: set<nat>
    /** The sectors as the builder sees them. */
    ghost var view: map<nat, seq<byte>>

    ghost predicate Valid()
      reads this
    {
      && capacity >= 1 && |caches| <= capacity && dirty <= caches.Keys
      && Coherent(disk, caches, dirty) && Shows(view, disk, caches)
    }

    /** ErofsCache(file, capacity): an empty cache over `disk`. */
    constructor (disk: seq<byte>, capacity: nat)
      requires capacity >= 1
      ensures Valid() && this.disk == disk && this.capacity == capacity
      ensures caches == map[] && dirty == {} && view == ViewOf(disk, map[])
    {
      this.disk := disk;
      this.capacity := capacity;
      caches := map[];
      dirty := {};
      view := ViewOf(disk, map[]);
      ShowsViewOf(ViewOf(disk, map[]), disk, map[]);
    }

    /**
     * The eviction step of a miss on a full cache: the lowest address leaves
     * the map, after a write-back if it is dirty. A failed write-back changes
     * nothing and is reported as false.
     */
    method Evict() returns (ok: bool, victim: nat)
      requires Valid() && caches != map[]
      modifies this
      ensures Valid() && view == old(view) && |disk| == |old(disk)|
      ensures victim in old(caches) && forall b :: b in old(caches) ==> victim <= b
      ensures ok <==> !(victim in old(dirty) && !InFile(old(disk), victim))
      ensures ok ==> caches == old(caches) - {victim} && dirty == old(dirty) - {victim}
      ensures !ok ==> caches == old(caches) && dirty == old(dirty) && disk == old(disk)
    {
      victim := Lowest(caches.Keys);
      if victim in dirty && !InFile(disk, victim) {
        return false, victim;
      }
      ghost var disk0 := disk;
      if victim in dirty {
        disk := WriteBack(disk, victim, caches[victim]);
      }
      EvictionSound(view, disk0, disk, caches, dirty, victim);
      caches := caches - {victim};
      dirty := dirty - {victim};
      ok := true;
    }

    /**
     * write_sector: -1 for an unaligned address; otherwise the sector is
     * cached and dirty and SECTOR_SIZE is returned, unless a needed eviction
     * could not write back, which gives -EIO and changes nothing.
     */
    method WriteSector(addr: nat, buf: seq<byte>) returns (r: int)
      requires Valid() && |buf| == SECTOR_SIZE
      modifies this
      ensures Valid() && |disk| == |old(disk)|
      ensures r == -1 <==> !Aligned(addr)
      ensures r == -1 || r == -EIO || r == SECTOR_SIZE as int
      ensures r == SECTOR_SIZE ==> view == old(view)[addr := buf] && addr in dirty && caches[addr] == buf
      ensures r != SECTOR_SIZE ==> view == old(view)
      ensures old(addr in caches) && Aligned(addr) ==>
        r == SECTOR_SIZE && caches == old(caches)[addr := buf] && dirty == old(dirty) + {addr} && disk == old(disk)
    {
      if !Aligned(addr) {
        return -1;
      }
      if addr !in caches && |caches| == capacity {
        var ok, _ := Evict();
        if !ok {
          return -EIO;
        }
      }
      StoreSound(view, disk, caches, dirty, addr, buf);
      caches := caches[addr := buf];
      dirty := dirty + {addr};
      view := view[addr := buf];
      r := SECTOR_SIZE;
    }

    /**
     * read_sector: -1 for an unaligned address; a hit returns the cached
     * copy; a miss loads the sector from the file as a clean entry. What the
     * builder sees never changes.
     */
    method ReadSector(addr: nat) returns (r: int, data: seq<byte>)
      requires Valid()
      modifies this
      ensures Valid() && |disk| == |old(disk)|
      ensures view == old(view)
      ensures r == -1 <==> !Aligned(addr)
      ensures r == -1 || r == -EIO || r == SECTOR_SIZE as int
      ensures r == SECTOR_SIZE ==> addr in old(view) && data == old(view)[addr] && addr in caches
      ensures r == SECTOR_SIZE && old(addr !in caches) ==> addr !in dirty
      ensures Aligned(addr) && addr !in old(view) ==> r == -EIO
      ensures old(addr in caches) && Aligned(addr) ==> r == SECTOR_SIZE && caches == old(caches) && dirty == old(dirty)
    {
      data := [];
      if !Aligned(addr) {
        return -1, data;
      }
      if addr in caches {
        assert InView(view, addr);
        return SECTOR_SIZE, caches[addr];
      }
      if |caches| == capacity {
        var ok, _ := Evict();
        if !ok {
          return -EIO, data;
        }
      }
      if !InFile(disk, addr) {
        assert !InView(view, addr);
        return -EIO, data;
      }
      assert InView(view, addr);
      data := disk[addr..addr + SECTOR_SIZE];
      LoadSound(view, disk, caches, dirty, addr);
      caches := caches[addr := data];
      r := SECTOR_SIZE;
    }

    /**
     * flush: writes back every dirty sector, lowest address first, and
     * empties the map. 0 when both the map and the dirty set end empty, -1 at
     * the first write-back that fails.
     */
    method Flush() returns (r: int)
      requires Valid()
      modifies this
      ensures Valid() && view == old(view) && |disk| == |old(disk)|
      ensures r == 0 || r == -1
      ensures r == 0 <==> forall a :: a in old(dirty) ==> InFile(old(disk), a)
      ensures r == 0 ==> caches == map[] && dirty == {}
    {
      while caches != map[]
        invariant Valid() && view == old(view) && |disk| == |old(disk)|
        invariant dirty <= old(dirty)
        invariant forall a :: a in old(dirty) && a !in dirty ==> InFile(old(disk), a)
        decreases |caches|
      {
        var ok, _ := Evict();
        if !ok {
          return -1;
        }
      }
      r := if |dirty| != 0 || |caches| != 0 then 1 else 0;
    }
  }

  /** What a coherent cache shows is made of whole, aligned sectors. */
  lemma ViewIsSectors(view: map<nat, seq<byte>>, disk: seq<byte>, caches: map<nat, seq<byte>>, dirty: set<nat>)
    requires Coherent(disk, caches, dirty) && Shows(view, disk, caches)
    ensures Sectors(view)
  {
    forall a | a in view
      ensures Aligned(a) && |view[a]| == SECTOR_SIZE
    {
      assert InView(view, a);
    }
  }

  /** Two different aligned addresses name disjoint sectors. */
  lemma SectorsApart(a: nat, b: nat)
    requires Aligned(a) && Aligned(b) && a != b
    ensures a + SECTOR_SIZE <= b || b + SECTOR_SIZE <= a
  {
  }

  /**
   * Evicting `victim`, written back first when dirty, leaves the view
   * unchanged, and every clean entry left still matches the file.
   */
  lemma EvictionSound(view: map<nat, seq<byte>>, disk0: seq<byte>, disk1: seq<byte>, caches: map<nat, seq<byte>>, dirty: set<nat>, victim: nat)
    requires victim in caches && Coherent(disk0, caches, dirty) && Shows(view, disk0, caches)
    requires victim in dirty ==> InFile(disk0, victim) && disk1 == WriteBack(disk0, victim, caches[victim])
    requires victim !in dirty ==> disk1 == disk0
    ensures |disk1| == |disk0|
    ensures Shows(view, disk1, caches - {victim})
    ensures Coherent(disk1, caches - {victim}, dirty - {victim})
  {
    ShowsViewOf(view, disk0, caches);
    forall a: nat | Aligned(a) && a != victim && InFile(disk0, a)
      ensures disk1[a..a + SECTOR_SIZE] == disk0[a..a + SECTOR_SIZE]
    {
      SectorsApart(a, victim);
    }
    ViewKept(disk0, caches, disk1, caches - {victim}, victim);
    ShowsViewOf(view, disk1, caches - {victim});
  }

  /** Evicting `victim` (written back first when dirty) leaves the view unchanged. */
  lemma ViewKept(disk0: seq<byte>, caches0: map<nat, seq<byte>>, disk1: seq<byte>, caches1: map<nat, seq<byte>>, victim: nat)
    requires victim in caches0 && caches1 == caches0 - {victim} && |disk1| == |disk0|
    requires InFile(disk1, victim) && disk1[victim..victim + SECTOR_SIZE] == caches0[victim]
    requires Aligned(victim)
    requires forall a: nat :: Aligned(a) && a != victim && InFile(disk0, a) ==> disk1[a..a + SECTOR_SIZE] == disk0[a..a + SECTOR_SIZE]
    ensures ViewOf(disk1, caches1) == ViewOf(disk0, caches0)
  {
    var v0 := ViewOf(disk0, caches0);
    var v1 := ViewOf(disk1, caches1);
    assert FileSectors(disk1) == FileSectors(disk0);
    assert victim in FileSectors(disk0);
    assert v1.Keys == v0.Keys;
    forall a | a in v0
      ensures v1[a] == v0[a]
    {
      if a in caches1 {
        assert v1[a] == caches1[a] == caches0[a] == v0[a];
      } else if a == victim {
        assert v1[a] == disk1[a..a + SECTOR_SIZE] == caches0[a] == v0[a];
      } else {
        assert a in FileSectors(disk0);
        assert v1[a] == disk1[a..a + SECTOR_SIZE] == disk0[a..a + SECTOR_SIZE] == v0[a];
      }
    }
  }

  /** Storing a dirty sector keeps the cache coherent and replaces that sector of the view. */
  lemma StoreSound(view: map<nat, seq<byte>>, disk: seq<byte>, caches: map<nat, seq<byte>>, dirty: set<nat>, addr: nat, buf: seq<byte>)
    requires Coherent(disk, caches, dirty) && Shows(view, disk, caches) && Aligned(addr) && |buf| == SECTOR_SIZE
    ensures Coherent(disk, caches[addr := buf], dirty + {addr})
    ensures Shows(view[addr := buf], disk, caches[addr := buf])
  {
    ShowsViewOf(view, disk, caches);
    ViewAfterStore(disk, caches, caches[addr := buf], addr, buf);
    ShowsViewOf(view[addr := buf], disk, caches[addr := buf]);
  }

  /** Loading a sector from the file as a clean entry keeps the cache coherent and the view unchanged. */
  lemma LoadSound(view: map<nat, seq<byte>>, disk: seq<byte>, caches: map<nat, seq<byte>>, dirty: set<nat>, addr: nat)
    requires Coherent(disk, caches, dirty) && Shows(view, disk, caches) && dirty <= caches.Keys
    requires Aligned(addr) && InFile(disk, addr) && addr !in caches
    ensures Coherent(disk, caches[addr := disk[addr..addr + SECTOR_SIZE]], dirty)
    ensures Shows(view, disk, caches[addr := disk[addr..addr + SECTOR_SIZE]])
  {
    ShowsViewOf(view, disk, caches);
    ViewAfterLoad(disk, caches, caches[addr := disk[addr..addr + SECTOR_SIZE]], addr);
    ShowsViewOf(view, disk, caches[addr := disk[addr..addr + SECTOR_SIZE]]);
  }

  /** Shows is ViewOf stated pointwise. */
  lemma ShowsViewOf(view: map<nat, seq<byte>>, disk: seq<byte>, caches: map<nat, seq<byte>>)
    requires forall a :: a in caches ==> Aligned(a)
    ensures Shows(view, disk, caches) <==> view == ViewOf(disk, caches)
  {
    var w := ViewOf(disk, caches);
    if Shows(view, disk, caches) {
      forall a | a in w
        ensures a in view
      {
        if a !in caches {
          assert a in FileSectors(disk);
          assert InView(view, a);
        }
      }
      forall a | a in view
        ensures a in w && view[a] == w[a]
      {
        assert InView(view, a);
        if a !in caches {
          assert a in FileSectors(disk);
        }
      }
      assert view.Keys == w.Keys;
    }
    forall a: nat | InView(w, a)
      ensures Aligned(a) && (a in caches || InFile(disk, a))
      ensures w[a] == if a in caches then caches[a] else disk[a..a + SECTOR_SIZE]
    {
    }
    forall a: nat | Aligned(a) && InFile(disk, a)
      ensures InView(w, a)
    {
      assert a in FileSectors(disk);
    }
  }

  /** Storing a sector in the map replaces exactly that sector of the view. */
  lemma ViewAfterStore(disk: seq<byte>, caches0: map<nat, seq<byte>>, caches1: map<nat, seq<byte>>, addr: nat, buf: seq<byte>)
    requires caches1 == caches0[addr := buf]
    ensures ViewOf(disk, caches1) == ViewOf(disk, caches0)[addr := buf]
  {
  }

  /** Loading a sector from the file into the map leaves the view unchanged. */
  lemma ViewAfterLoad(disk: seq<byte>, caches0: map<nat, seq<byte>>, caches1: map<nat, seq<byte>>, addr: nat)
    requires Aligned(addr) && InFile(disk, addr) && addr !in caches0
    requires caches1 == caches0[addr := disk[addr..addr + SECTOR_SIZE]]
    ensures ViewOf(disk, caches1) == ViewOf(disk, caches0)
  {
  }
}
