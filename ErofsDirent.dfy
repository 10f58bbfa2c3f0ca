/**
 * Directory lookup and iteration in the EROFS reader of liberofs.cpp: the scan
 * of one directory block for a name (liberofs_find_dirent) and the ErofsDir
 * iterator over an in-memory list of entries.
 *
 * A directory block starts with 12-byte entries (struct erofs_dirent: nid,
 * nameoff, file_type, reserved); the names follow them, unterminated, in entry
 * order. The first entry's nameoff therefore also marks the end of the entry
 * table.
 */
module ErofsDirent {
  import opened Bytes
  import opened Wrappers

  /** sizeof(struct erofs_dirent). */
  const DIRENT_SIZE: nat := 12
  /** Offset of the little-endian 16-bit nameoff field inside an entry. */
  const NAMEOFF_AT: nat := 8

  /** What the scan hands back: the matching entry, NULL, or ERR_PTR(-EINVAL) for a bogus entry. */
  datatype Lookup = Found(index: nat) | NotFound | Bogus

  /** The end of the last entry the scan visits: entries start below `nameoff`. */
  function TableEnd(nameoff: nat): nat
  {
    (nameoff + DIRENT_SIZE - 1) / DIRENT_SIZE * DIRENT_SIZE
  }

  /** Entry k is one the scan visits (`de < end`). */
  predicate Visited(nameoff: nat, k: nat)
  {
    DIRENT_SIZE * k < nameoff
  }

  /** The block holds every entry the scan visits. */
  predicate Scannable(data: seq<byte>, nameoff: nat)
  {
    TableEnd(nameoff) <= |data|
  }

  lemma EntryInside(data: seq<byte>, nameoff: nat, k: nat)
    requires Scannable(data, nameoff) && Visited(nameoff, k)
    ensures DIRENT_SIZE * k + DIRENT_SIZE <= |data|
  {
    var c := (nameoff + DIRENT_SIZE - 1) / DIRENT_SIZE;
    assert DIRENT_SIZE * (k + 1) <= nameoff + DIRENT_SIZE - 1;
    assert k + 1 <= c;
    assert DIRENT_SIZE * (k + 1) <= c * DIRENT_SIZE;
  }

  /** The nameoff field of entry k. */
  function NameoffOf(data: seq<byte>, k: nat): (off: nat)
    requires DIRENT_SIZE * k + DIRENT_SIZE <= |data|
    ensures off < 65536
  {
    var at := DIRENT_SIZE * k + NAMEOFF_AT;
    assert Pow256(2) == 65536;
    FromLE(data[at..at + 2])
  }

  /** strnlen: the index of the first NUL byte of s, or |s| when there is none. */
  function StrNLen(s: seq<byte>): (n: nat)
    ensures n <= |s|
    ensures forall i :: 0 <= i < n ==> s[i] != 0
    ensures n < |s| ==> s[n] == 0
  {
    if s == [] || s[0] == 0 then 0 else 1 + StrNLen(s[1..])
  }

  /**
   * The length the scan gives the name of entry k, or None when that name runs
   * past `maxsize`. A name ends where the next entry's name starts (the
   * difference taken modulo 2^16, as le16_to_cpu truncates it); the last
   * entry's name ends at its first NUL byte or at `maxsize`. A last name that
   * starts beyond `maxsize` is bogus whatever strnlen returns, since the
   * length is unsigned.
   */
  function NameLen(data: seq<byte>, nameoff: nat, maxsize: nat, k: nat): Option<nat>
    requires maxsize <= |data| && Scannable(data, nameoff) && Visited(nameoff, k)
  {
    EntryInside(data, nameoff, k);
    var off := NameoffOf(data, k);
    if !Visited(nameoff, k + 1) then
      if off <= maxsize then Some(StrNLen(data[off..maxsize])) else None
    else
      EntryInside(data, nameoff, k + 1);
      var n := (NameoffOf(data, k + 1) - off) % 65536;
      if off + n <= maxsize then Some(n) else None
  }

  /** Entry k is visited, well-formed, and its name is exactly `name`. */
  predicate Matches(data: seq<byte>, name: seq<byte>, nameoff: nat, maxsize: nat, k: nat)
    requires maxsize <= |data| && Scannable(data, nameoff)
  {
    Visited(nameoff, k) && NameLen(data, nameoff, maxsize, k) == Some(|name|) &&
    (EntryInside(data, nameoff, k);
     var off := NameoffOf(data, k);
     data[off..off + |name|] == name)
  }

  /** Entry k is visited, well-formed, and its name is not `name`. */
  predicate Passed(data: seq<byte>, name: seq<byte>, nameoff: nat, maxsize: nat, k: nat)
    requires maxsize <= |data| && Scannable(data, nameoff)
  {
    Visited(nameoff, k) && NameLen(data, nameoff, maxsize, k).Some? &&
    !Matches(data, name, nameoff, maxsize, k)
  }

  /** Every entry before k is well-formed and does not match. */
  predicate PassedBefore(data: seq<byte>, name: seq<byte>, nameoff: nat, maxsize: nat, k: nat)
    requires maxsize <= |data| && Scannable(data, nameoff)
  {
    forall j: nat :: j < k ==> Passed(data, name, nameoff, maxsize, j)
  }

  /**
   * liberofs_find_dirent: scan the entries in order. The result is the first
   * entry whose name is exactly `name`; Bogus when an entry whose name runs
   * past `maxsize` comes first; NotFound when every visited entry is
   * well-formed and none matches.
   */
  method FindDirent(data: seq<byte>, name: seq<byte>, nameoff: nat, maxsize: nat) returns (r: Lookup)
    requires maxsize <= |data| && Scannable(data, nameoff)
    ensures r.Found? ==> Matches(data, name, nameoff, maxsize, r.index) &&
                         PassedBefore(data, name, nameoff, maxsize, r.index)
    ensures r.Bogus? ==> exists k: nat :: Visited(nameoff, k) && NameLen(data, nameoff, maxsize, k).None? &&
                                          PassedBefore(data, name, nameoff, maxsize, k)
    ensures r.NotFound? ==> forall k: nat :: Visited(nameoff, k) ==> Passed(data, name, nameoff, maxsize, k)
  {
    var k: nat := 0;
    while Visited(nameoff, k)
      invariant PassedBefore(data, name, nameoff, maxsize, k)
      decreases nameoff - DIRENT_SIZE * k
    {
      EntryInside(data, nameoff, k);
      var off := NameoffOf(data, k);
      var len: nat;
      if !Visited(nameoff, k + 1) {
        if off > maxsize {
          assert NameLen(data, nameoff, maxsize, k).None?;
          return Bogus;
        }
        len := StrNLen(data[off..maxsize]);
      } else {
        EntryInside(data, nameoff, k + 1);
        len := (NameoffOf(data, k + 1) - off) % 65536;
      }
      if off + len > maxsize {
        assert NameLen(data, nameoff, maxsize, k).None?;
        return Bogus;
      }
      if |name| == len && data[off..off + len] == name {
        return Found(k);
      }
      assert Passed(data, name, nameoff, maxsize, k);
      k := k + 1;
    }
    return NotFound;
  }

  /** Two entries that both satisfy the Found outcome are the same: the first match is unique. */
  lemma {:induction false} FirstMatchUnique(data: seq<byte>, name: seq<byte>, nameoff: nat, maxsize: nat, i: nat, j: nat)
    requires maxsize <= |data| && Scannable(data, nameoff)
    requires Matches(data, name, nameoff, maxsize, i) && PassedBefore(data, name, nameoff, maxsize, i)
    requires Matches(data, name, nameoff, maxsize, j) && PassedBefore(data, name, nameoff, maxsize, j)
    ensures i == j
  {
    var passedI := Passed(data, name, nameoff, maxsize, i);
    var passedJ := Passed(data, name, nameoff, maxsize, j);
    assert j < i ==> passedJ;
    assert i < j ==> passedI;
  }

  /**
   * A bogus entry that every earlier entry passes excludes the other two
   * outcomes: a match lies after it, no match has only passed entries before
   * it, and not every visited entry passes.
   */
  lemma {:induction false} BogusExcludes(data: seq<byte>, name: seq<byte>, nameoff: nat, maxsize: nat, k: nat, i: nat)
    requires maxsize <= |data| && Scannable(data, nameoff)
    requires Visited(nameoff, k) && NameLen(data, nameoff, maxsize, k).None?
    requires PassedBefore(data, name, nameoff, maxsize, k)
    ensures Matches(data, name, nameoff, maxsize, i) ==> k < i
    ensures PassedBefore(data, name, nameoff, maxsize, i) ==> i <= k
    ensures exists j: nat :: Visited(nameoff, j) && !Passed(data, name, nameoff, maxsize, j)
  {
    var passedK := Passed(data, name, nameoff, maxsize, k);
    var passedI := Passed(data, name, nameoff, maxsize, i);
    assert !passedK;
    assert i < k ==> passedI;
    assert k < i && PassedBefore(data, name, nameoff, maxsize, i) ==> passedK;
  }

  /** A directory entry handed out by the iterator (struct dirent); the iterator copies it unchanged. */
  datatype Dirent = Dirent(ino: nat, kind: nat, name: string)

  /**
   * ErofsDir: an iterator over a list of entries. `current` stands for the
   * `direntp` pointer as the index of the entry it points at (None for
   * nullptr); `loc` is the position of the next entry to hand out.
   */
  class ErofsDir {
    var dirs: seq<Dirent>
    var current: Option<nat>
    var loc: int

    /** The position is not negative and `direntp` points at the entry just before `loc`. */
    predicate Valid()
      reads this
    {
      0 <= loc && (current.Some? ==> current.value < |dirs| && current.value == loc - 1)
    }

    /** The constructor positions on entry 0 (telldir() == 1), or on nothing for an empty list. */
    constructor (entries: seq<Dirent>)
      ensures Valid() && dirs == entries
      ensures entries != [] ==> current == Some(0) && loc == 1
      ensures entries == [] ==> current == None && loc == 0
    {
      dirs := entries;
      current := None;
      loc := 0;
      new;
      var _ := Next();
    }

    /** closedir: drops the entries; `direntp` is left as it was. */
    method Closedir() returns (r: int)
      modifies this
      ensures dirs == [] && current == old(current) && loc == old(loc) && r == 0
    {
      dirs := [];
      r := 0;
    }

    /** get: the entry `direntp` points at, if any. */
    function Get(): (e: Option<Dirent>)
      reads this
      requires Valid()
      ensures e.Some? <==> current.Some?
      ensures e.Some? ==> e.value == dirs[loc - 1]
    {
      if current.Some? then Some(dirs[current.value]) else None
    }

    /**
     * next: hands out entry `loc` and advances, or sets `direntp` to null at
     * the end; on an empty list nothing changes. Returns 1 iff `direntp` is set.
     */
    method Next() returns (r: int)
      requires 0 <= loc
      modifies this
      ensures dirs == old(dirs)
      ensures old(dirs) != [] && old(loc) < |dirs| ==> current == Some(old(loc)) && loc == old(loc) + 1
      ensures old(dirs) != [] && old(loc) >= |dirs| ==> current == None && loc == old(loc)
      ensures old(dirs) == [] ==> current == old(current) && loc == old(loc)
      ensures r == (if current.Some? then 1 else 0)
      ensures old(Valid()) ==> Valid()
    {
      if dirs != [] {
        if loc < |dirs| {
          current := Some(loc);
          loc := loc + 1;
        } else {
          current := None;
        }
      }
      r := if current.Some? then 1 else 0;
    }

    /** rewinddir: back to entry 0. */
    method Rewinddir()
      requires Valid()
      modifies this
      ensures Valid() && dirs == old(dirs)
      ensures dirs != [] ==> current == Some(0) && loc == 1
      ensures dirs == [] ==> current == old(current) && loc == 0
    {
      loc := 0;
      var _ := Next();
    }

    /**
     * seekdir(k): positions on entry k, or past the end when there is no entry
     * k; on an empty directory only `loc` moves. A negative `long` k would make
     * next() index m_dirs below its start, which is undefined behaviour in the
     * source, hence the precondition.
     */
    method Seekdir(k: int)
      requires Valid() && 0 <= k
      modifies this
      ensures Valid() && dirs == old(dirs)
      ensures k < |dirs| ==> current == Some(k) && loc == k + 1
      ensures dirs != [] && |dirs| <= k ==> current == None && loc == k
      ensures dirs == [] ==> current == old(current) && loc == k
    {
      loc := k;
      var _ := Next();
    }

    /** telldir: the position of the next entry to hand out. */
    function Telldir(): (l: int)
      reads this
      requires Valid()
      ensures l >= 0
      ensures current.Some? ==> l == current.value + 1
    {
      loc
    }
  }
}
