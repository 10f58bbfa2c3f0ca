/**
 * The I/O layer of the tar-to-EROFS converter in tarerofs_impl.cpp. The
 * EROFS builder writes its image through a photon file that only takes whole
 * 512-byte sectors, so an unaligned request goes through a span buffer: the
 * edge sectors are read into it, the caller's bytes are laid over it, and
 * the whole span is written back. Beside that: the reading of the tar
 * stream, the conversion of the builder's block map into remote mappings,
 * and the sizing of the stream buffer in init_tar.
 *
 * The photon file is a byte store of fixed virtual size: a read past its end
 * comes back short and a write past its end is cut short. Whether malloc
 * succeeds is a parameter, and so are the bytes a fresh malloc'd buffer
 * happens to hold.
 */
module TarErofs {
  import opened Bytes
  import opened Wrappers
  import ErofsIo
  import Files
  import opened ErofsMapFile

  /** MIN_RW_LEN: the sector the photon file reads and writes in. */
  const MIN_RW_LEN: nat := 512
  const TAREROFS_BLOCK_SIZE: nat := 4096
  const INT_MAX: nat := 0x7fff_ffff
  const EINVAL: int := 22
  const ENOMEM: int := 12

  /** The bytes a read of `count` bytes at `offset` gets from `d`: fewer at the end, none past it. */
  function Window(d: seq<byte>, offset: nat, count: nat): (w: seq<byte>)
    ensures |w| <= count
    ensures offset + count <= |d| ==> w == d[offset..offset + count]
    ensures |w| == count <==> count == 0 || offset + count <= |d|
  {
    d[Min(offset, |d|)..Min(offset + count, |d|)]
  }

  /** `d` with `bytes` stored at `offset`; a store that does not fit leaves `d` as it was. */
  function Stored(d: seq<byte>, offset: nat, bytes: seq<byte>): (e: seq<byte>)
    ensures |e| == |d|
    ensures offset + |bytes| <= |d| ==> e[offset..offset + |bytes|] == bytes
    ensures forall p :: 0 <= p < |d| && !(offset <= p < offset + |bytes|) ==> e[p] == d[p]
  {
    if offset + |bytes| <= |d| then d[..offset] + bytes + d[offset + |bytes|..] else d
  }

  /** The photon file the EROFS target is written to. */
  class Target {
    var data: seq<byte>

    constructor (data: seq<byte>)
      ensures this.data == data
    {
      this.data := data;
    }

    /** pread: the bytes at `offset`, short at the end of the file. */
    method Pread(count: nat, offset: nat) returns (bytes: seq<byte>)
      ensures bytes == Window(data, offset, count)
    {
      bytes := data[Min(offset, |data|)..Min(offset + count, |data|)];
    }

    /** pwrite: stores as many bytes of `buf` as fit before the end of the file and returns how many. */
    method Pwrite(buf: seq<byte>, offset: nat) returns (n: nat)
      modifies this
      ensures n == |Window(old(data), offset, |buf|)|
      ensures data == Stored(old(data), offset, buf[..n])
    {
      n := Min(offset + |buf|, |data|) - Min(offset, |data|);
      data := Stored(data, offset, buf[..n]);
    }
  }

  // ---------------------------------------------------------------------
  // What a write promises about the bytes of the file.
  // ---------------------------------------------------------------------

  /** The byte position p holds once `buf` is written at `offset`. */
  function Expected(d: seq<byte>, offset: nat, buf: seq<byte>, p: nat): byte
    requires p < |d|
  {
    if offset <= p < offset + |buf| then buf[p - offset] else d[p]
  }

  /** Every byte of `e` is the old byte of `d` or the byte a write of `buf` at `offset` puts there. */
  ghost predicate Between(d: seq<byte>, e: seq<byte>, offset: nat, buf: seq<byte>)
  {
    |e| == |d| && forall p :: 0 <= p < |e| ==> e[p] == d[p] || e[p] == Expected(d, offset, buf, p)
  }

  /** The span buffer agrees with the file wherever the caller's bytes do not go. */
  ghost predicate Kept(big: seq<byte>, start: nat, d: seq<byte>, offset: nat, len: nat)
  {
    forall i :: 0 <= i < |big| && start + i < |d| && !(offset <= start + i < offset + len) ==> big[i] == d[start + i]
  }

  /** The span buffer holds, at every position inside the file, what the file should hold after the write. */
  ghost predicate Staged(big: seq<byte>, start: nat, d: seq<byte>, offset: nat, buf: seq<byte>)
  {
    forall i :: 0 <= i < |big| && start + i < |d| ==> big[i] == Expected(d, offset, buf, start + i)
  }

  /** A store of any prefix of `buf` at `offset` stays between the old file and the full write. */
  lemma StoredBetween(d: seq<byte>, offset: nat, buf: seq<byte>, n: nat)
    requires n <= |buf|
    ensures Between(d, Stored(d, offset, buf[..n]), offset, buf)
  {
    var e := Stored(d, offset, buf[..n]);
    forall p | 0 <= p < |e|
      ensures e[p] == d[p] || e[p] == Expected(d, offset, buf, p)
    {
      if offset + n <= |d| && offset <= p < offset + n {
        assert e[p] == e[offset..offset + n][p - offset];
      }
    }
  }

  /** Writing any prefix of a staged span buffer at its start stays between the old file and the full write. */
  lemma StagedBetween(d: seq<byte>, start: nat, big: seq<byte>, offset: nat, buf: seq<byte>, n: nat)
    requires Staged(big, start, d, offset, buf) && n <= |big|
    ensures Between(d, Stored(d, start, big[..n]), offset, buf)
  {
    var e := Stored(d, start, big[..n]);
    forall p | 0 <= p < |e|
      ensures e[p] == d[p] || e[p] == Expected(d, offset, buf, p)
    {
      if start + n <= |d| && start <= p < start + n {
        assert e[p] == e[start..start + n][p - start];
      }
    }
  }

  /** Writing a whole staged span that covers the request is the same as storing the request. */
  lemma StagedWhole(d: seq<byte>, start: nat, big: seq<byte>, offset: nat, buf: seq<byte>)
    requires Staged(big, start, d, offset, buf)
    requires start <= offset && offset + |buf| <= start + |big| <= |d|
    ensures Stored(d, start, big) == Stored(d, offset, buf)
  {
    var e, f := Stored(d, start, big), Stored(d, offset, buf);
    forall p | 0 <= p < |d|
      ensures e[p] == f[p]
    {
      if start <= p < start + |big| {
        assert e[p] == e[start..start + |big|][p - start];
      }
      if offset <= p < offset + |buf| {
        assert f[p] == f[offset..offset + |buf|][p - offset];
      }
    }
  }

  /** Laying the caller's bytes over a buffer that agrees with the file elsewhere stages the write. */
  lemma OverlayStaged(d: seq<byte>, start: nat, big: seq<byte>, offset: nat, buf: seq<byte>)
    requires Kept(big, start, d, offset, |buf|)
    requires start <= offset && offset + |buf| <= start + |big|
    ensures Staged(big[..offset - start] + buf + big[offset - start + |buf|..], start, d, offset, buf)
  {
    var o := offset - start;
    var staged := big[..o] + buf + big[o + |buf|..];
    forall i | 0 <= i < |staged| && start + i < |d|
      ensures staged[i] == Expected(d, offset, buf, start + i)
    {
      if i < o {
        assert staged[i] == big[i];
      } else if i < o + |buf| {
        assert staged[i] == buf[i - o];
      } else {
        assert staged[i] == big[i];
      }
    }
  }

  // ---------------------------------------------------------------------
  // read_photon_file and write_photon_file
  // ---------------------------------------------------------------------

  /**
   * read_photon_file: reads the whole aligned span around the request with
   * one pread and copies the requested bytes out of it. Returns `len`, or -1
   * when the buffer cannot be allocated or the read falls short.
   */
  method ReadPhotonFile(file: Target, offset: nat, len: nat, allocOk: bool) returns (r: int, buf: seq<byte>)
    ensures r == len || r == -1
    ensures r == len <==> (allocOk &&
      (ErofsIo.RoundDown(offset) == ErofsIo.RoundUp(offset + len) || ErofsIo.RoundUp(offset + len) <= |file.data|))
    ensures r == len ==> buf == Window(file.data, offset, len) && |buf| == len
  {
    var start := ErofsIo.RoundDown(offset);
    var end := ErofsIo.RoundUp(offset + len);
    if !allocOk {
      return -1, [];
    }
    var big := file.Pread(end - start, start);
    if |big| != end - start {
      return -1, [];
    }
    buf := big[offset - start..offset - start + len];
    r := len;
  }

  /**
   * The pre-reads of an unaligned write into a fresh span buffer (whose
   * bytes are `junk` until read over): the one sector when the span is one
   * sector, else the head sector when `offset` is unaligned and the tail
   * sector when `offset + len` is. Fails when a read falls short.
   */
  method PreRead(file: Target, offset: nat, len: nat, start: nat, end: nat, junk: nat -> byte)
    returns (ok: bool, big: seq<byte>)
    requires start == ErofsIo.RoundDown(offset) && end == ErofsIo.RoundUp(offset + len)
    requires start != offset || end != offset + len
    ensures ok ==> |big| == end - start && Kept(big, start, file.data, offset, len)
    ensures end <= |file.data| ==> ok
  {
    big := seq(end - start, i requires 0 <= i => junk(i));
    if end - start == MIN_RW_LEN {
      var sector := file.Pread(MIN_RW_LEN, start);
      if |sector| != MIN_RW_LEN {
        return false, big;
      }
      big := sector;
    } else {
      assert end - start >= 2 * MIN_RW_LEN;
      if start != offset {
        var head := file.Pread(MIN_RW_LEN, start);
        if |head| != MIN_RW_LEN {
          return false, big;
        }
        big := head + big[MIN_RW_LEN..];
      }
      if end != offset + len {
        var tail := file.Pread(MIN_RW_LEN, end - MIN_RW_LEN);
        if |tail| != MIN_RW_LEN {
          return false, big;
        }
        big := big[..end - start - MIN_RW_LEN] + tail;
      }
    }
    ok := true;
  }

  /**
   * write_photon_file: an aligned request is one pwrite; an unaligned one
   * is pre-read, overlaid and written back as the whole span. Returns the
   * caller's length, or -1 when the allocation fails or a read or the write
   * falls short. Whatever happens, every byte of the file ends up either as
   * it was or as the request puts it; the buffer's stale bytes never reach
   * the file.
   */
  method WritePhotonFile(file: Target, buf: seq<byte>, offset: nat, allocOk: bool, junk: nat -> byte)
    returns (r: int)
    modifies file
    ensures r == |buf| || r == -1
    ensures var start, end := ErofsIo.RoundDown(offset), ErofsIo.RoundUp(offset + |buf|);
      (r == |buf| <==> (allocOk || (start == offset && end == offset + |buf|)) && (start == end || end <= |old(file.data)|))
    ensures r == |buf| ==> file.data == Stored(old(file.data), offset, buf)
    ensures Between(old(file.data), file.data, offset, buf)
  {
    var start := ErofsIo.RoundDown(offset);
    var end := ErofsIo.RoundUp(offset + |buf|);
    if start != offset || end != offset + |buf| {
      if !allocOk {
        return -1;
      }
      var ok, big := PreRead(file, offset, |buf|, start, end, junk);
      if !ok {
        return -1;
      }
      OverlayStaged(file.data, start, big, offset, buf);
      big := big[..offset - start] + buf + big[offset - start + |buf|..];
      ghost var d := file.data;
      var n := file.Pwrite(big, start);
      StagedBetween(d, start, big, offset, buf, n);
      if n != end - start {
        return -1;
      }
      StagedWhole(d, start, big, offset, buf);
    } else {
      ghost var d := file.data;
      var n := file.Pwrite(buf, offset);
      StoredBetween(d, offset, buf, n);
      if n != |buf| {
        return -1;
      }
    }
    r := |buf|;
  }

  // ---------------------------------------------------------------------
  // The target's operations as the EROFS builder calls them.
  // ---------------------------------------------------------------------

  /** target_pread: `len` when the read returns exactly that, else -1. */
  method TargetPread(file: Target, offset: nat, len: nat, allocOk: bool) returns (r: int, buf: seq<byte>)
    ensures r == len || r == -1
    ensures r == len ==> buf == Window(file.data, offset, len) && |buf| == len
  {
    var got;
    got, buf := ReadPhotonFile(file, offset, len, allocOk);
    if got != len {
      return -1, buf;
    }
    r := len;
  }

  /** target_pwrite: -EINVAL for a null buffer, else the write's result. */
  method TargetPwrite(file: Target, buf: Option<seq<byte>>, offset: nat, allocOk: bool, junk: nat -> byte)
    returns (r: int)
    modifies file
    ensures buf == None ==> r == -EINVAL && file.data == old(file.data)
    ensures buf.Some? ==> r == |buf.value| || r == -1
    ensures buf.Some? && r == |buf.value| ==> file.data == Stored(old(file.data), offset, buf.value)
    ensures buf.Some? ==> Between(old(file.data), file.data, offset, buf.value)
  {
    if buf == None {
      return -EINVAL;
    }
    r := WritePhotonFile(file, buf.value, offset, allocOk, junk);
  }

  /** The size of target_fallocate's zero buffer. */
  const ZERO_CHUNK: nat := 4096

  /**
   * target_fallocate: zeroes [offset, offset + len). Every pass of the
   * source's loop over 4096-byte chunks returns, since a successful write
   * reports 4096, not 0: a request longer than 4096 writes one chunk and
   * returns 4096 (or the failed write's -1); a shorter one writes its bytes
   * and returns 0, or -2 when the write falls short.
   */
  method TargetFallocate(file: Target, offset: nat, len: nat, allocOk: bool, junk: nat -> byte)
    returns (r: int)
    modifies file
    ensures len > ZERO_CHUNK ==> (r == ZERO_CHUNK || r == -1)
    ensures len > ZERO_CHUNK && r == ZERO_CHUNK ==> file.data == Stored(old(file.data), offset, Zeros(ZERO_CHUNK))
    ensures len > ZERO_CHUNK ==> Between(old(file.data), file.data, offset, Zeros(ZERO_CHUNK))
    ensures len <= ZERO_CHUNK ==> (r == 0 || r == -2)
    ensures len <= ZERO_CHUNK && r == 0 ==> file.data == Stored(old(file.data), offset, Zeros(len))
    ensures len <= ZERO_CHUNK ==> Between(old(file.data), file.data, offset, Zeros(len))
  {
    if len > ZERO_CHUNK {
      r := TargetPwrite(file, Some(Zeros(ZERO_CHUNK)), offset, allocOk, junk);
      return;
    }
    var written := TargetPwrite(file, Some(Zeros(len)), offset, allocOk, junk);
    if written != len {
      return -2;
    }
    r := 0;
  }

  // ---------------------------------------------------------------------
  // The tar stream.
  // ---------------------------------------------------------------------

  /**
   * source_read: reads the tar stream in pieces of at most INT_MAX bytes
   * until `bytes` have come in or a read returns 0 at the end of the stream,
   * and returns the running total: the next `bytes` bytes of the stream, or
   * all that is left of it.
   */
  method SourceRead(file: Files.StreamFile, bytes: nat) returns (r: int, out: seq<byte>)
    modifies file
    ensures old(file.pos) <= |file.data| ==>
      r == Min(bytes, |file.data| - old(file.pos)) && out == file.data[old(file.pos)..old(file.pos) + r]
    ensures old(file.pos) > |file.data| ==> r == 0 && out == []
    ensures file.pos == old(file.pos) + r
  {
    ghost var p0 := file.pos;
    var remaining: nat := bytes;
    var i: nat := 0;
    out := [];
    while remaining > 0
      invariant i + remaining == bytes
      invariant file.pos == p0 + i
      invariant p0 <= |file.data| ==> p0 + i <= |file.data| && out == file.data[p0..p0 + i]
      invariant p0 > |file.data| ==> i == 0 && out == []
      decreases remaining
    {
      var len := if remaining > INT_MAX then INT_MAX else remaining;
      var ret, got := file.Read(len);
      if ret == 0 {
        assert p0 <= |file.data| ==> p0 + i == |file.data|;
        break;
      }
      remaining := remaining - ret;
      i := i + ret;
      out := out + got;
    }
    r := i;
  }

  // ---------------------------------------------------------------------
  // The block map.
  // ---------------------------------------------------------------------

  /** The number of leading map lines fscanf fills all three fields of. */
  function ScannedRun(lines: seq<Scan>): (n: nat)
    ensures n <= |lines|
    ensures forall j :: 0 <= j < n ==> lines[j].cnt >= 3
    ensures n < |lines| ==> lines[n].cnt < 3
  {
    if lines == [] || lines[0].cnt < 3 then 0 else 1 + ScannedRun(lines[1..])
  }

  /**
   * The record write_map_file builds from one line: the block address and
   * count are in 4096-byte blocks. The block count is a uint32_t and
   * TAREROFS_BLOCK_SIZE an int, so their product is unsigned 32-bit and wraps.
   */
  function TarMapping(s: Scan): (m: RemoteMapping)
    requires Fits(s)
    ensures m.offset == MulU64(s.blkaddr, TAREROFS_BLOCK_SIZE) && m.roffset == s.toff
    ensures m.count < U32
  {
    RemoteMapping(MulU64(s.blkaddr, TAREROFS_BLOCK_SIZE), s.nblocks * TAREROFS_BLOCK_SIZE % U32, s.toff)
  }

  /** A record's length is its blocks' byte count exactly when that count is below 4 GiB. */
  lemma {:induction false} TarCountExact(s: Scan)
    requires Fits(s)
    ensures TarMapping(s).count == s.nblocks * TAREROFS_BLOCK_SIZE <==> s.nblocks < 0x10_0000
  {
    var bytes := s.nblocks * TAREROFS_BLOCK_SIZE;
    if s.nblocks >= 0x10_0000 {
      assert bytes >= U32;
      assert bytes < U32 * TAREROFS_BLOCK_SIZE;
    } else {
      assert bytes < U32;
    }
  }

  /**
   * write_map_file: -1 without a map file; otherwise the records of the
   * leading lines with three fields, in order, up to the first line with
   * fewer (or the end of the file), and 0; -1 after the first record the LSMT
   * file does not accept in full. `issued` is the sequence of records handed
   * to ioctl.
   */
  method WriteMapFile(fp: Option<seq<Scan>>, ioctl: RemoteMapping -> int) returns (r: int, issued: seq<RemoteMapping>)
    requires fp.Some? ==> forall s :: s in fp.value ==> Fits(s)
    ensures r == 0 || r == -1
    ensures fp.None? ==> r == -1 && issued == []
    ensures fp.Some? ==> |issued| <= ScannedRun(fp.value)
    ensures fp.Some? ==> forall i :: 0 <= i < |issued| ==> issued[i] == TarMapping(fp.value[i])
    ensures r == 0 <==> (fp.Some? &&
      forall j :: 0 <= j < ScannedRun(fp.value) ==> Accepted(ioctl(TarMapping(fp.value[j])), TarMapping(fp.value[j])))
    ensures r == 0 ==> |issued| == ScannedRun(fp.value)
    ensures r == -1 && fp.Some? ==> |issued| > 0 && !Accepted(ioctl(issued[|issued| - 1]), issued[|issued| - 1])
    ensures forall i :: 0 <= i < |issued| - 1 ==> Accepted(ioctl(issued[i]), issued[i])
  {
    if fp.None? {
      return -1, [];
    }
    var lines := fp.value;
    issued := [];
    var i := 0;
    while i < |lines| && lines[i].cnt >= 3
      invariant 0 <= i <= ScannedRun(lines) && |issued| == i
      invariant forall j :: 0 <= j < i ==> issued[j] == TarMapping(lines[j])
      invariant forall j :: 0 <= j < i ==> Accepted(ioctl(issued[j]), issued[j])
    {
      var m := TarMapping(lines[i]);
      var nwrite := ioctl(m);
      issued := issued + [m];
      if nwrite % U32 != m.count {
        return -1, issued;
      }
      i := i + 1;
    }
    return 0, issued;
  }

  // ---------------------------------------------------------------------
  // init_tar's stream buffer.
  // ---------------------------------------------------------------------

  const INITIAL_BUFSIZE: nat := 16384
  const MIN_BUFSIZE: nat := 1024
  /** The sizes init_tar tries, largest first. */
  const BUFFER_SIZES: set<nat> := {16384, 8192, 4096, 2048, 1024}

  /**
   * The stream-buffer part of init_tar: a failed fstat is returned as it is;
   * otherwise the buffer starts at 16384 bytes and halves while malloc
   * fails, giving up with -ENOMEM (and a size of 512) once it would go below
   * 1024. `alloc` says which sizes malloc can provide.
   */
  method InitTarBuffer(fstatErr: int, alloc: nat -> bool) returns (r: int, bufsize: nat)
    ensures fstatErr != 0 ==> r == fstatErr
    ensures fstatErr == 0 ==> (r == 0 || r == -ENOMEM)
    ensures fstatErr == 0 ==> (r == 0 <==> exists s :: s in BUFFER_SIZES && alloc(s))
    ensures fstatErr == 0 && r == 0 ==> bufsize in BUFFER_SIZES && alloc(bufsize)
    ensures fstatErr == 0 && r == 0 ==> forall s :: s in BUFFER_SIZES && s > bufsize ==> !alloc(s)
    ensures fstatErr == 0 && r != 0 ==> bufsize == MIN_BUFSIZE / 2
  {
    if fstatErr != 0 {
      return fstatErr, 0;
    }
    bufsize := INITIAL_BUFSIZE;
    var got := false;
    while true
      invariant bufsize in BUFFER_SIZES && !got
      invariant forall s :: s in BUFFER_SIZES && s > bufsize ==> !alloc(s)
      decreases bufsize
    {
      got := alloc(bufsize);
      if got {
        break;
      }
      bufsize := bufsize / 2;
      if bufsize < MIN_BUFSIZE {
        break;
      }
    }
    r := if got then 0 else -ENOMEM;
  }
}
