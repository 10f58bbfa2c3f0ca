/**
 * The block map the EROFS builder leaves behind ("upper.map") and its
 * conversion into LSMT remote-mapping records by erofs_write_map_file in
 * liberofs.cpp. Each line names a run of image blocks whose data lives in
 * the tar blob at a given offset; every record is handed to the LSMT file
 * with ioctl(RemoteData), which answers with the number of bytes it mapped.
 *
 * The text scanning itself (fgets, then sscanf with "%lx %x %lx%08u") is not
 * modelled: a line arrives as the number of fields sscanf converted and
 * their values.
 */
module ErofsMapFile {
  import opened Wrappers

  const U32: nat := 0x1_0000_0000
  const U64: nat := 0x1_0000_0000_0000_0000
  /** SECTOR_SIZE of liberofs.cpp, the unit round_up_blk rounds to. */
  const MAP_SECTOR: nat := 512

  /** One map-file line after sscanf: the number of converted fields and the fields. */
  datatype Scan = Scan(cnt: int, blkaddr: nat, nblocks: nat, toff: nat, zeroedlen: nat)

  /** The values fit the variables sscanf fills: blkaddr and toff are uint64_t, nblocks and zeroedlen uint32_t. */
  predicate Fits(s: Scan)
  {
    s.blkaddr < U64 && s.nblocks < U32 && s.toff < U64 && s.zeroedlen < U32
  }

  /** LSMT::RemoteMapping: `count` bytes of the image at `offset` live at `roffset` in the tar blob. */
  datatype RemoteMapping = RemoteMapping(offset: nat, count: nat, roffset: nat)

  /** round_up_blk on a uint64_t: add 511 (wrapping), then clear the low nine bits. */
  function RoundUpU64(x: nat): (r: nat)
    requires x < U64
    ensures r < U64 && r % MAP_SECTOR == 0
    ensures x + MAP_SECTOR - 1 < U64 ==> x <= r < x + MAP_SECTOR
  {
    var y := (x + MAP_SECTOR - 1) % U64;
    y - y % MAP_SECTOR
  }

  /** A uint64_t product. */
  function MulU64(a: nat, b: nat): (r: nat)
    ensures r < U64
    ensures a * b < U64 ==> r == a * b
  {
    a * b % U64
  }

  /**
   * The record built from one line: offset and length are the block address
   * and block count times the block size, in uint64_t arithmetic; a fourth
   * field takes that many zero bytes off the length, rounded back up to a
   * whole sector.
   */
  function LineMapping(s: Scan, blksz: nat): (m: RemoteMapping)
    requires Fits(s) && blksz < U64
    ensures m.offset < U64 && m.count < U64 && m.roffset == s.toff
  {
    var count := MulU64(s.nblocks, blksz);
    RemoteMapping(MulU64(s.blkaddr, blksz),
                  if s.cnt > 3 then RoundUpU64((count - s.zeroedlen) % U64) else count,
                  s.toff)
  }

  /** When nothing wraps, a record is the byte span of its blocks, trimmed of the zeroed tail to a sector. */
  lemma LineMappingExact(s: Scan, blksz: nat)
    requires Fits(s) && blksz < U64
    requires s.blkaddr * blksz < U64 && s.nblocks * blksz + MAP_SECTOR < U64
    requires s.cnt > 3 ==> s.zeroedlen <= s.nblocks * blksz
    ensures LineMapping(s, blksz).offset == s.blkaddr * blksz
    ensures s.cnt <= 3 ==> LineMapping(s, blksz).count == s.nblocks * blksz
    ensures s.cnt > 3 ==> var m := LineMapping(s, blksz).count;
      m % MAP_SECTOR == 0 && s.nblocks * blksz - s.zeroedlen <= m < s.nblocks * blksz - s.zeroedlen + MAP_SECTOR
  {
    var bytes := s.nblocks * blksz;
    assert MulU64(s.nblocks, blksz) == bytes;
    if s.cnt > 3 {
      var trimmed := bytes - s.zeroedlen;
      assert trimmed % U64 == trimmed;
      assert LineMapping(s, blksz).count == RoundUpU64(trimmed);
    }
  }

  /** sscanf converted the three mandatory fields, or all four. */
  predicate Complete(s: Scan)
  {
    s.cnt == 3 || s.cnt == 4
  }

  /** The LSMT file mapped the whole record: `(unsigned) nwrite` equals its length. */
  predicate Accepted(nwrite: int, m: RemoteMapping)
  {
    nwrite % U32 == m.count
  }

  /** A line that is complete and whose record the LSMT file accepts. */
  predicate Good(s: Scan, blksz: nat, ioctl: RemoteMapping -> int)
    requires Fits(s) && blksz < U64
  {
    Complete(s) && Accepted(ioctl(LineMapping(s, blksz)), LineMapping(s, blksz))
  }

  /**
   * erofs_write_map_file: -1 without a map file; otherwise the records of the
   * lines in order, stopping with -1 at the first incomplete line (no record)
   * or the first record the LSMT file does not accept in full (after handing
   * it over). `issued` is the sequence of records handed to ioctl.
   */
  method WriteMapFile(fp: Option<seq<Scan>>, blksz: nat, ioctl: RemoteMapping -> int)
    returns (r: int, issued: seq<RemoteMapping>)
    requires blksz < U64
    requires fp.Some? ==> forall s :: s in fp.value ==> Fits(s)
    ensures r == 0 || r == -1
    ensures fp.None? ==> r == -1 && issued == []
    ensures fp.Some? ==> |issued| <= |fp.value|
    ensures fp.Some? ==> forall i :: 0 <= i < |issued| ==> issued[i] == LineMapping(fp.value[i], blksz)
    ensures r == 0 <==> fp.Some? && forall s :: s in fp.value ==> Good(s, blksz, ioctl)
    ensures r == 0 ==> |issued| == |fp.value|
    ensures r == -1 && fp.Some? ==>
      exists k :: 0 <= k < |fp.value| && !Good(fp.value[k], blksz, ioctl) &&
        (forall j :: 0 <= j < k ==> Good(fp.value[j], blksz, ioctl)) &&
        |issued| == (if Complete(fp.value[k]) then k + 1 else k)
  {
    if fp.None? {
      return -1, [];
    }
    var lines := fp.value;
    issued := [];
    var i := 0;
    while i < |lines|
      invariant 0 <= i <= |lines| && |issued| == i
      invariant forall j :: 0 <= j < i ==> issued[j] == LineMapping(lines[j], blksz) && Good(lines[j], blksz, ioctl)
    {
      var s := lines[i];
      if !(s.cnt == 3 || s.cnt == 4) {
        assert s in lines && !Good(s, blksz, ioctl);
        return -1, issued;
      }
      var m := LineMapping(s, blksz);
      var nwrite := ioctl(m);
      issued := issued + [m];
      if nwrite % U32 != m.count {
        assert s in lines && !Good(s, blksz, ioctl);
        return -1, issued;
      }
      i := i + 1;
    }
    return 0, issued;
  }
}
