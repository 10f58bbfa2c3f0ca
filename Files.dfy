/**
 * The sequential part of a readable file: `read` from a current position
 * and `lseek`. The file's bytes are fixed; only the position changes.
 */
module Files {
  import opened Bytes

  const SEEK_SET: int := 0
  const SEEK_CUR: int := 1
  const SEEK_END: int := 2

  /**
   * Where lseek(offset, whence) moves a file at `pos` of `size` bytes:
   * relative to the start, the current position or the end; -1 when whence
   * is unknown or the target would be negative.
   */
  function SeekResult(pos: nat, size: nat, offset: int, whence: int): (r: int)
    ensures r == -1 || r >= 0
    ensures whence == SEEK_SET && offset >= 0 ==> r == offset
    ensures whence == SEEK_CUR && pos + offset >= 0 ==> r == pos + offset
    ensures whence == SEEK_END && size + offset >= 0 ==> r == size + offset
    ensures (whence != SEEK_SET && whence != SEEK_CUR && whence != SEEK_END) ==> r == -1
  {
    var base := if whence == SEEK_SET then 0 else if whence == SEEK_CUR then pos else size;
    if (whence == SEEK_SET || whence == SEEK_CUR || whence == SEEK_END) && base + offset >= 0
    then base + offset
    else -1
  }

  class StreamFile {
    const data: seq<byte>
    var pos: nat

    constructor(data: seq<byte>)
      ensures this.data == data && pos == 0
    {
      this.data := data;
      pos := 0;
    }

    /** read(buf, count): the next bytes, fewer at end of file, 0 past it. */
    method Read(count: nat) returns (rc: int, bytes: seq<byte>)
      modifies this
      ensures rc == |bytes| <= count
      ensures old(pos) <= |data| ==> bytes == data[old(pos) .. old(pos) + Min(count, |data| - old(pos))]
      ensures old(pos) > |data| ==> bytes == []
      ensures pos == old(pos) + rc
    {
      if pos >= |data| {
        rc, bytes := 0, [];
      } else {
        var n := Min(count, |data| - pos);
        bytes := data[pos .. pos + n];
        rc := n;
        pos := pos + n;
      }
    }

    /** lseek(offset, whence): the new position, -1 for an unknown whence or a negative result. */
    method Lseek(offset: int, whence: int) returns (r: int)
      modifies this
      ensures r == SeekResult(old(pos), |data|, offset, whence)
      ensures pos == if r >= 0 then r else old(pos)
    {
      var base := if whence == SEEK_SET then 0 else if whence == SEEK_CUR then pos else |data|;
      if (whence == SEEK_SET || whence == SEEK_CUR || whence == SEEK_END) && base + offset >= 0 {
        pos := base + offset;
        r := pos;
      } else {
        r := -1;
      }
    }

    /** fstat: st_size is the length of the file. */
    function Size(): (s: nat)
      ensures s == |data|
    {
      |data|
    }
  }
}
