/**
 * overlaybd-apply's SHA-256 checked source: a read-only file wrapper that
 * feeds every byte it reads to a SHA-256 context, and the checksum string
 * "sha256:<64 lowercase hex digits>" the tool compares with --checksum.
 *
 * SHA-256 itself (FIPS 180-4, from OpenSSL) is outside the model: it enters
 * as the function `sha256` from the whole digested input to the 32-byte
 * digest, and the result of each SHA256_Update call is a parameter.
 */
module ChecksumFile {
  import opened Bytes
  import opened Wrappers
  import Files

  const DIGEST_LENGTH: nat := 32
  /** Size of the stack buffer for the trailing read in sha256_checksum. */
  const TRAILING_READ: nat := 65536
  const PREFIX: string := "sha256:"
  /** The span create_gz_index is given when a gzip index is requested. */
  const GZ_INDEX_SPAN: nat := 1048576

  type Sha256 = seq<byte> -> seq<byte>

  // ------------------------------------------------------------ hex digits

  /** One lowercase hex digit, as %x prints it. */
  function HexDigit(v: nat): (c: char)
    requires v < 16
    ensures ('0' <= c <= '9') || ('a' <= c <= 'f')
  {
    if v < 10 then (48 + v) as char else (97 + v - 10) as char
  }

  function DigitValue(c: char): (v: nat)
    ensures v < 16
  {
    if '0' <= c <= '9' then c as int - 48
    else if 'a' <= c <= 'f' then c as int - 97 + 10
    else 0
  }

  lemma DigitValueOfHexDigit(v: nat)
    requires v < 16
    ensures DigitValue(HexDigit(v)) == v
  {
  }

  /** "%02x" of each byte in turn: two lowercase digits per byte, high nibble first. */
  function Hex(bytes: seq<byte>): (s: string)
    ensures |s| == 2 * |bytes|
  {
    seq(2 * |bytes|, k requires 0 <= k < 2 * |bytes| =>
      if k % 2 == 0 then HexDigit(bytes[k / 2] / 16) else HexDigit(bytes[k / 2] % 16))
  }

  /** Reads pairs of hex digits back into bytes. */
  function ParseHex(s: string): (bytes: seq<byte>)
    ensures |bytes| == |s| / 2
  {
    seq(|s| / 2, i requires 0 <= i < |s| / 2 => 16 * DigitValue(s[2 * i]) + DigitValue(s[2 * i + 1]))
  }

  /** Every character of a hex rendering is a lowercase hex digit. */
  lemma HexDigitsOnly(bytes: seq<byte>)
    ensures forall k :: 0 <= k < |Hex(bytes)| ==> ('0' <= Hex(bytes)[k] <= '9') || ('a' <= Hex(bytes)[k] <= 'f')
  {
  }

  /** The hex rendering loses nothing: it parses back to the digest. */
  lemma ParseHexOfHex(bytes: seq<byte>)
    ensures ParseHex(Hex(bytes)) == bytes
  {
    var s := Hex(bytes);
    forall i | 0 <= i < |bytes|
      ensures ParseHex(s)[i] == bytes[i]
    {
      assert s[2 * i] == HexDigit(bytes[i] / 16);
      assert s[2 * i + 1] == HexDigit(bytes[i] % 16);
      DigitValueOfHexDigit(bytes[i] / 16);
      DigitValueOfHexDigit(bytes[i] % 16);
    }
  }

  /** So two checksum strings are equal exactly when the digests are. */
  lemma ChecksumStringsIff(a: seq<byte>, b: seq<byte>)
    ensures PREFIX + Hex(a) == PREFIX + Hex(b) <==> a == b
  {
    if PREFIX + Hex(a) == PREFIX + Hex(b) {
      assert Hex(a) == (PREFIX + Hex(a))[|PREFIX|..];
      ParseHexOfHex(a);
      ParseHexOfHex(b);
    }
  }

  /**
   * The digest formatting loop of sha256_checksum as written: each
   * sprintf(res + 2i, "%02x", sha[i]) stores two digits and a terminating
   * NUL, into `char res[SHA256_DIGEST_LENGTH * 2]`. The last call's NUL
   * lands one past the end of the array; the model skips that store and
   * reports its index.
   */
  method FormatAsWritten(sha: seq<byte>) returns (res: array<char>, overflow: Option<nat>)
    ensures fresh(res) && res.Length == 2 * |sha|
    ensures res[..] == Hex(sha)
    ensures overflow == if |sha| == 0 then None else Some(2 * |sha|)
  {
    res := new char[2 * |sha|];
    overflow := None;
    var i := 0;
    while i < |sha|
      invariant 0 <= i <= |sha|
      invariant forall k :: 0 <= k < 2 * i ==> res[k] == Hex(sha)[k]
      invariant overflow == if 0 < i == |sha| then Some(2 * i) else None
    {
      res[2 * i] := HexDigit(sha[i] / 16);
      res[2 * i + 1] := HexDigit(sha[i] % 16);
      if 2 * i + 2 < res.Length {
        res[2 * i + 2] := 0 as char;
      } else {
        overflow := Some(2 * i + 2);
      }
      i := i + 1;
      if i < |sha| {
        overflow := None;
      }
    }
    assert res[..] == Hex(sha);
  }

  /**
   * The same loop with room for the terminating NUL: `2n + 1` characters,
   * the first 2n of them the hex rendering.
   */
  method FormatDigest(sha: seq<byte>) returns (res: array<char>)
    ensures fresh(res) && res.Length == 2 * |sha| + 1
    ensures res[..2 * |sha|] == Hex(sha) && res[2 * |sha|] == 0 as char
  {
    res := new char[2 * |sha| + 1];
    res[0] := 0 as char;
    var i := 0;
    while i < |sha|
      invariant 0 <= i <= |sha|
      invariant forall k :: 0 <= k < 2 * i ==> res[k] == Hex(sha)[k]
      invariant res[2 * i] == 0 as char
    {
      res[2 * i] := HexDigit(sha[i] / 16);
      res[2 * i + 1] := HexDigit(sha[i] % 16);
      res[2 * i + 2] := 0 as char;
      i := i + 1;
    }
    assert res[..2 * |sha|] == Hex(sha);
  }

  // --------------------------------------------------------- checked file

  /** What read(count) at `pos` returns from `data`: the next bytes, fewer at end of file. */
  function Chunk(data: seq<byte>, pos: nat, count: nat): (bytes: seq<byte>)
    ensures |bytes| <= count
    ensures pos + |bytes| <= |data| || bytes == []
    ensures pos + count <= |data| ==> |bytes| == count
  {
    if pos <= |data| then data[pos .. pos + Min(count, |data| - pos)] else []
  }

  /** SHA256CheckedFile: the wrapped file and the bytes folded into the SHA-256 context so far. */
  class CheckedFile {
    const file: Files.StreamFile
    const sha256: Sha256
    var digested: seq<byte>

    /** SHA256_Init: nothing digested yet. */
    constructor(file: Files.StreamFile, sha256: Sha256)
      ensures this.file == file && this.sha256 == sha256 && digested == []
    {
      this.file := file;
      this.sha256 := sha256;
      digested := [];
    }

    /** The digest covers exactly the bytes from the start of the file up to the position. */
    predicate Tracks()
      reads this, file
    {
      file.pos <= |file.data| && digested == file.data[..file.pos]
    }

    /**
     * read(buf, count): the inner read's result, folded into the digest when
     * positive; -1 when that SHA256_Update fails (`updateOk` false).
     */
    method Read(count: nat, updateOk: bool) returns (rc: int, bytes: seq<byte>)
      modifies this, file
      ensures bytes == Chunk(file.data, old(file.pos), count)
      ensures file.pos == old(file.pos) + |bytes|
      ensures rc == if |bytes| > 0 && !updateOk then -1 else |bytes|
      ensures digested == if |bytes| > 0 && updateOk then old(digested) + bytes else old(digested)
      ensures old(Tracks()) && (updateOk || bytes == []) ==> Tracks()
    {
      rc, bytes := file.Read(count);
      if rc > 0 {
        if !updateOk {
          return -1, bytes;
        }
        digested := digested + bytes;
      }
      assert old(Tracks()) && (updateOk || bytes == []) ==> file.data[..file.pos] == file.data[..old(file.pos)] + bytes;
    }

    /** lseek is forwarded and leaves the digest alone. */
    method Lseek(offset: int, whence: int) returns (r: int)
      modifies file
      ensures r == Files.SeekResult(old(file.pos), |file.data|, offset, whence)
      ensures file.pos == if r >= 0 then r else old(file.pos)
    {
      r := file.Lseek(offset, whence);
    }

    /** fstat is forwarded: st_size is the wrapped file's size. */
    function Fstat(): (size: nat)
      ensures size == |file.data|
    {
      file.Size()
    }

    /**
     * sha256_checksum: one more read of up to 64 KiB of trailing data,
     * folded in, then "sha256:" and the hex digest; "" when that update
     * fails. `tooMuchTrailing` is the warning for a full trailing read. When
     * the digest tracked the file from its start and at most 64 KiB were
     * left, the result is the checksum of the whole file.
     */
    method Checksum(updateOk: bool) returns (r: string, tooMuchTrailing: bool)
      modifies this, file
      ensures var trailing := Chunk(file.data, old(file.pos), TRAILING_READ);
        && tooMuchTrailing == (|trailing| == TRAILING_READ)
        && r == (if |trailing| > 0 && !updateOk then "" else PREFIX + Hex(sha256(old(digested) + trailing)))
      ensures (old(Tracks()) && |file.data| - old(file.pos) <= TRAILING_READ && updateOk) ==>
        r == PREFIX + Hex(sha256(file.data))
    {
      var rc, trailing := file.Read(TRAILING_READ);
      tooMuchTrailing := rc == TRAILING_READ;
      if rc > 0 {
        if !updateOk {
          return "", tooMuchTrailing;
        }
        digested := digested + trailing;
      }
      assert digested == old(digested) + trailing;
      if old(Tracks()) && |file.data| - old(file.pos) <= TRAILING_READ && updateOk {
        assert file.data == file.data[..old(file.pos)] + trailing;
      }
      var res := FormatDigest(sha256(digested));
      r := PREFIX + res[..2 * |sha256(digested)|];
    }
  }

  // ---------------------------------------------------------------- main

  /** What main sets up, from the options and whether the input is gzip. */
  datatype ApplyPlan = ApplyPlan(
    openImageDirectly: bool,  // --raw: the image file itself, not an image service
    extfsBuffer: bool,        // the buffered extfs, unusable with a gzip index
    buildIndex: bool,         // create_gz_index over the input, then rewind it
    gzipAdaptor: bool,        // read the tar through the gzip adaptor
    wrapChecksum: bool,       // read the tar through a CheckedFile
    passBaseFile: bool,       // hand the image's base file to the extractor
    fastOci: bool)            // tell the extractor an index is built

  function Plan(raw: bool, gzipInput: bool, gzIndexPath: string, checksum: string): (p: ApplyPlan)
    ensures p.openImageDirectly == raw && p.passBaseFile == !raw
    ensures p.extfsBuffer <==> gzIndexPath == []
    ensures p.buildIndex <==> gzipInput && gzIndexPath != []
    ensures p.gzipAdaptor == gzipInput
    ensures p.wrapChecksum <==> checksum != []
    ensures p.fastOci <==> gzIndexPath != []
    ensures p.buildIndex ==> p.gzipAdaptor && !p.extfsBuffer
  {
    ApplyPlan(raw, gzIndexPath == [], gzipInput && gzIndexPath != [], gzipInput, checksum != [], !raw, gzIndexPath != [])
  }

  /**
   * The end of main: -1 when extraction fails; otherwise, with a checksum
   * requested, -1 when the computed string differs from it; else 0.
   * `digestOk` is the result of the final SHA256_Update.
   */
  method Finish(extracted: bool, expected: string, f: CheckedFile, digestOk: bool) returns (code: int)
    modifies f, f.file
    ensures code == 0 || code == -1
    ensures !extracted ==> code == -1
    ensures extracted && expected == [] ==> code == 0
    ensures (extracted && expected != [] && old(f.Tracks()) && |f.file.data| - old(f.file.pos) <= TRAILING_READ && digestOk) ==>
      (code == 0 <==> expected == PREFIX + Hex(f.sha256(f.file.data)))
  {
    if !extracted {
      return -1;
    }
    if expected != [] {
      var computed, tooMuchTrailing := f.Checksum(digestOk);
      if computed != expected {
        return -1;
      }
    }
    return 0;
  }
}
