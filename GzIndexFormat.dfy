/**
 * On-disk layout of a gzip random-access index file: a packed header
 * followed by a (possibly zlib-compressed) table of packed checkpoints.
 * Packed C structs serialize as their fields in declaration order, with
 * no padding, little-endian.
 */
module GzIndexFormat {
  import opened Bytes
  import Crc32c

  /** Default distance between checkpoints in uncompressed bytes (1 MiB). */
  const GZ_CHUNK_SIZE: nat := 1048576
  /** Default compression of the stored windows: zlib. */
  const GZ_DICT_COMPRESS_ALGO: nat := 1
  /** The deflate history window of section 2 of RFC 1951 (32 KiB). */
  const WINSIZE: nat := 32768
  const DEFLATE_BLOCK_UNCOMPRESS_MAX_SIZE: nat := 65536
  /** "ddgzidx" */
  const MAGIC: seq<byte> := [0x64, 0x64, 0x67, 0x7a, 0x69, 0x64, 0x78]
  const MAGIC_FIELD_SIZE: nat := 8
  const RESERVE_SIZE: nat := 256

  /** sizeof(IndexFileHeader): 8 + 5 * 1 + 3 * 4 + 4 * 8 + 256 + 2 * 8 + 4. */
  const HEADER_SIZE: nat := 333
  /** Bytes of the header covered by its checksum: all but the trailing crc. */
  const HEADER_CRC_SPAN: nat := 329
  /** sizeof(IndexEntry): 3 * 8 + 1 + 4. */
  const ENTRY_SIZE: nat := 29

  lemma MagicFitsWithTerminator()
    ensures |MAGIC| + 1 <= MAGIC_FIELD_SIZE
  {
  }

  datatype IndexFileHeader = IndexFileHeader(
    magic: seq<byte>,
    majorVersion: byte,
    minorVersion: byte,
    dictCompressAlgo: byte,
    dictCompressLevel: int,
    flag: byte,
    span: int,
    window: int,
    indexSize: int,
    indexNum: int,
    gzipFileSize: int,
    indexFileSize: int,
    uncompressFileSize: int,
    reserve: seq<byte>,
    indexStart: int,
    indexAreaLen: int,
    crc: nat)

  /** Every field fits its C type. */
  predicate HeaderFits(h: IndexFileHeader)
  {
    && |h.magic| == MAGIC_FIELD_SIZE
    && FitsSigned(h.dictCompressLevel, 1)
    && FitsSigned(h.span, 4) && FitsSigned(h.window, 4) && FitsSigned(h.indexSize, 4)
    && FitsSigned(h.indexNum, 8) && FitsSigned(h.gzipFileSize, 8)
    && FitsSigned(h.indexFileSize, 8) && FitsSigned(h.uncompressFileSize, 8)
    && |h.reserve| == RESERVE_SIZE
    && FitsSigned(h.indexStart, 8) && FitsSigned(h.indexAreaLen, 8)
    && h.crc < Pow256(4)
  }

  /** magic, the three version/algorithm bytes, the level and the flag: 13 bytes. */
  function EncodeIdent(h: IndexFileHeader): (r: seq<byte>)
    requires |h.magic| == MAGIC_FIELD_SIZE
    ensures |r| == 13
  {
    h.magic + [h.majorVersion, h.minorVersion, h.dictCompressAlgo]
    + EncodeSigned(h.dictCompressLevel, 1) + [h.flag]
  }

  /** span, window and index_size: 12 bytes. */
  function EncodeGeometry(h: IndexFileHeader): (r: seq<byte>)
    ensures |r| == 12
  {
    EncodeSigned(h.span, 4) + EncodeSigned(h.window, 4) + EncodeSigned(h.indexSize, 4)
  }

  /** index_num and the three file sizes: 32 bytes. */
  function EncodeSizes(h: IndexFileHeader): (r: seq<byte>)
    ensures |r| == 32
  {
    EncodeSigned(h.indexNum, 8) + EncodeSigned(h.gzipFileSize, 8)
    + EncodeSigned(h.indexFileSize, 8) + EncodeSigned(h.uncompressFileSize, 8)
  }

  /** index_start and index_area_len: 16 bytes. */
  function EncodeArea(h: IndexFileHeader): (r: seq<byte>)
    ensures |r| == 16
  {
    EncodeSigned(h.indexStart, 8) + EncodeSigned(h.indexAreaLen, 8)
  }

  /** The first HEADER_CRC_SPAN bytes of the serialized header. */
  function EncodeHeaderBody(h: IndexFileHeader): (r: seq<byte>)
    requires |h.magic| == MAGIC_FIELD_SIZE && |h.reserve| == RESERVE_SIZE
    ensures |r| == HEADER_CRC_SPAN
  {
    EncodeIdent(h) + EncodeGeometry(h) + EncodeSizes(h) + h.reserve + EncodeArea(h)
  }

  function EncodeHeader(h: IndexFileHeader): (r: seq<byte>)
    requires |h.magic| == MAGIC_FIELD_SIZE && |h.reserve| == RESERVE_SIZE
    ensures |r| == HEADER_SIZE
  {
    EncodeHeaderBody(h) + LE(h.crc, 4)
  }

  /** Reinterprets HEADER_SIZE bytes as the packed header. */
  function DecodeHeader(s: seq<byte>): (h: IndexFileHeader)
    requires |s| == HEADER_SIZE
    ensures HeaderFits(h)
  {
    IndexFileHeader(
      s[0..8], s[8], s[9], s[10], DecodeSigned(s[11..12]), s[12],
      DecodeSigned(s[13..17]), DecodeSigned(s[17..21]), DecodeSigned(s[21..25]),
      DecodeSigned(s[25..33]), DecodeSigned(s[33..41]),
      DecodeSigned(s[41..49]), DecodeSigned(s[49..57]),
      s[57..313],
      DecodeSigned(s[313..321]), DecodeSigned(s[321..329]),
      FromLE(s[329..333]))
  }

  lemma DecodeSignedFits(s: seq<byte>)
    ensures FitsSigned(DecodeSigned(s), |s|)
  {
  }

  lemma HeaderGroups(h: IndexFileHeader, s: seq<byte>)
    requires |h.magic| == MAGIC_FIELD_SIZE && |h.reserve| == RESERVE_SIZE
    requires s == EncodeHeader(h)
    ensures s[0..13] == EncodeIdent(h) && s[13..25] == EncodeGeometry(h)
    ensures s[25..57] == EncodeSizes(h) && s[57..313] == h.reserve
    ensures s[313..329] == EncodeArea(h) && s[329..333] == LE(h.crc, 4)
  {
  }

  lemma IdentFields(h: IndexFileHeader, t: seq<byte>)
    requires |h.magic| == MAGIC_FIELD_SIZE && t == EncodeIdent(h)
    ensures t[0..8] == h.magic && t[8] == h.majorVersion && t[9] == h.minorVersion
    ensures t[10] == h.dictCompressAlgo && t[11..12] == EncodeSigned(h.dictCompressLevel, 1)
    ensures t[12] == h.flag
  {
  }

  lemma GeometryFields(h: IndexFileHeader, t: seq<byte>)
    requires t == EncodeGeometry(h)
    ensures t[0..4] == EncodeSigned(h.span, 4) && t[4..8] == EncodeSigned(h.window, 4)
    ensures t[8..12] == EncodeSigned(h.indexSize, 4)
  {
  }

  lemma SizesFields(h: IndexFileHeader, t: seq<byte>)
    requires t == EncodeSizes(h)
    ensures t[0..8] == EncodeSigned(h.indexNum, 8) && t[8..16] == EncodeSigned(h.gzipFileSize, 8)
    ensures t[16..24] == EncodeSigned(h.indexFileSize, 8)
    ensures t[24..32] == EncodeSigned(h.uncompressFileSize, 8)
  {
  }

  lemma AreaFields(h: IndexFileHeader, t: seq<byte>)
    requires t == EncodeArea(h)
    ensures t[0..8] == EncodeSigned(h.indexStart, 8) && t[8..16] == EncodeSigned(h.indexAreaLen, 8)
  {
  }

  /** Serializing a header and reading it back gives the same header. */
  lemma DecodeEncodeHeader(h: IndexFileHeader)
    requires HeaderFits(h)
    ensures DecodeHeader(EncodeHeader(h)) == h
  {
    var s := EncodeHeader(h);
    HeaderGroups(h, s);
    IdentFields(h, s[0..13]);
    GeometryFields(h, s[13..25]);
    SizesFields(h, s[25..57]);
    AreaFields(h, s[313..329]);
    assert s[11..12] == s[0..13][11..12];
    assert s[13..17] == s[13..25][0..4] && s[17..21] == s[13..25][4..8] && s[21..25] == s[13..25][8..12];
    assert s[25..33] == s[25..57][0..8] && s[33..41] == s[25..57][8..16];
    assert s[41..49] == s[25..57][16..24] && s[49..57] == s[25..57][24..32];
    assert s[313..321] == s[313..329][0..8] && s[321..329] == s[313..329][8..16];
    DecodeEncodeSigned(h.dictCompressLevel, 1);
    DecodeEncodeSigned(h.span, 4);
    DecodeEncodeSigned(h.window, 4);
    DecodeEncodeSigned(h.indexSize, 4);
    DecodeEncodeSigned(h.indexNum, 8);
    DecodeEncodeSigned(h.gzipFileSize, 8);
    DecodeEncodeSigned(h.indexFileSize, 8);
    DecodeEncodeSigned(h.uncompressFileSize, 8);
    DecodeEncodeSigned(h.indexStart, 8);
    DecodeEncodeSigned(h.indexAreaLen, 8);
    DecodeEncodeUnsigned(h.crc, 4);
  }

  /** cal_crc(): CRC32C over every header byte before the crc field. */
  function CalCrc(h: IndexFileHeader): nat
    requires |h.magic| == MAGIC_FIELD_SIZE && |h.reserve| == RESERVE_SIZE
  {
    Crc32c.Crc(EncodeHeaderBody(h)) as nat
  }

  /** The stored crc does not take part in its own checksum. */
  lemma CalCrcIgnoresCrcField(h: IndexFileHeader, c: nat)
    requires |h.magic| == MAGIC_FIELD_SIZE && |h.reserve| == RESERVE_SIZE
    ensures CalCrc(h.(crc := c)) == CalCrc(h)
  {
    assert EncodeHeaderBody(h.(crc := c)) == EncodeHeaderBody(h);
  }

  /** cal_crc() computed on the raw bytes: the checksum of the first 329 bytes. */
  lemma CalCrcOfRawBytes(s: seq<byte>)
    requires |s| == HEADER_SIZE
    ensures CalCrc(DecodeHeader(s)) == Crc32c.Crc(s[..HEADER_CRC_SPAN]) as nat
  {
    var h := DecodeHeader(s);
    LEofFromLE(s[329..333]);
    assert EncodeHeader(h) == s by {
      EncodeOfDecodeHeader(s);
    }
    assert EncodeHeaderBody(h) == EncodeHeader(h)[..HEADER_CRC_SPAN];
  }

  lemma IdentOfDecode(s: seq<byte>)
    requires |s| == HEADER_SIZE
    ensures EncodeIdent(DecodeHeader(s)) == s[0..13]
  {
    var h := DecodeHeader(s);
    EncodeDecodeSigned(s[11..12]);
    assert s[0..13] == s[0..8] + [s[8], s[9], s[10]] + s[11..12] + [s[12]];
  }

  lemma GeometryOfDecode(s: seq<byte>)
    requires |s| == HEADER_SIZE
    ensures EncodeGeometry(DecodeHeader(s)) == s[13..25]
  {
    EncodeDecodeSigned(s[13..17]);
    EncodeDecodeSigned(s[17..21]);
    EncodeDecodeSigned(s[21..25]);
    assert s[13..25] == s[13..17] + s[17..21] + s[21..25];
  }

  lemma SizesOfDecode(s: seq<byte>)
    requires |s| == HEADER_SIZE
    ensures EncodeSizes(DecodeHeader(s)) == s[25..57]
  {
    var h := DecodeHeader(s);
    var a, b, c, d := s[25..33], s[33..41], s[41..49], s[49..57];
    assert h.indexNum == DecodeSigned(a) && h.gzipFileSize == DecodeSigned(b);
    assert h.indexFileSize == DecodeSigned(c) && h.uncompressFileSize == DecodeSigned(d);
    EncodeDecodeSigned(a);
    EncodeDecodeSigned(b);
    EncodeDecodeSigned(c);
    EncodeDecodeSigned(d);
    assert s[25..41] == a + b;
    assert s[41..57] == c + d;
    assert s[25..57] == s[25..41] + s[41..57];
  }

  lemma AreaOfDecode(s: seq<byte>)
    requires |s| == HEADER_SIZE
    ensures EncodeArea(DecodeHeader(s)) == s[313..329]
  {
    EncodeDecodeSigned(s[313..321]);
    EncodeDecodeSigned(s[321..329]);
    assert s[313..329] == s[313..321] + s[321..329];
  }

  /** Reading 333 bytes as a header and writing it back reproduces the bytes. */
  lemma EncodeOfDecodeHeader(s: seq<byte>)
    requires |s| == HEADER_SIZE
    ensures EncodeHeader(DecodeHeader(s)) == s
  {
    var h := DecodeHeader(s);
    IdentOfDecode(s);
    GeometryOfDecode(s);
    SizesOfDecode(s);
    AreaOfDecode(s);
    LEofFromLE(s[329..333]);
    assert s == s[0..13] + s[13..25] + s[25..57] + s[57..313] + s[313..329] + s[329..333];
  }

  /** One checkpoint of the index. */
  datatype IndexEntry = IndexEntry(
    dePos: int,    // uncompressed offset of the checkpoint
    enPos: int,    // compressed offset of the first byte not fully consumed
    winPos: int,   // offset of the stored window in the index file
    bits: byte,    // bits of the byte before enPos still to be consumed
    winLen: nat)   // stored length of the window

  predicate EntryFits(e: IndexEntry)
  {
    FitsSigned(e.dePos, 8) && FitsSigned(e.enPos, 8) && FitsSigned(e.winPos, 8) && e.winLen < Pow256(4)
  }

  function EncodeEntry(e: IndexEntry): (r: seq<byte>)
    ensures |r| == ENTRY_SIZE
  {
    EncodeSigned(e.dePos, 8) + EncodeSigned(e.enPos, 8) + EncodeSigned(e.winPos, 8)
    + [e.bits] + LE(e.winLen, 4)
  }

  function DecodeEntry(s: seq<byte>): (e: IndexEntry)
    requires |s| == ENTRY_SIZE
    ensures EntryFits(e)
  {
    IndexEntry(DecodeSigned(s[0..8]), DecodeSigned(s[8..16]), DecodeSigned(s[16..24]),
      s[24], FromLE(s[25..29]))
  }

  lemma DecodeEncodeEntry(e: IndexEntry)
    requires EntryFits(e)
    ensures DecodeEntry(EncodeEntry(e)) == e
  {
    var s := EncodeEntry(e);
    assert s[0..8] == EncodeSigned(e.dePos, 8);
    assert s[8..16] == EncodeSigned(e.enPos, 8);
    assert s[16..24] == EncodeSigned(e.winPos, 8);
    assert s[25..29] == LE(e.winLen, 4);
    DecodeEncodeSigned(e.dePos, 8);
    DecodeEncodeSigned(e.enPos, 8);
    DecodeEncodeSigned(e.winPos, 8);
    DecodeEncodeUnsigned(e.winLen, 4);
  }

  /** Byte offset of entry i in the table. */
  function Stride(i: nat): nat
  {
    i * ENTRY_SIZE
  }

  lemma StrideBound(i: nat, n: nat)
    requires i < n
    ensures Stride(i) + ENTRY_SIZE <= Stride(n)
  {
  }

  lemma StrideStep(n: nat)
    ensures Stride(n + 1) == Stride(n) + ENTRY_SIZE
  {
  }

  /** The n checkpoints of a table, entry i read at byte i * sizeof(IndexEntry). */
  function DecodeEntries(buf: seq<byte>, n: nat): (es: seq<IndexEntry>)
    requires |buf| >= Stride(n)
    ensures |es| == n
  {
    seq(n, i requires 0 <= i < n =>
      StrideBound(i, n);
      DecodeEntry(buf[Stride(i) .. Stride(i) + ENTRY_SIZE]))
  }

  lemma DecodeEntriesAt(buf: seq<byte>, n: nat, i: nat)
    requires |buf| >= Stride(n) && i < n
    ensures Stride(i) + ENTRY_SIZE <= |buf|
    ensures DecodeEntries(buf, n)[i] == DecodeEntry(buf[Stride(i) .. Stride(i) + ENTRY_SIZE])
  {
    StrideBound(i, n);
  }

  function EncodeEntries(es: seq<IndexEntry>): (r: seq<byte>)
    ensures |r| == Stride(|es|)
  {
    if |es| == 0 then []
    else
      StrideStep(|es| - 1);
      EncodeEntries(es[..|es| - 1]) + EncodeEntry(es[|es| - 1])
  }

  lemma {:induction false} EncodeEntriesAt(es: seq<IndexEntry>, i: nat)
    requires i < |es|
    ensures Stride(i) + ENTRY_SIZE <= |EncodeEntries(es)|
    ensures EncodeEntries(es)[Stride(i) .. Stride(i) + ENTRY_SIZE] == EncodeEntry(es[i])
    decreases |es|
  {
    StrideBound(i, |es|);
    var init := es[..|es| - 1];
    var prefix := EncodeEntries(init);
    assert EncodeEntries(es) == prefix + EncodeEntry(es[|es| - 1]);
    if i < |es| - 1 {
      EncodeEntriesAt(init, i);
      StrideBound(i, |init|);
      assert init[i] == es[i];
    } else {
      assert Stride(i) == |prefix|;
    }
  }

  /** A table written entry after entry decodes to the same entries, in order. */
  lemma DecodeEncodeEntries(es: seq<IndexEntry>)
    requires forall i :: 0 <= i < |es| ==> EntryFits(es[i])
    ensures DecodeEntries(EncodeEntries(es), |es|) == es
  {
    var buf := EncodeEntries(es);
    var decoded := DecodeEntries(buf, |es|);
    forall i | 0 <= i < |es|
      ensures decoded[i] == es[i]
    {
      EncodeEntriesAt(es, i);
      DecodeEntriesAt(buf, |es|, i);
      DecodeEncodeEntry(es[i]);
    }
    assert decoded == es;
  }
}
