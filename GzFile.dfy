/**
 * Random-access reads of a gzip file through its checkpoint index.
 *
 * The deflate decoder (zlib) is outside the model. It enters in two forms:
 *   - `inflate`: zlib-format (RFC 1950) decompression of a whole buffer,
 *     giving the decompressed bytes when the buffer holds one complete stream;
 *   - `decode`: raw-deflate (RFC 1951) decoding resumed at a checkpoint,
 *     giving the bytes the decoder would produce from there on and whether
 *     the deflate stream ends cleanly after them (otherwise the compressed
 *     input runs out or is corrupt).
 */
module GzFile {
  import opened Bytes
  import opened Wrappers
  import opened GzIndexFormat
  import Files

  /** Size of the discard buffer and of each compressed read in extract(). */
  const CHUNK: nat := 65536
  const U32: nat := 0x1_0000_0000
  const EINVAL: int := 22

  type Inflater = seq<byte> -> Option<seq<byte>>

  /** Where and how raw-deflate decoding resumes at a checkpoint. */
  datatype ResumePoint = ResumePoint(
    inputPos: int,       // first compressed byte read through the input buffer
    primeBits: nat,      // inflatePrime(bits, ...)
    primeValue: nat,     // inflatePrime(..., value)
    window: seq<byte>)   // inflateSetDictionary(window, WINSIZE)

  /** What the resumed decoder produces: its output, and whether the stream ends after it. */
  datatype InflateRun = InflateRun(out: seq<byte>, ends: bool)

  /** zlib_decompress(in, ..., out, out_len): one Z_FINISH inflate into `capacity` bytes. */
  function ZlibDecompress(inflate: Inflater, input: seq<byte>, capacity: int): (r: Option<seq<byte>>)
    ensures r.Some? ==> inflate(input) == r && |r.value| <= capacity
    ensures r.None? ==> inflate(input).None? || |inflate(input).value| > capacity
  {
    match inflate(input)
    case Some(d) => if |d| <= capacity then Some(d) else None
    case None => None
  }

  /** All the checks init() makes on the header, as one condition. */
  predicate HeaderAccepted(h: IndexFileHeader, indexFileSize: nat, gzipFileSize: nat)
    requires |h.magic| == MAGIC_FIELD_SIZE && |h.reserve| == RESERVE_SIZE
  {
    && indexFileSize == h.indexFileSize
    && h.crc == CalCrc(h)
    && h.majorVersion == 1
    && h.indexSize == ENTRY_SIZE
    && h.magic[..|MAGIC|] == MAGIC
    && indexFileSize == h.indexStart + h.indexAreaLen
    && h.gzipFileSize == gzipFileSize
  }

  /** The header checks of init(), in the order the source makes them. */
  function CheckHeader(indexFile: seq<byte>, gzipFileSize: nat): (r: Option<IndexFileHeader>)
    ensures r.Some? <==> (|indexFile| >= HEADER_SIZE
      && HeaderAccepted(DecodeHeader(indexFile[..HEADER_SIZE]), |indexFile|, gzipFileSize))
    ensures r.Some? ==> r.value == DecodeHeader(indexFile[..HEADER_SIZE])
  {
    if |indexFile| < HEADER_SIZE then None
    else
      var h := DecodeHeader(indexFile[..HEADER_SIZE]);
      if |indexFile| != h.indexFileSize then None
      else if CalCrc(h) != h.crc then None
      else if h.majorVersion != 1 then None
      else if h.indexSize != ENTRY_SIZE then None
      else if h.magic[..|MAGIC|] != MAGIC then None
      else if |indexFile| != h.indexStart + h.indexAreaLen then None
      else if h.gzipFileSize != gzipFileSize then None
      else Some(h)
  }

  /** The bytes parse_index() turns into checkpoints, or None where it fails. */
  function IndexTable(h: IndexFileHeader, indexFile: seq<byte>, inflate: Inflater): (r: Option<seq<byte>>)
    requires |indexFile| == h.indexStart + h.indexAreaLen
    ensures r.Some? ==> h.indexStart >= 0 && h.indexNum >= 0 && |r.value| == h.indexNum * h.indexSize
    ensures r.Some? && h.dictCompressAlgo == 0 ==>
      h.indexAreaLen == h.indexNum * h.indexSize && r.value == indexFile[h.indexStart..]
  {
    if h.indexStart < 0 || h.indexAreaLen < 0 || h.indexNum < 0 || h.indexSize < 0 then None
    else
      var area := indexFile[h.indexStart..];
      var tableLen := h.indexNum * h.indexSize;
      if h.dictCompressAlgo != 0 then
        match ZlibDecompress(inflate, area, tableLen)
        case None => None
        case Some(d) => if |d| != tableLen then None else Some(d)
      else if h.indexAreaLen != tableLen then None
      else Some(area)
  }

  /** What a successful init() leaves behind: the header and the checkpoint table. */
  function InitSpec(gzipFile: seq<byte>, indexFile: seq<byte>, inflate: Inflater)
    : (r: Option<(IndexFileHeader, seq<IndexEntry>)>)
    ensures r.Some? ==> CheckHeader(indexFile, |gzipFile|) == Some(r.value.0)
    ensures r.Some? ==> |r.value.1| == r.value.0.indexNum
  {
    match CheckHeader(indexFile, |gzipFile|)
    case None => None
    case Some(h) =>
      match IndexTable(h, indexFile, inflate)
      case None => None
      case Some(table) => Some((h, DecodeEntries(table, h.indexNum)))
  }

  /** Checkpoints sorted by uncompressed position, as the index writer emits them. */
  predicate SortedByDePos(index: seq<IndexEntry>)
  {
    forall i, j :: 0 <= i < j < |index| ==> index[i].dePos <= index[j].dePos
  }

  /**
   * Reference definition of seek_index: the last checkpoint at or before
   * `offset`, or the first one when every checkpoint lies after it.
   */
  function LastNotAfter(index: seq<IndexEntry>, offset: int): (k: nat)
    requires |index| > 0
    ensures k < |index|
    ensures index[k].dePos <= offset || k == 0
    ensures forall j :: k < j < |index| ==> index[j].dePos > offset
  {
    if |index| == 1 then 0
    else if index[|index| - 1].dePos <= offset then |index| - 1
    else LastNotAfter(index[..|index| - 1], offset)
  }

  /** inflatePrime's value: the top `bits` bits of the byte before enPos. */
  function PrimeValue(b: byte, bits: nat): nat
  {
    if 1 <= bits <= 8 then
      var p := Pow2(8 - bits);
      DivNonNegative(b, p);
      b / p
    else 0
  }

  lemma DivNonNegative(a: nat, p: nat)
    requires p >= 1
    ensures a / p >= 0
  {
  }

  /** 0 <= pos and [pos, pos + len) lies inside a file of `size` bytes: a full pread. */
  predicate FullRead(pos: int, len: int, size: nat)
  {
    0 <= pos && 0 <= len && pos + len <= size
  }

  /** get_dict_by_index: the WINSIZE-byte window stored for a checkpoint. */
  function GetDict(h: IndexFileHeader, e: IndexEntry, indexFile: seq<byte>, inflate: Inflater)
    : (r: Option<seq<byte>>)
    ensures r.Some? ==> |r.value| == WINSIZE
    ensures h.dictCompressAlgo == 0 ==>
      (r.Some? <==> e.winLen == WINSIZE && FullRead(e.winPos, e.winLen, |indexFile|))
    ensures h.dictCompressAlgo == 0 && r.Some? ==> r.value == indexFile[e.winPos .. e.winPos + WINSIZE]
    ensures h.dictCompressAlgo != 0 && h.dictCompressAlgo != 1 ==> r.None?
    ensures h.dictCompressAlgo == 1 ==>
      (r.Some? <==> (FullRead(e.winPos, e.winLen, |indexFile|)
        && var w := inflate(indexFile[e.winPos .. e.winPos + e.winLen]); w.Some? && |w.value| == WINSIZE))
    ensures h.dictCompressAlgo == 1 && r.Some? ==>
      inflate(indexFile[e.winPos .. e.winPos + e.winLen]) == r
  {
    if h.dictCompressAlgo == 0 then
      if e.winLen != WINSIZE || !FullRead(e.winPos, e.winLen, |indexFile|) then None
      else Some(indexFile[e.winPos .. e.winPos + WINSIZE])
    else if h.dictCompressAlgo != 1 then None
    else if !FullRead(e.winPos, e.winLen, |indexFile|) then None
    else
      match ZlibDecompress(inflate, indexFile[e.winPos .. e.winPos + e.winLen], WINSIZE)
      case None => None
      case Some(w) => if |w| != WINSIZE then None else Some(w)
  }

  /** Bytes actually discarded for a skip distance: a negative distance wraps to 32 bits. */
  function Discarded(skip: int): nat
  {
    if skip >= 0 then skip else skip % U32
  }

  /**
   * pread() as written, for an offset before the first checkpoint of a sorted
   * index: seek_index falls back to that checkpoint, so extract() gets a
   * negative distance, and its one discard round asks the decoder for more
   * bytes than the CHUNK-byte discard buffer holds.
   */
  lemma FallbackOverrunsDiscardBuffer(index: seq<IndexEntry>, offset: int)
    requires SortedByDePos(index) && |index| > 0
    requires 0 <= offset < index[0].dePos < offset + U32 - CHUNK
    ensures LastNotAfter(index, offset) == 0
    ensures offset - index[LastNotAfter(index, offset)].dePos < 0
    ensures Discarded(offset - index[LastNotAfter(index, offset)].dePos) > CHUNK
  {
    var skip := offset - index[0].dePos;
    assert -(U32 - CHUNK) < skip < 0;
    assert skip % U32 == skip + U32;
  }

  /** One concrete input: a single checkpoint at byte 100 and a read at offset 0. */
  lemma FallbackOverrunExample(e: IndexEntry)
    requires e.dePos == 100
    ensures LastNotAfter([e], 0) == 0
    ensures Discarded(0 - [e][LastNotAfter([e], 0)].dePos) == U32 - 100
  {
    assert SortedByDePos([e]);
    FallbackOverrunsDiscardBuffer([e], 0);
  }

  /**
   * The value extract() returns once the decoder is positioned: discard
   * `Discarded(skip)` bytes, then deliver up to `count` bytes.
   */
  function Outcome(run: InflateRun, skip: int, count: nat): (r: int)
    ensures -1 <= r <= count
    ensures r == -1 <==> !run.ends && Discarded(skip) + count > |run.out|
    ensures r >= 0 && Discarded(skip) <= |run.out| ==> r == Min(count, |run.out| - Discarded(skip))
    ensures Discarded(skip) > |run.out| ==> r <= 0
  {
    var d := Discarded(skip);
    if d > |run.out| then (if run.ends then 0 else -1)
    else if count <= |run.out| - d then count
    else if run.ends then |run.out| - d
    else -1
  }

  /**
   * When the decoder resumed at a checkpoint reproduces the uncompressed
   * file from that checkpoint on, a read at `offset` returns the file's
   * bytes there: min(count, size - offset) of them, none past the end.
   */
  lemma OutcomeReadsContent(content: seq<byte>, from: nat, offset: int, count: nat)
    requires from <= offset && from <= |content|
    ensures var run := InflateRun(content[from..], true);
      var r := Outcome(run, offset - from, count);
      && r == (if offset >= |content| then 0 else Min(count, |content| - offset))
      && (offset < |content| ==> run.out[Discarded(offset - from) .. Discarded(offset - from) + r]
                                 == content[offset .. offset + r])
  {
  }

  /**
   * An index file laid out as the writer lays it out (the header, then the
   * checkpoint table at index_start, stored plainly or zlib-compressed) is
   * accepted by init(), which recovers exactly that header and table.
   */
  lemma InitAcceptsWrittenIndex(gzipFile: seq<byte>, indexFile: seq<byte>, inflate: Inflater,
                                h: IndexFileHeader, es: seq<IndexEntry>)
    requires HeaderFits(h) && forall i :: 0 <= i < |es| ==> EntryFits(es[i])
    requires |indexFile| >= HEADER_SIZE && indexFile[..HEADER_SIZE] == EncodeHeader(h)
    requires HeaderAccepted(h, |indexFile|, |gzipFile|)
    requires h.indexStart >= 0 && h.indexAreaLen >= 0 && h.indexNum == |es|
    requires h.dictCompressAlgo == 0 ==> indexFile[h.indexStart..] == EncodeEntries(es)
    requires h.dictCompressAlgo != 0 ==> inflate(indexFile[h.indexStart..]) == Some(EncodeEntries(es))
    ensures InitSpec(gzipFile, indexFile, inflate) == Some((h, es))
  {
    CheckHeaderOfWritten(indexFile, |gzipFile|, h);
    IndexTableOfWritten(h, indexFile, inflate, es);
    var table := EncodeEntries(es);
    InitSpecOfParts(gzipFile, indexFile, inflate, h, table);
    DecodeEncodeEntries(es);
  }

  lemma InitSpecOfParts(gzipFile: seq<byte>, indexFile: seq<byte>, inflate: Inflater,
                        h: IndexFileHeader, table: seq<byte>)
    requires CheckHeader(indexFile, |gzipFile|) == Some(h)
    requires IndexTable(h, indexFile, inflate) == Some(table)
    ensures InitSpec(gzipFile, indexFile, inflate) == Some((h, DecodeEntries(table, h.indexNum)))
  {
  }

  lemma CheckHeaderOfWritten(indexFile: seq<byte>, gzipFileSize: nat, h: IndexFileHeader)
    requires HeaderFits(h)
    requires |indexFile| >= HEADER_SIZE && indexFile[..HEADER_SIZE] == EncodeHeader(h)
    requires HeaderAccepted(h, |indexFile|, gzipFileSize)
    ensures CheckHeader(indexFile, gzipFileSize) == Some(h)
  {
    DecodeEncodeHeader(h);
  }

  lemma IndexTableOfWritten(h: IndexFileHeader, indexFile: seq<byte>, inflate: Inflater, es: seq<IndexEntry>)
    requires |indexFile| == h.indexStart + h.indexAreaLen
    requires h.indexSize == ENTRY_SIZE
    requires h.indexStart >= 0 && h.indexAreaLen >= 0 && h.indexNum == |es|
    requires h.dictCompressAlgo == 0 ==> indexFile[h.indexStart..] == EncodeEntries(es)
    requires h.dictCompressAlgo != 0 ==> inflate(indexFile[h.indexStart..]) == Some(EncodeEntries(es))
    ensures IndexTable(h, indexFile, inflate) == Some(EncodeEntries(es))
  {
  }

  /**
   * A header whose crc field does not match cal_crc() is refused, whatever
   * the rest of the file holds.
   */
  lemma InitRejectsBadCrc(gzipFile: seq<byte>, indexFile: seq<byte>, inflate: Inflater)
    requires |indexFile| >= HEADER_SIZE
    requires Crc32c.Crc(indexFile[..HEADER_CRC_SPAN]) as nat != FromLE(indexFile[HEADER_CRC_SPAN..HEADER_SIZE])
    ensures InitSpec(gzipFile, indexFile, inflate).None?
  {
    var raw := indexFile[..HEADER_SIZE];
    CalCrcOfRawBytes(raw);
    assert raw[..HEADER_CRC_SPAN] == indexFile[..HEADER_CRC_SPAN];
    assert raw[329..333] == indexFile[HEADER_CRC_SPAN..HEADER_SIZE];
  }

  function Abs(x: int): nat
  {
    if x < 0 then -x else x
  }

  function Sum(s: seq<nat>): nat
  {
    if |s| == 0 then 0 else Sum(s[..|s| - 1]) + s[|s| - 1]
  }

  lemma SumAppend(s: seq<nat>, x: nat)
    ensures Sum(s + [x]) == Sum(s) + x
  {
    assert (s + [x])[..|s|] == s;
  }

  /** The decoder writing `src` to the front of the caller's buffer. */
  method CopyOut(buf: array<byte>, src: seq<byte>)
    requires |src| <= buf.Length
    modifies buf
    ensures buf[..|src|] == src && buf[|src|..] == old(buf[|src|..])
  {
    forall k | 0 <= k < |src| {
      buf[k] := src[k];
    }
  }

  class GzFile {
    const gzipFile: seq<byte>
    const indexFile: seq<byte>
    const inflate: Inflater
    const decode: ResumePoint -> InflateRun
    var ownership: bool
    var inited: bool
    var header: IndexFileHeader
    var index: seq<IndexEntry>

    /** A successful init() happened exactly when the index is loaded. */
    predicate Valid()
      reads this
    {
      && (inited ==> InitSpec(gzipFile, indexFile, inflate) == Some((header, index)))
      && (!inited ==> index == [])
    }

    constructor(gzipFile: seq<byte>, indexFile: seq<byte>, inflate: Inflater,
                decode: ResumePoint -> InflateRun)
      ensures Valid() && !inited && !ownership
      ensures this.gzipFile == gzipFile && this.indexFile == indexFile
      ensures this.inflate == inflate && this.decode == decode
    {
      this.gzipFile := gzipFile;
      this.indexFile := indexFile;
      this.inflate := inflate;
      this.decode := decode;
      ownership := false;
      inited := false;
      header := IndexFileHeader([], 0, 0, 0, 0, 0, 0, 0, 0, 0, 0, 0, 0, [], 0, 0, 0);
      index := [];
    }

    /** parse_index(): decode index_num checkpoints, appending them in file order. */
    method ParseIndex() returns (r: int)
      requires |header.magic| == MAGIC_FIELD_SIZE && |header.reserve| == RESERVE_SIZE
      requires |indexFile| == header.indexStart + header.indexAreaLen
      requires header.indexSize == ENTRY_SIZE
      modifies this`index
      ensures r == 0 || r == -1
      ensures var t := IndexTable(header, indexFile, inflate);
        if t.Some? then r == 0 && index == old(index) + DecodeEntries(t.value, header.indexNum)
        else r == -1 && index == old(index)
    {
      var table := IndexTable(header, indexFile, inflate);
      if table.None? {
        return -1;
      }
      var buf := table.value;
      var n: nat := header.indexNum;
      ghost var entries := DecodeEntries(buf, n);
      var i := 0;
      while i < n
        invariant 0 <= i <= n
        invariant index == old(index) + entries[..i]
      {
        StrideBound(i, n);
        index := index + [DecodeEntry(buf[Stride(i) .. Stride(i) + ENTRY_SIZE])];
        assert entries[..i + 1] == entries[..i] + [entries[i]];
        i := i + 1;
      }
      assert entries[..n] == entries;
      return 0;
    }

    /** init(): validate the index file once; later calls succeed at once. */
    method Init() returns (r: int)
      requires Valid()
      modifies this`inited, this`header, this`index
      ensures Valid()
      ensures r == 0 || r == -1
      ensures old(inited) ==> r == 0 && inited && header == old(header) && index == old(index)
      ensures !old(inited) ==>
        && (r == 0 <==> InitSpec(gzipFile, indexFile, inflate).Some?)
        && inited == (r == 0)
        && (r == 0 ==> (header, index) == InitSpec(gzipFile, indexFile, inflate).value)
    {
      if inited {
        return 0;
      }
      if |indexFile| < HEADER_SIZE {
        return -1;
      }
      header := DecodeHeader(indexFile[..HEADER_SIZE]);
      var checked := CheckHeader(indexFile, |gzipFile|);
      if checked.None? {
        return -1;
      }
      assert checked == Some(header);
      r := ParseIndex();
      if r != 0 {
        return -1;
      }
      ghost var table := IndexTable(header, indexFile, inflate);
      assert index == DecodeEntries(table.value, header.indexNum);
      assert InitSpec(gzipFile, indexFile, inflate) == Some((header, index));
      inited := true;
      return 0;
    }

    /**
     * fstat(): once initialised, the result is whatever the wrapped gzip
     * file's own fstat returns (`fstatResult`, a parameter because that file
     * is not modelled), and the size reported is always the uncompressed
     * size from the header, whether or not that fstat succeeded.
     */
    method Fstat(fstatResult: int) returns (r: int, size: int)
      requires Valid()
      modifies this`inited, this`header, this`index
      ensures Valid()
      ensures !(old(inited) || InitSpec(gzipFile, indexFile, inflate).Some?) ==> r == -1
      ensures old(inited) || InitSpec(gzipFile, indexFile, inflate).Some? ==>
        inited && r == fstatResult && size == header.uncompressFileSize
    {
      if !inited {
        var ok := Init();
        if ok != 0 {
          return -1, 0;
        }
      }
      return fstatResult, header.uncompressFileSize;
    }

    /** Position of std::upper_bound on dePos: the first checkpoint after `offset`. */
    static method UpperBound(index: seq<IndexEntry>, offset: int) returns (k: nat)
      ensures k <= |index|
      ensures SortedByDePos(index) ==>
        (forall j :: 0 <= j < k ==> index[j].dePos <= offset)
        && (forall j :: k <= j < |index| ==> index[j].dePos > offset)
    {
      var lo, hi := 0, |index|;
      while lo < hi
        invariant 0 <= lo <= hi <= |index|
        invariant SortedByDePos(index) ==> forall j :: 0 <= j < lo ==> index[j].dePos <= offset
        invariant SortedByDePos(index) ==> forall j :: hi <= j < |index| ==> index[j].dePos > offset
      {
        var mid := lo + (hi - lo) / 2;
        if offset < index[mid].dePos {
          hi := mid;
        } else {
          lo := mid + 1;
        }
      }
      return lo;
    }

    /** seek_index(): None on an empty index, else the checkpoint to resume from. */
    static method SeekIndex(index: seq<IndexEntry>, offset: int) returns (found: Option<nat>)
      ensures found.None? <==> |index| == 0
      ensures found.Some? ==> found.value < |index|
      ensures found.Some? && SortedByDePos(index) ==> found.value == LastNotAfter(index, offset)
    {
      if |index| == 0 {
        return None;
      }
      var k := UpperBound(index, offset);
      if k == |index| {
        found := Some(|index| - 1);
      } else if k > 0 {
        found := Some(k - 1);
      } else {
        found := Some(0);
      }
      if SortedByDePos(index) {
        LastNotAfterUnique(index, offset, found.value);
      }
    }

    /** In a sorted index the answer of seek_index is unique. */
    static lemma LastNotAfterUnique(index: seq<IndexEntry>, offset: int, k: nat)
      requires SortedByDePos(index) && k < |index|
      requires index[k].dePos <= offset || k == 0
      requires forall j :: k < j < |index| ==> index[j].dePos > offset
      ensures k == LastNotAfter(index, offset)
    {
    }

    /**
     * The decoder, resumed at each checkpoint, reproduces the uncompressed
     * file `content` from that checkpoint's position to its end.
     */
    predicate DecodesTo(content: seq<byte>)
      reads this
    {
      forall i :: 0 <= i < |index| ==>
        0 <= index[i].dePos <= |content| && ResumeAt(index[i]).Some?
        && decode(ResumeAt(index[i]).value) == InflateRun(content[index[i].dePos..], true)
    }

    /**
     * Random access agrees with sequential decompression: with a sorted index
     * whose first checkpoint is at the start of the file, the read at
     * `offset` that pread() makes returns min(count, |content| - offset)
     * bytes (none at or past the end), and they are the file's bytes there.
     */
    lemma ReadMatchesSequentialDecompression(content: seq<byte>, offset: int, count: nat)
      requires DecodesTo(content) && SortedByDePos(index) && |index| > 0 && index[0].dePos == 0
      requires offset >= 0
      ensures var e := index[LastNotAfter(index, offset)];
        var r := ExtractSpec(e, offset, count);
        && r == (if offset >= |content| then 0 else Min(count, |content| - offset))
        && (offset < |content| ==>
              decode(ResumeAt(e).value).out[offset - e.dePos .. offset - e.dePos + r]
              == content[offset .. offset + r])
    {
      var k := LastNotAfter(index, offset);
      var e := index[k];
      assert e.dePos <= offset;
      OutcomeReadsContent(content, e.dePos, offset, count);
    }

    /** Where extract() resumes decoding a checkpoint, or None when that fails. */
    function ResumeAt(e: IndexEntry): (p: Option<ResumePoint>)
      reads this
      ensures p.Some? ==> p.value.inputPos == e.enPos && |p.value.window| == WINSIZE
      ensures p.Some? && e.bits != 0 ==> (FullRead(e.enPos - 1, 1, |gzipFile|)
        && p.value.primeBits == e.bits && p.value.primeValue == PrimeValue(gzipFile[e.enPos - 1], e.bits))
      ensures p.Some? && e.bits == 0 ==> p.value.primeBits == 0
    {
      if e.bits != 0 && !FullRead(e.enPos - 1, 1, |gzipFile|) then None
      else
        match GetDict(header, e, indexFile, inflate)
        case None => None
        case Some(w) =>
          if e.bits != 0 then Some(ResumePoint(e.enPos, e.bits, PrimeValue(gzipFile[e.enPos - 1], e.bits), w))
          else Some(ResumePoint(e.enPos, 0, 0, w))
    }

    /** extract()'s result for a checkpoint, a read offset and a count. */
    function ExtractSpec(e: IndexEntry, offset: int, count: nat): int
      reads this
    {
      match ResumeAt(e)
      case None => -1
      case Some(p) => Outcome(decode(p), offset - e.dePos, count)
    }

    /**
     * `got` begins with the r bytes extract() delivers from checkpoint e for
     * a read at offset: the decoder's output right after the discarded bytes.
     */
    ghost predicate Delivered(e: IndexEntry, offset: int, r: int, got: seq<byte>)
      reads this
    {
      ResumeAt(e).Some? &&
      var out := decode(ResumeAt(e).value).out;
      var d := Discarded(offset - e.dePos);
      (r > 0 ==> d + r <= |out| && r <= |got| && got[..r] == out[d .. d + r])
    }

    /**
     * extract(): resume at checkpoint `e`, discard `offset - e.dePos` bytes in
     * rounds of at most CHUNK (one round of the distance wrapped to 32 bits
     * when it is negative), then decode up to `count` bytes into `buf`.
     * The compressed input is fed to the decoder in CHUNK-sized reads; that
     * inner loop is folded into one step that fills the output space or stops.
     */
    method Extract(e: IndexEntry, offset: int, buf: array<byte>, count: nat)
      returns (r: int, ghost pieces: seq<nat>)
      requires count <= buf.Length
      modifies buf
      ensures r == ExtractSpec(e, offset, count)
      ensures r >= 0 ==> Delivered(e, offset, r, buf[..])
      ensures r >= 0 ==> buf[r..] == old(buf[r..])
      ensures e.dePos <= offset ==> forall k :: 0 <= k < |pieces| ==> pieces[k] <= CHUNK
      ensures offset < e.dePos && ResumeAt(e).Some? ==> pieces == [Discarded(offset - e.dePos)]
      ensures r >= 0 && e.dePos <= offset && offset - e.dePos <= |decode(ResumeAt(e).value).out| ==>
        Sum(pieces) == offset - e.dePos
    {
      pieces := [];
      var point := ResumeAt(e);
      if point.None? {
        return -1, pieces;
      }
      var run := decode(point.value);
      var off := offset - e.dePos;
      ghost var want := Outcome(run, off, count);
      assert ExtractSpec(e, offset, count) == want;
      var pos, reached;
      pos, reached, pieces := Discard(run, off);
      if !reached {
        // The decoder ran out before the discarding was done.
        r := if run.ends then 0 else -1;
        return r, pieces;
      }
      // Output round: avail_out = count.
      var remaining := |run.out| - pos;
      if count <= remaining {
        CopyOut(buf, run.out[pos .. pos + count]);
        return count, pieces;
      } else if run.ends {
        CopyOut(buf, run.out[pos..]);
        return remaining, pieces;
      } else {
        return -1, pieces;
      }
    }

    /**
     * The discard rounds of extract(), as written: while `skip` is set, each
     * round sets avail_out to at most CHUNK bytes and lets the decoder write
     * them into the CHUNK-byte `discard` buffer. A negative distance is not
     * split: its one round asks for the distance wrapped to 32 bits, which
     * can exceed that buffer. `pieces` are the avail_out values of the rounds
     * asked for. `reached` tells whether the decoder produced all
     * `Discarded(off0)` bytes, `pos` being then that count.
     */
    static method Discard(run: InflateRun, off0: int) returns (pos: nat, reached: bool, ghost pieces: seq<nat>)
      ensures reached ==> pos == Discarded(off0) <= |run.out|
      ensures !reached ==> Discarded(off0) > |run.out|
      ensures off0 >= 0 ==> forall k :: 0 <= k < |pieces| ==> pieces[k] <= CHUNK
      ensures off0 < 0 ==> pieces == [Discarded(off0)]
      ensures 0 <= off0 <= |run.out| ==> reached && Sum(pieces) == off0
    {
      pieces := [];
      pos := 0;
      var off := off0;
      while off != 0
        invariant pos <= |run.out| && pos + Discarded(off) == Discarded(off0)
        invariant off0 >= 0 ==> off >= 0 && Sum(pieces) == pos
        invariant off0 >= 0 ==> forall k :: 0 <= k < |pieces| ==> pieces[k] <= CHUNK
        invariant off0 < 0 ==> off == off0 || off == 0
        invariant off < 0 ==> off == off0 && pos == 0 && pieces == []
        invariant off0 < 0 && off == 0 ==> pieces == [Discarded(off0)]
        decreases Abs(off)
      {
        var availOut: nat;
        if off > CHUNK {
          availOut := CHUNK;
          off := off - CHUNK;
        } else {
          availOut := off % U32;
          off := 0;
        }
        if off0 >= 0 {
          SumAppend(pieces, availOut);
        }
        pieces := pieces + [availOut];
        if availOut > |run.out| - pos {
          return pos, false, pieces;
        }
        pos := pos + availOut;
      }
      return pos, true, pieces;
    }

    /** pread(buf, count, offset). */
    method Pread(buf: array<byte>, count: nat, offset: int) returns (r: int, errno: int)
      requires Valid()
      requires count <= buf.Length && count < 0x8000_0000
      modifies this`inited, this`header, this`index, buf
      ensures Valid()
      ensures r <= count
      ensures !old(inited) && InitSpec(gzipFile, indexFile, inflate).None? ==> r == -1 && !inited
      ensures old(inited) || InitSpec(gzipFile, indexFile, inflate).Some? ==> inited
      ensures inited && offset < 0 ==> r == -1 && errno == EINVAL
      ensures inited && |index| == 0 ==> r == -1
      ensures inited && offset >= 0 && |index| > 0 && SortedByDePos(index) && offset < index[0].dePos ==>
        r == -1 && errno == EINVAL
      ensures inited && |index| > 0 && SortedByDePos(index) && offset >= 0 && index[0].dePos <= offset ==>
        r == ExtractSpec(index[LastNotAfter(index, offset)], offset, count)
      ensures inited && |index| > 0 && SortedByDePos(index) && offset >= 0 && index[0].dePos <= offset && r >= 0 ==>
        Delivered(index[LastNotAfter(index, offset)], offset, r, buf[..])
      ensures r >= 0 ==> buf[r..] == old(buf[r..])
    {
      errno := 0;
      if !inited {
        var ok := Init();
        if ok != 0 {
          return -1, errno;
        }
      }
      r, errno := ReadIndexed(buf, count, offset);
    }

    /**
     * The part of pread() after init(): check the offset, pick the checkpoint,
     * extract. Corrected: an offset before the checkpoint seek_index falls
     * back to (the first one) is refused with EINVAL instead of handing
     * extract() a negative distance.
     */
    method ReadIndexed(buf: array<byte>, count: nat, offset: int) returns (r: int, errno: int)
      requires count <= buf.Length
      modifies buf
      ensures r <= count
      ensures offset < 0 ==> r == -1 && errno == EINVAL
      ensures |index| == 0 ==> r == -1
      ensures offset >= 0 && |index| > 0 && SortedByDePos(index) && offset < index[0].dePos ==>
        r == -1 && errno == EINVAL
      ensures |index| > 0 && SortedByDePos(index) && offset >= 0 && index[0].dePos <= offset ==>
        r == ExtractSpec(index[LastNotAfter(index, offset)], offset, count)
      ensures |index| > 0 && SortedByDePos(index) && offset >= 0 && index[0].dePos <= offset && r >= 0 ==>
        Delivered(index[LastNotAfter(index, offset)], offset, r, buf[..])
      ensures r >= 0 ==> buf[r..] == old(buf[r..])
    {
      errno := 0;
      if offset < 0 {
        return -1, EINVAL;
      }
      var found := SeekIndex(index, offset);
      if found.None? {
        return -1, errno;
      }
      var e := index[found.value];
      if offset < e.dePos {
        return -1, EINVAL;
      }
      ghost var pieces;
      r, pieces := Extract(e, offset, buf, count);
    }
  }

  /** new_gzfile(): null unless both files are given; ownership as requested. */
  method NewGzFile(gzipFile: Option<seq<byte>>, indexFile: Option<seq<byte>>, ownership: bool,
                   inflate: Inflater, decode: ResumePoint -> InflateRun)
    returns (f: GzFile?)
    ensures f == null <==> gzipFile.None? || indexFile.None?
    ensures f != null ==> (fresh(f) && f.Valid() && !f.inited && f.ownership == ownership
      && f.gzipFile == gzipFile.value && f.indexFile == indexFile.value)
  {
    if gzipFile.None? || indexFile.None? {
      return null;
    }
    f := new GzFile(gzipFile.value, indexFile.value, inflate, decode);
    f.ownership := ownership;
  }

  /** is_gzfile(): the gzip member magic ID1 ID2 of section 2.3.1 of RFC 1952, then rewind. */
  method IsGzFile(file: Files.StreamFile) returns (b: bool)
    modifies file
    ensures b <==> (old(file.pos) + 2 <= |file.data|
      && file.data[old(file.pos)] == 0x1f && file.data[old(file.pos) + 1] == 0x8b)
    ensures file.pos == 0
  {
    var rc, bytes := file.Read(2);
    var buf := bytes + [0, 0];
    var _ := file.Lseek(0, Files.SEEK_SET);
    b := buf[0] == 0x1f && buf[1] == 0x8b;
  }
}
