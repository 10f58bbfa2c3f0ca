/**
 * The record/replay side of the prefetcher in prefetch.cpp. In Record mode
 * every full-length read of a layer file is appended to an in-memory list;
 * when recording stops the list is dumped to the trace file as a 24-byte
 * header followed by 24-byte records, guarded by a CRC32C chained over the
 * records. In Replay mode the trace file is reloaded and validated into the
 * replay queue.
 *
 * TraceFormat and TraceHeader are written as raw, unpacked C structs of a
 * 64-bit little-endian host: TraceFormat is op (1 byte), 3 padding bytes,
 * layer_index (4), count (8), offset (8); TraceHeader is magic (4), 4
 * padding bytes, data_size (8), checksum (4), 4 padding bytes.
 */
module PrefetchTrace {
  import opened Bytes
  import opened Wrappers
  import Crc32c
  import Files

  const U32: nat := 0x1_0000_0000
  const U64: nat := 0x1_0000_0000_0000_0000
  /** The CRC32 of "Container Image Trace Format". */
  const TRACE_MAGIC: nat := 3270449184
  /** sizeof(TraceFormat) and sizeof(TraceHeader), padding included. */
  const FORMAT_SIZE: nat := 24
  const HEADER_SIZE: nat := 24
  /** TraceOp::READ and TraceOp::WRITE, the characters 'R' and 'W'. */
  const READ: byte := 82
  const WRITE: byte := 87

  datatype Mode = Disabled | Record | Replay

  /** One traced I/O. `op` is a char-based enum, so any byte can be stored. */
  datatype TraceFormat = TraceFormat(op: byte, layerIndex: nat, count: nat, offset: int)

  /** The values fit their C fields: uint32_t, size_t and off_t. */
  predicate Fits(t: TraceFormat)
  {
    t.layerIndex < U32 && t.count < U64 && FitsSigned(t.offset, 8)
  }

  predicate AllFit(rs: seq<TraceFormat>)
  {
    forall i :: 0 <= i < |rs| ==> Fits(rs[i])
  }

  datatype TraceHeader = TraceHeader(magic: nat, dataSize: nat, checksum: nat)

  function EncodeFormat(t: TraceFormat): (b: seq<byte>)
    requires Fits(t)
    ensures |b| == FORMAT_SIZE
  {
    [t.op] + Zeros(3) + LE(t.layerIndex, 4) + LE(t.count, 8) + EncodeSigned(t.offset, 8)
  }

  function DecodeFormat(b: seq<byte>): TraceFormat
    requires |b| == FORMAT_SIZE
  {
    TraceFormat(b[0], FromLE(b[4..8]), FromLE(b[8..16]), DecodeSigned(b[16..24]))
  }

  /** A record read back is the record written; the padding carries nothing. */
  lemma DecodeEncodeFormat(t: TraceFormat)
    requires Fits(t)
    ensures DecodeFormat(EncodeFormat(t)) == t
  {
    var b := EncodeFormat(t);
    assert Pow256(4) == U32 && Pow256(8) == U64;
    assert b[4..8] == LE(t.layerIndex, 4);
    assert b[8..16] == LE(t.count, 8);
    assert b[16..24] == EncodeSigned(t.offset, 8);
    FromLEofLE(t.layerIndex, 4);
    FromLEofLE(t.count, 8);
    DecodeEncodeSigned(t.offset, 8);
  }

  function EncodeHeader(h: TraceHeader): (b: seq<byte>)
    requires h.magic < U32 && h.dataSize < U64 && h.checksum < U32
    ensures |b| == HEADER_SIZE
  {
    LE(h.magic, 4) + Zeros(4) + LE(h.dataSize, 8) + LE(h.checksum, 4) + Zeros(4)
  }

  function DecodeHeader(b: seq<byte>): TraceHeader
    requires |b| == HEADER_SIZE
  {
    TraceHeader(FromLE(b[0..4]), FromLE(b[8..16]), FromLE(b[16..20]))
  }

  lemma DecodeEncodeHeader(h: TraceHeader)
    requires h.magic < U32 && h.dataSize < U64 && h.checksum < U32
    ensures DecodeHeader(EncodeHeader(h)) == h
  {
    var b := EncodeHeader(h);
    assert Pow256(4) == U32 && Pow256(8) == U64;
    assert b[0..4] == LE(h.magic, 4);
    assert b[8..16] == LE(h.dataSize, 8);
    assert b[16..20] == LE(h.checksum, 4);
    FromLEofLE(h.magic, 4);
    FromLEofLE(h.dataSize, 8);
    FromLEofLE(h.checksum, 4);
  }

  /** The records as the dump loop writes them, one after another. */
  function EncodeFormats(rs: seq<TraceFormat>): (b: seq<byte>)
    requires AllFit(rs)
    ensures |b| == FORMAT_SIZE * |rs|
    decreases |rs|
  {
    if rs == [] then [] else EncodeFormats(rs[..|rs| - 1]) + EncodeFormat(rs[|rs| - 1])
  }

  /** The record stored at index j of a byte string of records. */
  function RecordAt(b: seq<byte>, j: nat): seq<byte>
    requires FORMAT_SIZE * j + FORMAT_SIZE <= |b|
  {
    b[FORMAT_SIZE * j..FORMAT_SIZE * j + FORMAT_SIZE]
  }

  /** The first n records of a byte string, read in file order. */
  function DecodeFormats(b: seq<byte>, n: nat): (rs: seq<TraceFormat>)
    requires |b| == FORMAT_SIZE * n
    ensures |rs| == n
  {
    seq(n, j requires 0 <= j < n => DecodeFormat(RecordAt(b, j)))
  }

  lemma RecordInFront(a: seq<byte>, c: seq<byte>, j: nat)
    requires FORMAT_SIZE * j + FORMAT_SIZE <= |a|
    ensures RecordAt(a + c, j) == RecordAt(a, j)
  {
  }

  lemma RecordAtEnd(a: seq<byte>, c: seq<byte>, k: nat)
    requires |a| == FORMAT_SIZE * k && |c| == FORMAT_SIZE
    ensures RecordAt(a + c, k) == c
  {
  }

  /** Record j of the written records is the encoding of the j-th record. */
  lemma {:induction false} RecordAtEncode(rs: seq<TraceFormat>, j: nat)
    requires AllFit(rs) && j < |rs|
    ensures RecordAt(EncodeFormats(rs), j) == EncodeFormat(rs[j])
    decreases |rs|
  {
    var n := |rs| - 1;
    var front := rs[..n];
    assert AllFit(front);
    var fb := EncodeFormats(front);
    if j == n {
      RecordAtEnd(fb, EncodeFormat(rs[n]), n);
    } else {
      RecordInFront(fb, EncodeFormat(rs[n]), j);
      RecordAtEncode(front, j);
    }
  }

  lemma DecodeEncodeFormats(rs: seq<TraceFormat>)
    requires AllFit(rs)
    ensures DecodeFormats(EncodeFormats(rs), |rs|) == rs
  {
    var b := EncodeFormats(rs);
    forall j | 0 <= j < |rs|
      ensures DecodeFormats(b, |rs|)[j] == rs[j]
    {
      RecordAtEncode(rs, j);
      DecodeEncodeFormat(rs[j]);
    }
  }

  /** The whole trace file dump() leaves behind: the final header, then the records. */
  function DumpImage(rs: seq<TraceFormat>): (b: seq<byte>)
    requires AllFit(rs)
    ensures |b| == HEADER_SIZE + FORMAT_SIZE * |rs|
  {
    EncodeHeader(DumpHeader(rs)) + EncodeFormats(rs)
  }

  /** The header dump() finally writes: data_size in size_t arithmetic and the chained checksum. */
  function DumpHeader(rs: seq<TraceFormat>): TraceHeader
    requires AllFit(rs)
  {
    TraceHeader(TRACE_MAGIC, FORMAT_SIZE * |rs| % U64, Crc32c.Extend(EncodeFormats(rs), 0) as nat)
  }

  /**
   * What reload(trace_file_size) returns and leaves in the replay queue,
   * starting from an empty queue: a short header, a wrong magic or a size
   * other than data_size + 24 (size_t arithmetic) fail with nothing queued;
   * a short record fails leaving the records read so far queued; a checksum
   * mismatch fails with the queue emptied.
   */
  function ReloadOutcome(data: seq<byte>, fileSize: nat): (int, seq<TraceFormat>)
  {
    if |data| < HEADER_SIZE then (-1, [])
    else
      var h := DecodeHeader(data[..HEADER_SIZE]);
      if h.magic != TRACE_MAGIC then (-1, [])
      else if fileSize != (h.dataSize + HEADER_SIZE) % U64 then (-1, [])
      else
        var n := h.dataSize / FORMAT_SIZE;
        var avail := Avail(|data|);
        if avail < n then (-1, DecodeFormats(WholeRecords(data), avail))
        else
          var body := Body(data, n);
          if Crc32c.Extend(body, 0) as nat != h.checksum then (-1, [])
          else (0, DecodeFormats(body, n))
  }

  lemma MulDiv(n: nat)
    ensures FORMAT_SIZE * n / FORMAT_SIZE == n && (FORMAT_SIZE * n + HEADER_SIZE - HEADER_SIZE) / FORMAT_SIZE == n
  {
  }

  lemma HeadAndBody(hb: seq<byte>, body: seq<byte>)
    requires |hb| == HEADER_SIZE
    ensures (hb + body)[..HEADER_SIZE] == hb && (hb + body)[HEADER_SIZE..HEADER_SIZE + |body|] == body
  {
  }

  /** A file whose header is right and whose body matches the checksum reloads to the decoded body. */
  lemma ReloadAccepts(hb: seq<byte>, body: seq<byte>, h: TraceHeader, n: nat)
    requires |hb| == HEADER_SIZE && DecodeHeader(hb) == h && h.magic == TRACE_MAGIC
    requires |body| == FORMAT_SIZE * n && h.dataSize == FORMAT_SIZE * n && h.dataSize + HEADER_SIZE < U64
    requires Crc32c.Extend(body, 0) as nat == h.checksum
    ensures ReloadOutcome(hb + body, |hb + body|) == (0, DecodeFormats(body, n))
  {
    HeadAndBody(hb, body);
    MulDiv(n);
    var data := hb + body;
    assert Avail(|data|) == n;
    assert h.dataSize / FORMAT_SIZE == n;
  }

  /** Reloading a dumped trace, with the file's own size, queues exactly the recorded sequence. */
  lemma ReloadDump(rs: seq<TraceFormat>)
    requires AllFit(rs) && HEADER_SIZE + FORMAT_SIZE * |rs| < U64
    ensures ReloadOutcome(DumpImage(rs), |DumpImage(rs)|) == (0, rs)
  {
    var body := EncodeFormats(rs);
    var n := |rs|;
    var h := DumpHeader(rs);
    assert h.magic == TRACE_MAGIC && h.checksum == Crc32c.Extend(body, 0) as nat;
    assert h.dataSize == FORMAT_SIZE * n by {
      SmallMod(FORMAT_SIZE * n, U64);
    }
    var hb := EncodeHeader(h);
    DecodeEncodeHeader(h);
    ReloadAccepts(hb, body, h, n);
    DecodeEncodeFormats(rs);
    assert ReloadOutcome(hb + body, |hb + body|) == (0, rs);
  }

  /**
   * detect_mode: stat failing means Disabled, an empty trace file Record,
   * anything else Replay; the reported size is st_size of a zeroed stat
   * buffer when stat fails.
   */
  function DetectMode(stat: Option<nat>): (r: (Mode, nat))
    ensures r.0 == Disabled <==> stat.None?
    ensures r.0 == Record <==> stat == Some(0)
    ensures r.1 == (if stat.Some? then stat.value else 0)
  {
    match stat
    case None => (Disabled, 0)
    case Some(size) => (if size == 0 then Record else Replay, size)
  }

  lemma HeaderMagic(data: seq<byte>)
    ensures |data| >= HEADER_SIZE ==> DecodeHeader(data[..HEADER_SIZE]).magic == FromLE(data[..4])
  {
    if |data| >= HEADER_SIZE {
      assert data[..HEADER_SIZE][0..4] == data[..4];
    }
  }

  datatype PrefetcherKind = TracePrefetcher | DynamicPrefetcher

  /**
   * new_prefetcher: nullptr when the file cannot be opened or stat'ed; the
   * trace prefetcher for an empty file or one whose first 24 bytes read
   * back with TRACE_MAGIC; the list-driven DynamicPrefetcher otherwise.
   */
  function NewPrefetcher(file: Option<seq<byte>>): (r: Option<PrefetcherKind>)
    ensures r.None? <==> file.None?
    ensures r == Some(TracePrefetcher) <==>
      (file.Some? && (|file.value| == 0 || (|file.value| >= HEADER_SIZE && FromLE(file.value[..4]) == TRACE_MAGIC)))
  {
    match file
    case None => None
    case Some(data) =>
      var nRead := Min(HEADER_SIZE, |data|);
      HeaderMagic(data);
      if |data| == 0 || (nRead == HEADER_SIZE && DecodeHeader(data[..HEADER_SIZE]).magic == TRACE_MAGIC)
      then
        Some(TracePrefetcher)
      else
        Some(DynamicPrefetcher)
  }

  /** A dumped trace is picked up again by the trace prefetcher, which then replays it. */
  lemma DumpIsReplayed(rs: seq<TraceFormat>)
    requires AllFit(rs)
    ensures NewPrefetcher(Some(DumpImage(rs))) == Some(TracePrefetcher)
    ensures DetectMode(Some(|DumpImage(rs)|)).0 == Replay
  {
    var data := DumpImage(rs);
    assert data[..4] == LE(TRACE_MAGIC, 4);
    assert Pow256(4) == U32;
    FromLEofLE(TRACE_MAGIC, 4);
  }

  /** The trace file opened for writing: it holds at most `capacity` bytes, and writes beyond that come back short. */
  class TraceFile {
    const capacity: nat
    var data: seq<byte>

    constructor(capacity: nat)
      ensures this.capacity == capacity && data == []
    {
      this.capacity := capacity;
      data := [];
    }

    /** write(buf, |buf|) at the end of the file. */
    method Write(buf: seq<byte>) returns (n: int)
      requires |data| <= capacity
      modifies this
      ensures n == Min(|buf|, capacity - old(|data|)) && 0 <= n
      ensures data == old(data) + buf[..n]
    {
      n := Min(|buf|, capacity - |data|);
      data := data + buf[..n];
    }

    /** pwrite(buf, |buf|, 0). */
    method PwriteAtStart(buf: seq<byte>) returns (n: int)
      modifies this
      ensures n == Min(|buf|, capacity)
      ensures data == buf[..n] + (if n < |old(data)| then old(data)[n..] else [])
    {
      n := Min(|buf|, capacity);
      data := buf[..n] + (if n < |data| then data[n..] else []);
    }

    /** ftruncate(0). */
    method Truncate()
      modifies this
      ensures data == []
    {
      data := [];
    }
  }

  /** How many whole records follow the header in a file of `len` bytes. */
  function Avail(len: nat): nat
    requires HEADER_SIZE <= len
  {
    (len - HEADER_SIZE) / FORMAT_SIZE
  }

  /** The bytes of the first n records after the header. */
  function Body(data: seq<byte>, n: nat): (b: seq<byte>)
    requires HEADER_SIZE + FORMAT_SIZE * n <= |data|
    ensures |b| == FORMAT_SIZE * n
  {
    data[HEADER_SIZE..HEADER_SIZE + FORMAT_SIZE * n]
  }

  /** The bytes of the whole records after the header. */
  function WholeRecords(data: seq<byte>): (b: seq<byte>)
    requires HEADER_SIZE <= |data|
    ensures |b| == FORMAT_SIZE * Avail(|data|)
  {
    data[HEADER_SIZE..HEADER_SIZE + FORMAT_SIZE * Avail(|data|)]
  }

  lemma QuotientIs(len: nat, i: nat)
    requires HEADER_SIZE + FORMAT_SIZE * i <= len < HEADER_SIZE + FORMAT_SIZE * (i + 1)
    ensures Avail(len) == i
  {
  }

  lemma QuotientAtLeast(len: nat, n: nat)
    requires HEADER_SIZE + FORMAT_SIZE * n <= len
    ensures Avail(len) >= n
  {
  }

  /** Reading one more record extends both the decoded records and the checksum. */
  lemma RecordStep(body: seq<byte>, i: nat, rec: seq<byte>)
    requires |body| == FORMAT_SIZE * i && |rec| == FORMAT_SIZE
    ensures DecodeFormats(body + rec, i + 1) == DecodeFormats(body, i) + [DecodeFormat(rec)]
    ensures Crc32c.Extend(body + rec, 0) == Crc32c.Extend(rec, Crc32c.Extend(body, 0))
  {
    var next := body + rec;
    forall j | 0 <= j < i
      ensures RecordAt(next, j) == RecordAt(body, j)
    {
      RecordInFront(body, rec, j);
    }
    RecordAtEnd(body, rec, i);
    Crc32c.ExtendChain(body, rec, 0);
  }

  /**
   * The record loop of reload: up to n records read one by one after the
   * header, each folded into the running checksum and queued. `ok` is false
   * when a read comes back short.
   */
  method ReadRecords(file: Files.StreamFile, n: nat) returns (ok: bool, checksum: bv32, queue: seq<TraceFormat>)
    requires file.pos == HEADER_SIZE <= |file.data|
    modifies file
    ensures ok <==> n <= Avail(|file.data|)
    ensures ok ==> HEADER_SIZE + FORMAT_SIZE * n <= |file.data|
    ensures ok ==> checksum == Crc32c.Extend(Body(file.data, n), 0) && queue == DecodeFormats(Body(file.data, n), n)
    ensures !ok ==> queue == DecodeFormats(WholeRecords(file.data), Avail(|file.data|))
  {
    var data := file.data;
    ghost var body: seq<byte> := [];
    checksum := 0;
    queue := [];
    var i := 0;
    while i < n
      invariant 0 <= i <= n && HEADER_SIZE + FORMAT_SIZE * i <= |data|
      invariant file.pos == HEADER_SIZE + FORMAT_SIZE * i && file.data == data
      invariant body == data[HEADER_SIZE..file.pos]
      invariant checksum == Crc32c.Extend(body, 0) && queue == DecodeFormats(body, i)
    {
      var at := file.pos;
      var rc, rec := file.Read(FORMAT_SIZE);
      if rc != FORMAT_SIZE {
        QuotientIs(|data|, i);
        assert WholeRecords(data) == body;
        return false, checksum, queue;
      }
      assert rec == data[at..file.pos];
      SliceJoin(data, HEADER_SIZE, at, file.pos);
      RecordStep(body, i, rec);
      body := body + rec;
      checksum := Crc32c.Extend(rec, checksum);
      queue := queue + [DecodeFormat(rec)];
      i := i + 1;
    }
    QuotientAtLeast(|data|, n);
    assert file.pos == HEADER_SIZE + FORMAT_SIZE * n;
    assert Body(data, n) == body;
    return true, checksum, queue;
  }

  lemma SliceJoin(data: seq<byte>, lo: nat, mid: nat, hi: nat)
    requires lo <= mid <= hi <= |data|
    ensures data[lo..hi] == data[lo..mid] + data[mid..hi]
  {
  }

  /** reload on the trace file opened for reading: the header, its checks, then the records. */
  method ReloadTrace(file: Files.StreamFile, fileSize: nat) returns (r: int, queue: seq<TraceFormat>)
    requires file.pos == 0
    modifies file
    ensures (r, queue) == ReloadOutcome(file.data, fileSize)
  {
    var rc, hb := file.Read(HEADER_SIZE);
    if rc != HEADER_SIZE {
      return -1, [];
    }
    assert hb == file.data[..HEADER_SIZE];
    var h := DecodeHeader(hb);
    if h.magic != TRACE_MAGIC {
      return -1, [];
    }
    if fileSize != (h.dataSize + HEADER_SIZE) % U64 {
      return -1, [];
    }
    var ok, checksum;
    ok, checksum, queue := ReadRecords(file, h.dataSize / FORMAT_SIZE);
    if !ok {
      return -1, queue;
    }
    if checksum as nat != h.checksum {
      return -1, [];
    }
    return 0, queue;
  }

  lemma Associative<T>(a: seq<T>, b: seq<T>, c: seq<T>)
    ensures (a + b) + c == a + (b + c)
  {
  }

  lemma EncodeFormatsStep(rs: seq<TraceFormat>, i: nat)
    requires AllFit(rs) && i < |rs|
    ensures AllFit(rs[..i + 1]) && EncodeFormats(rs[..i + 1]) == EncodeFormats(rs[..i]) + EncodeFormat(rs[i])
  {
    assert rs[..i + 1][..i] == rs[..i];
  }

  /**
   * The record loop of dump: each record folded into the checksum and
   * written after the header. A short write truncates the file and stops.
   */
  method WriteRecords(file: TraceFile, rs: seq<TraceFormat>, first: seq<byte>) returns (ok: bool, checksum: bv32)
    requires AllFit(rs) && file.data == first && |first| <= file.capacity
    modifies file
    ensures ok <==> |first| + FORMAT_SIZE * |rs| <= file.capacity
    ensures ok ==> file.data == first + EncodeFormats(rs) && checksum == Crc32c.Extend(EncodeFormats(rs), 0)
    ensures !ok ==> file.data == []
  {
    checksum := 0;
    var i := 0;
    while i < |rs|
      invariant 0 <= i <= |rs|
      invariant |file.data| <= file.capacity
      invariant file.data == first + EncodeFormats(rs[..i])
      invariant checksum == Crc32c.Extend(EncodeFormats(rs[..i]), 0)
    {
      var b := EncodeFormat(rs[i]);
      ghost var done := EncodeFormats(rs[..i]);
      EncodeFormatsStep(rs, i);
      Crc32c.ExtendChain(done, b, 0);
      checksum := Crc32c.Extend(b, checksum);
      var n := file.Write(b);
      if n != FORMAT_SIZE {
        file.Truncate();
        return false, checksum;
      }
      assert b[..n] == b;
      Associative(first, done, b);
      i := i + 1;
    }
    assert rs[..i] == rs;
    return true, checksum;
  }

  /** Writing the final header over the first one keeps the records behind it. */
  lemma HeaderRewritten(first: seq<byte>, body: seq<byte>, last: seq<byte>)
    requires |first| == HEADER_SIZE == |last|
    ensures last[..HEADER_SIZE] + (first + body)[HEADER_SIZE..] == last + body
  {
    assert (first + body)[HEADER_SIZE..] == body;
  }

  /** The state of PrefetcherImpl that recording, dumping and reloading touch. */
  class Prefetcher {
    var mode: Mode
    var recordStopped: bool
    /** m_record_array */
    var records: seq<TraceFormat>
    /** m_replay_queue */
    var queue: seq<TraceFormat>

    predicate Valid()
      reads this
    {
      AllFit(records)
    }

    /**
     * PrefetcherImpl(trace_file_path): the mode comes from stat'ing the trace
     * file (`trace` is its content, None when it does not exist); Replay
     * reloads it with the size stat reported.
     */
    constructor(trace: Option<seq<byte>>)
      ensures Valid() && records == [] && !recordStopped
      ensures mode == DetectMode(if trace.Some? then Some(|trace.value|) else None).0
      ensures queue == (if mode == Replay then ReloadOutcome(trace.value, |trace.value|).1 else [])
    {
      var detected := DetectMode(if trace.Some? then Some(|trace.value|) else None);
      mode := detected.0;
      recordStopped := false;
      records := [];
      queue := [];
      if detected.0 == Replay {
        var f := new Files.StreamFile(trace.value);
        var r, q := ReloadTrace(f, detected.1);
        queue := q;
      }
    }

    /** record: appends the I/O in call order, nothing once recording has stopped. */
    method Record(op: byte, layerIndex: nat, count: nat, offset: int) returns (r: int)
      requires Valid() && Fits(TraceFormat(op, layerIndex, count, offset))
      modifies this
      ensures Valid() && r == 0
      ensures mode == old(mode) && recordStopped == old(recordStopped) && queue == old(queue)
      ensures records == if recordStopped then old(records) else old(records) + [TraceFormat(op, layerIndex, count, offset)]
    {
      if recordStopped {
        return 0;
      }
      records := records + [TraceFormat(op, layerIndex, count, offset)];
      return 0;
    }

    /** Recording stops when the lock file disappears or the prefetcher is destroyed. */
    method StopRecording()
      modifies this
      ensures recordStopped && mode == old(mode) && records == old(records) && queue == old(queue)
    {
      recordStopped := true;
    }

    /**
     * dump: the header with checksum 0 and data_size = 24 * n, then each
     * record (folding it into the checksum), then the header again at
     * offset 0 with the final checksum. A short write truncates the file to
     * nothing and fails; so does failing to create the OK file afterwards,
     * which leaves the trace in place.
     */
    method Dump(file: TraceFile?, okFileCreated: bool) returns (r: int)
      requires Valid()
      requires file != null ==> file.data == []
      modifies file
      ensures file == null ==> r == 0
      ensures file != null ==> (r == 0 <==> |DumpImage(records)| <= file.capacity && okFileCreated)
      ensures file != null ==> file.data == if |DumpImage(records)| <= file.capacity then DumpImage(records) else []
      ensures r == 0 || r == -1
    {
      if file == null {
        return 0;
      }
      var dataSize := FORMAT_SIZE * |records| % U64;
      var first := EncodeHeader(TraceHeader(TRACE_MAGIC, dataSize, 0));
      var n := file.Write(first);
      if n != HEADER_SIZE {
        file.Truncate();
        return -1;
      }
      var ok, checksum := WriteRecords(file, records, first);
      if !ok {
        return -1;
      }
      // The header bytes are already in the file, so this write is never short.
      var h := TraceHeader(TRACE_MAGIC, dataSize, checksum as nat);
      assert h == DumpHeader(records);
      var last := EncodeHeader(h);
      var body := EncodeFormats(records);
      n := file.PwriteAtStart(last);
      HeaderRewritten(first, body, last);
      if !okFileCreated {
        return -1;
      }
      return 0;
    }
  }

  /** PrefetchFile: a layer file whose full-length reads are recorded. */
  class PrefetchFile {
    const layerIndex: nat
    const prefetcher: Prefetcher

    constructor(layerIndex: nat, prefetcher: Prefetcher)
      ensures this.layerIndex == layerIndex && this.prefetcher == prefetcher
    {
      this.layerIndex := layerIndex;
      this.prefetcher := prefetcher;
    }

    /**
     * pread: returns what the layer file's pread returned (`nRead`), and
     * records READ of (count, offset) when that equals (ssize_t)count and the
     * prefetcher is recording.
     */
    method Pread(count: nat, offset: int, nRead: int) returns (r: int)
      requires prefetcher.Valid() && Fits(TraceFormat(READ, layerIndex, count, offset))
      modifies prefetcher
      ensures r == nRead && prefetcher.Valid()
      ensures prefetcher.mode == old(prefetcher.mode) && prefetcher.queue == old(prefetcher.queue)
      ensures prefetcher.records ==
        if nRead == Signed(count, 8) && prefetcher.mode == Record && !prefetcher.recordStopped
        then old(prefetcher.records) + [TraceFormat(READ, layerIndex, count, offset)]
        else old(prefetcher.records)
    {
      if nRead == Signed(count, 8) && prefetcher.mode == Record {
        var _ := prefetcher.Record(READ, layerIndex, count, offset);
      }
      return nRead;
    }
  }
}
