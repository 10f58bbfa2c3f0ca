/**
 * The CRC offload through Intel's Data Streaming Accelerator (dsa.cpp):
 * the 8-byte pattern fill and compare, the bit-scan helper, descriptor
 * preparation, the page-fault resubmission of a partly completed
 * descriptor, work-queue submission and allocation. The accelerator, the
 * accel-config library and the CPU instructions are outcomes passed in.
 */
module Dsa {
  import opened Bytes
  import opened Wrappers

  const ENODEV: int := 19
  const DSA_STATUS_OK: int := 0
  const DSA_STATUS_TIMEOUT: int := 5
  /** DSA_COMP_STAT_CODE_MASK: the status code is the low 6 bits of the status byte. */
  const STAT_CODE_MODULUS: nat := 0x40
  /** TEST_FLAGS_BOF */
  const TEST_FLAGS_BOF: nat := 0x1
  /** Linux's idxd.h: DSA_COMP_PAGE_FAULT_NOBOF and the descriptor flags used here. */
  const DSA_COMP_PAGE_FAULT_NOBOF: nat := 0x03
  const IDXD_OP_FLAG_BOF: bv32 := 0x0002
  const IDXD_OP_FLAG_CRAV: bv32 := 0x0004
  const IDXD_OP_FLAG_RCR: bv32 := 0x0008
  const U32: nat := 0x1_0000_0000
  const U64: nat := 0x1_0000_0000_0000_0000
  /** How many times dsa_enqcmd issues ENQCMD at most. */
  const ENQCMD_TRIES: nat := 3

  // ---------------------------------------------------------------- pattern fill and compare

  /** s is the 8-byte pattern p repeated (and cut at |s|). */
  predicate Repeats(s: seq<byte>, p: seq<byte>)
    requires |p| == 8
  {
    forall i :: 0 <= i < |s| ==> s[i] == p[i % 8]
  }

  /** The in-memory bytes of a uint64 on a little-endian host. */
  function PatternBytes(pattern: nat): (p: seq<byte>)
    requires pattern < U64
    ensures |p| == 8
  {
    LE(pattern, 8)
  }

  /** Offsets inside a word that starts at a multiple of 8. */
  lemma WordOffset(w: nat, j: nat)
    requires w % 8 == 0 && j < 8
    ensures (w + j) % 8 == j
  {
  }

  /**
   * memset_pattern(dst, pattern, len): the whole 8-byte words of the first
   * len bytes receive the pattern, then the len & 7 remaining bytes receive
   * its first bytes; byte i becomes byte i mod 8 of the pattern.
   */
  method MemsetPattern(dst: array<byte>, pattern: nat, len: nat)
    requires pattern < U64 && len <= dst.Length
    modifies dst
    ensures Repeats(dst[..len], PatternBytes(pattern))
    ensures forall i :: len <= i < dst.Length ==> dst[i] == old(dst[i])
  {
    var p := PatternBytes(pattern);
    var aligned := len - len % 8;
    var w := 0;
    while w < aligned
      invariant w % 8 == 0 && w <= aligned
      invariant forall i :: 0 <= i < w ==> dst[i] == p[i % 8]
      invariant forall i :: w <= i < dst.Length ==> dst[i] == old(dst[i])
    {
      forall j | 0 <= j < 8 {
        dst[w + j] := p[j];
      }
      forall i | w <= i < w + 8
        ensures dst[i] == p[i % 8]
      {
        WordOffset(w, i - w);
      }
      w := w + 8;
    }
    forall j | 0 <= j < len % 8 {
      dst[aligned + j] := p[j];
    }
    forall i | aligned <= i < len
      ensures dst[i] == p[i % 8]
    {
      WordOffset(aligned, i - aligned);
    }
  }

  /**
   * memcmp_pattern(src, pattern, len): 0 when the first len bytes are the
   * pattern repeated, -1 at the first word or tail that differs.
   */
  method MemcmpPattern(src: array<byte>, pattern: nat, len: nat) returns (r: int)
    requires pattern < U64 && len <= src.Length
    ensures r == 0 || r == -1
    ensures r == 0 <==> Repeats(src[..len], PatternBytes(pattern))
  {
    var p := PatternBytes(pattern);
    var aligned := len - len % 8;
    var w := 0;
    while w < aligned
      invariant w % 8 == 0 && w <= aligned
      invariant forall i :: 0 <= i < w ==> src[i] == p[i % 8]
    {
      if src[w..w + 8] != p {
        Mismatch(src[..], w, 8, p, len);
        return -1;
      }
      Match(src[..], w, 8, p);
      w := w + 8;
    }
    if src[aligned..len] != p[..len % 8] {
      Mismatch(src[..], aligned, len % 8, p, len);
      return -1;
    }
    Match(src[..], aligned, len % 8, p);
    return 0;
  }

  /** A word (or the tail) that equals the pattern's first bytes holds the repetition there. */
  lemma Match(s: seq<byte>, w: nat, n: nat, p: seq<byte>)
    requires |p| == 8 && w % 8 == 0 && n <= 8 && w + n <= |s|
    requires s[w..w + n] == p[..n]
    ensures forall i :: w <= i < w + n ==> s[i] == p[i % 8]
  {
    forall i | w <= i < w + n
      ensures s[i] == p[i % 8]
    {
      assert s[w..w + n][i - w] == s[i];
      WordOffset(w, i - w);
    }
  }

  /** A word (or the tail) that differs from the pattern's first bytes breaks the repetition. */
  lemma Mismatch(s: seq<byte>, w: nat, n: nat, p: seq<byte>, len: nat)
    requires |p| == 8 && w % 8 == 0 && n <= 8 && w + n <= len <= |s|
    requires s[w..w + n] != p[..n]
    ensures !Repeats(s[..len], p)
  {
    var j :| 0 <= j < n && s[w..w + n][j] != p[j];
    WordOffset(w, j);
    assert s[..len][w + j] != p[(w + j) % 8];
  }

  /** The round trip: comparing right after filling with the same pattern succeeds. */
  method FillThenCompare(buf: array<byte>, pattern: nat, len: nat) returns (r: int)
    requires pattern < U64 && len <= buf.Length
    modifies buf
    ensures r == 0
  {
    MemsetPattern(buf, pattern, len);
    r := MemcmpPattern(buf, pattern, len);
  }

  // ---------------------------------------------------------------- bsr

  /** The number of significant bits of v. */
  function BitLength(v: nat): (n: nat)
    ensures v < Pow2(n)
    ensures v > 0 ==> n > 0 && Pow2(n - 1) <= v
  {
    if v == 0 then 0 else 1 + BitLength(v / 2)
  }

  lemma {:induction false} Pow2Monotone(a: nat, b: nat)
    requires a <= b
    ensures Pow2(a) <= Pow2(b)
    decreases b
  {
    if a < b {
      Pow2Monotone(a, b - 1);
    }
  }

  lemma {:induction false} Pow2Add(a: nat, b: nat)
    ensures Pow2(a + b) == Pow2(a) * Pow2(b)
    decreases a
  {
    if a > 0 {
      Pow2Add(a - 1, b);
    }
  }

  lemma Pow2Of32()
    ensures Pow2(32) == U32
  {
    assert Pow2(2) == 4;
    Pow2Add(2, 2);
    Pow2Add(4, 4);
    Pow2Add(8, 8);
    Pow2Add(16, 16);
  }

  /** A 32-bit value has at most 32 significant bits. */
  lemma BitLengthBound(v: nat)
    requires v < U32
    ensures BitLength(v) <= 32
  {
    var n := BitLength(v);
    if n > 32 {
      Pow2Of32();
      Pow2Monotone(32, n - 1);
      assert false;
    }
  }

  /** __builtin_clz(v) for a non-zero 32-bit v: its leading zero bits. */
  function Clz(v: nat): (z: nat)
    requires 0 < v < U32
    ensures z < 32
    ensures Pow2(31 - z) <= v < Pow2(32 - z)
  {
    BitLengthBound(v);
    32 - BitLength(v)
  }

  /**
   * bsr(val): the index of the highest set bit; for 0 it is 0 - 1 in
   * uint32_t arithmetic, that is 0xFFFFFFFF.
   */
  function Bsr(val: nat): (r: nat)
    requires val < U32
    ensures val == 0 ==> r == U32 - 1
    ensures val > 0 ==> r < 32 && Pow2(r) <= val < Pow2(r + 1)
  {
    var msb := if val == 0 then 0 else 32 - Clz(val);
    (msb - 1) % U32
  }

  // ---------------------------------------------------------------- descriptors

  /** The fields of a hardware descriptor that preparation and resubmission set. */
  datatype Desc = Desc(flags: bv32, opcode: nat, srcAddr: nat, dstAddr: nat, xferSize: nat)

  class HwDesc {
    var flags: bv32
    var opcode: nat
    var srcAddr: nat
    var dstAddr: nat
    var xferSize: nat
    var crcSeed: nat
    var seedAddr: nat
    var completionAddr: nat

    constructor()
      ensures View() == Desc(0, 0, 0, 0, 0) && crcSeed == 0 && seedAddr == 0 && completionAddr == 0
    {
      flags, opcode, srcAddr, dstAddr, xferSize := 0, 0, 0, 0, 0;
      crcSeed, seedAddr, completionAddr := 0, 0, 0;
    }

    function View(): Desc
      reads this
    {
      Desc(flags, opcode, srcAddr, dstAddr, xferSize)
    }

    /**
     * dsa_prep_desc_common: flags, opcode, source and destination copied
     * unchanged; the size_t length is stored into the descriptor's 32-bit
     * xfer_size, keeping its low 32 bits.
     */
    method PrepCommon(op: nat, dest: nat, src: nat, len: nat, dflags: bv32)
      requires op < 0x100 && dest < U64 && src < U64 && len < U64
      modifies this
      ensures View() == Desc(dflags, op, src, dest, len % U32)
      ensures len < U32 ==> xferSize == len
      ensures crcSeed == old(crcSeed) && seedAddr == old(seedAddr) && completionAddr == old(completionAddr)
    {
      flags := dflags;
      opcode := op;
      srcAddr := src;
      dstAddr := dest;
      xferSize := len % U32;
    }
  }

  /** The completion record fields the resubmission reads. */
  class CompletionRecord {
    var status: nat
    var result: nat
    var bytesCompleted: nat

    constructor(status: nat, result: nat, bytesCompleted: nat)
      ensures this.status == status && this.result == result && this.bytesCompleted == bytesCompleted
    {
      this.status := status;
      this.result := result;
      this.bytesCompleted := bytesCompleted;
    }
  }

  /**
   * The descriptor dsa_reprep_crcgen (copy false) or dsa_reprep_copycrc
   * (copy true) resubmits: the length less the bytes completed, and the
   * address(es) advanced past them when the fault record's direction
   * (result) is 0. The addresses are uint64_t; xfer_size is the
   * descriptor's uint32_t field, so the subtraction wraps modulo 2^32.
   */
  function Reprepped(d: Desc, bytesCompleted: nat, result: nat, copy: bool): (r: Desc)
    ensures r.flags == d.flags && r.opcode == d.opcode
    ensures r.xferSize < U32
    ensures r.srcAddr < U64 || r.srcAddr == d.srcAddr
    ensures result != 0 ==> r.srcAddr == d.srcAddr && r.dstAddr == d.dstAddr
    ensures !copy ==> r.dstAddr == d.dstAddr
  {
    var size := (d.xferSize - bytesCompleted) % U32;
    if result != 0 then d.(xferSize := size)
    else if copy then d.(xferSize := size, srcAddr := (d.srcAddr + bytesCompleted) % U64, dstAddr := (d.dstAddr + bytesCompleted) % U64)
    else d.(xferSize := size, srcAddr := (d.srcAddr + bytesCompleted) % U64)
  }

  /**
   * A forward fault (direction 0) after part of the transfer resumes right
   * after the completed bytes: the source (and destination) advance by
   * them, the length shrinks by them, and the end of the range is where
   * it was.
   */
  lemma ResumeAfterCompleted(d: Desc, bytesCompleted: nat, copy: bool)
    requires bytesCompleted <= d.xferSize < U32
    requires d.srcAddr + d.xferSize < U64 && d.dstAddr + d.xferSize < U64
    ensures var r := Reprepped(d, bytesCompleted, 0, copy);
      r.srcAddr == d.srcAddr + bytesCompleted && r.xferSize == d.xferSize - bytesCompleted &&
      r.srcAddr + r.xferSize == d.srcAddr + d.xferSize &&
      (copy ==> r.dstAddr + r.xferSize == d.dstAddr + d.xferSize)
  {
  }

  /**
   * dsa_reprep_crcgen / dsa_reprep_copycrc: the descriptor adjusted as
   * above and the completion status cleared before resubmission.
   */
  method Reprep(hw: HwDesc, comp: CompletionRecord, copy: bool)
    modifies hw, comp
    ensures hw.View() == Reprepped(old(hw.View()), old(comp.bytesCompleted), old(comp.result), copy)
    ensures comp.status == 0 && comp.result == old(comp.result) && comp.bytesCompleted == old(comp.bytesCompleted)
    ensures hw.crcSeed == old(hw.crcSeed) && hw.seedAddr == old(hw.seedAddr) && hw.completionAddr == old(hw.completionAddr)
  {
    hw.xferSize := (hw.xferSize - comp.bytesCompleted) % U32;
    if comp.result == 0 {
      hw.srcAddr := (hw.srcAddr + comp.bytesCompleted) % U64;
      if copy {
        hw.dstAddr := (hw.dstAddr + comp.bytesCompleted) % U64;
      }
    }
    comp.status := 0;
  }

  /** The descriptor flags of dsa_crcgen / dsa_copycrc: block on fault only when asked and supported. */
  function DescFlags(testFlags: nat, bof: bool): (f: bv32)
    ensures f & IDXD_OP_FLAG_CRAV != 0 && f & IDXD_OP_FLAG_RCR != 0
    ensures f & IDXD_OP_FLAG_BOF != 0 <==> testFlags % 2 == TEST_FLAGS_BOF && bof
  {
    var f := IDXD_OP_FLAG_CRAV | IDXD_OP_FLAG_RCR;
    if testFlags % 2 == TEST_FLAGS_BOF && bof then f | IDXD_OP_FLAG_BOF else f
  }

  /** stat_val(status): the low 6 bits of the status byte. */
  function StatVal(status: nat): (code: nat)
    ensures code < STAT_CODE_MODULUS
    ensures status < STAT_CODE_MODULUS ==> code == status
  {
    status % STAT_CODE_MODULUS
  }

  datatype WaitStep = Timeout | Resubmit | Done

  /**
   * One round of dsa_wait_crcgen / dsa_wait_copycrc: a timed-out wait
   * gives DSA_STATUS_TIMEOUT; a page fault reported while the descriptor
   * does not block on faults is resubmitted; anything else is done.
   */
  function WaitDecision(rc: int, status: nat, flags: bv32): (s: WaitStep)
    ensures s == Timeout <==> rc < 0
    ensures s == Resubmit <==> rc >= 0 && StatVal(status) == DSA_COMP_PAGE_FAULT_NOBOF && flags & IDXD_OP_FLAG_BOF == 0
  {
    if rc < 0 then Timeout
    else if StatVal(status) == DSA_COMP_PAGE_FAULT_NOBOF && flags & IDXD_OP_FLAG_BOF == 0 then Resubmit
    else Done
  }

  /** A descriptor submitted with block-on-fault is never resubmitted. */
  lemma BlockOnFaultNeverResubmits(rc: int, status: nat, testFlags: nat)
    requires testFlags % 2 == TEST_FLAGS_BOF
    ensures WaitDecision(rc, status, DescFlags(testFlags, true)) != Resubmit
  {
  }

  /** The read/write bit (0x80) of the status byte does not affect the decision. */
  lemma DecisionIgnoresRwBit(rc: int, code: nat, flags: bv32)
    requires code < STAT_CODE_MODULUS
    ensures WaitDecision(rc, code + 0x80, flags) == WaitDecision(rc, code, flags)
  {
    assert StatVal(code + 0x80) == code;
  }

  // ---------------------------------------------------------------- submission

  /** Whether one of the first three ENQCMDs is accepted (enqcmd returning 0). */
  predicate Accepted(accepts: nat -> bool)
  {
    exists j :: 0 <= j < ENQCMD_TRIES && accepts(j)
  }

  /**
   * dsa_enqcmd as written: ENQCMD is issued until the queue accepts it, at
   * most three times, and 0 is returned whether or not it was accepted.
   * `accepts(j)` is the answer to the j-th ENQCMD.
   */
  method Enqcmd(accepts: nat -> bool) returns (ret: int, calls: nat)
    ensures ret == 0
    ensures 1 <= calls <= ENQCMD_TRIES
    ensures forall j :: 0 <= j < calls - 1 ==> !accepts(j)
    ensures calls < ENQCMD_TRIES ==> accepts(calls - 1)
    ensures Accepted(accepts) <==> accepts(calls - 1)
  {
    var retry := 0;
    ret := 0;
    calls := 0;
    while retry < ENQCMD_TRIES
      invariant retry <= ENQCMD_TRIES && calls == retry
      invariant forall j :: 0 <= j < retry ==> !accepts(j)
    {
      calls := calls + 1;
      if accepts(retry) {
        break;
      }
      retry := retry + 1;
    }
  }

  /**
   * A queue that rejects every ENQCMD: dsa_enqcmd as written still returns 0
   * after its three tries, so the caller's back-off never runs, while the
   * checked form returns -1.
   */
  method AlwaysRejected() returns (asWritten: int, checked: int, tries: nat)
    ensures !Accepted(_ => false)
    ensures asWritten == 0 && tries == ENQCMD_TRIES
    ensures checked == -1
  {
    var rejectAll: nat -> bool := _ => false;
    asWritten, tries := Enqcmd(rejectAll);
    var calls;
    checked, calls := EnqcmdChecked(rejectAll);
  }

  /** dsa_enqcmd as its caller reads it: non-zero when the queue never accepted the descriptor. */
  method EnqcmdChecked(accepts: nat -> bool) returns (ret: int, calls: nat)
    ensures ret == 0 <==> Accepted(accepts)
    ensures ret == 0 || ret == -1
    ensures 1 <= calls <= ENQCMD_TRIES
    ensures forall j :: 0 <= j < calls - 1 ==> !accepts(j)
  {
    var retry := 0;
    ret := -1;
    calls := 0;
    while retry < ENQCMD_TRIES
      invariant retry <= ENQCMD_TRIES && calls == retry
      invariant forall j :: 0 <= j < retry ==> !accepts(j)
      invariant ret == -1
    {
      calls := calls + 1;
      if accepts(retry) {
        ret := 0;
        break;
      }
      retry := retry + 1;
    }
  }

  // ---------------------------------------------------------------- work-queue allocation

  /** The portal mapping: not yet mapped, mapped, or mmap's MAP_FAILED. */
  datatype Portal = Unmapped | Mapped | MapFailed

  /** The work-queue and device limits accel-config reports. */
  datatype WqInfo = WqInfo(size: nat, id: nat, bof: bool, maxXferSize: nat)

  /** What dsa_get_wq finds: no usable queue, a queue whose portal mmap failed, or a usable queue. */
  datatype WqLookup = NoWq | PortalFailed | Found(info: WqInfo)

  class DsaContext {
    var portal: Portal
    var dedicated: bool
    var wqSize: nat
    var wqIdx: nat
    var bof: bool
    var maxXferSize: nat
    var maxXferBits: nat

    constructor()
      ensures portal == Unmapped
    {
      portal := Unmapped;
      dedicated, wqSize, wqIdx, bof, maxXferSize, maxXferBits := false, 0, 0, false, 0, 0;
    }

    /**
     * dsa_alloc as written: returns 0 at once when wq_reg is non-null;
     * otherwise -ENODEV without a usable queue (a failed mmap leaves
     * wq_reg at MAP_FAILED), or 0 with the queue's limits recorded.
     */
    method Alloc(shared: bool, lookup: WqLookup) returns (r: int)
      requires lookup.Found? ==> lookup.info.maxXferSize < U32
      modifies this
      ensures old(portal) != Unmapped ==> r == 0 && portal == old(portal) && maxXferBits == old(maxXferBits)
      ensures old(portal) == Unmapped && !lookup.Found? ==> r == -ENODEV && (portal == MapFailed <==> lookup.PortalFailed?)
      ensures old(portal) == Unmapped && lookup.Found? ==>
        r == 0 && portal == Mapped && dedicated == !shared &&
        maxXferSize == lookup.info.maxXferSize && maxXferBits == Bsr(lookup.info.maxXferSize)
    {
      if portal != Unmapped {
        return 0;
      }
      match lookup {
        case NoWq =>
          return -ENODEV;
        case PortalFailed =>
          portal := MapFailed;
          return -ENODEV;
        case Found(info) =>
          portal := Mapped;
          dedicated := !shared;
          wqSize := info.size;
          wqIdx := info.id;
          bof := info.bof;
          maxXferSize := info.maxXferSize;
          maxXferBits := Bsr(info.maxXferSize);
          return 0;
      }
    }

    /** dsa_alloc with the early return taken only for a mapped portal. */
    method AllocChecked(shared: bool, lookup: WqLookup) returns (r: int)
      requires lookup.Found? ==> lookup.info.maxXferSize < U32
      modifies this
      ensures r == 0 <==> portal == Mapped
      ensures old(portal) != Mapped && !lookup.Found? ==> r == -ENODEV
      ensures old(portal) == Mapped ==> r == 0 && maxXferBits == old(maxXferBits)
      ensures old(portal) != Mapped && lookup.Found? ==>
        r == 0 && dedicated == !shared && maxXferBits == Bsr(lookup.info.maxXferSize)
    {
      if portal == Mapped {
        return 0;
      }
      match lookup {
        case NoWq =>
          return -ENODEV;
        case PortalFailed =>
          portal := MapFailed;
          return -ENODEV;
        case Found(info) =>
          portal := Mapped;
          dedicated := !shared;
          wqSize := info.size;
          wqIdx := info.id;
          bof := info.bof;
          maxXferSize := info.maxXferSize;
          maxXferBits := Bsr(info.maxXferSize);
          return 0;
      }
    }
  }

  /**
   * A first dsa_alloc whose mmap fails, then a second that finds no queue:
   * as written the second reports success with no portal mapped; checked,
   * it reports -ENODEV.
   */
  method AllocAfterMapFailure() returns (asWritten: int, checked: int)
    ensures asWritten == 0
    ensures checked == -ENODEV
  {
    var ctx := new DsaContext();
    var first := ctx.Alloc(true, PortalFailed);
    asWritten := ctx.Alloc(true, NoWq);
    var fixed := new DsaContext();
    var failed := fixed.AllocChecked(true, PortalFailed);
    checked := fixed.AllocChecked(true, NoWq);
  }
}
