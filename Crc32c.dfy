/**
 * CRC32C (Castagnoli polynomial, reflected form 0x82F63B78), the checksum
 * of section 12.1 of RFC 3720. `crc32c_extend(data, n, crc)` continues a
 * checksum over more bytes: the register is pre- and post-inverted, so a
 * checksum can be chained over consecutive pieces of a message.
 */
module Crc32c {
  import opened Bytes

  const POLY: bv32 := 0x82F63B78

  /** One shift of the reflected register. */
  function Shift(c: bv32): bv32
  {
    if c & 1 == 1 then (c >> 1) ^ POLY else c >> 1
  }

  function ShiftN(c: bv32, k: nat): bv32
    decreases k
  {
    if k == 0 then c else ShiftN(Shift(c), k - 1)
  }

  /**
   * Eight register shifts per byte. Kept behind a function so that the
   * verifier does not expand the eight shifts whenever it unfolds Register.
   */
  function BitsPerByte(): nat
  {
    8
  }

  /** Folds one byte into the register. */
  function ByteStep(c: bv32, b: byte): bv32
  {
    ShiftN(c ^ ((b as bv8) as bv32), BitsPerByte())
  }

  /** The register after folding `data` in order, starting from `c`. */
  function Register(c: bv32, data: seq<byte>): bv32
    decreases |data|
  {
    if |data| == 0 then c else Register(ByteStep(c, data[0]), data[1..])
  }

  function Invert(x: bv32): bv32
  {
    x ^ 0xFFFF_FFFF
  }

  /** crc32c_extend(data, |data|, crc). */
  function Extend(data: seq<byte>, crc: bv32): bv32
  {
    Invert(Register(Invert(crc), data))
  }

  /** crc32c(data, |data|), i.e. an extension of the empty checksum 0. */
  function Crc(data: seq<byte>): bv32
  {
    Extend(data, 0)
  }

  lemma {:induction false} RegisterAppend(c: bv32, a: seq<byte>, b: seq<byte>)
    ensures Register(c, a + b) == Register(Register(c, a), b)
    decreases |a|
  {
    if |a| > 0 {
      assert (a + b)[0] == a[0];
      assert (a + b)[1..] == a[1..] + b;
      RegisterAppend(ByteStep(c, a[0]), a[1..], b);
    } else {
      assert a + b == b;
    }
  }

  lemma InvertTwice(r: bv32)
    ensures Invert(Invert(r)) == r
  {
  }

  /** Checksumming a message piecewise gives the checksum of the whole message. */
  lemma ExtendChain(a: seq<byte>, b: seq<byte>, crc: bv32)
    ensures Extend(a + b, crc) == Extend(b, Extend(a, crc))
  {
    RegisterAppend(Invert(crc), a, b);
    InvertTwice(Register(Invert(crc), a));
  }

  lemma ExtendEmpty(crc: bv32)
    ensures Extend([], crc) == crc
  {
    InvertTwice(crc);
  }
}
