/**
 * Bytes and little-endian integer layouts shared by the on-disk formats
 * (the gzip index file and the prefetch trace file are both written on
 * little-endian hosts as packed or padded C structs).
 */
module Bytes {
  type byte = x: int | 0 <= x < 256

  /** 256^n, the number of values an n-byte field can hold. */
  function Pow256(n: nat): (p: nat)
    ensures p >= 1
  {
    if n == 0 then 1 else 256 * Pow256(n - 1)
  }

  /** 2^n. */
  function Pow2(n: nat): (p: nat)
    ensures p >= 1
  {
    if n == 0 then 1 else 2 * Pow2(n - 1)
  }

  /** The n low-order bytes of v, least significant first. */
  function LE(v: nat, n: nat): (r: seq<byte>)
    ensures |r| == n
  {
    if n == 0 then [] else [v % 256] + LE(v / 256, n - 1)
  }

  /** The unsigned value of a little-endian byte string. */
  function FromLE(s: seq<byte>): (v: nat)
    ensures v < Pow256(|s|)
  {
    if |s| == 0 then 0
    else
      var rest := FromLE(s[1..]);
      assert rest <= Pow256(|s| - 1) - 1;
      assert 256 * rest <= 256 * Pow256(|s| - 1) - 256;
      s[0] + 256 * rest
  }

  lemma {:induction false} FromLEofLE(v: nat, n: nat)
    requires v < Pow256(n)
    ensures FromLE(LE(v, n)) == v
  {
    if n > 0 {
      var s := LE(v, n);
      assert s[1..] == LE(v / 256, n - 1);
      FromLEofLE(v / 256, n - 1);
    }
  }

  lemma {:induction false} LEofFromLE(s: seq<byte>)
    ensures LE(FromLE(s), |s|) == s
  {
    if |s| > 0 {
      var v := FromLE(s);
      assert v % 256 == s[0] && v / 256 == FromLE(s[1..]);
      LEofFromLE(s[1..]);
    }
  }

  /** Two's-complement reading of an n-byte unsigned value. */
  function Signed(v: nat, n: nat): int
  {
    if 2 * v >= Pow256(n) then v - Pow256(n) else v
  }

  /** Two's-complement bit pattern of x in n bytes (Euclidean % keeps it non-negative). */
  function Unsigned(x: int, n: nat): (u: nat)
    ensures u < Pow256(n)
  {
    x % Pow256(n)
  }

  predicate FitsSigned(x: int, n: nat)
  {
    0 <= 2 * x + Pow256(n) && 2 * x < Pow256(n)
  }

  lemma SignedOfUnsigned(x: int, n: nat)
    requires FitsSigned(x, n)
    ensures Signed(Unsigned(x, n), n) == x
  {
    var p := Pow256(n);
    var u := Unsigned(x, n);
    if x >= 0 {
      SmallMod(x, p);
      assert u == x;
    } else {
      NegativeMod(x, p);
      assert u == x + p;
    }
  }

  lemma SmallMod(x: int, p: int)
    requires 0 <= x < p
    ensures x % p == x
  {
  }

  lemma NegativeMod(x: int, p: int)
    requires p >= 1 && -p <= x < 0
    ensures x % p == x + p
  {
  }

  /** Encoding and decoding of a signed n-byte field. */
  function EncodeSigned(x: int, n: nat): (r: seq<byte>)
    ensures |r| == n
  {
    LE(Unsigned(x, n), n)
  }

  function DecodeSigned(s: seq<byte>): int
  {
    Signed(FromLE(s), |s|)
  }

  lemma DecodeEncodeSigned(x: int, n: nat)
    requires FitsSigned(x, n)
    ensures DecodeSigned(EncodeSigned(x, n)) == x
  {
    FromLEofLE(Unsigned(x, n), n);
    SignedOfUnsigned(x, n);
  }

  lemma EncodeDecodeSigned(s: seq<byte>)
    ensures EncodeSigned(DecodeSigned(s), |s|) == s
  {
    var v: int := FromLE(s);
    var p: int := Pow256(|s|);
    if 2 * v >= p {
      NegativeMod(v - p, p);
    } else {
      SmallMod(v, p);
    }
    LEofFromLE(s);
  }

  lemma DecodeEncodeUnsigned(v: nat, n: nat)
    requires v < Pow256(n)
    ensures FromLE(LE(v, n)) == v
  {
    FromLEofLE(v, n);
  }

  function Zeros(n: nat): (r: seq<byte>)
    ensures |r| == n && forall i :: 0 <= i < n ==> r[i] == 0
  {
    seq(n, _ => 0)
  }

  function Min(a: int, b: int): int
  {
    if a < b then a else b
  }
}
