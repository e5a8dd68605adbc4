/** Little-endian encodings and byte-range updates. */
module Bytes {
  import opened Ir

  const TWO64: nat := 0x1_0000_0000_0000_0000

  function Power256(n: nat): (r: nat)
    ensures r > 0
  {
    if n == 0 then 1 else 256 * Power256(n - 1)
  }

  /** The `n` low bytes of `v`, least significant first. */
  function EncodeLe(v: nat, n: nat): (r: seq<Byte>)
    ensures |r| == n
  {
    if n == 0 then [] else [v % 256] + EncodeLe(v / 256, n - 1)
  }

  function DecodeLe(bytes: seq<Byte>): nat {
    if bytes == [] then 0 else bytes[0] + 256 * DecodeLe(bytes[1..])
  }

  lemma {:induction false} DecodeEncode(v: nat, n: nat)
    requires v < Power256(n)
    ensures DecodeLe(EncodeLe(v, n)) == v
  {
    if n > 0 {
      DecodeEncode(v / 256, n - 1);
      assert EncodeLe(v, n)[1..] == EncodeLe(v / 256, n - 1);
    }
  }

  lemma {:induction false} DecodeBound(bytes: seq<Byte>)
    ensures DecodeLe(bytes) < Power256(|bytes|)
  {
    if bytes != [] {
      DecodeBound(bytes[1..]);
    }
  }

  lemma LowDigit(low: Byte, high: nat)
    ensures (low + 256 * high) % 256 == low && (low + 256 * high) / 256 == high
  {}

  lemma {:induction false} EncodeDecode(bytes: seq<Byte>)
    ensures EncodeLe(DecodeLe(bytes), |bytes|) == bytes
  {
    if bytes != [] {
      EncodeDecode(bytes[1..]);
      LowDigit(bytes[0], DecodeLe(bytes[1..]));
      assert bytes == [bytes[0]] + bytes[1..];
    }
  }

  /** `bytes` with `data` laid over it at `offset`. */
  function Overlay(bytes: seq<Byte>, offset: nat, data: seq<Byte>): (r: seq<Byte>)
    requires offset + |data| <= |bytes|
    ensures |r| == |bytes|
    ensures forall k | 0 <= k < |r| :: r[k] == if offset <= k < offset + |data| then data[k - offset] else bytes[k]
  {
    bytes[..offset] + data + bytes[offset + |data|..]
  }

  /** `n` copies of one byte. */
  function Fill(n: nat, b: Byte): (r: seq<Byte>)
    ensures |r| == n && forall k | 0 <= k < n :: r[k] == b
  {
    seq(n, _ => b)
  }

  /** The low byte of a signed value, as a conversion to an unsigned byte keeps it. */
  function LowByte(v: int): Byte {
    v % 256
  }

  /** Two's-complement addition on the unsigned 64-bit image. */
  function AddWrapping(a: nat, b: int): U64 {
    (a + b) % TWO64
  }
}
