/**
  The 8-byte integer codec (`encodeU64` / `decodeU64`) that the region
  encodings build on. Its source file is not part of this model, so the
  byte order is left as a parameter: both orders are defined, and every
  law below is proved for each of them.
 */
module Codec {
  import opened Primitives

  datatype ByteOrder = LittleEndian | BigEndian

  /** 256 to the power n. */
  function Pow256(n: nat): (r: nat)
    ensures r >= 1
  {
    if n == 0 then 1 else 256 * Pow256(n - 1)
  }

  /** The n low base-256 digits of v, least significant first. */
  function LeBytes(v: nat, n: nat): (r: seq<uint8>)
    ensures |r| == n
  {
    if n == 0 then [] else [v % 256] + LeBytes(v / 256, n - 1)
  }

  /** The number whose base-256 digits, least significant first, are b. */
  function LeValue(b: seq<uint8>): (v: nat)
  {
    if |b| == 0 then 0 else b[0] + 256 * LeValue(b[1..])
  }

  /** The n low base-256 digits of v, most significant first. */
  function BeBytes(v: nat, n: nat): (r: seq<uint8>)
    ensures |r| == n
  {
    if n == 0 then [] else BeBytes(v / 256, n - 1) + [v % 256]
  }

  /** The number whose base-256 digits, most significant first, are b. */
  function BeValue(b: seq<uint8>): (v: nat)
  {
    if |b| == 0 then 0 else 256 * BeValue(b[..|b| - 1]) + b[|b| - 1]
  }

  /** `encodeU64`: the 8 bytes of v in the given order. */
  function EncodeU64(v: uint64, order: ByteOrder): (r: seq<uint8>)
    ensures |r| == 8
  {
    match order
    case LittleEndian => LeBytes(v, 8)
    case BigEndian => BeBytes(v, 8)
  }

  /** `decodeU64`: the value of 8 bytes read in the given order. */
  function DecodeU64(b: seq<uint8>, order: ByteOrder): (v: uint64)
    requires |b| == 8
  {
    match order
    case LittleEndian =>
      LeValueBound(b);
      LeValue(b)
    case BigEndian =>
      BeValueBound(b);
      BeValue(b)
  }

  /** `encodeDouble`: the bit pattern of the double, written like `encodeU64`. */
  function EncodeDouble(d: DoubleBits, order: ByteOrder): (r: seq<uint8>)
    ensures |r| == 8
  {
    EncodeU64(d, order)
  }

  /** `decodeDouble` */
  function DecodeDouble(b: seq<uint8>, order: ByteOrder): (d: DoubleBits)
    requires |b| == 8
  {
    DecodeU64(b, order)
  }

  // ---------------------------------------------------------------------

  lemma {:induction false} LeValueBound(b: seq<uint8>)
    ensures LeValue(b) < Pow256(|b|)
  {
    if |b| > 0 {
      LeValueBound(b[1..]);
    }
  }

  lemma {:induction false} BeValueBound(b: seq<uint8>)
    ensures BeValue(b) < Pow256(|b|)
  {
    if |b| > 0 {
      BeValueBound(b[..|b| - 1]);
    }
  }

  lemma {:induction false} LeRoundTrip(v: nat, n: nat)
    requires v < Pow256(n)
    ensures LeValue(LeBytes(v, n)) == v
  {
    if n > 0 {
      LeRoundTrip(v / 256, n - 1);
      assert LeBytes(v, n)[1..] == LeBytes(v / 256, n - 1);
    }
  }

  lemma {:induction false} LeBytesOfValue(b: seq<uint8>)
    ensures LeBytes(LeValue(b), |b|) == b
  {
    if |b| > 0 {
      LeValueBound(b[1..]);
      LeBytesOfValue(b[1..]);
      assert [b[0]] + b[1..] == b;
    }
  }

  lemma {:induction false} BeRoundTrip(v: nat, n: nat)
    requires v < Pow256(n)
    ensures BeValue(BeBytes(v, n)) == v
  {
    if n > 0 {
      BeRoundTrip(v / 256, n - 1);
      var r := BeBytes(v, n);
      assert r[..|r| - 1] == BeBytes(v / 256, n - 1);
    }
  }

  lemma {:induction false} BeBytesOfValue(b: seq<uint8>)
    ensures BeBytes(BeValue(b), |b|) == b
  {
    if |b| > 0 {
      var init := b[..|b| - 1];
      BeBytesOfValue(init);
      assert init + [b[|b| - 1]] == b;
    }
  }

  /** Decoding an encoded value gives the value back. */
  lemma DecodeEncodeU64(v: uint64, order: ByteOrder)
    ensures DecodeU64(EncodeU64(v, order), order) == v
  {
    assert Pow256(8) == TWO_TO_THE_64;
    match order
    case LittleEndian => LeRoundTrip(v, 8);
    case BigEndian => BeRoundTrip(v, 8);
  }

  /** Encoding a decoded value gives the 8 bytes back. */
  lemma EncodeDecodeU64(b: seq<uint8>, order: ByteOrder)
    requires |b| == 8
    ensures EncodeU64(DecodeU64(b, order), order) == b
  {
    match order
    case LittleEndian => LeBytesOfValue(b);
    case BigEndian => BeBytesOfValue(b);
  }
}
