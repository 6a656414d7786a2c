/** Two's-complement integers stored in little- or big-endian byte order,
    as Python's `struct` module reads and writes them in standard-size mode. */
module Endian {

  /** One byte of a file, as Python's `bytes` exposes it. */
  type Byte = b: int | 0 <= b < 256

  /** The byte orders selected by the struct prefix characters '<' and '>'. */
  datatype ByteOrder = Little | Big

  /** 256 to the power n: the number of values an n-byte field can hold. */
  function Pow256(n: nat): (p: int)
    ensures p >= 1
  {
    if n == 0 then 1 else 256 * Pow256(n - 1)
  }

  function Reverse<T>(s: seq<T>): (r: seq<T>)
    ensures |r| == |s|
    ensures forall i :: 0 <= i < |s| ==> r[i] == s[|s| - 1 - i]
  {
    if |s| == 0 then [] else Reverse(s[1..]) + [s[0]]
  }

  /** Unsigned value of bytes stored least significant byte first. */
  function UnsignedLE(bs: seq<Byte>): nat
  {
    if |bs| == 0 then 0 else bs[0] + 256 * UnsignedLE(bs[1..])
  }

  /** Unsigned value of bytes stored most significant byte first. */
  function UnsignedBE(bs: seq<Byte>): nat
  {
    if |bs| == 0 then 0 else 256 * UnsignedBE(bs[..|bs| - 1]) + bs[|bs| - 1]
  }

  /** Reinterprets an n-byte unsigned value as two's complement. */
  function ToSigned(u: nat, n: nat): int
  {
    if 2 * u >= Pow256(n) then u - Pow256(n) else u
  }

  /** The signed integer an n-byte field decodes to under the given byte order. */
  function DecodeSigned(order: ByteOrder, bs: seq<Byte>): int
  {
    match order
    case Little => ToSigned(UnsignedLE(bs), |bs|)
    case Big => ToSigned(UnsignedBE(bs), |bs|)
  }

  /** The n bytes, least significant first, that store the unsigned value u. */
  function EncodeLE(u: nat, n: nat): (bs: seq<Byte>)
    ensures |bs| == n
  {
    if n == 0 then [] else [u % 256] + EncodeLE(u / 256, n - 1)
  }

  /** The n bytes that store the signed value v in two's complement. */
  function EncodeSigned(order: ByteOrder, v: int, n: nat): (bs: seq<Byte>)
    requires -Pow256(n) <= 2 * v < Pow256(n)
    ensures |bs| == n
  {
    var u := if v < 0 then v + Pow256(n) else v;
    match order
    case Little => EncodeLE(u, n)
    case Big => Reverse(EncodeLE(u, n))
  }

  lemma {:induction false} UnsignedLEBound(bs: seq<Byte>)
    ensures UnsignedLE(bs) < Pow256(|bs|)
  {
    if |bs| > 0 {
      UnsignedLEBound(bs[1..]);
    }
  }

  /** Reading the little-endian encoding of u gives back u. */
  lemma {:induction false} UnsignedLERoundTrip(u: nat, n: nat)
    requires u < Pow256(n)
    ensures UnsignedLE(EncodeLE(u, n)) == u
  {
    if n > 0 {
      var bs := EncodeLE(u, n);
      assert bs[1..] == EncodeLE(u / 256, n - 1);
      UnsignedLERoundTrip(u / 256, n - 1);
    }
  }

  /** Encoding the value read from bytes gives back the same bytes. */
  lemma {:induction false} EncodeLERoundTrip(bs: seq<Byte>)
    ensures EncodeLE(UnsignedLE(bs), |bs|) == bs
  {
    if |bs| > 0 {
      var u := UnsignedLE(bs);
      assert u % 256 == bs[0] && u / 256 == UnsignedLE(bs[1..]);
      EncodeLERoundTrip(bs[1..]);
    }
  }

  /** Big-endian reading is little-endian reading of the reversed bytes. */
  lemma {:induction false} BigIsReversedLittle(bs: seq<Byte>)
    ensures UnsignedBE(bs) == UnsignedLE(Reverse(bs))
  {
    if |bs| > 0 {
      var last := bs[|bs| - 1];
      var front := bs[..|bs| - 1];
      BigIsReversedLittle(front);
      var r := Reverse(bs);
      assert r[0] == last;
      assert r[1..] == Reverse(front);
    }
  }

  /** The '>' reading of a field equals the '<' reading of its bytes reversed. */
  lemma SignedBigIsReversedLittle(bs: seq<Byte>)
    ensures DecodeSigned(Big, bs) == DecodeSigned(Little, Reverse(bs))
  {
    BigIsReversedLittle(bs);
  }

  lemma {:induction false} ReverseReverse<T>(s: seq<T>)
    ensures Reverse(Reverse(s)) == s
  {
  }

  /** Decoding a signed value encoded under the same byte order gives it back. */
  lemma SignedRoundTrip(order: ByteOrder, v: int, n: nat)
    requires -Pow256(n) <= 2 * v < Pow256(n)
    ensures DecodeSigned(order, EncodeSigned(order, v, n)) == v
  {
    var u := if v < 0 then v + Pow256(n) else v;
    UnsignedLERoundTrip(u, n);
    if order == Big {
      ReverseReverse(EncodeLE(u, n));
      BigIsReversedLittle(Reverse(EncodeLE(u, n)));
    }
  }

  /** A decoded n-byte value lies in the signed n-byte range. */
  lemma DecodeSignedRange(order: ByteOrder, bs: seq<Byte>)
    ensures -Pow256(|bs|) <= 2 * DecodeSigned(order, bs) < Pow256(|bs|)
  {
    if order == Little {
      UnsignedLEBound(bs);
    } else {
      BigIsReversedLittle(bs);
      UnsignedLEBound(Reverse(bs));
    }
  }

  /** A 4-byte field's unsigned value under each byte order, digit by digit. */
  lemma FourByteValues(bs: seq<Byte>)
    requires |bs| == 4
    ensures UnsignedLE(bs) == bs[0] as int + 256 * (bs[1] as int) + 65536 * (bs[2] as int) + 16777216 * (bs[3] as int)
    ensures UnsignedBE(bs) == bs[3] as int + 256 * (bs[2] as int) + 65536 * (bs[1] as int) + 16777216 * (bs[0] as int)
    ensures Pow256(|bs|) == 4294967296
  {
    assert bs[1..][1..] == bs[2..] && bs[2..][1..] == bs[3..] && bs[3..][1..] == [];
    assert UnsignedLE(bs[3..]) == (bs[3] as int);
    assert UnsignedLE(bs[2..]) == (bs[2] as int) + 256 * (bs[3] as int);
    assert UnsignedLE(bs[1..]) == (bs[1] as int) + 256 * (bs[2] as int) + 65536 * (bs[3] as int);
    assert bs[..3][..2] == bs[..2] && bs[..2][..1] == bs[..1] && bs[..1][..0] == [];
    assert UnsignedBE(bs[..1]) == (bs[0] as int);
    assert UnsignedBE(bs[..2]) == 256 * (bs[0] as int) + (bs[1] as int);
    assert UnsignedBE(bs[..3]) == 65536 * (bs[0] as int) + 256 * (bs[1] as int) + (bs[2] as int);
  }
}
