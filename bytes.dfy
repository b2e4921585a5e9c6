/**
 * Fixed-width byte strings and the big-endian reading of them that
 * secp256kfun uses for scalars (`Scalar::to_bytes`, `Scalar::from_bytes`,
 * `Scalar::from_bytes_mod_order`).
 */
module Bytes {
  import opened Runtime
  import opened ScalarField

  type byte = x: int | 0 <= x < 256

  type Bytes32 = s: seq<byte> | |s| == 32 witness seq(32, _ => 0)

  type Bytes66 = s: seq<byte> | |s| == 66 witness seq(66, _ => 0)

  function Pow256(n: nat): (p: nat)
    ensures p > 0
  {
    if n == 0 then 1 else 256 * Pow256(n - 1)
  }

  lemma {:induction false} Pow256Add(a: nat, b: nat)
    ensures Pow256(a + b) == Pow256(a) * Pow256(b)
    decreases b
  {
    if b > 0 {
      Pow256Add(a, b - 1);
      assert Pow256(a + b) == 256 * Pow256(a + b - 1);
    }
  }

  /** Every scalar fits in 32 bytes: N < 256^32. */
  lemma OrderFitsIn32Bytes()
    ensures N < Pow256(32)
    ensures Pow256(32) == 0x1_0000_0000_0000_0000_0000_0000_0000_0000_0000_0000_0000_0000_0000_0000_0000_0000
  {
    assert Pow256(1) == 256;
    Pow256Add(1, 1);
    Pow256Add(2, 2);
    Pow256Add(4, 4);
    Pow256Add(8, 8);
    assert Pow256(16) == 0x1_0000_0000_0000_0000_0000_0000_0000_0000;
    Pow256Add(16, 16);
  }

  /** The unsigned integer whose big-endian digits (base 256) are `bs`. */
  function BigEndianValue(bs: seq<byte>): (v: nat)
    ensures v < Pow256(|bs|)
  {
    if bs == [] then 0
    else BigEndianValue(bs[..|bs| - 1]) * 256 + bs[|bs| - 1]
  }

  /** The `len` low base-256 digits of `x`, most significant first. */
  function BigEndianBytes(x: nat, len: nat): (bs: seq<byte>)
    ensures |bs| == len
  {
    if len == 0 then []
    else BigEndianBytes(x / 256, len - 1) + [x % 256]
  }

  lemma {:induction false} BigEndianRoundTrip(x: nat, len: nat)
    requires x < Pow256(len)
    ensures BigEndianValue(BigEndianBytes(x, len)) == x
  {
    if len > 0 {
      var bs := BigEndianBytes(x, len);
      assert bs[..len - 1] == BigEndianBytes(x / 256, len - 1);
      BigEndianRoundTrip(x / 256, len - 1);
    }
  }

  lemma {:induction false} BigEndianBytesOfValue(bs: seq<byte>)
    ensures BigEndianBytes(BigEndianValue(bs), |bs|) == bs
  {
    if bs != [] {
      var init := bs[..|bs| - 1];
      BigEndianBytesOfValue(init);
      var v := BigEndianValue(bs);
      assert v / 256 == BigEndianValue(init) && v % 256 == bs[|bs| - 1];
      assert bs == init + [bs[|bs| - 1]];
    }
  }

  /** `Scalar::to_bytes`: the 32-byte big-endian form. */
  function ScalarToBytes(s: Scalar): (b: Bytes32)
    ensures BigEndianValue(b) == s
  {
    OrderFitsIn32Bytes();
    BigEndianRoundTrip(s, 32);
    BigEndianBytes(s, 32)
  }

  /** `Scalar::from_bytes`: the big-endian value, rejected unless below N. */
  function ScalarFromBytes(bytes: Bytes32): (r: Option<Scalar>)
    ensures r.Some? <==> BigEndianValue(bytes) < N
    ensures r.Some? ==> ScalarToBytes(r.value) == bytes
  {
    BigEndianBytesOfValue(bytes);
    var v := BigEndianValue(bytes);
    if v < N then Some(v) else None
  }

  /** `Scalar::from_bytes_mod_order`: the big-endian value reduced mod N. */
  function FromBytesModOrder(bytes: Bytes32): (s: Scalar)
    ensures BigEndianValue(bytes) < N ==> s == BigEndianValue(bytes) && ScalarToBytes(s) == bytes
    ensures BigEndianValue(bytes) >= N ==> s == BigEndianValue(bytes) - N
  {
    BigEndianBytesOfValue(bytes);
    OrderFitsIn32Bytes();
    ReduceOnce(BigEndianValue(bytes));
    BigEndianValue(bytes) % N
  }

  /** Decoding the encoding of a scalar gives it back, both ways of decoding. */
  lemma ScalarBytesRoundTrip(s: Scalar)
    ensures ScalarFromBytes(ScalarToBytes(s)) == Some(s)
    ensures FromBytesModOrder(ScalarToBytes(s)) == s
  {
    OrderFitsIn32Bytes();
    BigEndianRoundTrip(s, 32);
  }

  /** Distinct scalars have distinct 32-byte encodings. */
  lemma ScalarToBytesInjective(s: Scalar, t: Scalar)
    ensures ScalarToBytes(s) == ScalarToBytes(t) ==> s == t
  {
    ScalarBytesRoundTrip(s);
    ScalarBytesRoundTrip(t);
  }
}
