/**
 * Consensus encoding of the threshold blind-signature types
 * (`minimint_api::encoding::tbs`).  `BlindedMessage`,
 * `BlindedSignatureShare`, `BlindedSignature` and `Signature` share one
 * macro-generated codec: 32 big-endian bytes, decoded modulo N and then
 * asserted non-zero.  `BlindingKey` has its own decoder, which rejects
 * non-canonical bytes and asserts non-zero with a different message.
 */
module TbsEncoding {
  import opened Runtime
  import opened ScalarField
  import opened Bytes
  import opened Io
  import opened Tbs

  const SurelyPanic: string := "surely"
  const BlindingKeyZeroPanic: string := "pls be nonzerp"
  const BlindingKeyError: string := "Error decoding blinding key"

  // ---------------------------------------------------------------------
  // The macro codec (the four 32-byte wrapper types)

  /** What the macro's `consensus_decode` makes of the reader's remaining
      input: too short is an I/O error, a value that is zero modulo N
      panics, anything else reduces modulo N. */
  function MacroDecode(input: seq<byte>): (r: Fallible<Result<NonZeroScalar, DecodeError>>)
    ensures |input| < 32 ==> r == Returned(Err(FromIo(UnexpectedEof)))
    ensures |input| >= 32 ==>
              (r.Panicked? <==> BigEndianValue(input[..32]) % N == 0)
    ensures r.Panicked? ==> r.message == SurelyPanic
    ensures |input| >= 32 && BigEndianValue(input[..32]) % N != 0 ==> r.Returned? && r.value.Ok?
    ensures r.Returned? && r.value.Ok? ==>
              |input| >= 32 && r.value.value == BigEndianValue(input[..32]) % N
    ensures r.Returned? && r.value.Err? ==> r.value.error == FromIo(UnexpectedEof)
  {
    if |input| < 32 then Returned(Err(FromIo(UnexpectedEof)))
    else
      OrderFitsIn32Bytes();
      match MarkNonZero(FromBytesModOrder(input[..32]))
      case None => Panicked(SurelyPanic)
      case Some(v) => Returned(Ok(v))
  }

  /** The macro's `consensus_encode` (and `BlindingKey`'s, which is the
      same): `write_all` of the 32-byte form, then `Ok(32)`. */
  method EncodeScalar(s: Scalar, w: SliceWriter) returns (r: Result<nat, IoErrorKind>)
    requires w.Valid()
    modifies w, w.buf
    ensures w.Valid()
    ensures r == if 32 <= old(w.Room()) then Ok(32) else Err(WriteZero)
    ensures w.Written() == old(w.Written()) + ScalarToBytes(s)[..Min(32, old(w.Room()))]
  {
    var bytes := ScalarToBytes(s);
    var written := w.WriteAll(bytes);
    if written.Err? {
      return Err(written.error);
    }
    r := Ok(|bytes|);
  }

  /** The macro's `consensus_decode`: `read_exact` into a 32-byte array,
      `from_bytes_mod_order`, then `mark::<NonZero>().expect("surely")`.
      Each of the four types wraps the result in its own constructor. */
  method DecodeScalar(d: Reader) returns (r: Fallible<Result<NonZeroScalar, DecodeError>>)
    requires d.Valid()
    modifies d
    ensures d.Valid()
    ensures r == MacroDecode(old(d.Remaining()))
    ensures |old(d.Remaining())| >= 32 ==> d.Remaining() == old(d.Remaining())[32..]
    ensures |old(d.Remaining())| < 32 ==> d.Remaining() == []
  {
    var bytes := new byte[32](_ => 0);
    var read := d.ReadExact(bytes);
    if read.Err? {
      return Returned(Err(FromIo(read.error)));
    }
    var msg := FromBytesModOrder(bytes[..]);
    match MarkNonZero(msg)
    case None => r := Panicked(SurelyPanic);
    case Some(v) => r := Returned(Ok(v));
  }

  /** Decoding an encoding gives the value back and consumes exactly 32 bytes. */
  lemma MacroRoundTrip(s: NonZeroScalar, rest: seq<byte>)
    ensures MacroDecode(ScalarToBytes(s) + rest) == Returned(Ok(s))
  {
    var input := ScalarToBytes(s) + rest;
    assert input[..32] == ScalarToBytes(s);
    ScalarBytesRoundTrip(s);
  }

  /** The macro decoder also accepts the non-canonical form `s + N` of a
      small scalar, and decodes it to the same value. */
  lemma MacroAcceptsNonCanonical(s: NonZeroScalar)
    requires s + N < Pow256(32)
    ensures BigEndianBytes(s + N, 32) != ScalarToBytes(s)
    ensures MacroDecode(BigEndianBytes(s + N, 32)) == Returned(Ok(s))
  {
    BigEndianRoundTrip(s + N, 32);
    ScalarBytesRoundTrip(s);
    ReduceOnce(s + N);
    var alt := BigEndianBytes(s + N, 32);
    assert alt[..32] == alt;
  }

  /** The all-zero input (and so the encoding of zero) makes the decoder panic. */
  lemma MacroZeroPanics(rest: seq<byte>)
    ensures MacroDecode(seq(32, _ => 0) + rest) == Panicked(SurelyPanic)
  {
    var zeros: seq<byte> := seq(32, _ => 0);
    var input := zeros + rest;
    assert input[..32] == zeros;
    assert BigEndianBytes(0, 32) == zeros by {
      BigEndianBytesOfValue(zeros);
      ZeroBytesValue(32);
    }
    BigEndianRoundTrip(0, 32);
  }

  lemma {:induction false} ZeroBytesValue(len: nat)
    ensures BigEndianValue(seq(len, _ => 0)) == 0
  {
    if len > 0 {
      var zeros: seq<byte> := seq(len, _ => 0);
      assert zeros[..len - 1] == seq(len - 1, _ => 0);
      ZeroBytesValue(len - 1);
    }
  }

  // ---------------------------------------------------------------------
  // BlindingKey

  /** What `BlindingKey::consensus_decode` makes of the remaining input:
      too short is an I/O error, a big-endian value of N or more is the
      error "Error decoding blinding key", zero panics. */
  function DecodeBlindingKeySpec(input: seq<byte>): (r: Fallible<Result<BlindingKey, DecodeError>>)
    ensures |input| < 32 ==> r == Returned(Err(FromIo(UnexpectedEof)))
    ensures |input| >= 32 ==>
              (r == Returned(Err(FromStr(BlindingKeyError))) <==> BigEndianValue(input[..32]) >= N)
    ensures |input| >= 32 ==>
              (r.Panicked? <==> BigEndianValue(input[..32]) == 0)
    ensures r.Panicked? ==> r.message == BlindingKeyZeroPanic
    ensures |input| >= 32 && 0 < BigEndianValue(input[..32]) < N ==> r.Returned? && r.value.Ok?
    ensures r.Returned? && r.value.Ok? ==>
              |input| >= 32 && r.value.value.s == BigEndianValue(input[..32])
              && ScalarToBytes(r.value.value.s) == input[..32]
  {
    if |input| < 32 then Returned(Err(FromIo(UnexpectedEof)))
    else
      match ScalarFromBytes(input[..32])
      case None => Returned(Err(FromStr(BlindingKeyError)))
      case Some(key) =>
        BigEndianBytesOfValue(input[..32]);
        match MarkNonZero(key)
        case None => Panicked(BlindingKeyZeroPanic)
        case Some(k) => Returned(Ok(BlindingKey(k)))
  }

  /** `BlindingKey::consensus_encode`: the same 32 bytes as the macro types. */
  method EncodeBlindingKey(key: BlindingKey, w: SliceWriter) returns (r: Result<nat, IoErrorKind>)
    requires w.Valid()
    modifies w, w.buf
    ensures w.Valid()
    ensures r == if 32 <= old(w.Room()) then Ok(32) else Err(WriteZero)
    ensures w.Written() == old(w.Written()) + ScalarToBytes(key.s)[..Min(32, old(w.Room()))]
  {
    r := EncodeScalar(key.s, w);
  }

  /** `BlindingKey::consensus_decode`: `read_exact`, `Scalar::from_bytes`,
      then either the non-zero mark or the error. */
  method DecodeBlindingKey(d: Reader) returns (r: Fallible<Result<BlindingKey, DecodeError>>)
    requires d.Valid()
    modifies d
    ensures d.Valid()
    ensures r == DecodeBlindingKeySpec(old(d.Remaining()))
    ensures |old(d.Remaining())| >= 32 ==> d.Remaining() == old(d.Remaining())[32..]
    ensures |old(d.Remaining())| < 32 ==> d.Remaining() == []
  {
    var bytes := new byte[32](_ => 0);
    var read := d.ReadExact(bytes);
    if read.Err? {
      return Returned(Err(FromIo(read.error)));
    }
    var key := ScalarFromBytes(bytes[..]);
    if key.Some? {
      match MarkNonZero(key.value)
      case None => r := Panicked(BlindingKeyZeroPanic);
      case Some(k) => r := Returned(Ok(BlindingKey(k)));
    } else {
      r := Returned(Err(FromStr(BlindingKeyError)));
    }
  }

  lemma BlindingKeyRoundTrip(key: BlindingKey, rest: seq<byte>)
    ensures DecodeBlindingKeySpec(ScalarToBytes(key.s) + rest) == Returned(Ok(key))
  {
    var input := ScalarToBytes(key.s) + rest;
    assert input[..32] == ScalarToBytes(key.s);
    ScalarBytesRoundTrip(key.s);
  }

  /** The blinding-key decoder accepts only canonical encodings: whatever
      it accepts is the encoding of the key it returns, so two inputs
      decoding to the same key agree on their first 32 bytes. */
  lemma BlindingKeyDecodeIsCanonical(input: seq<byte>, input': seq<byte>)
    requires DecodeBlindingKeySpec(input).Returned? && DecodeBlindingKeySpec(input).value.Ok?
    requires DecodeBlindingKeySpec(input) == DecodeBlindingKeySpec(input')
    ensures input[..32] == input'[..32]
  {
  }

  /** On bytes the macro decoder accepts non-canonically, the blinding-key
      decoder reports the error instead. */
  lemma BlindingKeyRejectsNonCanonical(s: NonZeroScalar)
    requires s + N < Pow256(32)
    ensures DecodeBlindingKeySpec(BigEndianBytes(s + N, 32)) == Returned(Err(FromStr(BlindingKeyError)))
  {
    BigEndianRoundTrip(s + N, 32);
    var alt := BigEndianBytes(s + N, 32);
    assert alt[..32] == alt;
    assert ScalarFromBytes(alt) == None;
  }

  // ---------------------------------------------------------------------
  // The round trip the crate's tests exercise

  /** Encode into a fresh buffer, then decode from its contents. */
  method MacroEncodeDecode(s: NonZeroScalar) returns (r: Fallible<Result<NonZeroScalar, DecodeError>>)
    ensures r == Returned(Ok(s))
  {
    var buf := new byte[32](_ => 0);
    var w := new SliceWriter(buf);
    var n := EncodeScalar(s, w);
    assert w.Written() == ScalarToBytes(s);
    var d := new Reader(w.Written());
    r := DecodeScalar(d);
    MacroRoundTrip(s, []);
    assert ScalarToBytes(s) + [] == ScalarToBytes(s);
  }

  method BlindingKeyEncodeDecode(key: BlindingKey) returns (r: Fallible<Result<BlindingKey, DecodeError>>)
    ensures r == Returned(Ok(key))
  {
    var buf := new byte[32](_ => 0);
    var w := new SliceWriter(buf);
    var n := EncodeBlindingKey(key, w);
    assert w.Written() == ScalarToBytes(key.s);
    var d := new Reader(w.Written());
    r := DecodeBlindingKey(d);
    BlindingKeyRoundTrip(key, []);
    assert ScalarToBytes(key.s) + [] == ScalarToBytes(key.s);
  }
}
