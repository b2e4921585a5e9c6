/**
 * The wallet module's FROST glue: the consensus codecs of a signer's
 * binonce (`FrostNonce`) and of a signature share (`FrostSigShare`), and
 * the trusted-dealer FROST key generation `trusted_frost_gen`.
 */
module WalletFrost {
  import opened Runtime
  import opened ScalarField
  import opened Bytes
  import opened Io
  import opened FrostLib
  import opened KeygenRouting

  datatype FrostNonce = FrostNonce(nonce: Nonce)

  /** A signature share: a public scalar that may be zero. */
  datatype FrostSigShare = FrostSigShare(s: Scalar)

  const InvalidBinonce: string := "Invalid 66 byte binonce"
  const InvalidScalar: string := "Invalid scalar"

  // ---------------------------------------------------------------------
  // FrostNonce

  /** What `FrostNonce::consensus_decode` makes of the remaining input:
      too short is an I/O error, 66 bytes that are no binonce are the error
      "Invalid 66 byte binonce". */
  function DecodeNonceSpec(codec: BinonceCodec, input: seq<byte>): (r: Result<FrostNonce, DecodeError>)
    ensures |input| < 66 ==> r == Err(FromIo(UnexpectedEof))
    ensures |input| >= 66 ==>
              (r.Ok? <==> codec.fromBytes(input[..66]).Some?)
              && (r.Ok? ==> Some(r.value.nonce) == codec.fromBytes(input[..66]))
              && (r.Err? ==> r.error == FromStr(InvalidBinonce))
  {
    if |input| < 66 then Err(FromIo(UnexpectedEof))
    else match codec.fromBytes(input[..66])
      case None => Err(FromStr(InvalidBinonce))
      case Some(nonce) => Ok(FrostNonce(nonce))
  }

  /** `FrostNonce::consensus_encode`, as written: a single `write` of the
      66-byte form, whose count it returns however short it is. */
  method EncodeNonce(codec: BinonceCodec, n: FrostNonce, w: SliceWriter) returns (r: Result<nat, IoErrorKind>)
    requires w.Valid()
    modifies w, w.buf
    ensures w.Valid()
    ensures r == Ok(Min(66, old(w.Room())))
    ensures w.Written() == old(w.Written()) + codec.toBytes(n.nonce)[..Min(66, old(w.Room()))]
  {
    var count := w.Write(codec.toBytes(n.nonce));
    r := Ok(count);
  }

  /** The encoder as evidently intended: `write_all`, so that success
      means all 66 bytes went out. */
  method EncodeNonceAll(codec: BinonceCodec, n: FrostNonce, w: SliceWriter) returns (r: Result<nat, IoErrorKind>)
    requires w.Valid()
    modifies w, w.buf
    ensures w.Valid()
    ensures r == if 66 <= old(w.Room()) then Ok(66) else Err(WriteZero)
    ensures w.Written() == old(w.Written()) + codec.toBytes(n.nonce)[..Min(66, old(w.Room()))]
  {
    var bytes := codec.toBytes(n.nonce);
    var written := w.WriteAll(bytes);
    if written.Err? {
      return Err(written.error);
    }
    r := Ok(|bytes|);
  }

  /** `FrostNonce::consensus_decode`: `read_exact` of 66 bytes, then
      `Nonce::from_bytes`. */
  method DecodeNonce(codec: BinonceCodec, d: Reader) returns (r: Result<FrostNonce, DecodeError>)
    requires d.Valid()
    modifies d
    ensures d.Valid()
    ensures r == DecodeNonceSpec(codec, old(d.Remaining()))
    ensures |old(d.Remaining())| >= 66 ==> d.Remaining() == old(d.Remaining())[66..]
    ensures |old(d.Remaining())| < 66 ==> d.Remaining() == []
  {
    var nonceBytes := new byte[66](_ => 0);
    var read := d.ReadExact(nonceBytes);
    if read.Err? {
      return Err(FromIo(read.error));
    }
    var nonce := codec.fromBytes(nonceBytes[..]);
    if nonce.None? {
      return Err(FromStr(InvalidBinonce));
    }
    r := Ok(FrostNonce(nonce.value));
  }

  /** With schnorr_fun's binonce round trip, decoding an encoding gives
      the nonce back. */
  lemma NonceRoundTrip(codec: BinonceCodec, n: FrostNonce, rest: seq<byte>)
    requires BinonceRoundTrips(codec)
    ensures DecodeNonceSpec(codec, codec.toBytes(n.nonce) + rest) == Ok(n)
  {
    var input := codec.toBytes(n.nonce) + rest;
    assert input[..66] == codec.toBytes(n.nonce);
  }

  /** Into a buffer too small for it, the as-written encoder reports
      success for a prefix that does not decode. */
  method NonceShortWriteReportsSuccess(codec: BinonceCodec, n: FrostNonce)
    returns (r: Result<nat, IoErrorKind>, written: seq<byte>)
    ensures r == Ok(40)
    ensures written == codec.toBytes(n.nonce)[..40]
    ensures DecodeNonceSpec(codec, written) == Err(FromIo(UnexpectedEof))
  {
    var buf := new byte[40](_ => 0);
    var w := new SliceWriter(buf);
    r := EncodeNonce(codec, n, w);
    written := w.Written();
  }

  /** Into a buffer with room, the corrected encoder round-trips. */
  method NonceEncodeDecode(codec: BinonceCodec, n: FrostNonce) returns (r: Result<FrostNonce, DecodeError>)
    requires BinonceRoundTrips(codec)
    ensures r == Ok(n)
  {
    var buf := new byte[66](_ => 0);
    var w := new SliceWriter(buf);
    var count := EncodeNonceAll(codec, n, w);
    var d := new Reader(w.Written());
    r := DecodeNonce(codec, d);
    NonceRoundTrip(codec, n, []);
    assert codec.toBytes(n.nonce) + [] == codec.toBytes(n.nonce);
  }

  // ---------------------------------------------------------------------
  // FrostSigShare

  /** What `FrostSigShare::consensus_decode` makes of the remaining input:
      too short is an I/O error, a big-endian value of N or more is the
      error "Invalid scalar", anything else (zero included) is the share. */
  function DecodeSigShareSpec(input: seq<byte>): (r: Result<FrostSigShare, DecodeError>)
    ensures |input| < 32 ==> r == Err(FromIo(UnexpectedEof))
    ensures |input| >= 32 ==>
              (r == Err(FromStr(InvalidScalar)) <==> BigEndianValue(input[..32]) >= N)
              && (r.Ok? <==> BigEndianValue(input[..32]) < N)
    ensures r.Ok? ==> |input| >= 32 && r.value.s == BigEndianValue(input[..32])
                      && ScalarToBytes(r.value.s) == input[..32]
  {
    if |input| < 32 then Err(FromIo(UnexpectedEof))
    else
      BigEndianBytesOfValue(input[..32]);
      match ScalarFromBytes(input[..32])
      case None => Err(FromStr(InvalidScalar))
      case Some(s) => Ok(FrostSigShare(s))
  }

  /** `FrostSigShare::consensus_encode`, as written: a single `write` of
      the 32-byte form. */
  method EncodeSigShare(share: FrostSigShare, w: SliceWriter) returns (r: Result<nat, IoErrorKind>)
    requires w.Valid()
    modifies w, w.buf
    ensures w.Valid()
    ensures r == Ok(Min(32, old(w.Room())))
    ensures w.Written() == old(w.Written()) + ScalarToBytes(share.s)[..Min(32, old(w.Room()))]
  {
    var count := w.Write(ScalarToBytes(share.s));
    r := Ok(count);
  }

  /** The encoder as evidently intended, with `write_all`. */
  method EncodeSigShareAll(share: FrostSigShare, w: SliceWriter) returns (r: Result<nat, IoErrorKind>)
    requires w.Valid()
    modifies w, w.buf
    ensures w.Valid()
    ensures r == if 32 <= old(w.Room()) then Ok(32) else Err(WriteZero)
    ensures w.Written() == old(w.Written()) + ScalarToBytes(share.s)[..Min(32, old(w.Room()))]
  {
    var bytes := ScalarToBytes(share.s);
    var written := w.WriteAll(bytes);
    if written.Err? {
      return Err(written.error);
    }
    r := Ok(|bytes|);
  }

  /** `FrostSigShare::consensus_decode`: `read_exact` of 32 bytes, then
      `Scalar::from_bytes`. */
  method DecodeSigShare(d: Reader) returns (r: Result<FrostSigShare, DecodeError>)
    requires d.Valid()
    modifies d
    ensures d.Valid()
    ensures r == DecodeSigShareSpec(old(d.Remaining()))
    ensures |old(d.Remaining())| >= 32 ==> d.Remaining() == old(d.Remaining())[32..]
    ensures |old(d.Remaining())| < 32 ==> d.Remaining() == []
  {
    var scalarBytes := new byte[32](_ => 0);
    var read := d.ReadExact(scalarBytes);
    if read.Err? {
      return Err(FromIo(read.error));
    }
    var scalar := ScalarFromBytes(scalarBytes[..]);
    if scalar.None? {
      return Err(FromStr(InvalidScalar));
    }
    r := Ok(FrostSigShare(scalar.value));
  }

  /** Every share, zero included, survives encoding and decoding. */
  lemma SigShareRoundTrip(share: FrostSigShare, rest: seq<byte>)
    ensures DecodeSigShareSpec(ScalarToBytes(share.s) + rest) == Ok(share)
  {
    var input := ScalarToBytes(share.s) + rest;
    assert input[..32] == ScalarToBytes(share.s);
    ScalarBytesRoundTrip(share.s);
  }

  /** Two inputs that decode to the same share agree on their 32 bytes. */
  lemma SigShareDecodeInjective(input: seq<byte>, input': seq<byte>)
    requires DecodeSigShareSpec(input).Ok? && DecodeSigShareSpec(input) == DecodeSigShareSpec(input')
    ensures input[..32] == input'[..32]
  {
  }

  /** Into a 16-byte buffer, the as-written encoder reports success for
      half a share, which does not decode. */
  method SigShareShortWriteReportsSuccess(share: FrostSigShare)
    returns (r: Result<nat, IoErrorKind>, written: seq<byte>)
    ensures r == Ok(16)
    ensures written == ScalarToBytes(share.s)[..16]
    ensures DecodeSigShareSpec(written) == Err(FromIo(UnexpectedEof))
  {
    var buf := new byte[16](_ => 0);
    var w := new SliceWriter(buf);
    r := EncodeSigShare(share, w);
    written := w.Written();
  }

  method SigShareEncodeDecode(share: FrostSigShare) returns (r: Result<FrostSigShare, DecodeError>)
    ensures r == Ok(share)
  {
    var buf := new byte[32](_ => 0);
    var w := new SliceWriter(buf);
    var count := EncodeSigShareAll(share, w);
    var d := new Reader(w.Written());
    r := DecodeSigShare(d);
    SigShareRoundTrip(share, []);
    assert ScalarToBytes(share.s) + [] == ScalarToBytes(share.s);
  }

  // ---------------------------------------------------------------------
  // trusted_frost_gen

  /** The polynomial nonce tag `b"frost-minimint"`, as ASCII bytes. */
  const PolyTag: seq<byte> := [102, 114, 111, 115, 116, 45, 109, 105, 110, 105, 109, 105, 110, 116]

  /** Party i's polynomial: `new_scalar_poly(secret_i, threshold, b"frost-minimint")`,
      the secret being the i-th `Scalar::random` draw. */
  function FrostPolys(frost: Frost, partySecrets: nat -> NonZeroScalar, threshold: u32, n: nat)
    : (r: seq<ScalarPoly>)
    ensures |r| == n
    ensures forall i :: 0 <= i < n ==> r[i] == frost.newScalarPoly(partySecrets(i), threshold, PolyTag)
  {
    seq(n, i requires 0 <= i < n => frost.newScalarPoly(partySecrets(i), threshold, PolyTag))
  }

  /** Column `p` of the share matrix exists: every sender made a p-th share. */
  predicate ColumnExists(m: seq<seq<Scalar>>, p: nat)
  {
    forall s :: 0 <= s < |m| ==> p < |m[s]|
  }

  /** Results of earlier receivers in front of those of later ones. */
  function Prepend(secrets: seq<NonZeroScalar>, keys: seq<FrostKey>,
                   later: Fallible<(seq<NonZeroScalar>, seq<FrostKey>)>)
    : (r: Fallible<(seq<NonZeroScalar>, seq<FrostKey>)>)
    ensures later.Panicked? ==> r == later
    ensures later.Returned? ==> r == Returned((secrets + later.value.0, keys + later.value.1))
  {
    match later
    case Panicked(m) => Panicked(m)
    case Returned(rest) => Returned((secrets + rest.0, keys + rest.1))
  }

  lemma PrependPrepend(a: seq<NonZeroScalar>, ka: seq<FrostKey>, b: seq<NonZeroScalar>, kb: seq<FrostKey>,
                       later: Fallible<(seq<NonZeroScalar>, seq<FrostKey>)>)
    ensures Prepend(a, ka, Prepend(b, kb, later)) == Prepend(a + b, ka + kb, later)
  {
    if later.Returned? {
      assert a + (b + later.value.0) == a + b + later.value.0;
      assert ka + (kb + later.value.1) == ka + kb + later.value.1;
    }
  }

  /** The lazy `(0..n).map(..).unzip()` from receiver `from` on: each
      receiver collects its column (panicking at the first sender without a
      share for it) and then finishes its key (panicking on failure),
      before the next receiver starts. */
  function ReceiveAndFinish(frost: Frost, keyGen: KeyGen, sharesVec: seq<seq<Scalar>>,
                            pops: seq<ProofOfPossession>, n: u32, from: nat)
    : (r: Fallible<(seq<NonZeroScalar>, seq<FrostKey>)>)
    requires |sharesVec| == n
    ensures r.Panicked? ==> r.message == IndexPanic || r.message == UnwrapPanic
    ensures r.Returned? && from <= n ==> |r.value.0| == n - from && |r.value.1| == n - from
    decreases n - from
  {
    if from >= n then Returned(([], []))
    else if !ColumnExists(sharesVec, from) then Panicked(IndexPanic)
    else match frost.finishKeygen(keyGen, from, Column(sharesVec, from), pops)
      case None => Panicked(UnwrapPanic)
      case Some(done) =>
        Prepend([done.0], [done.1], ReceiveAndFinish(frost, keyGen, sharesVec, pops, n, from + 1))
  }

  /** A run that returns finished every receiver from `from` on, in order,
      from its own column; one that panics met a missing share or a failed
      `finish_keygen`. */
  lemma {:induction false} ReceiveAndFinishOutcome(frost: Frost, keyGen: KeyGen, sharesVec: seq<seq<Scalar>>,
                                                   pops: seq<ProofOfPossession>, n: u32, from: nat)
    requires |sharesVec| == n && from <= n
    ensures var r := ReceiveAndFinish(frost, keyGen, sharesVec, pops, n, from);
            (r.Panicked? ==> r.message == IndexPanic || r.message == UnwrapPanic)
            && (r.Returned? <==>
                  forall i :: from <= i < n ==>
                    ColumnExists(sharesVec, i)
                    && frost.finishKeygen(keyGen, i, Column(sharesVec, i), pops).Some?)
            && (r.Returned? ==>
                  |r.value.0| == n - from && |r.value.1| == n - from
                  && forall i :: from <= i < n ==>
                       && ColumnExists(sharesVec, i)
                       && frost.finishKeygen(keyGen, i, Column(sharesVec, i), pops)
                            == Some((r.value.0[i - from], r.value.1[i - from])))
    decreases n - from
  {
    if from < n {
      ReceiveAndFinishOutcome(frost, keyGen, sharesVec, pops, n, from + 1);
    }
  }

  /** What `trusted_frost_gen` does once the key generation exists: the
      shares, the lazy receive-and-finish, and `frost_keys[0]`. */
  function FinishFromKeyGen(frost: Frost, keyGen: KeyGen, polys: seq<ScalarPoly>, n: u32)
    : (r: Fallible<(seq<NonZeroScalar>, FrostKey)>)
    requires |polys| == n
    ensures r.Panicked? ==> r.message == UnwrapPanic || r.message == IndexPanic
    ensures r.Returned? ==> n > 0 && |r.value.0| == n
  {
    var sharesVec := SharesOf(frost, keyGen, polys);
    match ReceiveAndFinish(frost, keyGen, sharesVec, PopsOf(frost, keyGen, polys), n, 0)
    case Panicked(m) => Panicked(m)
    case Returned(finished) =>
      if finished.1 == [] then Panicked(IndexPanic)
      else Returned((finished.0, finished.1[0]))
  }

  /** The whole of `trusted_frost_gen`, with the library and the random
      party secrets as parameters: the secret shares of all parties, in
      party order, and party 0's key. */
  function TrustedFrostGenSpec(frost: Frost, partySecrets: nat -> NonZeroScalar, threshold: u32, n: u32)
    : (r: Fallible<(seq<NonZeroScalar>, FrostKey)>)
    ensures n == 0 ==> r.Panicked?
    ensures r.Panicked? ==> r.message == UnwrapPanic || r.message == IndexPanic
    ensures r.Returned? ==> |r.value.0| == n
  {
    var polys := FrostPolys(frost, partySecrets, threshold, n);
    match frost.newKeygen(PointPolys(frost, polys))
    case None => Panicked(UnwrapPanic)
    case Some(keyGen) => FinishFromKeyGen(frost, keyGen, polys, n)
  }

  /** Once the key generation exists, a successful run returns n secret
      shares, party i's being what `finish_keygen` made of the i-th share
      of every sender in sender order, and the key finished for party 0;
      a run that panics met a missing share, a failed `finish_keygen`, or
      no parties at all. */
  lemma FinishFromKeyGenResult(frost: Frost, keyGen: KeyGen, polys: seq<ScalarPoly>, n: u32)
    requires |polys| == n
    ensures var r := FinishFromKeyGen(frost, keyGen, polys, n);
      var sharesVec := SharesOf(frost, keyGen, polys);
      var pops := PopsOf(frost, keyGen, polys);
      && (r.Panicked? ==> r.message == UnwrapPanic || r.message == IndexPanic)
      && (r.Returned? ==>
            && n > 0
            && |r.value.0| == n
            && (forall i :: 0 <= i < n ==>
                  && ColumnExists(sharesVec, i)
                  && frost.finishKeygen(keyGen, i, Column(sharesVec, i), pops).Some?
                  && frost.finishKeygen(keyGen, i, Column(sharesVec, i), pops).value.0 == r.value.0[i])
            && r.value.1 == frost.finishKeygen(keyGen, 0, Column(sharesVec, 0), pops).value.1)
  {
    var sharesVec := SharesOf(frost, keyGen, polys);
    var pops := PopsOf(frost, keyGen, polys);
    var finished := ReceiveAndFinish(frost, keyGen, sharesVec, pops, n, 0);
    ReceiveAndFinishOutcome(frost, keyGen, sharesVec, pops, n, 0);
    if finished.Returned? && finished.value.1 != [] {
      var (secrets, keys) := finished.value;
      assert FinishFromKeyGen(frost, keyGen, polys, n) == Returned((secrets, keys[0]));
      assert frost.finishKeygen(keyGen, 0, Column(sharesVec, 0), pops) == Some((secrets[0], keys[0]));
    }
  }

  /** The same for a whole run of `trusted_frost_gen`, in terms of the
      polynomials it makes. */
  lemma TrustedFrostGenResult(frost: Frost, partySecrets: nat -> NonZeroScalar, threshold: u32, n: u32)
    ensures var r := TrustedFrostGenSpec(frost, partySecrets, threshold, n);
      var polys := FrostPolys(frost, partySecrets, threshold, n);
      var keyGen := frost.newKeygen(PointPolys(frost, polys));
      && (r.Returned? ==> n > 0 && keyGen.Some?)
      && (r.Returned? && keyGen.Some? ==>
            var sharesVec := SharesOf(frost, keyGen.value, polys);
            var pops := PopsOf(frost, keyGen.value, polys);
            && |r.value.0| == n
            && (forall i :: 0 <= i < n ==>
                  && ColumnExists(sharesVec, i)
                  && frost.finishKeygen(keyGen.value, i, Column(sharesVec, i), pops).Some?
                  && frost.finishKeygen(keyGen.value, i, Column(sharesVec, i), pops).value.0 == r.value.0[i])
            && r.value.1 == frost.finishKeygen(keyGen.value, 0, Column(sharesVec, 0), pops).value.1)
  {
    var polys := FrostPolys(frost, partySecrets, threshold, n);
    var keyGen := frost.newKeygen(PointPolys(frost, polys));
    if keyGen.Some? {
      FinishFromKeyGenResult(frost, keyGen.value, polys, n);
    }
  }

  /** With no parties there is no `frost_keys[0]`; every panic is an
      `unwrap` or an index out of bounds. */
  lemma TrustedFrostGenPanics(frost: Frost, partySecrets: nat -> NonZeroScalar, threshold: u32, n: u32)
    ensures n == 0 ==> TrustedFrostGenSpec(frost, partySecrets, threshold, n).Panicked?
    ensures var r := TrustedFrostGenSpec(frost, partySecrets, threshold, n);
            r.Panicked? ==> r.message == UnwrapPanic || r.message == IndexPanic
  {
    var polys := FrostPolys(frost, partySecrets, threshold, n);
    var keyGen := frost.newKeygen(PointPolys(frost, polys));
    if keyGen.Some? {
      FinishFromKeyGenResult(frost, keyGen.value, polys, n);
    }
  }

  /** With schnorr_fun's contract on `finish_keygen`, the returned key has
      one verification share per party. */
  lemma TrustedFrostGenVerificationShareCount(frost: Frost, partySecrets: nat -> NonZeroScalar,
                                              threshold: u32, n: u32)
    requires FinishKeygenKeepsPartyCount(frost)
    ensures var r := TrustedFrostGenSpec(frost, partySecrets, threshold, n);
            r.Returned? ==> |r.value.1.verificationShares| == n
  {
    TrustedFrostGenResult(frost, partySecrets, threshold, n);
  }

  /** The `for _ in 1..=n_parties` loop: one `new_scalar_poly` per party. */
  method MakeScalarPolys(frost: Frost, partySecrets: nat -> NonZeroScalar, threshold: u32, nParties: u32)
    returns (scalarPolys: seq<ScalarPoly>)
    ensures scalarPolys == FrostPolys(frost, partySecrets, threshold, nParties)
  {
    scalarPolys := [];
    for i := 1 to nParties + 1
      invariant scalarPolys == FrostPolys(frost, partySecrets, threshold, i - 1)
    {
      var scalarPoly := frost.newScalarPoly(partySecrets(i - 1), threshold, PolyTag);
      scalarPolys := scalarPolys + [scalarPoly];
    }
  }

  /** `(0..n_parties).map(|s| shares_vec[s][receiver]).collect()`:
      receiver's column, or `None` where an index is out of bounds. */
  method CollectColumn(sharesVec: seq<seq<Scalar>>, receiver: nat)
    returns (r: Option<seq<Scalar>>)
    ensures r.Some? <==> ColumnExists(sharesVec, receiver)
    ensures r.Some? ==> r.value == Column(sharesVec, receiver)
  {
    var receivedShares: seq<Scalar> := [];
    for sender := 0 to |sharesVec|
      invariant forall s :: 0 <= s < sender ==> receiver < |sharesVec[s]|
      invariant receivedShares == Column(sharesVec[..sender], receiver)
    {
      if receiver >= |sharesVec[sender]| {
        return None;
      }
      receivedShares := receivedShares + [sharesVec[sender][receiver]];
    }
    assert sharesVec[..|sharesVec|] == sharesVec;
    r := Some(receivedShares);
  }

  /** `trusted_frost_gen`. */
  method TrustedFrostGen(frost: Frost, partySecrets: nat -> NonZeroScalar, threshold: u32, nParties: u32)
    returns (r: Fallible<(seq<NonZeroScalar>, FrostKey)>)
    ensures r == TrustedFrostGenSpec(frost, partySecrets, threshold, nParties)
  {
    var scalarPolys := MakeScalarPolys(frost, partySecrets, threshold, nParties);
    var pointPolys := PointPolys(frost, scalarPolys);

    var keyGenResult := frost.newKeygen(pointPolys);
    if keyGenResult.None? {
      return Panicked(UnwrapPanic);
    }
    var keyGen := keyGenResult.value;

    var sharesVec, proofsOfPossession := CreateAllShares(frost, keyGen, scalarPolys);

    ghost var whole := ReceiveAndFinish(frost, keyGen, sharesVec, proofsOfPossession, nParties, 0);
    var secretShares: seq<NonZeroScalar> := [];
    var frostKeys: seq<FrostKey> := [];
    if whole.Returned? {
      assert [] + whole.value.0 == whole.value.0 && [] + whole.value.1 == whole.value.1;
    }
    for receiver := 0 to nParties
      invariant whole == Prepend(secretShares, frostKeys,
                                 ReceiveAndFinish(frost, keyGen, sharesVec, proofsOfPossession, nParties, receiver))
    {
      var receivedShares := CollectColumn(sharesVec, receiver);
      if receivedShares.None? {
        return Panicked(IndexPanic);
      }
      var done := frost.finishKeygen(keyGen, receiver, receivedShares.value, proofsOfPossession);
      if done.None? {
        return Panicked(UnwrapPanic);
      }
      PrependPrepend(secretShares, frostKeys, [done.value.0], [done.value.1],
                     ReceiveAndFinish(frost, keyGen, sharesVec, proofsOfPossession, nParties, receiver + 1));
      secretShares := secretShares + [done.value.0];
      frostKeys := frostKeys + [done.value.1];
    }
    assert secretShares + [] == secretShares && frostKeys + [] == frostKeys;
    assert whole == Returned((secretShares, frostKeys));

    if frostKeys == [] {
      return Panicked(IndexPanic);
    }
    r := Returned((secretShares, frostKeys[0]));
  }
}
