/**
 * The parts of schnorr_fun, secp256kfun and miniscript the core calls,
 * kept uninterpreted: abstract types for their values and records of
 * functions for their operations, passed to the model as parameters.
 */
module FrostLib {
  import opened Runtime
  import opened ScalarField
  import opened Bytes

  /** A curve point. */
  type Point(==, !new)
  /** `PointPoly`: a polynomial's public commitment. */
  type PointPoly(!new)
  /** `KeyGen`: the aggregated commitments of a key-generation run. */
  type KeyGen(!new)
  type ProofOfPossession(!new)
  type SignSession(!new)
  /** `binonce::Nonce`: a signer's public pair of nonce points. */
  type Nonce(==, !new)
  /** A miniscript output descriptor. */
  type Descriptor(==, !new)

  /** `ScalarPoly`: a secret polynomial, by its coefficients. */
  datatype ScalarPoly = ScalarPoly(coefficients: seq<Scalar>)

  /** `FrostKey`: the joint public key and one verification share per party. */
  datatype FrostKey = FrostKey(jointPublicKey: Point, verificationShares: seq<Point>)

  /** A Schnorr signature `(R, s)`. */
  datatype SchnorrSignature = SchnorrSignature(r: Point, s: Scalar)

  /** The `Frost` instance's operations. */
  datatype Frost = Frost(
    toPointPoly: ScalarPoly -> PointPoly,
    newScalarPoly: (NonZeroScalar, u32, seq<byte>) -> ScalarPoly,
    newKeygen: seq<PointPoly> -> Option<KeyGen>,
    createShares: (KeyGen, ScalarPoly) -> (seq<Scalar>, ProofOfPossession),
    finishKeygen: (KeyGen, u32, seq<Scalar>, seq<ProofOfPossession>) -> Option<(NonZeroScalar, FrostKey)>,
    combineSignatureShares: (FrostKey, SignSession, seq<Scalar>) -> SchnorrSignature
  )

  /** `Nonce::to_bytes` and `Nonce::from_bytes`. */
  datatype BinonceCodec = BinonceCodec(
    toBytes: Nonce -> Bytes66,
    fromBytes: Bytes66 -> Option<Nonce>
  )

  /** `Descriptor::Tr(Tr::new(key.to_xonly(), None))`, `None` when
      `Tr::new` fails. */
  type TaprootDescriptor = Point -> Option<Descriptor>

  /** What schnorr_fun promises of `finish_keygen`: a key finished from n
      received shares carries n verification shares. */
  ghost predicate FinishKeygenKeepsPartyCount(frost: Frost)
  {
    forall kg, i, shares, pops ::
      frost.finishKeygen(kg, i, shares, pops).Some? ==>
        |frost.finishKeygen(kg, i, shares, pops).value.1.verificationShares| == |shares|
  }

  /** What schnorr_fun promises of a binonce: its bytes parse back to it. */
  ghost predicate BinonceRoundTrips(codec: BinonceCodec)
  {
    forall n :: codec.fromBytes(codec.toBytes(n)) == Some(n)
  }
}
