/**
 * The threshold blind-signature crate: its scalar wrapper types, the
 * trusted-dealer key generation, blinding, blind signing, unblinding and
 * the combination of signature shares.
 */
module Tbs {
  import opened Runtime
  import opened ScalarField
  import opened FrostLib
  import opened KeygenRouting

  datatype MessageScalar = MessageScalar(s: NonZeroScalar)
  datatype BlindingKey = BlindingKey(s: NonZeroScalar)
  datatype BlindedMessage = BlindedMessage(s: NonZeroScalar)
  datatype BlindedSignature = BlindedSignature(s: NonZeroScalar)
  datatype BlindedSignatureShare = BlindedSignatureShare(s: NonZeroScalar)
  datatype Signature = Signature(s: NonZeroScalar)

  const NonZeroSigPanic: string := "nonzero sig"
  const ZeroDrawPanic: string := "impossibly unlikely to be zero"

  // ---------------------------------------------------------------------
  // dealer_keygen

  /** No `u32` drawn among the first `count` is zero. */
  predicate DrawsNonZero(rng: nat -> u32, count: nat)
  {
    forall j :: 0 <= j < count ==> rng(j) != 0
  }

  /** Coefficients of polynomial `i`: the `threshold` draws after the
      `i * threshold` drawn for the polynomials before it. */
  function DealerCoefficients(rng: nat -> u32, threshold: nat, i: nat): (c: seq<Scalar>)
    ensures |c| == threshold
    ensures forall k :: 0 <= k < threshold ==> c[k] < U32Modulus && c[k] == rng(i * threshold + k)
  {
    seq(threshold, k requires 0 <= k < threshold => rng(i * threshold + k))
  }

  /** One polynomial per party, each from its own run of draws. */
  function DealerPolys(rng: nat -> u32, threshold: nat, count: nat): (r: seq<ScalarPoly>)
    ensures |r| == count
    ensures forall i :: 0 <= i < count ==> r[i].coefficients == DealerCoefficients(rng, threshold, i)
  {
    seq(count, i requires 0 <= i < count => ScalarPoly(DealerCoefficients(rng, threshold, i)))
  }

  lemma DrawIndexBound(i: nat, k: nat, threshold: nat, parties: nat)
    requires i < parties && k < threshold
    ensures i * threshold + k < parties * threshold
  {
    var later: nat := parties - i - 1;
    var rest: nat := later * threshold;
    assert parties * threshold == i * threshold + threshold + rest by {
      assert parties == i + 1 + later;
    }
  }

  /** Exactly `parties` polynomials of exactly `threshold` coefficients, each
      a non-zero `u32`. */
  lemma DealerPolysShape(rng: nat -> u32, threshold: nat, parties: nat)
    requires DrawsNonZero(rng, parties * threshold)
    ensures |DealerPolys(rng, threshold, parties)| == parties
    ensures forall i :: 0 <= i < parties ==>
              |DealerPolys(rng, threshold, parties)[i].coefficients| == threshold
    ensures forall i, k :: 0 <= i < parties && 0 <= k < threshold ==>
              1 <= DealerPolys(rng, threshold, parties)[i].coefficients[k] < U32Modulus
  {
    forall i, k | 0 <= i < parties && 0 <= k < threshold
      ensures 1 <= DealerPolys(rng, threshold, parties)[i].coefficients[k] < U32Modulus
    {
      DrawIndexBound(i, k, threshold, parties);
    }
  }

  datatype DealerOutput = DealerOutput(
    frostKey: FrostKey,
    verificationShares: seq<Point>,
    secretShares: seq<NonZeroScalar>)

  /** `(0..n).map(|i| finish_keygen(.., i as u32, received[i], ..).unwrap()).unzip()`,
      from party `from` on. */
  function FinishKeygens(frost: Frost, keyGen: KeyGen, received: seq<seq<Scalar>>,
                         pops: seq<ProofOfPossession>, from: nat)
    : (r: Fallible<(seq<NonZeroScalar>, seq<FrostKey>)>)
    ensures r.Panicked? ==> r.message == UnwrapPanic
    ensures r.Returned? && from <= |received| ==>
              |r.value.0| == |received| - from && |r.value.1| == |received| - from
    decreases |received| - from
  {
    if from >= |received| then Returned(([], []))
    else match frost.finishKeygen(keyGen, AsU32(from), received[from], pops)
      case None => Panicked(UnwrapPanic)
      case Some(done) =>
        match FinishKeygens(frost, keyGen, received, pops, from + 1)
        case Panicked(m) => Panicked(m)
        case Returned(rest) => Returned(([done.0] + rest.0, [done.1] + rest.1))
  }

  /** A finished run called `finish_keygen` once per party, in party order,
      and returns its results in that order; it panics exactly when one of
      those calls fails. */
  lemma {:induction false} FinishKeygensOutcome(frost: Frost, keyGen: KeyGen, received: seq<seq<Scalar>>,
                                                pops: seq<ProofOfPossession>, from: nat)
    requires from <= |received|
    ensures var r := FinishKeygens(frost, keyGen, received, pops, from);
            (r.Returned? <==>
               forall i :: from <= i < |received| ==>
                 frost.finishKeygen(keyGen, AsU32(i), received[i], pops).Some?)
            && (r.Panicked? ==> r.message == UnwrapPanic)
            && (r.Returned? ==>
                  |r.value.0| == |received| - from && |r.value.1| == |received| - from
                  && forall i :: from <= i < |received| ==>
                       frost.finishKeygen(keyGen, AsU32(i), received[i], pops)
                         == Some((r.value.0[i - from], r.value.1[i - from])))
    decreases |received| - from
  {
    if from < |received| {
      FinishKeygensOutcome(frost, keyGen, received, pops, from + 1);
    }
  }

  /** The whole of `dealer_keygen`, with the library and the random `u32`
      draws as parameters. */
  function DealerKeygenSpec(frost: Frost, rng: nat -> u32, threshold: nat, parties: nat)
    : (r: Fallible<DealerOutput>)
    ensures !DrawsNonZero(rng, parties * threshold) ==> r == Panicked(ZeroDrawPanic)
    ensures r.Panicked? ==>
              r.message == ZeroDrawPanic || r.message == UnwrapPanic || r.message == IndexPanic
    ensures r.Returned? ==>
              && parties > 0
              && |r.value.secretShares| == parties
              && r.value.verificationShares == r.value.frostKey.verificationShares
  {
    if !DrawsNonZero(rng, parties * threshold) then Panicked(ZeroDrawPanic)
    else
      var polys := DealerPolys(rng, threshold, parties);
      match frost.newKeygen(PointPolys(frost, polys))
      case None => Panicked(UnwrapPanic)
      case Some(keyGen) =>
        var sharesVec := SharesOf(frost, keyGen, polys);
        if !RowsCover(sharesVec, parties) then Panicked(IndexPanic)
        else
          match FinishKeygens(frost, keyGen, Transpose(sharesVec, parties), PopsOf(frost, keyGen, polys), 0)
          case Panicked(m) => Panicked(m)
          case Returned(finished) =>
            if finished.1 == [] then Panicked(IndexPanic)
            else Returned(DealerOutput(finished.1[0], finished.1[0].verificationShares, finished.0))
  }

  /** What a successful `dealer_keygen` returns: one secret share per
      party in party order, party i's share being what `finish_keygen`
      made of the i-th share of every sender, in sender order; and the key
      finished for party 0 with its verification shares. */
  lemma DealerKeygenResult(frost: Frost, rng: nat -> u32, threshold: nat, parties: nat)
    ensures var r := DealerKeygenSpec(frost, rng, threshold, parties);
      r.Returned? ==>
        && DrawsNonZero(rng, parties * threshold)
        && parties > 0
        && frost.newKeygen(PointPolys(frost, DealerPolys(rng, threshold, parties))).Some?
    ensures var r := DealerKeygenSpec(frost, rng, threshold, parties);
      r.Returned? ==> (
        var polys := DealerPolys(rng, threshold, parties);
        var keyGen := frost.newKeygen(PointPolys(frost, polys)).value;
        var sharesVec := SharesOf(frost, keyGen, polys);
        var pops := PopsOf(frost, keyGen, polys);
        && RowsCover(sharesVec, parties)
        && |r.value.secretShares| == parties
        && (forall i :: 0 <= i < parties ==>
              && frost.finishKeygen(keyGen, AsU32(i), Column(sharesVec, i), pops).Some?
              && frost.finishKeygen(keyGen, AsU32(i), Column(sharesVec, i), pops).value.0
                   == r.value.secretShares[i])
        && r.value.frostKey == frost.finishKeygen(keyGen, 0, Column(sharesVec, 0), pops).value.1
        && r.value.verificationShares == r.value.frostKey.verificationShares)
  {
    var r := DealerKeygenSpec(frost, rng, threshold, parties);
    if r.Returned? {
      var polys := DealerPolys(rng, threshold, parties);
      var keyGen := frost.newKeygen(PointPolys(frost, polys)).value;
      var sharesVec := SharesOf(frost, keyGen, polys);
      var pops := PopsOf(frost, keyGen, polys);
      var received := Transpose(sharesVec, parties);
      FinishKeygensOutcome(frost, keyGen, received, pops, 0);
      assert forall i :: 0 <= i < parties ==> received[i] == Column(sharesVec, i);
    }
  }

  /** With schnorr_fun's contract on `finish_keygen`, the verification
      shares number the parties. */
  lemma DealerKeygenVerificationShareCount(frost: Frost, rng: nat -> u32, threshold: nat, parties: nat)
    requires FinishKeygenKeepsPartyCount(frost)
    ensures var r := DealerKeygenSpec(frost, rng, threshold, parties);
            r.Returned? ==> |r.value.verificationShares| == parties
  {
    var r := DealerKeygenSpec(frost, rng, threshold, parties);
    if r.Returned? {
      DealerKeygenResult(frost, rng, threshold, parties);
      var polys := DealerPolys(rng, threshold, parties);
      var keyGen := frost.newKeygen(PointPolys(frost, polys)).value;
      var sharesVec := SharesOf(frost, keyGen, polys);
      var pops := PopsOf(frost, keyGen, polys);
      assert frost.finishKeygen(keyGen, 0, Column(sharesVec, 0), pops).Some?;
    }
  }

  /** A zero draw panics before anything else, and with no parties there
      is no key to return. */
  lemma DealerKeygenPanics(frost: Frost, rng: nat -> u32, threshold: nat, parties: nat)
    ensures !DrawsNonZero(rng, parties * threshold) ==>
              DealerKeygenSpec(frost, rng, threshold, parties) == Panicked(ZeroDrawPanic)
    ensures parties == 0 ==> DealerKeygenSpec(frost, rng, threshold, parties).Panicked?
  {
    if parties == 0 {
      DealerKeygenResult(frost, rng, threshold, parties);
    }
  }

  /** The polynomial loop of `dealer_keygen`: `threshold` draws per party,
      stopping at the first zero draw. */
  method DrawDealerPolys(rng: nat -> u32, threshold: nat, nParties: nat)
    returns (r: Option<seq<ScalarPoly>>)
    ensures r.None? <==> !DrawsNonZero(rng, nParties * threshold)
    ensures r.Some? ==> r.value == DealerPolys(rng, threshold, nParties)
  {
    var draws := 0;
    var scalarPolys: seq<ScalarPoly> := [];
    for party := 0 to nParties
      invariant draws == party * threshold
      invariant DrawsNonZero(rng, draws)
      invariant scalarPolys == DealerPolys(rng, threshold, party)
    {
      var coefficients: seq<Scalar> := [];
      for k := 0 to threshold
        invariant draws == party * threshold + k
        invariant DrawsNonZero(rng, draws)
        invariant coefficients == DealerCoefficients(rng, threshold, party)[..k]
      {
        var x := rng(draws);
        if x == 0 {
          DrawIndexBound(party, k, threshold, nParties);
          return None;
        }
        coefficients := coefficients + [x];
        draws := draws + 1;
      }
      assert coefficients == DealerCoefficients(rng, threshold, party);
      scalarPolys := scalarPolys + [ScalarPoly(coefficients)];
      assert scalarPolys == DealerPolys(rng, threshold, party + 1);
    }
    r := Some(scalarPolys);
  }

  /** The transpose loop of `dealer_keygen`: receiver p collects the p-th
      share of every sender, failing on a sender without one. */
  method ReceiveShares(sharesVec: seq<seq<Scalar>>, nParties: nat)
    returns (r: Option<seq<seq<Scalar>>>)
    requires |sharesVec| == nParties
    ensures r.None? <==> !RowsCover(sharesVec, nParties)
    ensures r.Some? ==> RowsCover(sharesVec, nParties) && r.value == Transpose(sharesVec, nParties)
  {
    var receivedShares: seq<seq<Scalar>> := [];
    for partyIndex := 0 to nParties
      invariant RowsCover(sharesVec, partyIndex)
      invariant |receivedShares| == partyIndex
      invariant forall p :: 0 <= p < partyIndex ==> receivedShares[p] == Column(sharesVec, p)
    {
      receivedShares := receivedShares + [[]];
      for shareIndex := 0 to nParties
        invariant |receivedShares| == partyIndex + 1
        invariant forall s :: 0 <= s < shareIndex ==> partyIndex < |sharesVec[s]|
        invariant forall p :: 0 <= p < partyIndex ==> receivedShares[p] == Column(sharesVec, p)
        invariant receivedShares[partyIndex] == Column(sharesVec[..shareIndex], partyIndex)
      {
        if partyIndex >= |sharesVec[shareIndex]| {
          return None;
        }
        receivedShares := receivedShares[partyIndex :=
          receivedShares[partyIndex] + [sharesVec[shareIndex][partyIndex]]];
      }
      assert sharesVec[..nParties] == sharesVec;
    }
    r := Some(receivedShares);
  }

  /** `dealer_keygen`: builds the polynomials, has the library create the
      shares, routes them to their receivers and finishes every party's key. */
  method DealerKeygen(frost: Frost, rng: nat -> u32, threshold: nat, nParties: nat)
    returns (r: Fallible<DealerOutput>)
    ensures r == DealerKeygenSpec(frost, rng, threshold, nParties)
  {
    var drawn := DrawDealerPolys(rng, threshold, nParties);
    if drawn.None? {
      return Panicked(ZeroDrawPanic);
    }
    var scalarPolys := drawn.value;

    var pointPolys := PointPolys(frost, scalarPolys);
    var keyGenResult := frost.newKeygen(pointPolys);
    if keyGenResult.None? {
      return Panicked(UnwrapPanic);
    }
    var keyGen := keyGenResult.value;

    var sharesVec, proofsOfPossession := CreateAllShares(frost, keyGen, scalarPolys);

    // collect the received shares for each party
    var received := ReceiveShares(sharesVec, nParties);
    if received.None? {
      return Panicked(IndexPanic);
    }

    // finish keygen for each party
    var finished := FinishKeygens(frost, keyGen, received.value, proofsOfPossession, 0);
    if finished.Panicked? {
      return Panicked(finished.message);
    }
    var (secretShares, frostKeys) := finished.value;
    if frostKeys == [] {
      return Panicked(IndexPanic);
    }
    r := Returned(DealerOutput(frostKeys[0], frostKeys[0].verificationShares, secretShares));
  }


  // ---------------------------------------------------------------------
  // blind_message, sign_blinded_msg, unblind_signature

  /** `blind_message`: the random `blindingKey` (drawn from `OsRng` in the
      source) paired with the blinded message `blindingKey * msg`.  The
      library types that product as non-zero, which holds because N is prime. */
  function BlindMessage(msg: NonZeroScalar, blindingKey: NonZeroScalar): (r: (BlindingKey, BlindedMessage))
    requires OrderIsPrime()
    ensures r.0 == BlindingKey(blindingKey)
    ensures r.1.s == Mul(blindingKey, msg)
  {
    MulNonZero(blindingKey, msg);
    (BlindingKey(blindingKey), BlindedMessage(Mul(blindingKey, msg)))
  }

  /** `sign_blinded_msg`: the share `secretShare * msg`, after an
      `expect("nonzero sig")`. */
  function SignBlindedMsg(msg: BlindedMessage, secretShare: NonZeroScalar): (r: Fallible<BlindedSignatureShare>)
    ensures r.Returned? <==> Mul(secretShare, msg.s) != 0
    ensures r.Returned? ==> r.value.s == Mul(secretShare, msg.s)
    ensures r.Panicked? ==> r.message == NonZeroSigPanic
  {
    match MarkNonZero(Mul(secretShare, msg.s))
    case None => Panicked(NonZeroSigPanic)
    case Some(sig) => Returned(BlindedSignatureShare(sig))
  }

  /** `unblind_signature`, as written: MULTIPLIES the blinded signature by
      the blinding key (and returns it typed as a signature share). */
  function UnblindSignature(blindingKey: BlindingKey, blindedSig: BlindedSignature)
    : (r: Fallible<BlindedSignatureShare>)
    ensures r.Returned? <==> Mul(blindedSig.s, blindingKey.s) != 0
    ensures r.Returned? ==> r.value.s == Mul(blindedSig.s, blindingKey.s)
    ensures r.Panicked? ==> r.message == NonZeroSigPanic
  {
    match MarkNonZero(Mul(blindedSig.s, blindingKey.s))
    case None => Panicked(NonZeroSigPanic)
    case Some(sig) => Returned(BlindedSignatureShare(sig))
  }

  /** The `expect("nonzero sig")` in signing never fires. */
  lemma SignNeverPanics(msg: BlindedMessage, secretShare: NonZeroScalar)
    requires OrderIsPrime()
    ensures SignBlindedMsg(msg, secretShare).Returned?
  {
    MulNonZero(secretShare, msg.s);
  }

  /** The `expect("nonzero sig")` in unblinding never fires. */
  lemma UnblindNeverPanics(blindingKey: BlindingKey, blindedSig: BlindedSignature)
    requires OrderIsPrime()
    ensures UnblindSignature(blindingKey, blindedSig).Returned?
  {
    MulNonZero(blindedSig.s, blindingKey.s);
  }

  /** Two different blinding keys hide the same message differently, and
      one key hides different messages differently. */
  lemma BlindingIsInjective(msg: NonZeroScalar, msg': NonZeroScalar, b: NonZeroScalar, b': NonZeroScalar)
    requires OrderIsPrime()
    ensures b != b' ==> BlindMessage(msg, b).1 != BlindMessage(msg, b').1
    ensures msg != msg' ==> BlindMessage(msg, b).1 != BlindMessage(msg', b).1
  {
    assert Mul(b, msg) == Mul(msg, b) && Mul(b', msg) == Mul(msg, b');
    if Mul(msg, b) == Mul(msg, b') {
      MulCancel(msg, b, b');
    }
    if Mul(b, msg) == Mul(b, msg') {
      MulCancel(b, msg, msg');
    }
  }

  /** Blinding, signing with one secret and unblinding, as written, gives
      `secret * msg * b * b`, not the signature `secret * msg` on `msg`. */
  lemma BlindSignUnblind(msg: NonZeroScalar, b: NonZeroScalar, secret: NonZeroScalar)
    requires OrderIsPrime()
    ensures var (key, blinded) := BlindMessage(msg, b);
            var share := SignBlindedMsg(blinded, secret);
            && share.Returned?
            && var sig := UnblindSignature(key, BlindedSignature(share.value.s));
               sig.Returned? && sig.value.s == Mul(Mul(secret, msg), Mul(b, b))
  {
    var (key, blinded) := BlindMessage(msg, b);
    SignNeverPanics(blinded, secret);
    var share := SignBlindedMsg(blinded, secret);
    UnblindNeverPanics(key, BlindedSignature(share.value.s));
    MulCommutative(b, msg);
    MulAssociative(secret, msg, b);
    MulAssociative(Mul(secret, msg), b, b);
  }

  /** A concrete case: with message 1, blinding key 2 and secret 1 the
      unblinded result is 4, while the signature on the message is 1. */
  lemma UnblindKeepsBlindingFactor()
    ensures var share := SignBlindedMsg(BlindedMessage(2), 1);
            && share == Returned(BlindedSignatureShare(2))
            && UnblindSignature(BlindingKey(2), BlindedSignature(2)) == Returned(BlindedSignatureShare(4))
            && SignBlindedMsg(BlindedMessage(1), 1) == Returned(BlindedSignatureShare(1))
            && UnblindSignature(BlindingKey(2), BlindedSignature(2)).value.s
               != SignBlindedMsg(BlindedMessage(1), 1).value.s
  {
  }

  /** `unblind_signature` as evidently intended: multiply by the INVERSE
      of the blinding key. */
  function UnblindSignatureByInverse(blindingKey: BlindingKey, blindedSig: BlindedSignature)
    : (r: Fallible<Signature>)
    ensures r.Returned? <==> Mul(blindedSig.s, Inverse(blindingKey.s)) != 0
    ensures r.Returned? ==> r.value.s == Mul(blindedSig.s, Inverse(blindingKey.s))
  {
    match MarkNonZero(Mul(blindedSig.s, Inverse(blindingKey.s)))
    case None => Panicked(NonZeroSigPanic)
    case Some(sig) => Returned(Signature(sig))
  }

  /** Unblinding by the inverse turns a signature on `key * msg` into one
      on `msg`. */
  lemma UnblindRemovesKey(key: BlindingKey, sig: BlindedSignature, secret: NonZeroScalar, msg: NonZeroScalar)
    requires OrderIsPrime()
    requires sig.s == Mul(secret, Mul(key.s, msg))
    ensures var u := UnblindSignatureByInverse(key, sig);
            u.Returned? && u.value.s == Mul(secret, msg)
  {
    CancelByInverse(secret, key.s, msg);
    MulNonZero(secret, msg);
  }

  /** With the inverse, unblinding removes the blinding: the requester ends
      up with `secret * msg`, the signature on the unblinded message. */
  lemma BlindSignUnblindByInverse(msg: NonZeroScalar, b: NonZeroScalar, secret: NonZeroScalar)
    requires OrderIsPrime()
    ensures var (key, blinded) := BlindMessage(msg, b);
            var share := SignBlindedMsg(blinded, secret);
            && share.Returned?
            && var u := UnblindSignatureByInverse(key, BlindedSignature(share.value.s));
               u.Returned? && u.value.s == Mul(secret, msg)
  {
    var (key, blinded) := BlindMessage(msg, b);
    SignNeverPanics(blinded, secret);
    var share := SignBlindedMsg(blinded, secret);
    UnblindRemovesKey(key, BlindedSignature(share.value.s), secret, msg);
  }

  // ---------------------------------------------------------------------
  // combine_valid_shares

  /** `combine_valid_shares`: the `s` of the library's combined signature,
      after an `expect("nonzero sig")`.  The shares are not checked here:
      that is the caller's duty.  `threshold` is not used. */
  function CombineValidShares(frost: Frost, frostKey: FrostKey, session: SignSession,
                              sigShares: seq<Scalar>, threshold: nat)
    : (r: Fallible<BlindedSignature>)
    ensures r.Returned? <==> frost.combineSignatureShares(frostKey, session, sigShares).s != 0
    ensures r.Returned? ==> r.value.s == frost.combineSignatureShares(frostKey, session, sigShares).s
    ensures r.Panicked? ==> r.message == NonZeroSigPanic
  {
    match MarkNonZero(frost.combineSignatureShares(frostKey, session, sigShares).s)
    case None => Panicked(NonZeroSigPanic)
    case Some(sig) => Returned(BlindedSignature(sig))
  }

  /** The `threshold` argument plays no part: the result is the same
      whatever is passed, and too few shares never give the panic the
      function's documentation announces. */
  lemma CombineIgnoresThreshold(frost: Frost, frostKey: FrostKey, session: SignSession,
                                sigShares: seq<Scalar>, threshold: nat, threshold': nat)
    ensures CombineValidShares(frost, frostKey, session, sigShares, threshold)
            == CombineValidShares(frost, frostKey, session, sigShares, threshold')
    ensures CombineValidShares(frost, frostKey, session, sigShares, threshold) != Panicked(NotEnoughSharesPanic)
  {
  }

  const NotEnoughSharesPanic: string := "Not enough signature shares"

  /** `combine_valid_shares` as documented: fewer shares than `threshold`
      panic with "Not enough signature shares"; otherwise the shares are
      combined as before. */
  function CombineValidSharesChecked(frost: Frost, frostKey: FrostKey, session: SignSession,
                                     sigShares: seq<Scalar>, threshold: nat)
    : (r: Fallible<BlindedSignature>)
    ensures |sigShares| < threshold <==> r == Panicked(NotEnoughSharesPanic)
    ensures |sigShares| >= threshold ==> r == CombineValidShares(frost, frostKey, session, sigShares, threshold)
    ensures r.Returned? ==> |sigShares| >= threshold && r.value.s == frost.combineSignatureShares(frostKey, session, sigShares).s
  {
    if |sigShares| < threshold then Panicked(NotEnoughSharesPanic)
    else CombineValidShares(frost, frostKey, session, sigShares, threshold)
  }
}
