/**
 * The wallet module's configuration: the per-peer `WalletConfig`, the
 * `WalletClientConfig` handed to clients, and `trusted_dealer_gen`, which
 * runs the FROST dealer and hands every peer its share of the peg-in key.
 */
module WalletConfig {
  import opened Runtime
  import opened ScalarField
  import opened FrostLib
  import opened WalletFrost

  type u16 = x: int | 0 <= x < 0x1_0000

  /** `minimint_api::PeerId`, a `u16`. */
  datatype PeerId = PeerId(id: u16)

  /** `bitcoin::Network`. */
  datatype Network = Bitcoin | Testnet | Signet | Regtest

  /** `minimint_api::Amount`, in milli-satoshi. */
  datatype Amount = Amount(milliSat: nat)

  datatype Feerate = Feerate(satsPerKvb: nat)

  datatype FeeConsensus = FeeConsensus(pegInAbs: Amount, pegOutAbs: Amount)

  datatype WalletConfig = WalletConfig(
    network: Network,
    pegInDescriptor: Descriptor,
    peerVerificationShares: map<PeerId, Point>,
    pegInKey: NonZeroScalar,
    frostKey: FrostKey,
    finalityDelay: u32,
    defaultFee: Feerate,
    btcRpcAddress: string,
    btcRpcUser: string,
    btcRpcPass: string,
    feeConsensus: FeeConsensus)

  datatype WalletClientConfig = WalletClientConfig(
    pegInDescriptor: Descriptor,
    network: Network,
    finalityDelay: u32,
    feeConsensus: FeeConsensus)

  /** Confirmations a peg-in needs before the federation accepts it. */
  const FinalityDelay: u32 := 10
  const DefaultFeerate: Feerate := Feerate(1000)
  const BtcRpcAddress: string := "127.0.0.1:18443"
  const BtcRpcUser: string := "bitcoin"
  const BtcRpcPass: string := "bitcoin"

  /** `FeeConsensus::default`: no fee on peg-ins or peg-outs. */
  function DefaultFeeConsensus(): (f: FeeConsensus)
    ensures f.pegInAbs.milliSat == 0 && f.pegOutAbs.milliSat == 0
  {
    FeeConsensus(Amount(0), Amount(0))
  }

  /** `to_client_config`: the part of a peer's configuration a client needs. */
  function ToClientConfig(cfg: WalletConfig): (c: WalletClientConfig)
    ensures c.pegInDescriptor == cfg.pegInDescriptor && c.network == cfg.network
    ensures c.finalityDelay == cfg.finalityDelay && c.feeConsensus == cfg.feeConsensus
  {
    WalletClientConfig(cfg.pegInDescriptor, cfg.network, cfg.finalityDelay, cfg.feeConsensus)
  }

  // ---------------------------------------------------------------------
  // Iterator `zip` and collecting into a `BTreeMap`

  /** `a.iter().zip(b)`: pairs up to the shorter of the two. */
  function Zip<A, B>(a: seq<A>, b: seq<B>): (r: seq<(A, B)>)
    ensures |r| == Min(|a|, |b|)
    ensures forall i :: 0 <= i < |r| ==> r[i] == (a[i], b[i])
  {
    seq(Min(|a|, |b|), i requires 0 <= i < Min(|a|, |b|) => (a[i], b[i]))
  }

  /** `collect::<BTreeMap<_, _>>()`: inserts the pairs in order, so that a
      later pair replaces an earlier one with the same key. */
  function CollectMap<K(!new), V>(pairs: seq<(K, V)>): (m: map<K, V>)
    ensures forall k :: k in m <==> exists i :: 0 <= i < |pairs| && pairs[i].0 == k
    decreases |pairs|
  {
    if pairs == [] then map[]
    else
      var init := pairs[..|pairs| - 1];
      assert forall i :: 0 <= i < |init| ==> init[i] == pairs[i];
      CollectMap(init)[pairs[|pairs| - 1].0 := pairs[|pairs| - 1].1]
  }

  /** A pair whose key no later pair repeats keeps its value. */
  lemma {:induction false} CollectMapLastWins<K(!new), V>(pairs: seq<(K, V)>, i: nat)
    requires i < |pairs|
    requires forall j :: i < j < |pairs| ==> pairs[j].0 != pairs[i].0
    ensures pairs[i].0 in CollectMap(pairs) && CollectMap(pairs)[pairs[i].0] == pairs[i].1
    decreases |pairs|
  {
    var init := pairs[..|pairs| - 1];
    if i < |pairs| - 1 {
      assert init[i] == pairs[i];
      CollectMapLastWins(init, i);
    }
  }

  /** Zipping distinct keys with values and collecting maps the i-th key
      to the i-th value, for the keys that have a value; the keys beyond
      the shorter list are dropped. */
  lemma ZipDistinctKeys<K(!new), V>(keys: seq<K>, values: seq<V>)
    requires forall i, j :: 0 <= i < j < |keys| ==> keys[i] != keys[j]
    ensures forall k :: k in CollectMap(Zip(keys, values)) <==> k in keys[..Min(|keys|, |values|)]
    ensures forall i :: 0 <= i < Min(|keys|, |values|) ==> CollectMap(Zip(keys, values))[keys[i]] == values[i]
  {
    var pairs := Zip(keys, values);
    var kept := keys[..Min(|keys|, |values|)];
    forall k | k in kept
      ensures k in CollectMap(pairs)
    {
      var i :| 0 <= i < |kept| && kept[i] == k;
      assert pairs[i].0 == k;
    }
    forall k | k in CollectMap(pairs)
      ensures k in kept
    {
      var i :| 0 <= i < |pairs| && pairs[i].0 == k;
      assert kept[i] == k;
    }
    forall i | 0 <= i < |pairs|
      ensures CollectMap(pairs)[keys[i]] == values[i]
    {
      CollectMapLastWins(pairs, i);
    }
  }

  // ---------------------------------------------------------------------
  // trusted_dealer_gen

  /** The configuration for the peer holding `secretShare`. */
  function PeerConfig(descriptor: Descriptor, verificationShares: map<PeerId, Point>,
                      frostKey: FrostKey, secretShare: NonZeroScalar): (c: WalletConfig)
    ensures c.pegInKey == secretShare
    ensures ToClientConfig(c) == WalletClientConfig(descriptor, Regtest, FinalityDelay, DefaultFeeConsensus())
  {
    WalletConfig(Regtest, descriptor, verificationShares, secretShare, frostKey, FinalityDelay,
                 DefaultFeerate, BtcRpcAddress, BtcRpcUser, BtcRpcPass, DefaultFeeConsensus())
  }

  function PeerConfigs(descriptor: Descriptor, verificationShares: map<PeerId, Point>,
                       frostKey: FrostKey, secretShares: seq<NonZeroScalar>): (r: seq<WalletConfig>)
    ensures |r| == |secretShares|
    ensures forall i :: 0 <= i < |r| ==>
              r[i] == PeerConfig(descriptor, verificationShares, frostKey, secretShares[i])
  {
    seq(|secretShares|, i requires 0 <= i < |secretShares| =>
      PeerConfig(descriptor, verificationShares, frostKey, secretShares[i]))
  }

  /** The per-peer map built from distinct peers and one share each. */
  lemma PeerConfigMap(peers: seq<PeerId>, descriptor: Descriptor, verificationShares: map<PeerId, Point>,
                      frostKey: FrostKey, secretShares: seq<NonZeroScalar>)
    requires |peers| == |secretShares|
    requires forall i, j :: 0 <= i < j < |peers| ==> peers[i] != peers[j]
    ensures var cfgs := CollectMap(Zip(peers, PeerConfigs(descriptor, verificationShares, frostKey, secretShares)));
      && (forall p :: p in cfgs <==> p in peers)
      && (forall i :: 0 <= i < |peers| ==>
            cfgs[peers[i]] == PeerConfig(descriptor, verificationShares, frostKey, secretShares[i]))
  {
    ZipDistinctKeys(peers, PeerConfigs(descriptor, verificationShares, frostKey, secretShares));
    assert peers[..|peers|] == peers;
  }

  /** What `trusted_dealer_gen` builds from the dealer's secret shares and
      key: the verification shares zipped with the peers, the unwrapped
      taproot descriptor of the joint key, one configuration per peer
      zipped with the secret shares, and the client configuration. */
  function ConfigsFromKey(taproot: TaprootDescriptor, peers: seq<PeerId>,
                          secretShares: seq<NonZeroScalar>, frostKey: FrostKey)
    : (r: Fallible<(map<PeerId, WalletConfig>, WalletClientConfig)>)
    ensures r.Returned? <==> taproot(frostKey.jointPublicKey).Some?
    ensures r.Panicked? ==> r.message == UnwrapPanic
    ensures r.Returned? ==>
              && r.value.1.pegInDescriptor == taproot(frostKey.jointPublicKey).value
              && r.value.1.network == Regtest && r.value.1.finalityDelay == 10
              && r.value.1.feeConsensus == FeeConsensus(Amount(0), Amount(0))
    ensures r.Returned? ==> forall p :: p in r.value.0 ==> p in peers
  {
    var verificationShares := CollectMap(Zip(peers, frostKey.verificationShares));
    match taproot(frostKey.jointPublicKey)
    case None => Panicked(UnwrapPanic)
    case Some(descriptor) =>
      var cfgs := CollectMap(Zip(peers, PeerConfigs(descriptor, verificationShares, frostKey, secretShares)));
      Returned((cfgs, WalletClientConfig(descriptor, Regtest, FinalityDelay, DefaultFeeConsensus())))
  }

  /** `trusted_dealer_gen`, in a debug build: `peers.len() - max_evil`
      panics when it would go below zero; both counts are cast `as u32`
      for `trusted_frost_gen`. */
  function TrustedDealerGen(frost: Frost, taproot: TaprootDescriptor, partySecrets: nat -> NonZeroScalar,
                            peers: seq<PeerId>, maxEvil: nat)
    : (r: Fallible<(map<PeerId, WalletConfig>, WalletClientConfig)>)
    ensures maxEvil > |peers| <==> r == Panicked(SubtractPanic)
    ensures r.Panicked? ==>
              r.message == SubtractPanic || r.message == UnwrapPanic || r.message == IndexPanic
    ensures r.Returned? ==> maxEvil <= |peers| && forall p :: p in r.value.0 ==> p in peers
  {
    if maxEvil > |peers| then Panicked(SubtractPanic)
    else
      var threshold := |peers| - maxEvil;
      match TrustedFrostGenSpec(frost, partySecrets, AsU32(threshold), AsU32(|peers|))
      case Panicked(m) => Panicked(m)
      case Returned((secretShares, frostKey)) => ConfigsFromKey(taproot, peers, secretShares, frostKey)
  }

  /** More evil peers than peers: the subtraction panics. */
  lemma TrustedDealerGenUnderflow(frost: Frost, taproot: TaprootDescriptor, partySecrets: nat -> NonZeroScalar,
                                  peers: seq<PeerId>, maxEvil: nat)
    requires maxEvil > |peers|
    ensures TrustedDealerGen(frost, taproot, partySecrets, peers, maxEvil) == Panicked(SubtractPanic)
  {
  }

  /** For fewer than 2^32 peers the casts change nothing: a successful run
      is `trusted_frost_gen` for threshold `|peers| - maxEvil` and
      `|peers|` parties, which made one secret share per peer, followed by
      the configurations built from its result. */
  lemma TrustedDealerGenStages(frost: Frost, taproot: TaprootDescriptor, partySecrets: nat -> NonZeroScalar,
                               peers: seq<PeerId>, maxEvil: nat)
    requires |peers| < U32Modulus
    ensures TrustedDealerGen(frost, taproot, partySecrets, peers, maxEvil).Returned? ==> maxEvil <= |peers|
    ensures maxEvil <= |peers| ==>
      var gen := TrustedFrostGenSpec(frost, partySecrets, |peers| - maxEvil, |peers|);
      var r := TrustedDealerGen(frost, taproot, partySecrets, peers, maxEvil);
      r.Returned? ==>
        && gen.Returned? && |gen.value.0| == |peers|
        && r == ConfigsFromKey(taproot, peers, gen.value.0, gen.value.1)
  {
    if maxEvil <= |peers| {
      assert AsU32(|peers| - maxEvil) == |peers| - maxEvil && AsU32(|peers|) == |peers|;
      TrustedFrostGenResult(frost, partySecrets, |peers| - maxEvil, |peers|);
    }
  }

  /** For distinct peers each holding one secret share, the build succeeds
      exactly when the taproot descriptor exists, and then gives every
      peer, and no one else, a configuration: peer i's peg-in key is the
      i-th secret share; all peers share the descriptor, the key, the
      verification-share map and the fixed settings; and the client
      configuration is what `to_client_config` makes of any of them. */
  lemma ConfigsFromKeyResult(taproot: TaprootDescriptor, peers: seq<PeerId>,
                             secretShares: seq<NonZeroScalar>, frostKey: FrostKey)
    requires |secretShares| == |peers|
    requires forall i, j :: 0 <= i < j < |peers| ==> peers[i] != peers[j]
    ensures var r := ConfigsFromKey(taproot, peers, secretShares, frostKey);
      && (r.Returned? <==> taproot(frostKey.jointPublicKey).Some?)
      && (r.Panicked? ==> r.message == UnwrapPanic)
      && (r.Returned? ==>
            var cfgs := r.value.0;
            && (forall p :: p in cfgs <==> p in peers)
            && (forall i :: 0 <= i < |peers| ==> cfgs[peers[i]].pegInKey == secretShares[i])
            && (forall p :: p in cfgs ==>
                  && cfgs[p].network == Regtest
                  && cfgs[p].pegInDescriptor == taproot(frostKey.jointPublicKey).value
                  && cfgs[p].frostKey == frostKey
                  && cfgs[p].peerVerificationShares == CollectMap(Zip(peers, frostKey.verificationShares))
                  && cfgs[p].finalityDelay == 10
                  && cfgs[p].defaultFee == Feerate(1000)
                  && cfgs[p].btcRpcAddress == "127.0.0.1:18443"
                  && cfgs[p].btcRpcUser == "bitcoin" && cfgs[p].btcRpcPass == "bitcoin"
                  && cfgs[p].feeConsensus == FeeConsensus(Amount(0), Amount(0))
                  && ToClientConfig(cfgs[p]) == r.value.1))
  {
    var r := ConfigsFromKey(taproot, peers, secretShares, frostKey);
    if r.Returned? {
      var descriptor := taproot(frostKey.jointPublicKey).value;
      var verificationShares := CollectMap(Zip(peers, frostKey.verificationShares));
      PeerConfigMap(peers, descriptor, verificationShares, frostKey, secretShares);
      var cfgs := r.value.0;
      forall p | p in cfgs
        ensures cfgs[p] == PeerConfig(descriptor, verificationShares, frostKey, cfgs[p].pegInKey)
      {
        var i :| 0 <= i < |peers| && peers[i] == p;
      }
    }
  }

  /** Every peer's verification share is recorded under its id, when the
      key has one verification share per peer (as schnorr_fun promises of
      `finish_keygen`): in the map every configuration carries, peer i's
      entry is the key's i-th verification share, and only peers have
      entries. */
  lemma ConfigsFromKeyVerificationShares(taproot: TaprootDescriptor, peers: seq<PeerId>,
                                         secretShares: seq<NonZeroScalar>, frostKey: FrostKey)
    requires |secretShares| == |peers| && |frostKey.verificationShares| == |peers|
    requires forall i, j :: 0 <= i < j < |peers| ==> peers[i] != peers[j]
    ensures var shares := CollectMap(Zip(peers, frostKey.verificationShares));
      && (forall q :: q in shares <==> q in peers)
      && (forall i :: 0 <= i < |peers| ==> shares[peers[i]] == frostKey.verificationShares[i])
    ensures var r := ConfigsFromKey(taproot, peers, secretShares, frostKey);
      r.Returned? ==> forall p :: p in r.value.0 ==>
        r.value.0[p].peerVerificationShares == CollectMap(Zip(peers, frostKey.verificationShares))
  {
    ZipDistinctKeys(peers, frostKey.verificationShares);
    assert peers[..|peers|] == peers;
    ConfigsFromKeyResult(taproot, peers, secretShares, frostKey);
  }

  /** The same for a whole run of `trusted_dealer_gen`. */
  lemma TrustedDealerGenVerificationShares(frost: Frost, taproot: TaprootDescriptor,
                                           partySecrets: nat -> NonZeroScalar, peers: seq<PeerId>, maxEvil: nat)
    requires FinishKeygenKeepsPartyCount(frost)
    requires |peers| < U32Modulus && maxEvil <= |peers|
    requires forall i, j :: 0 <= i < j < |peers| ==> peers[i] != peers[j]
    ensures var r := TrustedDealerGen(frost, taproot, partySecrets, peers, maxEvil);
      var gen := TrustedFrostGenSpec(frost, partySecrets, |peers| - maxEvil, |peers|);
      r.Returned? ==>
        && gen.Returned?
        && var shares := CollectMap(Zip(peers, gen.value.1.verificationShares));
           && (forall q :: q in shares <==> q in peers)
           && (forall i :: 0 <= i < |peers| ==> shares[peers[i]] == gen.value.1.verificationShares[i])
           && (forall p :: p in r.value.0 ==> r.value.0[p].peerVerificationShares == shares)
  {
    var r := TrustedDealerGen(frost, taproot, partySecrets, peers, maxEvil);
    if r.Returned? {
      var gen := TrustedFrostGenSpec(frost, partySecrets, |peers| - maxEvil, |peers|);
      TrustedDealerGenStages(frost, taproot, partySecrets, peers, maxEvil);
      assert gen.Returned? && |gen.value.0| == |peers|;
      var secretShares := gen.value.0;
      var frostKey := gen.value.1;
      assert r == ConfigsFromKey(taproot, peers, secretShares, frostKey);
      TrustedFrostGenVerificationShareCount(frost, partySecrets, |peers| - maxEvil, |peers|);
      assert |frostKey.verificationShares| == |peers|;
      ConfigsFromKeyVerificationShares(taproot, peers, secretShares, frostKey);
    }
  }

  /** A whole `trusted_dealer_gen` run that returns hands out one config per
      peer and nothing else, and peer `peers[i]` gets the i-th FROST secret
      share as its peg-in key. */
  lemma TrustedDealerGenPeers(frost: Frost, taproot: TaprootDescriptor,
                              partySecrets: nat -> NonZeroScalar, peers: seq<PeerId>, maxEvil: nat)
    requires |peers| < U32Modulus && maxEvil <= |peers|
    requires forall i, j :: 0 <= i < j < |peers| ==> peers[i] != peers[j]
    ensures var r := TrustedDealerGen(frost, taproot, partySecrets, peers, maxEvil);
      var gen := TrustedFrostGenSpec(frost, partySecrets, |peers| - maxEvil, |peers|);
      r.Returned? ==>
        && gen.Returned? && |gen.value.0| == |peers|
        && (forall p :: p in r.value.0 <==> p in peers)
        && (forall i :: 0 <= i < |peers| ==> r.value.0[peers[i]].pegInKey == gen.value.0[i])
  {
    var r := TrustedDealerGen(frost, taproot, partySecrets, peers, maxEvil);
    if r.Returned? {
      var gen := TrustedFrostGenSpec(frost, partySecrets, |peers| - maxEvil, |peers|);
      TrustedDealerGenStages(frost, taproot, partySecrets, peers, maxEvil);
      assert gen.Returned? && |gen.value.0| == |peers|;
      var secretShares := gen.value.0;
      var frostKey := gen.value.1;
      assert r == ConfigsFromKey(taproot, peers, secretShares, frostKey);
      ConfigsFromKeyResult(taproot, peers, secretShares, frostKey);
    }
  }
}
