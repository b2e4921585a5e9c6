# Threshold blind signatures and the FROST wallet set-up of minimint

minimint is a federated Chaumian e-cash mint with a Bitcoin wallet. This
project models four pieces of it in Dafny:

- **The threshold blind-signature crate** (`tbs`). It has six wrapper types
  around secp256k1 scalars. `dealer_keygen` is a trusted dealer: it makes
  one random polynomial per party, routes every sender's shares to their
  receivers and finishes every party's FROST key. `blind_message`,
  `sign_blinded_msg` and `unblind_signature` form the blinding round.
  `combine_valid_shares` combines signature shares.
- **The consensus encoding of those wrapper types.** One macro gives four of
  them a 32-byte codec that is reduced modulo the group order N. The
  blinding key has its own codec, which accepts only canonical bytes.
- **The wallet's FROST glue.** This is the consensus codec of a signer's
  binonce (`FrostNonce`) and of a signature share (`FrostSigShare`), plus
  `trusted_frost_gen`.
- **The wallet configuration.** `trusted_dealer_gen` makes every peer's
  `WalletConfig` and the client's `WalletClientConfig`. The file also holds
  `to_client_config` and the default `FeeConsensus`.

Scalars are integers in `[0, N)`, where N is the order of secp256k1.
`NonZeroScalar` is `(0, N)`, and scalar products are taken modulo N. The
primality of N is a hypothesis, `ScalarField.OrderIsPrime`. Lemmas that
need it list it, because Dafny cannot prove a 256-bit number prime. The
no-zero-divisors property and the modular inverse are proved from that
hypothesis, by descent and by the extended Euclidean algorithm.

Some operations belong to the libraries the code calls (`schnorr_fun`,
`secp256kfun`, `miniscript`): polynomial commitments, `new_keygen`,
`create_shares`, `finish_keygen`, `combine_signature_shares`, the binonce
byte form and taproot descriptors. They are uninterpreted functions,
gathered in records (`FrostLib.Frost`, `FrostLib.BinonceCodec`,
`FrostLib.TaprootDescriptor`) and passed in as parameters. What the
libraries promise is stated as ghost predicates, and the lemmas that rely
on a promise require it:

- `FinishKeygenKeepsPartyCount`: a key finished from n shares has n
  verification shares.
- `BinonceRoundTrips`: the binonce byte form parses back.

Randomness is a parameter too. `dealer_keygen` takes a stream of `u32`
draws, `trusted_frost_gen` takes a function from party index to secret,
and `blind_message` takes the blinding key.

Runtime behaviour is modelled as follows:

- A Rust panic (`unwrap`, `expect`, an index out of bounds, a `usize`
  subtraction below zero in a debug build) is the value
  `Runtime.Fallible.Panicked(message)`. Where the source writes the text
  ("surely", "pls be nonzerp", "nonzero sig", "impossibly unlikely to be
  zero") or the compiler fixes it ("attempt to subtract with overflow"),
  `message` is that text. For `unwrap` and out-of-range indexing the
  standard library builds the text from run-time data, and `message` is
  only a label for the kind of panic (`Runtime.UnwrapPanic`,
  `Runtime.IndexPanic`).
- A returned `Result` is `Runtime.Result`.
- The generic `std::io::Read` of the decoders is `Io.Reader`, a cursor over
  a byte slice.
- The generic `std::io::Write` of the encoders is `Io.SliceWriter`, a
  writer into a fixed array. Its `Write` may write less than it is given.
  Its `WriteAll` fails with `WriteZero` when the array is full.

Most loops and iterator chains (`(0..n).map(..).collect()`,
`.map(..).unzip()`) of the source are Dafny methods with loops and
invariants, each proved equal to a specification function:

- `Tbs.DealerKeygen`, with `Tbs.DrawDealerPolys` and `Tbs.ReceiveShares`,
- `KeygenRouting.CreateAllShares`,
- `WalletFrost.MakeScalarPolys`,
- `WalletFrost.CollectColumn`,
- `WalletFrost.TrustedFrostGen`.

Some chains are modelled only as recursive or comprehension functions,
with no method beside them:

- `Tbs.FinishKeygens`, for the `finish_keygen` map and `unzip` at
  crypto/tbs/src/lib.rs:78-91;
- `WalletFrost.ReceiveAndFinish`, for the same chain at
  modules/minimint-wallet/src/frost.rs:101-119;
- `KeygenRouting.PointPolys`, for the `to_point_poly` maps at
  crypto/tbs/src/lib.rs:55 and modules/minimint-wallet/src/frost.rs:88;
- `WalletConfig.Zip`, `WalletConfig.CollectMap` and
  `WalletConfig.PeerConfigs`, for the `zip`/`map`/`collect` chains of
  modules/minimint-wallet/src/config.rs:72-111.

The properties are lemmas about those specification functions.

## Model

| member | source | states |
|---|---|---|
| Tbs.DealerCoefficients | crypto/tbs/src/lib.rs:46-52 | polynomial i has `threshold` coefficients; coefficient k is the `u32` draw number `i·threshold + k` |
| Tbs.DealerPolys | crypto/tbs/src/lib.rs:44-54 | one polynomial per party, polynomial i built from its own run of draws |
| Tbs.DealerPolysShape | crypto/tbs/src/lib.rs:44-54 | when no draw is zero, there are exactly n polynomials, each of exactly `threshold` coefficients, each coefficient in 1..2^32-1 |
| Tbs.DealerKeygenPanics | crypto/tbs/src/lib.rs:46-93 | a zero `u32` draw panics with "impossibly unlikely to be zero" before anything else (:49); with no parties the run panics, at :57's `unwrap` or at :93's `frost_keys[0]` |
| KeygenRouting.TransposeAt | crypto/tbs/src/lib.rs:67-75 | the received-shares matrix has n rows of n entries, and `received[p][s] == shares_vec[s][p]` |
| KeygenRouting.SharesOf | crypto/tbs/src/lib.rs:59-65 | one share row per polynomial, the i-th being what `create_shares` gives for polynomial i (the same loop is frost.rs:92-98) |
| KeygenRouting.PopsOf | crypto/tbs/src/lib.rs:59-65 | one proof of possession per polynomial, in polynomial order (the same loop is frost.rs:92-98) |
| KeygenRouting.PointPolys | crypto/tbs/src/lib.rs:55 | one commitment per polynomial, in order |
| Tbs.FinishKeygens | crypto/tbs/src/lib.rs:78-91 | the finishing map panics only with the `unwrap` message, and when it returns it has one secret share and one key per party |
| Tbs.FinishKeygensOutcome | crypto/tbs/src/lib.rs:78-91 | the finishing map returns exactly when `finish_keygen` succeeds for every party, then has one result per party in party order; otherwise it panics with the `unwrap` message |
| Tbs.DealerKeygenSpec | crypto/tbs/src/lib.rs:38-100 | `dealer_keygen`: a zero draw panics with "impossibly unlikely to be zero"; every panic is that one, an `unwrap` or an index out of bounds; a result has at least one party, exactly one secret share per party, and the verification shares of the key it returns |
| Tbs.DealerKeygenResult | crypto/tbs/src/lib.rs:38-100 | a successful run drew only non-zero values and had a key generation. It returns one secret share per party; party i's share is what `finish_keygen` made of column i of the share matrix. It also returns party 0's key and that key's verification shares |
| Tbs.DealerKeygenVerificationShareCount | crypto/tbs/src/lib.rs:93-97 | given the library's promise, the verification-share list returned has length n |
| Tbs.DrawDealerPolys | crypto/tbs/src/lib.rs:44-54 | the polynomial loop stops exactly when one of the `n·threshold` draws it needs is zero, and otherwise returns `DealerPolys` |
| KeygenRouting.CreateAllShares | crypto/tbs/src/lib.rs:59-65 | the share loop (also frost.rs:92-98) pushes every polynomial's shares and proof, in polynomial order: it returns `SharesOf` and `PopsOf` |
| Tbs.ReceiveShares | crypto/tbs/src/lib.rs:67-75 | the nested transpose loop fails exactly when some sender has fewer than n shares, and otherwise returns the transpose: receiver p gets column p |
| Tbs.DealerKeygen | crypto/tbs/src/lib.rs:38-100 | the imperative keygen (polynomial loop, share loop, transpose loop, finishing map) computes `DealerKeygenSpec`, with the panics in source order |
| Tbs.BlindMessage | crypto/tbs/src/lib.rs:102-108 | returns the key b itself and the blinded message `b·msg mod N`, which is non-zero |
| Tbs.BlindingIsInjective | crypto/tbs/src/lib.rs:105 | different keys blind one message differently; one key blinds different messages differently |
| Tbs.SignBlindedMsg | crypto/tbs/src/lib.rs:110-113 | returns `secret·msg mod N` exactly when it is non-zero, and panics with "nonzero sig" otherwise |
| Tbs.SignNeverPanics | crypto/tbs/src/lib.rs:110-113 | with N prime, signing never panics |
| Tbs.UnblindSignature | crypto/tbs/src/lib.rs:115-121 | as written: returns `sig·key mod N`, a product and not a division, exactly when it is non-zero |
| Tbs.UnblindNeverPanics | crypto/tbs/src/lib.rs:115-121 | with N prime, unblinding never panics |
| Tbs.BlindSignUnblind | crypto/tbs/src/lib.rs:102-121 | blinding, signing and unblinding as written give `secret·msg·b·b`, not `secret·msg` |
| Tbs.UnblindKeepsBlindingFactor | crypto/tbs/src/lib.rs:119 | concrete case: message 1 blinded with key 2 and signed with secret 1 unblinds to 4, which differs from 1, the signature on message 1 |
| Tbs.UnblindSignatureByInverse | crypto/tbs/src/lib.rs:115-121 | corrected unblinding: the blinded signature times the inverse of the key |
| Tbs.UnblindRemovesKey | crypto/tbs/src/lib.rs:119 | unblinding by the inverse turns `secret·(key·msg)` into `secret·msg` |
| Tbs.BlindSignUnblindByInverse | crypto/tbs/src/lib.rs:102-121 | blind, sign, then corrected unblind gives exactly `secret·msg`: the key cancels |
| Tbs.CombineValidShares | crypto/tbs/src/lib.rs:131-153 | returns the combined signature's `s` exactly when it is non-zero; otherwise it panics with "nonzero sig", so it never returns zero |
| Tbs.CombineIgnoresThreshold | crypto/tbs/src/lib.rs:127-153 | as written: the result does not depend on `threshold`, and too few shares never give the "Not enough signature shares" panic |
| Tbs.CombineValidSharesChecked | crypto/tbs/src/lib.rs:123-153 | as documented: fewer shares than `threshold` panic with "Not enough signature shares", exactly then; otherwise the result is that of `combine_valid_shares` |
| Bytes.ScalarToBytes | minimint-api/src/encoding/tbs.rs:13 | `Scalar::to_bytes`: 32 bytes whose big-endian value is the scalar |
| Bytes.ScalarFromBytes | minimint-api/src/encoding/tbs.rs:47 | `Scalar::from_bytes` succeeds exactly when the big-endian value is below N, and what it accepts is canonical |
| Bytes.FromBytesModOrder | minimint-api/src/encoding/tbs.rs:23 | a value below N is kept as it is; a value of N or more is reduced by N |
| Bytes.ScalarBytesRoundTrip | minimint-api/src/encoding/tbs.rs:13-23 | both decodings of `to_bytes(s)` give s back |
| Bytes.ScalarToBytesInjective | minimint-api/src/encoding/tbs.rs:12-16 | distinct scalars encode to distinct 32 bytes |
| TbsEncoding.EncodeScalar | minimint-api/src/encoding/tbs.rs:12-16 | `write_all` of the 32 bytes: returns `Ok(32)` with all 32 bytes appended, or `WriteZero` when there is no room |
| TbsEncoding.MacroDecode | minimint-api/src/encoding/tbs.rs:20-26 | short input is an I/O `UnexpectedEof` error; with 32 bytes it panics with "surely" exactly when the value is 0 mod N, and otherwise succeeds with `BE mod N` |
| TbsEncoding.DecodeScalar | minimint-api/src/encoding/tbs.rs:20-26 | the reader-based decoder computes `MacroDecode` of the remaining input and consumes 32 bytes |
| TbsEncoding.MacroRoundTrip | minimint-api/src/encoding/tbs.rs:9-33 | decoding the encoding of a non-zero scalar, plus any trailing bytes, gives it back |
| TbsEncoding.MacroAcceptsNonCanonical | minimint-api/src/encoding/tbs.rs:23 | different bytes, `s + N`, decode to the same s, so the macro decoding is not injective |
| TbsEncoding.MacroZeroPanics | minimint-api/src/encoding/tbs.rs:24 | the all-zero encoding panics with "surely" |
| TbsEncoding.MacroEncodeDecode | minimint-api/src/encoding/tbs.rs:66-70 | encoding into a fresh buffer and decoding from it returns the value |
| TbsEncoding.DecodeBlindingKeySpec | minimint-api/src/encoding/tbs.rs:43-59 | short input is EOF; "Error decoding blinding key" exactly when the value is at least N; panics with "pls be nonzerp" exactly when it is 0; a value in 1..N-1 always succeeds, with the canonical key |
| TbsEncoding.EncodeBlindingKey | minimint-api/src/encoding/tbs.rs:35-41 | the same 32 bytes and the same `write_all` result as the macro types |
| TbsEncoding.DecodeBlindingKey | minimint-api/src/encoding/tbs.rs:43-59 | the reader-based decoder computes `DecodeBlindingKeySpec` and consumes 32 bytes |
| TbsEncoding.BlindingKeyRoundTrip | minimint-api/src/encoding/tbs.rs:35-59 | decoding the encoding of a key gives it back |
| TbsEncoding.BlindingKeyDecodeIsCanonical | minimint-api/src/encoding/tbs.rs:47-57 | two inputs that decode to the same key agree on their 32 bytes |
| TbsEncoding.BlindingKeyRejectsNonCanonical | minimint-api/src/encoding/tbs.rs:47-57 | the non-canonical `s + N` that the macro decoder accepts is an error here |
| TbsEncoding.BlindingKeyEncodeDecode | minimint-api/src/encoding/tbs.rs:72-75 | the encode-then-decode round trip through real buffers returns the key |
| WalletFrost.DecodeNonceSpec | modules/minimint-wallet/src/frost.rs:34-43 | fewer than 66 bytes is EOF; otherwise it is `Ok` exactly when the 66 bytes parse as a binonce, and "Invalid 66 byte binonce" exactly when they do not |
| WalletFrost.EncodeNonce | modules/minimint-wallet/src/frost.rs:28-32 | as written: one `write` appends at most 66 bytes and returns `Ok(min(66, room))` |
| WalletFrost.EncodeNonceAll | modules/minimint-wallet/src/frost.rs:28-32 | corrected: `Ok(66)` with all 66 bytes appended, or `WriteZero` with the prefix that fit appended |
| WalletFrost.DecodeNonce | modules/minimint-wallet/src/frost.rs:34-43 | the reader-based decoder computes `DecodeNonceSpec` and consumes 66 bytes |
| WalletFrost.NonceRoundTrip | modules/minimint-wallet/src/frost.rs:28-43 | given the library's binonce round trip, decoding the encoding gives the nonce back |
| WalletFrost.NonceShortWriteReportsSuccess | modules/minimint-wallet/src/frost.rs:30 | into a 40-byte buffer the as-written encoder returns `Ok(40)`, and those 40 bytes do not decode |
| WalletFrost.NonceEncodeDecode | modules/minimint-wallet/src/frost.rs:28-43 | the corrected encoder, then the decoder on the bytes written, returns the nonce |
| WalletFrost.DecodeSigShareSpec | modules/minimint-wallet/src/frost.rs:54-63 | short input is EOF; "Invalid scalar" exactly when the value is at least N; `Ok`, zero included, exactly when it is below N, with the value canonical |
| WalletFrost.EncodeSigShare | modules/minimint-wallet/src/frost.rs:48-52 | as written: one `write` appends at most 32 bytes and returns `Ok(min(32, room))` |
| WalletFrost.EncodeSigShareAll | modules/minimint-wallet/src/frost.rs:48-52 | corrected: `Ok(32)` with all 32 bytes appended, or `WriteZero` with the prefix that fit appended |
| WalletFrost.DecodeSigShare | modules/minimint-wallet/src/frost.rs:54-63 | the reader-based decoder computes `DecodeSigShareSpec` and consumes 32 bytes |
| WalletFrost.SigShareRoundTrip | modules/minimint-wallet/src/frost.rs:48-63 | every share, zero included, decodes from its encoding |
| WalletFrost.SigShareDecodeInjective | modules/minimint-wallet/src/frost.rs:59-60 | two inputs that decode to the same share agree on their 32 bytes |
| WalletFrost.SigShareShortWriteReportsSuccess | modules/minimint-wallet/src/frost.rs:50 | into a 16-byte buffer the as-written encoder returns `Ok(16)` for half a share, which does not decode |
| WalletFrost.SigShareEncodeDecode | modules/minimint-wallet/src/frost.rs:48-63 | the corrected encoder, then the decoder, returns the share |
| WalletFrost.FrostPolys | modules/minimint-wallet/src/frost.rs:79-87 | n polynomials; the i-th is `new_scalar_poly(secret_i, threshold, "frost-minimint")` |
| WalletFrost.MakeScalarPolys | modules/minimint-wallet/src/frost.rs:79-87 | the polynomial loop computes `FrostPolys` |
| WalletFrost.CollectColumn | modules/minimint-wallet/src/frost.rs:103-107 | receiver i collects column i of the share matrix in sender order, and fails exactly when a sender has no i-th share |
| WalletFrost.ReceiveAndFinish | modules/minimint-wallet/src/frost.rs:101-119 | the receive-and-finish chain panics only with an index or `unwrap` message, and when it returns it has one secret share and one key per receiver |
| WalletFrost.ReceiveAndFinishOutcome | modules/minimint-wallet/src/frost.rs:101-119 | the run returns exactly when every receiver's column exists and its `finish_keygen` succeeds; the results are in receiver order; panics are index or `unwrap` panics |
| WalletFrost.FinishFromKeyGen | modules/minimint-wallet/src/frost.rs:92-121 | after the key generation: panics are `unwrap` or index panics; a result has n > 0 and exactly n secret shares |
| WalletFrost.FinishFromKeyGenResult | modules/minimint-wallet/src/frost.rs:92-121 | once the key generation exists, success means n > 0 and n secret shares, share i finished from column i, plus party 0's key |
| WalletFrost.TrustedFrostGenSpec | modules/minimint-wallet/src/frost.rs:69-121 | `trusted_frost_gen`: with no parties it panics; every panic is an `unwrap` or an index panic; a result has exactly n secret shares |
| WalletFrost.TrustedFrostGenResult | modules/minimint-wallet/src/frost.rs:69-122 | a successful run had a key generation and returns n secret shares in party order, each finished from its own column, plus `frost_keys[0]` |
| WalletFrost.TrustedFrostGenPanics | modules/minimint-wallet/src/frost.rs:90-121 | with no parties the run panics; every panic is an `unwrap` or an index panic |
| WalletFrost.TrustedFrostGenVerificationShareCount | modules/minimint-wallet/src/frost.rs:109-121 | given the library's promise, the key has n verification shares |
| WalletFrost.TrustedFrostGen | modules/minimint-wallet/src/frost.rs:69-122 | the imperative generator computes `TrustedFrostGenSpec` |
| WalletConfig.DefaultFeeConsensus | modules/minimint-wallet/src/config.rs:49-56 | zero peg-in and zero peg-out fee |
| WalletConfig.ToClientConfig | modules/minimint-wallet/src/config.rs:114-121 | copies exactly descriptor, network, finality delay and fee consensus |
| WalletConfig.Zip | modules/minimint-wallet/src/config.rs:72-77 | the zip is as long as the shorter list and pairs equal positions |
| WalletConfig.CollectMap | modules/minimint-wallet/src/config.rs:72-102 | collecting into a map keeps exactly the keys that occur |
| WalletConfig.CollectMapLastWins | modules/minimint-wallet/src/config.rs:82-102 | a pair whose key no later pair repeats keeps its value |
| WalletConfig.ZipDistinctKeys | modules/minimint-wallet/src/config.rs:72-77 | for distinct peers the map's keys are the peers that have a value; the map is cut to the shorter list, and peer i maps to value i |
| WalletConfig.PeerConfig | modules/minimint-wallet/src/config.rs:87-99 | a peer's configuration holds that peer's secret share as `peg_in_key`, and `to_client_config` of it is the client configuration, whatever the share |
| WalletConfig.PeerConfigs | modules/minimint-wallet/src/config.rs:82-102 | one configuration per secret share, the i-th built from share i |
| WalletConfig.PeerConfigMap | modules/minimint-wallet/src/config.rs:82-102 | distinct peers each get exactly one configuration, built from their own secret share |
| WalletConfig.ConfigsFromKey | modules/minimint-wallet/src/config.rs:72-111 | returns exactly when the taproot descriptor exists and otherwise panics with the `unwrap` message; the client configuration holds that descriptor, Regtest, delay 10 and zero fees; only peers get configurations |
| WalletConfig.TrustedDealerGen | modules/minimint-wallet/src/config.rs:62-112 | `trusted_dealer_gen`: the "attempt to subtract with overflow" panic occurs exactly when `max_evil > peers.len()`; every panic is that one, an `unwrap` or an index panic; a result had `max_evil <= peers.len()` and gives configurations only to peers |
| WalletConfig.TrustedDealerGenUnderflow | modules/minimint-wallet/src/config.rs:68 | `max_evil > peers.len()` panics with "attempt to subtract with overflow" |
| WalletConfig.TrustedDealerGenStages | modules/minimint-wallet/src/config.rs:68-71 | for fewer than 2^32 peers the casts change nothing; success means the key generation for threshold `peers - max_evil` returned one share per peer, and then the configs built from it |
| WalletConfig.ConfigsFromKeyResult | modules/minimint-wallet/src/config.rs:79-111 | succeeds exactly when the taproot descriptor exists (else an `unwrap` panic). Exactly the peers get configs, and peer i's `peg_in_key` is share i. All configs share descriptor, key, verification map, Regtest, delay 10, fee rate 1000, the RPC strings and zero fees. `to_client_config` of every peer config equals the client config |
| WalletConfig.ConfigsFromKeyVerificationShares | modules/minimint-wallet/src/config.rs:72-77 | with one verification share per peer, exactly the peers have entries, and peer i's entry is share i |
| WalletConfig.TrustedDealerGenVerificationShares | modules/minimint-wallet/src/config.rs:62-112 | over a whole successful run, every config carries that map of peer i to the key's verification share i |
| WalletConfig.TrustedDealerGenPeers | modules/minimint-wallet/src/config.rs:62-112 | over a whole successful run, exactly the peers get configs and peer i's `peg_in_key` is the i-th FROST secret share |

## Left out

- Randomness (`OsRng`, `thread_rng`, `Scalar::random`) is a parameter: a
  stream of draws or a function from index to secret. Nothing about its
  distribution is modelled.
- The internals of schnorr_fun, secp256kfun and miniscript are not
  modelled. Polynomial evaluation, commitments, proofs of possession,
  `finish_keygen`, share combination, the binonce byte form and taproot
  construction are uninterpreted functions. Their promises are stated as
  the hypotheses `FinishKeygenKeepsPartyCount` and `BinonceRoundTrips`.
- The primality of N is the hypothesis `OrderIsPrime`, not a proof.
  `Tbs.BlindMessage` requires it only so that its result fits the
  library's non-zero type; the source makes no demand of its callers.
- `Frost::new(..)`, `new_frost()` and `Frost::default()` are not modelled:
  the instance is the `Frost` parameter.
- `XOnlyFrostKey` and `to_xonly()` are modelled as `FrostKey` and its joint
  public key. The even-Y normalisation belongs to the library.
- The generic `std::io::Read`/`Write` are modelled by one slice reader and
  one slice writer. Other readers and writers, and their other I/O errors,
  are not modelled.
- `BTreeMap` key order is not modelled, because the map is a Dafny `map`.
  How two equal `PeerId`s collapse is described by
  `WalletConfig.CollectMapLastWins`.
- WalletConfig.TrustedDealerGen: models a debug build, where a negative
  threshold panics. The release build's `usize` wrap-around is not
  modelled. The `as u32` casts truncate (`Runtime.AsU32`). The lemmas
  about success state nothing for 2^32 or more peers.
- Runtime.UnwrapPanic, Runtime.IndexPanic: the exact standard-library
  panic texts are not modelled. `unwrap` embeds the `Debug` form of the
  error and indexing names the length and the index; the model keeps only
  which kind of panic occurred.
- WalletConfig.TrustedDealerGenPeers: requires distinct peers, at most as
  many evil peers as peers, and fewer than 2^32 peers, as the lemma below.
- WalletConfig.TrustedDealerGenVerificationShares: requires distinct peers,
  at most as many evil peers as peers, and fewer than 2^32 peers. Outside
  these bounds only the underflow lemma speaks.
- Tbs.CombineValidShares: the generic iterator parameter `I` is unused in
  the code and absent from the model. The unchecked share count is listed
  under Findings.
- The `#[cfg(test)]` modules are not modelled. The codec tests construct a
  blinded message from a point (`MessagePoint`), which does not match the
  scalar-based crate. Their intent is covered by the round-trip members.
- The `serde` implementations and the `Serialize`/`Deserialize` derives
  are not modelled.
- `MessageScalar` is declared, but no operation of the core uses it.
- `Amount` and `Feerate` are plain numbers; their arithmetic is not part
  of this model.
- The wallet's consensus, peg-in/peg-out logic and the rest of the
  federation (networking, database, mint) are not modelled.
- `unblind_signature` is named for removing the blinding factor that
  `blind_message` multiplies in at lib.rs:105, but lib.rs:119 multiplies
  by the key a second time. The model follows the code, as
  `Tbs.UnblindSignature`; the evidently intended behaviour is
  `Tbs.UnblindSignatureByInverse` (see Findings).

## Findings

| source | as written | input that shows it | evidently intended | confidence | as-written member | corrected member |
|---|---|---|---|---|---|---|
| crypto/tbs/src/lib.rs:119 | `unblind_signature` multiplies the blinded signature by the blinding key | message 1, blinding key 2, secret 1: the result is 4, while the signature on the message is 1 | multiply by the inverse of the blinding key, so that unblinding gives `secret·msg` | high, not executed | Tbs.UnblindKeepsBlindingFactor | Tbs.BlindSignUnblindByInverse |
| modules/minimint-wallet/src/frost.rs:30 | `FrostNonce` encodes with one `write` and returns its count | a writer with room for 40 bytes: `Ok(40)` is reported, and the 40 bytes do not decode | `write_all`, as the other codecs in the code base use, so that success means all 66 bytes were written | medium, not executed | WalletFrost.NonceShortWriteReportsSuccess | WalletFrost.NonceEncodeDecode |
| modules/minimint-wallet/src/frost.rs:50 | `FrostSigShare` encodes with one `write` | a writer with room for 16 bytes: `Ok(16)` is reported for half a share | `write_all`, so that success means all 32 bytes were written | medium, not executed | WalletFrost.SigShareShortWriteReportsSuccess | WalletFrost.SigShareEncodeDecode |
| crypto/tbs/src/lib.rs:131-153 | `combine_valid_shares` never looks at `threshold`, though its documentation (lib.rs:129-130) and the disabled test at lib.rs:238-255 expect a "Not enough signature shares" panic | threshold 5 with 4 shares: the shares are combined, and the result is never that panic | panic with "Not enough signature shares" when fewer than `threshold` shares are given | high, not executed | Tbs.CombineIgnoresThreshold | Tbs.CombineValidSharesChecked |
