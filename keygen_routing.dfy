/**
 * Share routing shared by both trusted-dealer key generators: every party
 * makes a polynomial, the library turns each polynomial into one share per
 * receiver, and receiver p is handed the p-th share of every sender, in
 * sender order (the transpose of the sender-by-receiver share matrix).
 */
module KeygenRouting {
  import opened ScalarField
  import opened FrostLib

  /** Every one of the `n` senders produced a share for each of `n` receivers. */
  predicate RowsCover<T>(m: seq<seq<T>>, n: nat)
  {
    forall s :: 0 <= s < |m| ==> n <= |m[s]|
  }

  /** What receiver p gets: the p-th entry of every sender's row. */
  function Column<T>(m: seq<seq<T>>, p: nat): seq<T>
    requires forall s :: 0 <= s < |m| ==> p < |m[s]|
  {
    seq(|m|, s requires 0 <= s < |m| => m[s][p])
  }

  function Transpose<T>(m: seq<seq<T>>, n: nat): seq<seq<T>>
    requires RowsCover(m, n)
  {
    seq(n, p requires 0 <= p < n => Column(m, p))
  }

  lemma TransposeAt<T>(m: seq<seq<T>>, n: nat, p: nat, s: nat)
    requires |m| == n && RowsCover(m, n)
    requires p < n && s < n
    ensures |Transpose(m, n)| == n && |Transpose(m, n)[p]| == n
    ensures Transpose(m, n)[p][s] == m[s][p]
  {
  }

  /** `scalar_polys.iter().map(|sp| sp.to_point_poly()).collect()` */
  function PointPolys(frost: Frost, polys: seq<ScalarPoly>): (r: seq<PointPoly>)
    ensures |r| == |polys|
    ensures forall i :: 0 <= i < |polys| ==> r[i] == frost.toPointPoly(polys[i])
  {
    seq(|polys|, i requires 0 <= i < |polys| => frost.toPointPoly(polys[i]))
  }

  /** The share rows pushed into `shares_vec`, one `create_shares` per polynomial. */
  function SharesOf(frost: Frost, keyGen: KeyGen, polys: seq<ScalarPoly>): (r: seq<seq<Scalar>>)
    ensures |r| == |polys|
    ensures forall i :: 0 <= i < |polys| ==> r[i] == frost.createShares(keyGen, polys[i]).0
  {
    seq(|polys|, i requires 0 <= i < |polys| => frost.createShares(keyGen, polys[i]).0)
  }

  /** The proofs pushed into `proofs_of_possession`, in the same order. */
  function PopsOf(frost: Frost, keyGen: KeyGen, polys: seq<ScalarPoly>): (r: seq<ProofOfPossession>)
    ensures |r| == |polys|
    ensures forall i :: 0 <= i < |polys| ==> r[i] == frost.createShares(keyGen, polys[i]).1
  {
    seq(|polys|, i requires 0 <= i < |polys| => frost.createShares(keyGen, polys[i]).1)
  }

  /** The `create_shares` loop of both key generators: each polynomial's
      shares and proof of possession, pushed in polynomial order. */
  method CreateAllShares(frost: Frost, keyGen: KeyGen, scalarPolys: seq<ScalarPoly>)
    returns (sharesVec: seq<seq<Scalar>>, proofsOfPossession: seq<ProofOfPossession>)
    ensures sharesVec == SharesOf(frost, keyGen, scalarPolys)
    ensures proofsOfPossession == PopsOf(frost, keyGen, scalarPolys)
  {
    proofsOfPossession := [];
    sharesVec := [];
    for i := 0 to |scalarPolys|
      invariant proofsOfPossession == PopsOf(frost, keyGen, scalarPolys)[..i]
      invariant sharesVec == SharesOf(frost, keyGen, scalarPolys)[..i]
    {
      var (shares, pop) := frost.createShares(keyGen, scalarPolys[i]);
      proofsOfPossession := proofsOfPossession + [pop];
      sharesVec := sharesVec + [shares];
    }
    assert sharesVec == SharesOf(frost, keyGen, scalarPolys);
    assert proofsOfPossession == PopsOf(frost, keyGen, scalarPolys);
  }
}
