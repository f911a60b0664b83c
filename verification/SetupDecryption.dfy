/** Decryption under the two trusted-dealer setups: any participants, at least as many
    as the dealt polynomial has coefficients. */
module SetupDecryption {
  import opened Sequences
  import opened Field
  import opened Polynomials
  import opened Wrappers
  import opened SubproductTree
  import opened EvaluationDomains
  import opened Sums
  import opened Groups
  import opened Lagrange
  import opened Ciphertexts
  import opened Contexts
  import opened Decryption
  import opened Combine
  import opened FastCombine
  import opened Refresh
  import opened Lifecycle

  /** The domain points of the participants `who`. */
  function PointsOf(d: FftDomain, who: seq<nat>): (r: seq<F>)
    ensures |r| == |who|
  {
    seq(|who|, i requires 0 <= i < |who| => d.Element(who[i]))
  }

  lemma PointsOfDistinct(d: FftDomain, n: nat, who: seq<nat>)
    requires d.Valid() && n <= d.Size() && DistinctIndices(who, n)
    ensures Distinct(PointsOf(d, who))
  {
    hide Pow, Pow2;
    ElementsDistinct(d);
    PickDistinct(d.Elements(), who);
    assert PointsOf(d, who) == Pick(d.Elements(), who);
  }

  lemma PublicKeySecret(f: Poly, r: F)
    ensures Pairing(Mul(G1_GENERATOR, r), Eval(f, 0)) == EncryptorsSecret(Mul(G1_GENERATOR, Eval(f, 0)), r)
  {
    hide Mul, Eval;
    GeneratorPower(r);
    GeneratorPower(Eval(f, 0));
    MulComm(r, Eval(f, 0));
  }

  /** What the participants `who` make of the ciphertext. */
  function SimpleShares(contexts: seq<PrivateContextSimple>, ct: Ciphertext, aad: Bytes, who: seq<nat>)
    : (r: seq<Result<ShareSimple, Error>>)
    requires forall i :: 0 <= i < |who| ==> who[i] < |contexts| && contexts[who[i]].validatorPrivateKey != 0
    ensures |r| == |who|
  {
    seq(|who|, i requires 0 <= i < |who| => CreateShareSimple(contexts[who[i]], ct, aad))
  }

  function FastShares(contexts: seq<PrivateContextFast>, ct: Ciphertext, aad: Bytes, who: seq<nat>)
    : (r: seq<Result<ShareFast, Error>>)
    requires forall i :: 0 <= i < |who| ==> who[i] < |contexts|
    ensures |r| == |who|
  {
    seq(|who|, i requires 0 <= i < |who| =>
      CreateShareFast(contexts[who[i]], ct, aad, contexts[who[i]].setupParams.gInv))
  }

  /** Every participant of `setup_simple` makes a share of a well-formed ciphertext: e(U, Z)
      under its own index; of any other ciphertext none does. */
  lemma SimpleSharesMade(contexts: seq<PrivateContextSimple>, f: Poly, d: FftDomain, bs: seq<F>,
                         ct: Ciphertext, aad: Bytes, i: nat)
    requires SimpleSetup(contexts, f, d, bs) && i < |contexts|
    ensures var s := CreateShareSimple(contexts[i], ct, aad);
            && (s.Ok? <==> WellFormed(ct, aad))
            && (s.Err? ==> s.error == CiphertextVerificationFailed)
            && (s.Ok? ==>
                  && s.value.decrypterIndex == i
                  && s.value.decryptionShare == Pairing(ct.commitment, Eval(f, d.Element(i)))
                  && s.value.validatorChecksum == Mul(ct.commitment, Inv(bs[i])))
  {
    hide Mul, Eval, Pow, WellFormed, VerifySimple, CreateShareSimple, SimplePublics;
    ContextShareExact(contexts[i], ct, aad);
    var s := CreateShareSimple(contexts[i], ct, aad);
    if s.Ok? { VerifySimpleExact(s.value, Eval(f, d.Element(i)), bs[i], ct); }
  }

  lemma FastSharesMade(contexts: seq<PrivateContextFast>, f: Poly, d: FftDomain, bs: seq<F>,
                       ct: Ciphertext, aad: Bytes, i: nat)
    requires d.Valid() && FastSetup(contexts, f, d, bs) && i < |contexts|
    ensures var s := CreateShareFast(contexts[i], ct, aad, contexts[i].setupParams.gInv);
            && (s.Ok? <==> WellFormed(ct, aad))
            && (s.Err? ==> s.error == CiphertextVerificationFailed)
            && (s.Ok? ==> s.value.decrypterIndex == i && s.value.decryptionShare == Mul(ct.commitment, Inv(bs[i])))
  {
    hide Mul, Eval, Pow, WellFormed, CreateShareFast, FastPublics;
    FastShareExact(contexts[i], bs[i], ct, aad);
    var s := CreateShareFast(contexts[i], ct, aad, contexts[i].setupParams.gInv);
    if s.Ok? {
      MulZeroOne(bs[i]);
      MulZeroOne(ct.commitment);
      ScaledBack(s.value.decryptionShare, bs[i], ct.commitment);
    }
  }

  /** `setup_simple`: any participants, enough for the polynomial, make shares of every
      encryption to the public key, and the shares decrypt the message. */
  lemma SimpleSetupDecrypts(contexts: seq<PrivateContextSimple>, f: Poly, d: FftDomain, bs: seq<F>,
                            message: Bytes, aad: Bytes, r: F, who: seq<nat>)
    requires d.Valid() && SimpleSetup(contexts, f, d, bs) && |bs| <= d.Size()
    requires DistinctIndices(who, |contexts|) && |Trim(f)| <= |who|
    ensures var pubkey := Mul(G1_GENERATOR, Eval(f, 0));
            var ct := Encrypt(message, aad, pubkey, r);
            var made := SimpleShares(contexts, ct, aad, who);
            AllOk(made) &&
            var secret := ShareCombineSimple(Collect(made), Basis(PointsOf(d, who), 0));
            && secret == EncryptorsSecret(pubkey, r)
            && CheckedDecryptWithSharedSecret(ct, aad, G1_INVERSE, secret) == Ok(message)
  {
    hide Mul, Eval, Basis, Trim, ShareCombineSimple, Pow, Pow2, Distinct, EncryptorsSecret, WellFormed,
         CheckedDecryptWithSharedSecret, CreateShareSimple, SimplePublics;
    var pubkey := Mul(G1_GENERATOR, Eval(f, 0));
    var ct := Encrypt(message, aad, pubkey, r);
    EncryptIsWellFormed(message, aad, pubkey, r);
    PointsOfDistinct(d, |contexts|, who);
    var made := SimpleShares(contexts, ct, aad, who);
    forall i | 0 <= i < |who|
      ensures made[i].Ok? && made[i].value.decryptionShare == Pairing(ct.commitment, Eval(f, PointsOf(d, who)[i]))
    {
      SimpleSharesMade(contexts, f, d, bs, ct, aad, who[i]);
    }
    SimpleCombines(f, PointsOf(d, who), ct.commitment, Collect(made));
    PublicKeySecret(f, r);
    DecryptEncrypt(message, aad, pubkey, r);
  }

  /** The precomputed variant yields the same secret. */
  lemma PrecomputedSetupCombines(contexts: seq<PrivateContextSimple>, f: Poly, d: FftDomain, bs: seq<F>,
                                 ct: Ciphertext, r: F, who: seq<nat>, shares: seq<SharePrecomputed>)
    requires d.Valid() && SimpleSetup(contexts, f, d, bs) && |bs| <= d.Size()
    requires DistinctIndices(who, |contexts|) && |Trim(f)| <= |who| == |shares|
    requires ct.commitment == Mul(G1_GENERATOR, r)
    requires forall i :: 0 <= i < |who| ==>
               shares[i] == CreateSharePrecomputed(contexts[who[i]], ct, Basis(PointsOf(d, who), 0)[i])
    ensures ShareCombinePrecomputed(shares) == EncryptorsSecret(Mul(G1_GENERATOR, Eval(f, 0)), r)
  {
    hide Mul, Eval, Basis, Trim, ShareCombinePrecomputed, Pow, Pow2, Distinct, EncryptorsSecret;
    PointsOfDistinct(d, |contexts|, who);
    PrecomputedCombines(f, PointsOf(d, who), ct.commitment, shares);
    PublicKeySecret(f, r);
  }

  /** Against the simple public contexts, a share verifies exactly when it is e(U, Z_i)
      with the checksum [1/b_i] U; so the participants' own shares do. */
  lemma SimpleContextVerifies(f: Poly, d: FftDomain, bs: seq<F>, ct: Ciphertext, i: nat, share: ShareSimple)
    requires i < |bs| && bs[i] != 0
    ensures var c := SimplePublic(f, d, bs[i], i);
            VerifySimple(share, c.blindedKeyShare.blindedKeyShare, c.validatorPublicKey, c.h, ct) <==>
            && share.decryptionShare == Pairing(ct.commitment, Eval(f, d.Element(i)))
            && share.validatorChecksum == Mul(ct.commitment, Inv(bs[i]))
  {
    hide Mul, Eval, VerifySimple, Pow;
    VerifySimpleExact(share, Eval(f, d.Element(i)), bs[i], ct);
  }

  /** `setup_fast`: any participants, enough for the polynomial, make shares of every
      encryption to the public key; an even number of them decrypts the message through
      the checked fast path, an odd number obtains the inverse of the secret. */
  lemma FastSetupDecrypts(contexts: seq<PrivateContextFast>, f: Poly, d: FftDomain, bs: seq<F>,
                          message: Bytes, aad: Bytes, r: F, who: seq<nat>)
    requires d.Valid() && FastSetup(contexts, f, d, bs) && |bs| <= d.Size()
    requires DistinctIndices(who, |contexts|) && |Trim(f)| <= |who|
    ensures var pubkey := Mul(G1_GENERATOR, Eval(f, 0));
            var ct := Encrypt(message, aad, pubkey, r);
            var made := FastShares(contexts, ct, aad, who);
            AllOk(made) &&
            var pubs, shares := FastPublics(f, d, bs), Collect(made);
            IndicesInRange(pubs, shares) &&
            var combined := Dot(FastValues(shares), Prepared(pubs, shares));
            && AllSharesRight(pubs, ct, shares)
            && combined == Mul(Sign(|who|), EncryptorsSecret(pubkey, r))
            && (|who| % 2 == 0 ==> CheckedDecryptWithSharedSecret(ct, aad, G1_INVERSE, combined) == Ok(message))
  {
    hide Mul, Eval, Trim, Dot, Prepared, FastValues, Pow, Pow2, EncryptorsSecret, CheckedDecryptWithSharedSecret,
         WellFormed, ShareError, CreateShareFast, FastPublics, Encrypt;
    var pubkey := Mul(G1_GENERATOR, Eval(f, 0));
    var ct := Encrypt(message, aad, pubkey, r);
    EncryptIsWellFormed(message, aad, pubkey, r);
    var made := FastShares(contexts, ct, aad, who);
    forall i | 0 <= i < |who|
      ensures made[i].Ok? && made[i].value.decrypterIndex == who[i]
      ensures made[i].value.decryptionShare == Mul(ct.commitment, Inv(bs[who[i]]))
    {
      FastSharesMade(contexts, f, d, bs, ct, aad, who[i]);
    }
    var shares := Collect(made);
    assert HonestShares(bs, ct.commitment, shares) && DistinctDecrypters(shares) && Dealt(f, d, bs);
    HonestSharesAreRight(f, d, bs, ct, shares);
    FastCombines(f, d, bs, ct.commitment, shares);
    EncryptCommits(message, aad, pubkey, r);
    PublicKeySecret(f, r);
    MulZeroOne(EncryptorsSecret(pubkey, r));
    DecryptEncrypt(message, aad, pubkey, r);
  }

  lemma EncryptCommits(message: Bytes, aad: Bytes, pubkey: G1, r: F)
    ensures Encrypt(message, aad, pubkey, r).commitment == Mul(G1_GENERATOR, r)
  {
  }

  lemma HonestSharesAreRight(f: Poly, d: FftDomain, bs: seq<F>, ct: Ciphertext, shares: seq<ShareFast>)
    requires d.Valid() && HonestShares(bs, ct.commitment, shares)
    ensures IndicesInRange(FastPublics(f, d, bs), shares)
    ensures AllSharesRight(FastPublics(f, d, bs), ct, shares)
  {
    hide Mul, Eval, ShareError, Pow;
    var pubs := FastPublics(f, d, bs);
    forall i | 0 <= i < |shares|
      ensures ShareError(BlindingKeyOf(pubs, shares[i]), ct.commitment, shares[i].decryptionShare) == 0
    {
      var n := shares[i].decrypterIndex;
      assert BlindingKeyOf(pubs, shares[i]) == Mul(G2_GENERATOR, bs[n]);
      RightFastShare(bs[n], ct.commitment, shares[i].decryptionShare);
    }
  }

  // ----- the keys in the shares -----

  /** The private key shares that any participants of either setup hold, enough for the
      polynomial, interpolate to the private key. */
  lemma PrivateKeyFromShares(f: Poly, d: FftDomain, n: nat, who: seq<nat>, shares: seq<G2>)
    requires d.Valid() && n <= d.Size() && DistinctIndices(who, n) && |Trim(f)| <= |who| == |shares|
    requires forall i :: 0 <= i < |who| ==> shares[i] == Eval(f, d.Element(who[i]))
    ensures RecoverShare(0, PointsOf(d, who), shares) == Mul(G2_GENERATOR, Eval(f, 0))
  {
    hide Mul, Eval, Basis, Trim, Pow, Pow2, Distinct;
    PointsOfDistinct(d, n, who);
    assert shares == Values(f, PointsOf(d, who));
    DotComm(shares, Basis(PointsOf(d, who), 0));
    BasisReproduces(PointsOf(d, who), 0, f);
    GeneratorPower(Eval(f, 0));
  }

  lemma SimpleKeyFromShares(contexts: seq<PrivateContextSimple>, f: Poly, d: FftDomain, bs: seq<F>, who: seq<nat>)
    requires d.Valid() && SimpleSetup(contexts, f, d, bs) && |bs| <= d.Size()
    requires DistinctIndices(who, |contexts|) && |Trim(f)| <= |who|
    ensures RecoverShare(0, PointsOf(d, who), seq(|who|, i requires 0 <= i < |who| => contexts[who[i]].privateKeyShare))
         == Mul(G2_GENERATOR, Eval(f, 0))
  {
    hide Mul, Eval, Trim, Pow, Pow2, Distinct, RecoverShare, SimplePublics;
    var shares := seq(|who|, i requires 0 <= i < |who| => contexts[who[i]].privateKeyShare);
    PrivateKeyFromShares(f, d, |contexts|, who, shares);
  }

  lemma FastKeyFromShares(contexts: seq<PrivateContextFast>, f: Poly, d: FftDomain, bs: seq<F>, who: seq<nat>)
    requires d.Valid() && FastSetup(contexts, f, d, bs) && |bs| <= d.Size()
    requires DistinctIndices(who, |contexts|) && |Trim(f)| <= |who|
    ensures RecoverShare(0, PointsOf(d, who), seq(|who|, i requires 0 <= i < |who| => contexts[who[i]].privateKeyShare))
         == Mul(G2_GENERATOR, Eval(f, 0))
  {
    hide Mul, Eval, Trim, Pow, Pow2, Distinct, RecoverShare, FastPublics;
    var shares := seq(|who|, i requires 0 <= i < |who| => contexts[who[i]].privateKeyShare);
    PrivateKeyFromShares(f, d, |contexts|, who, shares);
  }

  // ----- from setup to message, with what the contexts hold -----

  /** Setup, encryption, share creation, combination over the published domain points and
      decryption, one after the other as the callers of `setup_simple` do it. */
  method SimpleRoundTrip(threshold: nat, sharesNum: nat, f: Poly, bs: seq<F>, message: Bytes, aad: Bytes, r: F,
                         who: seq<nat>) returns (result: Result<Bytes, Error>)
    requires DealerInput(threshold, sharesNum, f) && Blinders(bs, NewFftDomain(sharesNum).value.Size())
    requires DistinctIndices(who, NewFftDomain(sharesNum).value.Size()) && |f| <= |who|
    ensures result == Ok(message)
  {
    hide NewFftDomain, Pow, Pow2, Mul, Eval, Trim, Encrypt, CreateShareSimple, ShareCombineSimple, Basis,
         CheckedDecryptWithSharedSecret, WellFormed, Distinct;
    ghost var d := NewFftDomain(sharesNum).value;
    var pubkey, _, contexts := SetupSimple(threshold, sharesNum, f, bs);
    var ct := Encrypt(message, aad, pubkey, r);
    TrimShortens(f);
    SimpleSetupDecrypts(contexts, f, d, bs, message, aad, r, who);
    var shares := Collect(SimpleShares(contexts, ct, aad, who));
    var pubs := contexts[who[0]].publicContexts;
    var points := seq(|who|, i requires 0 <= i < |who| => pubs[who[i]].domain);
    assert points == PointsOf(d, who);
    var lagrange := PrepareCombineSimple(points);
    var secret := ShareCombineSimple(shares, lagrange);
    result := CheckedDecryptWithSharedSecret(ct, aad, contexts[who[0]].setupParams.gInv, secret);
  }

  /** The same through the checked fast path, for an even number of participants. */
  method FastRoundTrip(threshold: nat, sharesNum: nat, f: Poly, bs: seq<F>, message: Bytes, aad: Bytes, r: F,
                       who: seq<nat>) returns (result: Result<Bytes, Error>)
    requires DealerInput(threshold, sharesNum, f) && Blinders(bs, sharesNum)
    requires DistinctIndices(who, sharesNum) && |f| <= |who| && |who| % 2 == 0
    ensures result == Ok(message)
  {
    hide NewFftDomain, Pow, Pow2, Mul, Eval, Trim, Encrypt, CreateShareFast, Dot, Prepared, FastValues, FastPublics,
         CheckedDecryptWithSharedSecret, WellFormed, Distinct, AllSharesRight, DomainOf;
    ghost var d := NewFftDomain(sharesNum).value;
    var pubkey, _, contexts := SetupFast(threshold, sharesNum, f, bs);
    var ct := Encrypt(message, aad, pubkey, r);
    TrimShortens(f);
    FastSetupDecrypts(contexts, f, d, bs, message, aad, r, who);
    var shares := Collect(FastShares(contexts, ct, aad, who));
    var pubs := contexts[who[0]].publicContexts;
    FastPublished(f, d, bs, 0);
    var prepared, _ := PrepareCombineFast(pubs, shares);
    var secret := CheckedShareCombineFast(pubs, ct, shares, prepared);
    result := CheckedDecryptWithSharedSecret(ct, aad, contexts[who[0]].setupParams.gInv, secret.value);
  }

  lemma TrimShortens(f: Poly)
    ensures |Trim(f)| <= |f|
  {
  }
}
