/** Decryption shares: creation, verification one by one, in lists, and in batches. */
module Decryption {
  import opened Field
  import opened Wrappers
  import opened Groups
  import opened Ciphertexts
  import opened Contexts

  datatype ShareFast = ShareFast(decrypterIndex: nat, decryptionShare: G1)

  datatype ShareSimple = ShareSimple(decrypterIndex: nat, decryptionShare: GT, validatorChecksum: G1)

  datatype SharePrecomputed = SharePrecomputed(decrypterIndex: nat, decryptionShare: GT)

  // ----- creating shares -----

  /** `PrivateDecryptionContextFast::create_share` */
  function CreateShareFast(ctx: PrivateContextFast, c: Ciphertext, aad: Bytes, gInv: G1): Result<ShareFast, Error> {
    if CheckCiphertextValidity(c, aad, gInv)
    then Ok(ShareFast(ctx.index, Mul(c.commitment, ctx.setupParams.bInv)))
    else Err(CiphertextVerificationFailed)
  }

  /** `DecryptionShareSimple::create`; the decryption key must be invertible. */
  function CreateSimple(index: nat, decryptionKey: F, keyShare: G2, c: Ciphertext, aad: Bytes, gInv: G1)
    : Result<ShareSimple, Error>
    requires decryptionKey != 0
  {
    if CheckCiphertextValidity(c, aad, gInv)
    then Ok(ShareSimple(index, Pairing(c.commitment, keyShare), Mul(c.commitment, Inv(decryptionKey))))
    else Err(CiphertextVerificationFailed)
  }

  /** `PrivateDecryptionContextSimple::create_share` */
  function CreateShareSimple(ctx: PrivateContextSimple, c: Ciphertext, aad: Bytes): Result<ShareSimple, Error>
    requires ctx.validatorPrivateKey != 0
  {
    CreateSimple(ctx.index, ctx.validatorPrivateKey, ctx.privateKeyShare, c, aad, ctx.setupParams.gInv)
  }

  /** `create_share_precomputed` */
  function CreateSharePrecomputed(ctx: PrivateContextSimple, c: Ciphertext, lagrangeCoeff: F): SharePrecomputed {
    SharePrecomputed(ctx.index, Pairing(Mul(c.commitment, lagrangeCoeff), ctx.privateKeyShare))
  }

  // ----- verifying one share -----

  /** `DecryptionShareSimple::verify` */
  predicate VerifySimple(s: ShareSimple, shareAggregate: G2, publicKey: G2, h: G2, c: Ciphertext) {
    && s.decryptionShare == Pairing(s.validatorChecksum, shareAggregate)
    && Pairing(s.validatorChecksum, publicKey) == Pairing(c.commitment, h)
  }

  /** Whoever made the share, for any generator h: it verifies against Y = [dk] Z and
      ek = [dk] h exactly when it is e(U, Z) with the checksum [1/dk] U. */
  lemma VerifySimpleFor(h: G2, s: ShareSimple, keyShare: G2, dk: F, c: Ciphertext)
    requires dk != 0 && h != 0
    ensures VerifySimple(s, Mul(keyShare, dk), Mul(h, dk), h, c) <==>
            && s.decryptionShare == Pairing(c.commitment, keyShare)
            && s.validatorChecksum == Mul(c.commitment, Inv(dk))
  {
    hide Mul;
    var k, u, i := s.validatorChecksum, c.commitment, Inv(dk);
    MulLeft(k, h, dk);
    MulComm(u, h);
    if Mul(h, Mul(k, dk)) == Mul(h, u) { MulCancel(h, Mul(k, dk), u); }
    ScaledBack(k, dk, u);
    if k == Mul(u, i) {
      MulSwap(u, i, keyShare, dk);
      MulComm(i, dk);
      MulZeroOne(Mul(u, keyShare));
    }
  }

  /** With the generator of G2, the h that every context holds. */
  lemma VerifySimpleExact(s: ShareSimple, keyShare: G2, dk: F, c: Ciphertext)
    requires dk != 0
    ensures VerifySimple(s, Mul(keyShare, dk), Mul(G2_GENERATOR, dk), G2_GENERATOR, c) <==>
            && s.decryptionShare == Pairing(c.commitment, keyShare)
            && s.validatorChecksum == Mul(c.commitment, Inv(dk))
  {
    hide Mul, VerifySimple;
    VerifySimpleFor(G2_GENERATOR, s, keyShare, dk, c);
  }

  /** k b = u exactly when k = u / b. */
  lemma ScaledBack(k: F, b: F, u: F)
    requires b != 0
    ensures Mul(k, b) == u <==> k == Mul(u, Inv(b))
  {
    hide Mul;
    MulAssoc(k, b, Inv(b));
    MulZeroOne(k);
    DivMul(u, b);
  }

  /** `create` refuses exactly the ciphertexts that fail the check, which with g^-1 are
      those that are not well-formed; otherwise the share carries the index and verifies
      for the owner of dk. */
  lemma CreatedVerifies(index: nat, dk: F, keyShare: G2, c: Ciphertext, aad: Bytes, gInv: G1)
    requires dk != 0
    ensures var s := CreateSimple(index, dk, keyShare, c, aad, gInv);
            && (gInv == G1_INVERSE ==> (s.Ok? <==> WellFormed(c, aad)))
            && (s.Ok? <==> CheckCiphertextValidity(c, aad, gInv))
            && (s.Err? ==> s.error == CiphertextVerificationFailed)
            && (s.Ok? ==>
                  && s.value.decrypterIndex == index
                  && VerifySimple(s.value, Mul(keyShare, dk), Mul(G2_GENERATOR, dk), G2_GENERATOR, c))
  {
    hide Mul, CheckCiphertextValidity, WellFormed, VerifySimple;
    ValidityIsOneExponent(c, aad);
    var s := CreateSimple(index, dk, keyShare, c, aad, gInv);
    if s.Ok? { VerifySimpleExact(s.value, keyShare, dk, c); }
  }

  /** The same for the context of a participant with blinder b: its simple and its fast
      shares. */
  lemma ContextShareExact(ctx: PrivateContextSimple, c: Ciphertext, aad: Bytes)
    requires ctx.validatorPrivateKey != 0 && ctx.setupParams.gInv == G1_INVERSE
    ensures var s, dk, z := CreateShareSimple(ctx, c, aad), ctx.validatorPrivateKey, ctx.privateKeyShare;
            if WellFormed(c, aad)
            then s.Ok? && s.value.decrypterIndex == ctx.index
                 && VerifySimple(s.value, Mul(z, dk), Mul(G2_GENERATOR, dk), G2_GENERATOR, c)
            else s == Err(CiphertextVerificationFailed)
  {
    hide CreateSimple, WellFormed, VerifySimple, Mul;
    CreatedVerifies(ctx.index, ctx.validatorPrivateKey, ctx.privateKeyShare, c, aad, G1_INVERSE);
  }

  lemma FastShareExact(ctx: PrivateContextFast, b: F, c: Ciphertext, aad: Bytes)
    requires b != 0 && ctx.setupParams == ParamsFor(b)
    ensures var s := CreateShareFast(ctx, c, aad, G1_INVERSE);
            if WellFormed(c, aad)
            then s.Ok? && s.value.decrypterIndex == ctx.index
                 && Pairing(s.value.decryptionShare, Mul(G2_GENERATOR, b)) == Pairing(c.commitment, G2_GENERATOR)
            else s == Err(CiphertextVerificationFailed)
  {
    hide Mul, CheckCiphertextValidity, WellFormed;
    ValidityIsOneExponent(c, aad);
    MulZeroOne(b);
    MulZeroOne(c.commitment);
    ScaledBack(Mul(c.commitment, Inv(b)), b, c.commitment);
  }

  /** A precomputed share is made without a check, and is the key holder's share raised
      to the coefficient. */
  lemma PrecomputedShareExact(ctx: PrivateContextSimple, c: Ciphertext, coefficient: F)
    ensures var s := CreateSharePrecomputed(ctx, c, coefficient);
            && s.decrypterIndex == ctx.index
            && s.decryptionShare == Mul(Pairing(c.commitment, ctx.privateKeyShare), coefficient)
  {
    hide Mul;
    var u, z := c.commitment, ctx.privateKeyShare;
    MulAssoc(u, coefficient, z);
    MulComm(coefficient, z);
    MulAssoc(u, z, coefficient);
  }

  // ----- verifying lists -----

  /** `verify_decryption_shares_simple`: stops at the shorter list. */
  method VerifySharesSimple(pubContexts: seq<PublicContextSimple>, c: Ciphertext, shares: seq<ShareSimple>)
    returns (valid: bool)
    ensures valid <==> forall i :: 0 <= i < |shares| && i < |pubContexts| ==>
              VerifySimple(shares[i], pubContexts[i].blindedKeyShare.blindedKeyShare,
                           pubContexts[i].validatorPublicKey, pubContexts[i].h, c)
  {
    hide VerifySimple;
    var n := if |shares| < |pubContexts| then |shares| else |pubContexts|;
    for k := 0 to n
      invariant forall i :: 0 <= i < k ==>
                  VerifySimple(shares[i], pubContexts[i].blindedKeyShare.blindedKeyShare,
                               pubContexts[i].validatorPublicKey, pubContexts[i].h, c)
    {
      var isValid := VerifySimple(shares[k], pubContexts[k].blindedKeyShare.blindedKeyShare,
                                  pubContexts[k].validatorPublicKey, pubContexts[k].h, c);
      if !isValid {
        return false;
      }
    }
    return true;
  }

  /** The error of one fast share: zero when e(D, [b] H) = e(U, H). */
  function ShareError(blindingKey: G2, u: G1, share: G1): GT {
    Sub(Mul(share, blindingKey), u)
  }

  /** The blinding key of the decrypter a share names. */
  function BlindingKeyOf(pubContexts: seq<PublicContextFast>, s: ShareFast): G2
    requires s.decrypterIndex < |pubContexts|
  {
    pubContexts[s.decrypterIndex].blindedKeyShare.blindingKey
  }

  predicate IndicesInRange(pubContexts: seq<PublicContextFast>, shares: seq<ShareFast>) {
    forall i :: 0 <= i < |shares| ==> shares[i].decrypterIndex < |pubContexts|
  }

  predicate AllSharesRight(pubContexts: seq<PublicContextFast>, c: Ciphertext, shares: seq<ShareFast>)
    requires IndicesInRange(pubContexts, shares)
  {
    forall i :: 0 <= i < |shares| ==>
      ShareError(BlindingKeyOf(pubContexts, shares[i]), c.commitment, shares[i].decryptionShare) == 0
  }

  lemma PairFastExact(u: G1, d: G1, b: G2)
    ensures ProductOfPairings([(u, Neg(G2_GENERATOR)), (d, b)]) == GT_ONE <==> ShareError(b, u, d) == 0
  {
    hide Mul, Add, Sub, ProductOfPairings;
    PairingProductOfTwo(u, Neg(1), d, b);
    MulNeg(u, 1);
    MulZeroOne(u);
    NegCancel(u, Mul(d, b));
    SubZero(Mul(d, b), u);
  }

  /** `verify_decryption_shares_fast` */
  method VerifySharesFast(pubContexts: seq<PublicContextFast>, c: Ciphertext, shares: seq<ShareFast>)
    returns (valid: bool)
    requires pubContexts != [] && pubContexts[0].hInv == Neg(G2_GENERATOR)
    requires IndicesInRange(pubContexts, shares)
    ensures valid <==> AllSharesRight(pubContexts, c, shares)
  {
    hide ShareError, ProductOfPairings;
    for k := 0 to |shares|
      invariant forall i :: 0 <= i < k ==>
                  ShareError(BlindingKeyOf(pubContexts, shares[i]), c.commitment, shares[i].decryptionShare) == 0
    {
      PairFastExact(c.commitment, shares[k].decryptionShare, BlindingKeyOf(pubContexts, shares[k]));
      if ProductOfPairings([(c.commitment, pubContexts[0].hInv),
                            (shares[k].decryptionShare, BlindingKeyOf(pubContexts, shares[k]))]) != GT_ONE {
        return false;
      }
    }
    return true;
  }

  /** A fast share is right exactly when it is [1/b] U for the decrypter's blinder b. */
  lemma RightFastShare(b: F, u: G1, d: G1)
    requires b != 0
    ensures ShareError(Mul(G2_GENERATOR, b), u, d) == 0 <==> d == Mul(u, Inv(b))
  {
    hide Mul, Sub;
    MulZeroOne(b);
    SubZero(Mul(d, b), u);
    ScaledBack(d, b, u);
  }
}
