/** Encryption to a threshold public key, the validity check, and decryption with the
    shared secret.  The hash to G2 and the authenticated cipher are arbitrary
    functions; the cipher only has to open what it sealed. */
module Ciphertexts {
  import opened Field
  import opened Groups
  import opened Wrappers

  type Bytes = seq<bv8>

  /** `construct_tag_hash`: (U, stream ciphertext, aad) to G2 */
  type TagHash = h: (G1, Bytes, Bytes) -> G2 | true witness (u, c, a) => 0

  const TAG_HASH: TagHash

  /** ChaCha20-Poly1305 keyed by the hash of the shared secret, with the nonce
      taken from the commitment. */
  datatype Cipher = Cipher(seal: (GT, G1, Bytes) -> Bytes, open: (GT, G1, Bytes) -> Option<Bytes>)

  ghost predicate OpensWhatItSealed(c: Cipher) {
    forall s, u, m :: c.open(s, u, c.seal(s, u, m)) == Some(m)
  }

  type AuthenticatedCipher = c: Cipher | OpensWhatItSealed(c)
    witness Cipher((s, u, m) => m, (s, u, m) => Some(m))

  const CIPHER: AuthenticatedCipher

  /** `Ciphertext`: U, W and the sealed message. */
  datatype Ciphertext = Ciphertext(commitment: G1, authTag: G2, payload: Bytes)

  datatype Error =
    | CiphertextVerificationFailed
    | DecryptionShareVerificationFailed
    | SealBroken  // the `unwrap` of the cipher's own failure

  /** `encrypt`, with its random element r as an argument. */
  function Encrypt(message: Bytes, aad: Bytes, pubkey: G1, r: F): Ciphertext {
    var secret := ProductOfPairings([(Mul(pubkey, r), G2_GENERATOR)]);
    var commitment := Mul(G1_GENERATOR, r);
    var payload := CIPHER.seal(secret, commitment, message);
    var authTag := Mul(TAG_HASH(commitment, payload, aad), r);
    Ciphertext(commitment, authTag, payload)
  }

  /** `check_ciphertext_validity` */
  predicate CheckCiphertextValidity(c: Ciphertext, aad: Bytes, gInv: G1) {
    ProductOfPairings([(c.commitment, TAG_HASH(c.commitment, c.payload, aad)), (gInv, c.authTag)]) == GT_ONE
  }

  /** `decrypt_with_shared_secret` */
  function DecryptWithSharedSecret(c: Ciphertext, s: GT): Result<Bytes, Error> {
    match CIPHER.open(s, c.commitment, c.payload)
    case Some(m) => Ok(m)
    case None => Err(SealBroken)
  }

  /** `checked_decrypt` */
  function CheckedDecrypt(c: Ciphertext, aad: Bytes, gInv: G1, privkey: G2): Result<Bytes, Error> {
    if CheckCiphertextValidity(c, aad, gInv)
    then DecryptWithSharedSecret(c, ProductOfPairings([(c.commitment, privkey)]))
    else Err(CiphertextVerificationFailed)
  }

  /** `checked_decrypt_with_shared_secret` */
  function CheckedDecryptWithSharedSecret(c: Ciphertext, aad: Bytes, gInv: G1, s: GT): Result<Bytes, Error> {
    if CheckCiphertextValidity(c, aad, gInv)
    then DecryptWithSharedSecret(c, s)
    else Err(CiphertextVerificationFailed)
  }

  // ----- what the check and the two decryptions mean -----

  /** g^-1 */
  const G1_INVERSE: G1 := Neg(1)

  lemma MulMinusOne(a: F)
    ensures Mul(G1_INVERSE, a) == Neg(a)
  {
    MulComm(G1_INVERSE, a);
    MulNeg(a, 1);
    MulZeroOne(a);
  }

  /** For any element in the place of g^-1: e(U, H) is the inverse of its pairing with W. */
  lemma ValidityEquation(c: Ciphertext, aad: Bytes, gInv: G1)
    ensures CheckCiphertextValidity(c, aad, gInv) <==>
            Mul(c.commitment, TAG_HASH(c.commitment, c.payload, aad)) == Neg(Mul(gInv, c.authTag))
  {
    hide Mul, ProductOfPairings;
    var u, h := c.commitment, TAG_HASH(c.commitment, c.payload, aad);
    PairingProductOfTwo(u, h, gInv, c.authTag);
    NegCancel(Mul(gInv, c.authTag), Mul(u, h));
    OppositeSum(Mul(u, h), Mul(gInv, c.authTag));
  }

  lemma OppositeSum(a: F, b: F)
    ensures Add(a, b) == 0 <==> a == Neg(b)
  {
  }

  /** One exponent r explains both U = g^r and W = H(U, V, aad)^r. */
  ghost predicate WellFormed(c: Ciphertext, aad: Bytes) {
    exists r: F :: c.commitment == Mul(G1_GENERATOR, r)
                && c.authTag == Mul(TAG_HASH(c.commitment, c.payload, aad), r)
  }

  /** The check accepts exactly the well-formed ciphertexts. */
  lemma ValidityIsOneExponent(c: Ciphertext, aad: Bytes)
    ensures CheckCiphertextValidity(c, aad, G1_INVERSE) <==> WellFormed(c, aad)
  {
    hide Mul, CheckCiphertextValidity;
    var u, h, w := c.commitment, TAG_HASH(c.commitment, c.payload, aad), c.authTag;
    ValidityEquation(c, aad, G1_INVERSE);
    MulMinusOne(w);
    NegCancel(w, 0);
    MulComm(u, h);
    forall r: F ensures Mul(G1_GENERATOR, r) == r { MulZeroOne(r); }
    assert u == Mul(G1_GENERATOR, u);
  }

  /** What `checked_decrypt_with_shared_secret` returns for any ciphertext and secret. */
  lemma CheckedDecryptExact(c: Ciphertext, aad: Bytes, s: GT)
    ensures var r := CheckedDecryptWithSharedSecret(c, aad, G1_INVERSE, s);
            && (r == Err(CiphertextVerificationFailed) <==> !WellFormed(c, aad))
            && (r == Err(SealBroken) <==> WellFormed(c, aad) && CIPHER.open(s, c.commitment, c.payload) == None)
            && (forall m :: r == Ok(m) <==> WellFormed(c, aad) && CIPHER.open(s, c.commitment, c.payload) == Some(m))
  {
    hide Mul, WellFormed, CheckCiphertextValidity;
    ValidityIsOneExponent(c, aad);
  }

  /** `checked_decrypt` is the same with the secret e(U, privkey). */
  lemma CheckedDecryptByKeyExact(c: Ciphertext, aad: Bytes, privkey: G2)
    ensures var r := CheckedDecrypt(c, aad, G1_INVERSE, privkey);
            var content := CIPHER.open(Pairing(c.commitment, privkey), c.commitment, c.payload);
            && (r == Err(CiphertextVerificationFailed) <==> !WellFormed(c, aad))
            && (r == Err(SealBroken) <==> WellFormed(c, aad) && content == None)
            && (forall m :: r == Ok(m) <==> WellFormed(c, aad) && content == Some(m))
  {
    hide Mul, WellFormed, CheckCiphertextValidity;
    ValidityIsOneExponent(c, aad);
    PairingProductOfOne(c.commitment, privkey);
  }

  /** Of all tags, only the one the encryptor made is accepted. */
  lemma AlteredTagRejected(message: Bytes, aad: Bytes, pubkey: G1, r: F, tag: G2, s: GT, privkey: G2)
    requires tag != Encrypt(message, aad, pubkey, r).authTag
    ensures var c := Encrypt(message, aad, pubkey, r).(authTag := tag);
            && !WellFormed(c, aad)
            && CheckedDecryptWithSharedSecret(c, aad, G1_INVERSE, s) == Err(CiphertextVerificationFailed)
            && CheckedDecrypt(c, aad, G1_INVERSE, privkey) == Err(CiphertextVerificationFailed)
  {
    hide Mul, CheckCiphertextValidity, CheckedDecrypt, CheckedDecryptWithSharedSecret;
    var c := Encrypt(message, aad, pubkey, r).(authTag := tag);
    forall k: F ensures Mul(G1_GENERATOR, k) == k { MulZeroOne(k); }
    CheckedDecryptExact(c, aad, s);
    CheckedDecryptByKeyExact(c, aad, privkey);
  }

  /** With other associated data an encryption is rejected, unless r is zero or the two
      data have the same hash. */
  lemma OtherAadAcceptedIff(message: Bytes, aad: Bytes, other: Bytes, pubkey: G1, r: F)
    ensures var c := Encrypt(message, aad, pubkey, r);
            WellFormed(c, other) <==>
            r == 0 || TAG_HASH(c.commitment, c.payload, other) == TAG_HASH(c.commitment, c.payload, aad)
  {
    hide Mul;
    var c := Encrypt(message, aad, pubkey, r);
    var h, k := TAG_HASH(c.commitment, c.payload, aad), TAG_HASH(c.commitment, c.payload, other);
    forall x: F ensures Mul(G1_GENERATOR, x) == x { MulZeroOne(x); }
    MulComm(h, r);
    MulComm(k, r);
    MulZeroOne(h);
    MulZeroOne(k);
    if r != 0 && Mul(r, h) == Mul(r, k) { MulCancel(r, h, k); }
  }

  lemma EncryptIsValid(message: Bytes, aad: Bytes, pubkey: G1, r: F)
    ensures CheckCiphertextValidity(Encrypt(message, aad, pubkey, r), aad, G1_INVERSE)
  {
    hide Mul, ProductOfPairings, CheckCiphertextValidity;
    ValidityIsOneExponent(Encrypt(message, aad, pubkey, r), aad);
  }

  lemma EncryptIsWellFormed(message: Bytes, aad: Bytes, pubkey: G1, r: F)
    ensures WellFormed(Encrypt(message, aad, pubkey, r), aad)
  {
    hide CheckCiphertextValidity, WellFormed;
    EncryptIsValid(message, aad, pubkey, r);
    ValidityIsOneExponent(Encrypt(message, aad, pubkey, r), aad);
  }

  /** The secret the encryptor keyed the cipher with. */
  function EncryptorsSecret(pubkey: G1, r: F): GT { Mul(pubkey, r) }

  /** With that secret, decryption returns the message. */
  lemma DecryptEncrypt(message: Bytes, aad: Bytes, pubkey: G1, r: F)
    ensures CheckedDecryptWithSharedSecret(
              Encrypt(message, aad, pubkey, r), aad, G1_INVERSE, EncryptorsSecret(pubkey, r)) == Ok(message)
  {
    hide Mul, ProductOfPairings, CheckCiphertextValidity;
    EncryptIsValid(message, aad, pubkey, r);
    PairingProductOfOne(Mul(pubkey, r), G2_GENERATOR);
    MulZeroOne(Mul(pubkey, r));
    assert OpensWhatItSealed(CIPHER);
  }

  /** The undistributed private key h^x decrypts what was encrypted to g^x. */
  lemma PrivateKeyDecrypts(message: Bytes, aad: Bytes, x: F, r: F)
    ensures CheckedDecrypt(
              Encrypt(message, aad, Mul(G1_GENERATOR, x), r), aad, G1_INVERSE, Mul(G2_GENERATOR, x)) == Ok(message)
  {
    hide Mul, ProductOfPairings, CheckCiphertextValidity;
    DecryptEncrypt(message, aad, Mul(G1_GENERATOR, x), r);
    MulZeroOne(x);
    MulZeroOne(r);
    PairingProductOfOne(r, x);
    MulComm(r, x);
  }
}
