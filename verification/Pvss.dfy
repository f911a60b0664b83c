/** Publicly verifiable secret sharing: dealing, verification, aggregation and what
    the validators make of an aggregated transcript. */
module Pvss {
  import opened Sequences
  import opened Field
  import opened Polynomials
  import opened Wrappers
  import opened FastDivision
  import opened EvaluationDomains
  import opened Sums
  import opened Groups
  import opened Ciphertexts
  import opened Contexts
  import opened Decryption
  import opened Refresh

  datatype ExternalValidator = ExternalValidator(address: string, encryptionKey: G2)

  datatype Validator = Validator(validator: ExternalValidator, shareIndex: nat)

  /** `PubliclyVerifiableSS`: commitments to the coefficients, encrypted shares, and the
      proof of knowledge of the constant term. */
  datatype Transcript = Transcript(coeffs: seq<G1>, shares: seq<G2>, sigma: G2)

  /** The validators and the domain their shares live on. */
  datatype Committee = Committee(validators: seq<Validator>, domain: FftDomain) {
    ghost predicate Valid() {
      domain.Valid() && forall i :: 0 <= i < |validators| ==> validators[i].shareIndex < domain.Size()
    }

    function Key(i: nat): G2
      requires i < |validators|
    {
      validators[i].validator.encryptionKey
    }

    function Point(i: nat): F
      requires i < |validators|
    {
      domain.Element(validators[i].shareIndex)
    }
  }

  // ----- dealing -----

  /** The transcript of the polynomial phi: every share is the validator's key raised to
      phi at the validator's point. */
  function TranscriptOf(phi: Poly, c: Committee): (t: Transcript)
    requires phi != []
    ensures |t.shares| == |c.validators|
  {
    Transcript(
      phi,
      seq(|c.validators|, i requires 0 <= i < |c.validators| => Mul(c.Key(i), Eval(phi, c.Point(i)))),
      Mul(G2_GENERATOR, phi[0]))
  }

  /** `PubliclyVerifiableSS::new`: random coefficients with the secret as constant term. */
  method Deal(s: F, random: Poly, c: Committee) returns (t: Transcript)
    requires c.Valid() && random != [] && |random| <= c.domain.Size()
    ensures t == TranscriptOf(random[0 := s], c)
  {
    hide Mul, Eval, Pow, Pow2;
    var phi := random;
    phi := phi[0 := s];
    var evals := Fft(c.domain, phi);
    var coeffs := FastMultiexp(phi, G1_GENERATOR);
    MultiexpOfGenerator(phi);
    var shares := [];
    for i := 0 to |c.validators|
      invariant |shares| == i
      invariant forall k :: 0 <= k < i ==> shares[k] == Mul(c.Key(k), Eval(phi, c.Point(k)))
    {
      shares := shares + [FastMultiexp([evals[c.validators[i].shareIndex]], c.Key(i))[0]];
    }
    t := Transcript(coeffs, shares, Mul(G2_GENERATOR, s));
  }

  // ----- verification -----

  /** `verify_optimistic`: the proof of knowledge only. */
  predicate VerifyOptimistic(t: Transcript)
    requires t.coeffs != []
  {
    Pairing(t.coeffs[0], G2_GENERATOR) == Pairing(G1_GENERATOR, t.sigma)
  }

  /** The polynomial that the transform sees: the commitments cut or padded to the size
      of the domain. */
  function Committed(t: Transcript, c: Committee): Poly {
    Resize(t.coeffs, c.domain.Size())
  }

  ghost predicate SharesMatch(t: Transcript, c: Committee) {
    forall i :: 0 <= i < |c.validators| && i < |t.shares| ==>
      t.shares[i] == Mul(c.Key(i), Eval(Committed(t, c), c.Point(i)))
  }

  /** `verify_full`: checks validators and shares up to the shorter list. */
  method VerifyFull(t: Transcript, c: Committee) returns (valid: bool)
    requires c.Valid()
    ensures valid <==> SharesMatch(t, c)
  {
    hide Mul, Eval, Pow, Pow2, Resize;
    var commitment := Fft(c.domain, Committed(t, c));
    var n := if |c.validators| < |t.shares| then |c.validators| else |t.shares|;
    for i := 0 to n
      invariant forall k :: 0 <= k < i ==> t.shares[k] == Mul(c.Key(k), Eval(Committed(t, c), c.Point(k)))
    {
      var ek := c.Key(i);
      var a := commitment[c.validators[i].shareIndex];
      MulZeroOne(t.shares[i]);
      MulComm(a, ek);
      if Pairing(G1_GENERATOR, t.shares[i]) != Pairing(a, ek) {
        return false;
      }
    }
    return true;
  }

  /** The transcripts that have one share per validator and pass both checks are exactly
      those whose shares and proof belong to the polynomial that the transform sees.  With
      no more commitments than domain elements they are the transcripts that dealing some
      polynomial produces; of more commitments the surplus is ignored. */
  lemma AcceptedIsHonest(t: Transcript, c: Committee)
    requires c.Valid() && t.coeffs != []
    ensures |t.shares| == |c.validators| && VerifyOptimistic(t) && SharesMatch(t, c)
            <==> t.(coeffs := Committed(t, c)) == TranscriptOf(Committed(t, c), c)
    ensures |t.coeffs| <= c.domain.Size() ==>
              (t.(coeffs := Committed(t, c)) == TranscriptOf(Committed(t, c), c) <==> t == TranscriptOf(t.coeffs, c))
  {
    hide Mul, Eval, Pow, Pow2;
    var honest := TranscriptOf(Committed(t, c), c);
    assert Committed(t, c)[0] == t.coeffs[0];
    MulZeroOne(t.coeffs[0]);
    MulZeroOne(t.sigma);
    assert VerifyOptimistic(t) <==> t.sigma == honest.sigma;
    assert |t.shares| == |c.validators| ==> (SharesMatch(t, c) <==> t.shares == honest.shares);
    if |t.coeffs| <= c.domain.Size() {
      PaddingDealsAlike(t, c);
    }
  }

  lemma PaddingDealsAlike(t: Transcript, c: Committee)
    requires t.coeffs != [] && |t.coeffs| <= c.domain.Size()
    ensures TranscriptOf(Committed(t, c), c).shares == TranscriptOf(t.coeffs, c).shares
    ensures TranscriptOf(Committed(t, c), c).sigma == TranscriptOf(t.coeffs, c).sigma
  {
    hide Mul, Eval, Pow, Pow2;
    forall i | 0 <= i < |c.validators|
      ensures Eval(Committed(t, c), c.Point(i)) == Eval(t.coeffs, c.Point(i))
    {
      CommittedValue(t, c, c.Point(i));
    }
  }

  lemma CommittedValue(t: Transcript, c: Committee, x: F)
    requires |t.coeffs| <= c.domain.Size()
    ensures Eval(Committed(t, c), x) == Eval(t.coeffs, x)
  {
    hide Mul, Eval, Pow2;
    EvalByCoefficients(Committed(t, c), t.coeffs, x);
  }

  /** With one share changed a matching transcript no longer matches. */
  lemma AlteredShareFails(t: Transcript, c: Committee, share: G2)
    requires SharesMatch(t, c) && t.shares != [] && c.validators != [] && share != t.shares[0]
    ensures !SharesMatch(t.(shares := t.shares[0 := share]), c)
  {
    hide Mul, Eval, Resize;
    var altered := t.(shares := t.shares[0 := share]);
    assert altered.shares[0] != Mul(c.Key(0), Eval(Committed(altered, c), c.Point(0)));
  }

  // ----- aggregation -----

  ghost predicate SameShape(a: Transcript, b: Transcript) {
    |a.coeffs| == |b.coeffs| && |a.shares| == |b.shares|
  }

  function TranscriptAdd(a: Transcript, b: Transcript): Transcript
    requires SameShape(a, b)
  {
    Transcript(AddAll(a.coeffs, b.coeffs), AddAll(a.shares, b.shares), Add(a.sigma, b.sigma))
  }

  ghost predicate Uniform(ts: seq<Transcript>) {
    ts != [] && forall i :: 0 <= i < |ts| ==> ts[i].coeffs != [] && SameShape(ts[i], ts[0])
  }

  /** The sum of the transcripts, from left to right. */
  function AggregateOf(ts: seq<Transcript>): (r: Transcript)
    requires Uniform(ts)
    ensures SameShape(r, ts[0])
  {
    if |ts| == 1 then ts[0] else TranscriptAdd(AggregateOf(ts[..|ts| - 1]), ts[|ts| - 1])
  }

  /** `aggregate`, over the transcripts in the order of their dealers. */
  method Aggregate(ts: seq<Transcript>) returns (r: Transcript)
    requires Uniform(ts)
    ensures r == AggregateOf(ts)
  {
    hide Add;
    var coeffs, shares, sigma := ts[0].coeffs, ts[0].shares, ts[0].sigma;
    assert ts[..1] == [ts[0]];
    for i := 1 to |ts|
      invariant Uniform(ts[..i]) && AggregateOf(ts[..i]) == Transcript(coeffs, shares, sigma)
    {
      assert ts[..i + 1][..i] == ts[..i];
      sigma := Add(sigma, ts[i].sigma);
      coeffs := AddInto(coeffs, ts[i].coeffs);
      shares := AddInto(shares, ts[i].shares);
    }
    assert ts[..|ts|] == ts;
    r := Transcript(coeffs, shares, sigma);
  }

  /** Adds w to v entry by entry; the lengths must be equal. */
  method AddInto(v: seq<F>, w: seq<F>) returns (r: seq<F>)
    requires |v| == |w|
    ensures r == AddAll(v, w)
  {
    hide Add;
    r := v;
    for i := 0 to |v|
      invariant |r| == |v|
      invariant forall k :: 0 <= k < i ==> r[k] == Add(v[k], w[k])
      invariant forall k :: i <= k < |v| ==> r[k] == v[k]
    {
      r := r[i := Add(r[i], w[i])];
    }
  }

  /** Dealing is a homomorphism. */
  lemma TranscriptOfSum(phi: Poly, psi: Poly, c: Committee)
    requires phi != [] && |phi| == |psi|
    ensures TranscriptAdd(TranscriptOf(phi, c), TranscriptOf(psi, c)) == TranscriptOf(AddAll(phi, psi), c)
  {
    hide Mul, Eval, Add, Pow;
    var sum := AddAll(phi, psi);
    MulZeroOne(phi[0]);
    MulZeroOne(psi[0]);
    MulZeroOne(sum[0]);
    forall i | 0 <= i < |c.validators|
      ensures Add(Mul(c.Key(i), Eval(phi, c.Point(i))), Mul(c.Key(i), Eval(psi, c.Point(i))))
           == Mul(c.Key(i), Eval(sum, c.Point(i)))
    {
      EvalSum(phi, psi, sum, c.Point(i));
      MulAdd(c.Key(i), Eval(phi, c.Point(i)), Eval(psi, c.Point(i)));
    }
  }

  /** The aggregate of accepted transcripts is accepted, whoever dealt them, and commits
      to the sum of their commitments. */
  lemma {:induction false} AggregateOfAccepted(ts: seq<Transcript>, c: Committee)
    requires Uniform(ts)
    requires forall i :: 0 <= i < |ts| ==> ts[i] == TranscriptOf(ts[i].coeffs, c)
    ensures AggregateOf(ts) == TranscriptOf(AggregateOf(ts).coeffs, c)
  {
    hide Mul, Eval, Add, TranscriptOf;
    if |ts| > 1 {
      var init, last := ts[..|ts| - 1], ts[|ts| - 1];
      AggregateOfAccepted(init, c);
      TranscriptOfSum(AggregateOf(init).coeffs, last.coeffs, c);
    }
  }

  /** How far the i-th share is from the committed value at its point. */
  function Deviation(t: Transcript, c: Committee, i: nat): F
    requires i < |c.validators| && i < |t.shares|
  {
    Sub(t.shares[i], Mul(c.Key(i), Eval(Committed(t, c), c.Point(i))))
  }

  function Deviations(ts: seq<Transcript>, c: Committee, i: nat): (r: seq<F>)
    requires Uniform(ts) && i < |c.validators| && i < |ts[0].shares|
    ensures |r| == |ts|
  {
    seq(|ts|, k requires 0 <= k < |ts| => Deviation(ts[k], c, i))
  }

  /** (a + b) - (k u + k v) = (a - k u) + (b - k v) */
  lemma DeviationAlgebra(a: F, b: F, k: F, u: F, v: F)
    ensures Sub(Add(a, b), Mul(k, Add(u, v))) == Add(Sub(a, Mul(k, u)), Sub(b, Mul(k, v)))
  {
    hide Mul;
    MulAdd(k, u, v);
  }

  lemma DeviationOfSum(a: Transcript, b: Transcript, c: Committee, i: nat)
    requires SameShape(a, b) && i < |c.validators| && i < |a.shares|
    ensures Deviation(TranscriptAdd(a, b), c, i) == Add(Deviation(a, c, i), Deviation(b, c, i))
  {
    hide Mul, Eval, Add, Pow, Pow2;
    var x, t := c.Point(i), TranscriptAdd(a, b);
    var phi, psi := Committed(a, c), Committed(b, c);
    AddZero(0);
    EvalSum(phi, psi, Committed(t, c), x);
    DeviationAlgebra(a.shares[i], b.shares[i], c.Key(i), Eval(phi, x), Eval(psi, x));
  }

  lemma {:induction false} AggregateDeviation(ts: seq<Transcript>, c: Committee, i: nat)
    requires Uniform(ts) && i < |c.validators| && i < |ts[0].shares|
    ensures Deviation(AggregateOf(ts), c, i) == Sum(Deviations(ts, c, i))
  {
    hide Add, Deviation;
    if |ts| == 1 {
      assert Deviations(ts, c, i) == [Deviation(ts[0], c, i)];
      SumOne(Deviation(ts[0], c, i));
    } else {
      var n := |ts| - 1;
      AggregateDeviation(ts[..n], c, i);
      DeviationOfSum(AggregateOf(ts[..n]), ts[n], c, i);
      assert Deviations(ts, c, i)[..n] == Deviations(ts[..n], c, i);
    }
  }

  /** The aggregate of any transcripts of one shape, accepted or not, passes the full
      check exactly when for every validator the deviations of the dealers cancel. */
  lemma AggregateMatchesIff(ts: seq<Transcript>, c: Committee)
    requires Uniform(ts)
    ensures SharesMatch(AggregateOf(ts), c) <==>
            forall i :: 0 <= i < |c.validators| && i < |ts[0].shares| ==> Sum(Deviations(ts, c, i)) == 0
  {
    hide Mul, Eval, Sub, Sum, AggregateOf;
    var t := AggregateOf(ts);
    forall i | 0 <= i < |c.validators| && i < |ts[0].shares|
      ensures t.shares[i] == Mul(c.Key(i), Eval(Committed(t, c), c.Point(i))) <==> Sum(Deviations(ts, c, i)) == 0
    {
      AggregateDeviation(ts, c, i);
      SubZero(t.shares[i], Mul(c.Key(i), Eval(Committed(t, c), c.Point(i))));
    }
  }

  /** The constant commitment of the aggregate is the sum of the constant commitments. */
  lemma {:induction false} AggregateConstant(ts: seq<Transcript>)
    requires Uniform(ts)
    ensures AggregateOf(ts).coeffs != [] && AggregateOf(ts).coeffs[0] == Sum(Constants(ts))
  {
    hide Add;
    if |ts| == 1 {
      assert Constants(ts) == [ts[0].coeffs[0]];
      SumOne(ts[0].coeffs[0]);
    } else {
      var n := |ts| - 1;
      AggregateConstant(ts[..n]);
      assert Constants(ts)[..n] == Constants(ts[..n]);
    }
  }

  /** The aggregate of transcripts with matching proofs of knowledge has one too. */
  lemma {:induction false} AggregateKeepsProof(ts: seq<Transcript>)
    requires Uniform(ts) && forall i :: 0 <= i < |ts| ==> VerifyOptimistic(ts[i])
    ensures VerifyOptimistic(AggregateOf(ts))
  {
    hide Add, VerifyOptimistic;
    if |ts| > 1 {
      var n := |ts| - 1;
      AggregateKeepsProof(ts[..n]);
      ProofIsConstant(AggregateOf(ts[..n]));
      ProofIsConstant(ts[n]);
      ProofIsConstant(AggregateOf(ts));
    }
  }

  lemma ProofIsConstant(t: Transcript)
    requires t.coeffs != []
    ensures VerifyOptimistic(t) <==> t.sigma == t.coeffs[0]
  {
    hide Mul;
    MulZeroOne(t.coeffs[0]);
    MulZeroOne(t.sigma);
  }

  function Constants(ts: seq<Transcript>): (r: seq<G1>)
    requires forall i :: 0 <= i < |ts| ==> ts[i].coeffs != []
    ensures |r| == |ts|
  {
    seq(|ts|, i requires 0 <= i < |ts| => ts[i].coeffs[0])
  }

  datatype AggregationError = AggregationMismatch

  /** `verify_aggregation` against the transcripts received: the outcome of the full
      check is computed and dropped; only the constant commitments are compared. */
  method VerifyAggregation(t: Transcript, received: seq<Transcript>, c: Committee)
    returns (r: Result<nat, AggregationError>)
    requires c.Valid() && t.coeffs != []
    requires forall i :: 0 <= i < |received| ==> received[i].coeffs != []
    ensures r == if Sum(Constants(received)) == t.coeffs[0] then Ok(|received|) else Err(AggregationMismatch)
  {
    hide Add, SharesMatch;
    var _ := VerifyFull(t, c);
    var y := 0;
    var sharesTotal := 0;
    SumOne(0);
    for i := 0 to |received|
      invariant y == Sum(Constants(received)[..i]) && sharesTotal == i
    {
      SumUpTo(Constants(received), i);
      y := Add(y, received[i].coeffs[0]);
      sharesTotal := sharesTotal + 1;
    }
    assert Constants(received)[..|received|] == Constants(received);
    if y == t.coeffs[0] {
      return Ok(sharesTotal);
    }
    return Err(AggregationMismatch);
  }

  // ----- the aggregate as a sum -----

  function CoefficientAt(k: nat): Transcript -> G1 { (t: Transcript) => At(t.coeffs, k) }

  function ShareAt(i: nat): Transcript -> G2 { (t: Transcript) => At(t.shares, i) }

  function Proof(): Transcript -> G2 { (t: Transcript) => t.sigma }

  /** Every commitment, every share and the proof of the aggregate is the sum of those of
      all transcripts, whoever made them. */
  lemma {:induction false} AggregateParts(ts: seq<Transcript>)
    requires Uniform(ts)
    ensures forall k: nat :: At(AggregateOf(ts).coeffs, k) == Sum(Map(ts, CoefficientAt(k)))
    ensures forall i: nat :: At(AggregateOf(ts).shares, i) == Sum(Map(ts, ShareAt(i)))
    ensures AggregateOf(ts).sigma == Sum(Map(ts, Proof()))
  {
    hide Add;
    if |ts| == 1 {
      forall k: nat ensures At(ts[0].coeffs, k) == Sum(Map(ts, CoefficientAt(k))) { SumOfOne(ts, CoefficientAt(k)); }
      forall i: nat ensures At(ts[0].shares, i) == Sum(Map(ts, ShareAt(i))) { SumOfOne(ts, ShareAt(i)); }
      SumOfOne(ts, Proof());
    } else {
      var n := |ts| - 1;
      AggregateParts(ts[..n]);
      var init := AggregateOf(ts[..n]);
      forall k: nat ensures At(AggregateOf(ts).coeffs, k) == Sum(Map(ts, CoefficientAt(k))) {
        SumOfMore(ts, CoefficientAt(k));
        AddZero(0);
      }
      forall i: nat ensures At(AggregateOf(ts).shares, i) == Sum(Map(ts, ShareAt(i))) {
        SumOfMore(ts, ShareAt(i));
        AddZero(0);
      }
      SumOfMore(ts, Proof());
    }
  }

  lemma SumOfOne(ts: seq<Transcript>, f: Transcript -> F)
    requires |ts| == 1
    ensures Sum(Map(ts, f)) == f(ts[0])
  {
    hide Sum;
    assert Map(ts, f) == [f(ts[0])];
    SumOne(f(ts[0]));
  }

  lemma SumOfMore(ts: seq<Transcript>, f: Transcript -> F)
    requires ts != []
    ensures Sum(Map(ts, f)) == Add(Sum(Map(ts[..|ts| - 1], f)), f(ts[|ts| - 1]))
  {
    hide Add, Sum;
    var n := |ts| - 1;
    assert Map(ts, f) == Map(ts[..n], f) + [f(ts[n])];
    SumSnoc(Map(ts[..n], f), f(ts[n]));
  }

  /** So the aggregate does not depend on the order of the transcripts. */
  lemma AggregateReordered(ts: seq<Transcript>, us: seq<Transcript>)
    requires Uniform(ts) && multiset(ts) == multiset(us)
    ensures Uniform(us) && AggregateOf(us) == AggregateOf(ts)
  {
    hide Sum, AggregateOf, Map;
    UniformReordered(ts, us);
    AggregateParts(ts);
    AggregateParts(us);
    var a, b := AggregateOf(ts), AggregateOf(us);
    forall k | 0 <= k < |a.coeffs| ensures a.coeffs[k] == b.coeffs[k] {
      SumMapReordered(ts, us, CoefficientAt(k));
      assert At(a.coeffs, k) == At(b.coeffs, k);
    }
    forall i | 0 <= i < |a.shares| ensures a.shares[i] == b.shares[i] {
      SumMapReordered(ts, us, ShareAt(i));
      assert At(a.shares, i) == At(b.shares, i);
    }
    SumMapReordered(ts, us, Proof());
  }

  lemma UniformReordered(ts: seq<Transcript>, us: seq<Transcript>)
    requires Uniform(ts) && multiset(ts) == multiset(us)
    ensures Uniform(us) && SameShape(us[0], ts[0])
  {
    SameEntries(ts, us);
    assert ts[0] in us;
    forall i | 0 <= i < |us| ensures us[i].coeffs != [] && SameShape(us[i], ts[0]) {
      assert us[i] in ts;
    }
  }

  // ----- what validators do with an aggregate -----

  /** `decrypt_private_key_share` */
  function DecryptPrivateKeyShare(t: Transcript, dk: F, index: nat): G2
    requires index < |t.shares| && dk != 0
  {
    Mul(t.shares[index], Inv(dk))
  }

  /** `make_decryption_share_simple`, before its `unwrap`. */
  function MakeDecryptionShareSimple(t: Transcript, ct: Ciphertext, aad: Bytes, dk: F, index: nat, gInv: G1)
    : Result<ShareSimple, Error>
    requires index < |t.shares| && dk != 0
  {
    CreateSimple(index, dk, DecryptPrivateKeyShare(t, dk, index), ct, aad, gInv)
  }

  /** `refresh_decryption_share`, before its `unwrap`. */
  function RefreshDecryptionShare(t: Transcript, ct: Ciphertext, aad: Bytes, dk: F, index: nat, polynomial: Poly,
                                  domain: FftDomain): Result<ShareSimple, Error>
    requires index < |t.shares| && dk != 0
  {
    var current := DecryptPrivateKeyShare(t, dk, index);
    var refreshed := RefreshShare(G2_GENERATOR, domain.Element(index), polynomial, current);
    CreateSimple(index, dk, refreshed, ct, aad, G1_INVERSE)
  }

  /** `update_private_key_share_for_recovery` */
  function UpdatePrivateKeyShareForRecovery(t: Transcript, dk: F, index: nat, updates: seq<G2>): G2
    requires index < |t.shares| && dk != 0
  {
    UpdateShare(DecryptPrivateKeyShare(t, dk, index), updates)
  }

  /** Decryption undoes the raising to the decryption key, for any transcript. */
  lemma DecryptedTimesKey(t: Transcript, dk: F, index: nat)
    requires index < |t.shares| && dk != 0
    ensures Mul(DecryptPrivateKeyShare(t, dk, index), dk) == t.shares[index]
  {
    hide Mul;
    MulAssoc(t.shares[index], Inv(dk), dk);
    MulComm(Inv(dk), dk);
    MulZeroOne(t.shares[index]);
  }

  /** For any transcript and ciphertext: a decryption share is refused exactly for an
      ill-formed ciphertext; otherwise it names the validator and verifies. */
  lemma MadeShareExact(t: Transcript, ct: Ciphertext, aad: Bytes, dk: F, index: nat)
    requires index < |t.shares| && dk != 0
    ensures var s := MakeDecryptionShareSimple(t, ct, aad, dk, index, G1_INVERSE);
            && (s.Ok? <==> WellFormed(ct, aad))
            && (s.Err? ==> s.error == CiphertextVerificationFailed)
            && (s.Ok? ==>
                  && s.value.decrypterIndex == index
                  && VerifySimple(s.value, t.shares[index], Mul(G2_GENERATOR, dk), G2_GENERATOR, ct))
  {
    hide Mul, CreateSimple, WellFormed, VerifySimple, DecryptPrivateKeyShare;
    DecryptedTimesKey(t, dk, index);
    CreatedVerifies(index, dk, DecryptPrivateKeyShare(t, dk, index), ct, aad, G1_INVERSE);
  }

  /** The same for a refreshed share, which verifies against the key share raised by the
      polynomial's value at the validator's point. */
  lemma RefreshedShareExact(t: Transcript, ct: Ciphertext, aad: Bytes, dk: F, index: nat, polynomial: Poly,
                            domain: FftDomain)
    requires index < |t.shares| && dk != 0
    ensures var s := RefreshDecryptionShare(t, ct, aad, dk, index, polynomial, domain);
            var moved := Add(t.shares[index], Mul(Eval(polynomial, domain.Element(index)), dk));
            && (s.Ok? <==> WellFormed(ct, aad))
            && (s.Err? ==> s.error == CiphertextVerificationFailed)
            && (s.Ok? ==>
                  && s.value.decrypterIndex == index
                  && VerifySimple(s.value, moved, Mul(G2_GENERATOR, dk), G2_GENERATOR, ct))
  {
    hide Mul, Add, Eval, CreateSimple, WellFormed, VerifySimple, DecryptPrivateKeyShare, Pow;
    var z, y := DecryptPrivateKeyShare(t, dk, index), Eval(polynomial, domain.Element(index));
    DecryptedTimesKey(t, dk, index);
    GeneratorPower(y);
    MulComm(Add(z, y), dk);
    MulAdd(dk, z, y);
    MulComm(dk, z);
    MulComm(dk, y);
    CreatedVerifies(index, dk, Add(z, y), ct, aad, G1_INVERSE);
  }

  /** The validator's key is h to the decryption key. */
  ghost predicate OwnsKey(c: Committee, i: nat, dk: F) {
    i < |c.validators| && dk != 0 && c.Key(i) == Mul(G2_GENERATOR, dk)
  }

  /** A validator decrypts exactly the value of phi at its point. */
  lemma DecryptedShare(phi: Poly, c: Committee, i: nat, dk: F)
    requires phi != [] && OwnsKey(c, i, dk)
    ensures DecryptPrivateKeyShare(TranscriptOf(phi, c), dk, i) == Eval(phi, c.Point(i))
  {
    hide Mul, Eval, Pow;
    var y := Eval(phi, c.Point(i));
    MulZeroOne(dk);
    MulComm(dk, y);
    MulAssoc(y, dk, Inv(dk));
    MulZeroOne(y);
  }
}
