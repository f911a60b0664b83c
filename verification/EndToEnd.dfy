/** From the dealt transcripts to the decrypted message: any security threshold of
    validators rebuilds the secret the encryptor used, before and after any run of
    refreshes and recoveries. */
module EndToEnd {
  import opened Sequences
  import opened Field
  import opened Polynomials
  import opened Wrappers
  import opened EvaluationDomains
  import opened Sums
  import opened Groups
  import opened Lagrange
  import opened Ciphertexts
  import opened Decryption
  import opened Combine
  import opened Refresh
  import opened Lifecycle
  import opened Pvss
  import opened Dkg
  import opened DkgRuns

  /** A transcript that passes the full check, with one share per validator, no more
      commitments than the security threshold, and the node's final key as its constant
      commitment.  Nothing is asked of the transcripts that were dealt. */
  ghost predicate Ready(cfg: Config, node: Node, t: Transcript) {
    && cfg.Valid() && NodeValid(cfg, node)
    && 1 <= |t.coeffs| <= cfg.params.securityThreshold
    && |t.shares| == |cfg.committee.validators| && SharesMatch(t, cfg.committee)
    && t.coeffs[0] == FinalKey(cfg, node)
  }

  /** The domain points of the first n validators. */
  function Points(c: Committee): (r: seq<F>)
    ensures |r| == |c.validators|
  {
    seq(|c.validators|, i requires 0 <= i < |c.validators| => c.Point(i))
  }

  lemma PointsDistinct(cfg: Config)
    requires cfg.Valid()
    ensures Distinct(Points(cfg.committee))
  {
    hide Pow, Pow2;
    ElementsDistinct(cfg.committee.domain);
    var all, xs := cfg.committee.domain.Elements(), Points(cfg.committee);
    forall i, j | 0 <= i < j < |xs| ensures xs[i] != xs[j] {
      assert xs[i] == all[i] && xs[j] == all[j];
    }
  }

  /** The shares of such a transcript are those of one polynomial, given by its
      commitments, and the final key commits to the constant term. */
  lemma AggregateIsOnePolynomial(cfg: Config, node: Node, t: Transcript)
    requires Ready(cfg, node, t)
    ensures var phi := t.coeffs;
            && phi != [] && |phi| <= cfg.params.securityThreshold
            && t.shares == TranscriptOf(phi, cfg.committee).shares
            && FinalKey(cfg, node) == Mul(G1_GENERATOR, Eval(phi, 0))
  {
    hide Mul, Eval, Sum, Add, Pow, Pow2;
    var c, phi := cfg.committee, t.coeffs;
    forall i | 0 <= i < |c.validators| ensures t.shares[i] == Mul(c.Key(i), Eval(phi, c.Point(i))) {
      CommittedValue(t, c, c.Point(i));
    }
    EvalAtZero(phi);
    MulZeroOne(phi[0]);
  }

  /** A validator decrypts the value of that polynomial at its point. */
  lemma ShareOf(cfg: Config, node: Node, t: Transcript, i: nat, dk: F)
    requires Ready(cfg, node, t) && OwnsKey(cfg.committee, i, dk)
    ensures t.shares[i] == Mul(cfg.committee.Key(i), Eval(t.coeffs, cfg.committee.Point(i)))
    ensures DecryptPrivateKeyShare(t, dk, i) == Eval(t.coeffs, cfg.committee.Point(i))
  {
    hide Mul, Eval, Pow, Ready;
    ReadyIsValid(cfg, node, t);
    AggregateIsOnePolynomial(cfg, node, t);
    DecryptedShare(t.coeffs, cfg.committee, i, dk);
  }

  /** The validators `who` hold their decryption keys. */
  ghost predicate HoldKeys(c: Committee, who: seq<nat>, dks: seq<F>) {
    |dks| == |who| && forall i :: 0 <= i < |who| ==> OwnsKey(c, who[i], dks[i])
  }

  lemma PickedPoints(cfg: Config, who: seq<nat>)
    requires cfg.Valid() && DistinctIndices(who, |cfg.committee.validators|)
    ensures Distinct(Pick(Points(cfg.committee), who))
  {
    PointsDistinct(cfg);
    PickDistinct(Points(cfg.committee), who);
  }

  /** Shares that verify against the aggregate are right, whoever made them, and any
      security threshold of them combines to the encryptor's secret. */
  lemma VerifiedSharesCombine(cfg: Config, node: Node, t: Transcript, r: F, ct: Ciphertext, who: seq<nat>, dks: seq<F>,
                              shares: seq<ShareSimple>)
    requires Ready(cfg, node, t) && ct.commitment == Mul(G1_GENERATOR, r)
    requires DistinctIndices(who, |cfg.committee.validators|) && |who| >= cfg.params.securityThreshold
    requires HoldKeys(cfg.committee, who, dks) && |shares| == |who|
    requires forall i :: 0 <= i < |who| ==>
               VerifySimple(shares[i], t.shares[who[i]], cfg.committee.Key(who[i]), G2_GENERATOR, ct)
    ensures ShareCombineSimple(shares, Basis(Pick(Points(cfg.committee), who), 0)) ==
            EncryptorsSecret(FinalKey(cfg, node), r)
  {
    hide Mul, Eval, Basis, VerifySimple, Trim, ShareCombineSimple, Pow, Ready, Distinct, FinalKey;
    AggregateIsOnePolynomial(cfg, node, t);
    var phi, xs := t.coeffs, Pick(Points(cfg.committee), who);
    ReadyIsValid(cfg, node, t);
    PickedPoints(cfg, who);
    forall i | 0 <= i < |who| ensures shares[i].decryptionShare == Pairing(ct.commitment, Eval(phi, xs[i])) {
      MulComm(cfg.committee.Key(who[i]), Eval(phi, xs[i]));
      MulZeroOne(dks[i]);
      VerifySimpleExact(shares[i], Eval(phi, xs[i]), dks[i], ct);
    }
    SimpleCombines(phi, xs, ct.commitment, shares);
    SecretAlgebra(r, Eval(phi, 0));
  }

  lemma ReadyIsValid(cfg: Config, node: Node, t: Transcript)
    requires Ready(cfg, node, t)
    ensures cfg.Valid() && NodeValid(cfg, node) && |t.shares| == |cfg.committee.validators| && t.coeffs != []
  {
  }

  /** e(g^r, h^x) = e(g^x, h)^r */
  lemma SecretAlgebra(r: F, x: F)
    ensures Pairing(Mul(G1_GENERATOR, r), x) == EncryptorsSecret(Mul(G1_GENERATOR, x), r)
  {
    hide Mul;
    MulZeroOne(r);
    MulZeroOne(x);
    MulComm(r, x);
  }

  /** The shares the validators make from the aggregate verify against it. */
  lemma MadeSharesVerify(cfg: Config, node: Node, t: Transcript, ct: Ciphertext, aad: Bytes, i: nat, dk: F,
                         share: ShareSimple)
    requires Ready(cfg, node, t) && OwnsKey(cfg.committee, i, dk)
    requires MakeDecryptionShareSimple(t, ct, aad, dk, i, G1_INVERSE) == Ok(share)
    ensures VerifySimple(share, t.shares[i], cfg.committee.Key(i), G2_GENERATOR, ct)
  {
    hide Mul, Eval, VerifySimple, Pow, Ready, CheckCiphertextValidity, DecryptPrivateKeyShare;
    ReadyIsValid(cfg, node, t);
    ShareOf(cfg, node, t, i, dk);
    var y := Eval(t.coeffs, cfg.committee.Point(i));
    MulComm(cfg.committee.Key(i), y);
    MulZeroOne(dk);
    VerifySimpleExact(share, y, dk, ct);
  }

  /** What the validators `who` make of the ciphertext, each with its key. */
  function SharesFrom(t: Transcript, ct: Ciphertext, aad: Bytes, who: seq<nat>, dks: seq<F>)
    : (r: seq<Result<ShareSimple, Error>>)
    requires |dks| == |who| && forall i :: 0 <= i < |who| ==> who[i] < |t.shares| && dks[i] != 0
    ensures |r| == |who|
  {
    seq(|who|, i requires 0 <= i < |who| => MakeDecryptionShareSimple(t, ct, aad, dks[i], who[i], G1_INVERSE))
  }

  /** For an encryption every key holder does produce a share; for an ill-formed
      ciphertext none does. */
  lemma SharesAreMade(t: Transcript, ct: Ciphertext, aad: Bytes, who: seq<nat>, dks: seq<F>)
    requires |dks| == |who| && forall i :: 0 <= i < |who| ==> who[i] < |t.shares| && dks[i] != 0
    ensures WellFormed(ct, aad) ==> AllOk(SharesFrom(t, ct, aad, who, dks))
    ensures !WellFormed(ct, aad) ==>
              forall r :: r in SharesFrom(t, ct, aad, who, dks) ==> r == Err(CiphertextVerificationFailed)
  {
    hide MakeDecryptionShareSimple, WellFormed;
    forall i | 0 <= i < |who|
      ensures var s := SharesFrom(t, ct, aad, who, dks)[i];
              if WellFormed(ct, aad) then s.Ok? else s == Err(CiphertextVerificationFailed)
    {
      MadeShareExact(t, ct, aad, dks[i], who[i]);
    }
  }

  /** End to end: with any aggregate that passes the full check, any security threshold of
      validators makes shares of any message encrypted to the final key, and the shares
      decrypt it. */
  lemma AnyThresholdDecrypts(cfg: Config, node: Node, t: Transcript, message: Bytes, aad: Bytes, r: F,
                             who: seq<nat>, dks: seq<F>)
    requires Ready(cfg, node, t)
    requires DistinctIndices(who, |cfg.committee.validators|) && |who| >= cfg.params.securityThreshold
    requires HoldKeys(cfg.committee, who, dks)
    ensures var ct := Encrypt(message, aad, FinalKey(cfg, node), r);
            var made := SharesFrom(t, ct, aad, who, dks);
            AllOk(made) &&
            var secret := ShareCombineSimple(Collect(made), Basis(Pick(Points(cfg.committee), who), 0));
            && secret == EncryptorsSecret(FinalKey(cfg, node), r)
            && CheckedDecryptWithSharedSecret(ct, aad, G1_INVERSE, secret) == Ok(message)
  {
    hide Mul, Basis, VerifySimple, ShareCombineSimple, Ready, FinalKey, MakeDecryptionShareSimple, WellFormed,
         EncryptorsSecret, CheckedDecryptWithSharedSecret;
    ReadyIsValid(cfg, node, t);
    var ct := Encrypt(message, aad, FinalKey(cfg, node), r);
    EncryptIsWellFormed(message, aad, FinalKey(cfg, node), r);
    SharesAreMade(t, ct, aad, who, dks);
    var shares := Collect(SharesFrom(t, ct, aad, who, dks));
    forall i | 0 <= i < |who|
      ensures VerifySimple(shares[i], t.shares[who[i]], cfg.committee.Key(who[i]), G2_GENERATOR, ct)
    {
      MadeSharesVerify(cfg, node, t, ct, aad, who[i], dks[i], shares[i]);
    }
    VerifiedSharesCombine(cfg, node, t, r, ct, who, dks, shares);
    DecryptEncrypt(message, aad, FinalKey(cfg, node), r);
  }

  // ----- refreshed and recovered shares -----

  /** What a validator's refreshed share is: e(U, Z_i) times e(U, h)^delta(x_i). */
  lemma RefreshedShare(cfg: Config, node: Node, t: Transcript, ct: Ciphertext, aad: Bytes, i: nat, dk: F, delta: Poly,
                       share: ShareSimple)
    requires Ready(cfg, node, t) && OwnsKey(cfg.committee, i, dk)
    requires RefreshDecryptionShare(t, ct, aad, dk, i, delta, cfg.committee.domain) == Ok(share)
    ensures var x := cfg.committee.Point(i);
            && share.decryptionShare ==
               Pairing(ct.commitment, Eval(PolyAdd(t.coeffs, delta), x))
            && share.validatorChecksum == Mul(ct.commitment, Inv(dk))
  {
    hide Mul, Eval, Pow, DecryptPrivateKeyShare, CheckCiphertextValidity, Add, PolyAdd, Ready;
    ReadyIsValid(cfg, node, t);
    ShareOf(cfg, node, t, i, dk);
    var phi, x := t.coeffs, cfg.committee.Point(i);
    EvalAdd(phi, delta, x);
    GeneratorPower(Eval(delta, x));
  }

  /** Refreshed shares of any security threshold of validators combine to the same
      secret, for every dealer's choice of refresh polynomial. */
  lemma RefreshedSharesCombine(cfg: Config, node: Node, t: Transcript, r: F, ct: Ciphertext, aad: Bytes, random: Poly,
                               who: seq<nat>, dks: seq<F>, shares: seq<ShareSimple>)
    requires Ready(cfg, node, t) && ct.commitment == Mul(G1_GENERATOR, r)
    requires 1 <= |random| <= cfg.params.securityThreshold
    requires DistinctIndices(who, |cfg.committee.validators|) && |who| >= cfg.params.securityThreshold
    requires HoldKeys(cfg.committee, who, dks) && |shares| == |who|
    requires forall i :: 0 <= i < |who| ==>
               RefreshDecryptionShare(t, ct, aad, dks[i], who[i], VanishingAt(0, random),
                                      cfg.committee.domain) == Ok(shares[i])
    ensures ShareCombineSimple(shares, Basis(Pick(Points(cfg.committee), who), 0)) ==
            EncryptorsSecret(FinalKey(cfg, node), r)
  {
    hide Mul, Eval, Basis, Trim, ShareCombineSimple, Pow, Ready, Distinct, FinalKey, VanishingAt,
         RefreshDecryptionShare, PolyAdd;
    ReadyIsValid(cfg, node, t);
    AggregateIsOnePolynomial(cfg, node, t);
    PickedPoints(cfg, who);
    VanishingAtCorrect(0, random);
    var phi, delta := t.coeffs, VanishingAt(0, random);
    var g, xs := PolyAdd(phi, delta), Pick(Points(cfg.committee), who);
    forall i | 0 <= i < |who| ensures shares[i].decryptionShare == Pairing(ct.commitment, Eval(g, xs[i])) {
      RefreshedShare(cfg, node, t, ct, aad, who[i], dks[i], delta, shares[i]);
    }
    SimpleCombines(g, xs, ct.commitment, shares);
    EvalAdd(phi, delta, 0);
    AddZero(Eval(phi, 0));
    SecretAlgebra(r, Eval(phi, 0));
  }

  /** A refreshed share no longer verifies against the aggregate, unless U or the refresh
      polynomial vanishes there. */
  lemma RefreshedShareVerifiesIff(cfg: Config, node: Node, t: Transcript, ct: Ciphertext, aad: Bytes, i: nat, dk: F,
                                  delta: Poly, share: ShareSimple)
    requires Ready(cfg, node, t) && OwnsKey(cfg.committee, i, dk)
    requires RefreshDecryptionShare(t, ct, aad, dk, i, delta, cfg.committee.domain) == Ok(share)
    ensures VerifySimple(share, t.shares[i], cfg.committee.Key(i), G2_GENERATOR, ct)
            <==> ct.commitment == 0 || Eval(delta, cfg.committee.Point(i)) == 0
  {
    hide Mul, Eval, Pow, VerifySimple, Add, PolyAdd, Ready, RefreshDecryptionShare;
    AggregateIsOnePolynomial(cfg, node, t);
    RefreshedShare(cfg, node, t, ct, aad, i, dk, delta, share);
    var phi, x, u := t.coeffs, cfg.committee.Point(i), ct.commitment;
    var y, z := Eval(phi, x), Eval(delta, x);
    MulComm(cfg.committee.Key(i), y);
    GeneratorPower(dk);
    VerifySimpleExact(share, y, dk, ct);
    EvalAdd(phi, delta, x);
    MulAdd(u, y, z);
    AddZero(Mul(u, y));
    AddCancel(Mul(u, y), Mul(u, z), 0);
    MulNonZero(u, z);
  }

  /** A validator's updated share lies on the shared polynomial plus the dealers' ones. */
  lemma UpdatedFromAggregate(cfg: Config, node: Node, t: Transcript, xs: seq<F>, xr: F, randoms: seq<Poly>,
                             k: nat, i: nat, dk: F, received: seq<G2>)
    requires Ready(cfg, node, t) && OwnsKey(cfg.committee, i, dk)
    requires k < |xs| && xs[k] == cfg.committee.Point(i)
    requires forall j :: 0 <= j < |randoms| ==> randoms[j] != []
    requires multiset(received) == multiset(UpdatesFor(DealUpdates(xs, G2_GENERATOR, xr, randoms), k))
    ensures UpdatePrivateKeyShareForRecovery(t, dk, i, received) ==
            Mul(G2_GENERATOR, Eval(PolyAdd(t.coeffs, SumOfVanishing(xr, randoms)), cfg.committee.Point(i)))
  {
    hide Mul, Eval, Pow, Ready, DealUpdates, UpdateShare, DecryptPrivateKeyShare, PolyAdd, SumOfVanishing;
    ReadyIsValid(cfg, node, t);
    ShareOf(cfg, node, t, i, dk);
    GeneratorPower(Eval(t.coeffs, xs[k]));
    UpdatedShareOnSum(t.coeffs, xs, G2_GENERATOR, xr, randoms, k, received);
  }

  /** Recovery over an aggregate: from the updated shares of any security threshold of
      validators, interpolation at x_r gives the value of the shared polynomial there. */
  lemma RecoveredFromAggregate(cfg: Config, node: Node, t: Transcript, xr: F, randoms: seq<Poly>, who: seq<nat>,
                               dks: seq<F>, received: seq<seq<G2>>, updated: seq<G2>)
    requires Ready(cfg, node, t)
    requires DistinctIndices(who, |cfg.committee.validators|) && |who| >= cfg.params.securityThreshold
    requires HoldKeys(cfg.committee, who, dks) && |received| == |updated| == |who|
    requires forall k :: 0 <= k < |randoms| ==> 1 <= |randoms[k]| <= cfg.params.securityThreshold
    requires forall i :: 0 <= i < |who| ==>
               && multiset(received[i]) ==
                  multiset(UpdatesFor(DealUpdates(Pick(Points(cfg.committee), who), G2_GENERATOR, xr, randoms), i))
               && updated[i] == UpdatePrivateKeyShareForRecovery(t, dks[i], who[i], received[i])
    ensures RecoverShare(xr, Pick(Points(cfg.committee), who), updated) == Eval(t.coeffs, xr)
  {
    hide Mul, Eval, Trim, Pow, Ready, Distinct, DealUpdates, UpdateShare, RecoverShare, TranscriptOf,
         DecryptPrivateKeyShare;
    ReadyIsValid(cfg, node, t);
    AggregateIsOnePolynomial(cfg, node, t);
    PickedPoints(cfg, who);
    var phi, xs := t.coeffs, Pick(Points(cfg.committee), who);
    forall i | 0 <= i < |who|
      ensures updated[i] == UpdateShare(Mul(G2_GENERATOR, Eval(phi, xs[i])), received[i])
    {
      ShareOf(cfg, node, t, who[i], dks[i]);
      GeneratorPower(Eval(phi, xs[i]));
    }
    RecoveryIsExact(phi, cfg.params.securityThreshold, xs, G2_GENERATOR, xr, randoms, updated, received);
    GeneratorPower(Eval(phi, xr));
  }

  // ----- which aggregates are ready -----

  /** Every aggregation that a reachable node accepts and that passes the full check is
      ready, whoever made it, and stays so when it is applied. */
  lemma AcceptedAggregateIsReady(cfg: Config, events: seq<Event>, node: Node, sender: ExternalValidator,
                                 t: Transcript, key: G1)
    requires cfg.Valid() && DistinctAddresses(cfg) && DkgRuns.Run(cfg, INITIAL, events, node) && NodeValid(cfg, node)
    requires 1 <= |t.coeffs| <= cfg.params.securityThreshold
    requires |t.shares| == |cfg.committee.validators| && SharesMatch(t, cfg.committee)
    requires VerifyOutcome(cfg, node, sender, Aggregate(t, key)) == Ok(())
    ensures Ready(cfg, node, t)
    ensures Ready(cfg, After(cfg, node, FromChain(sender, Aggregate(t, key))), t)
  {
    hide DkgRuns.Run, FinalKey, DistinctAddresses, SharesMatch, VerifyOutcome;
    AggregateAcceptedIff(cfg, events, node, sender, t, key);
    SuccessKeepsKey(cfg, node);
  }

  /** Transcripts of one shape that a node can aggregate, with one share per validator
      and no more commitments than the security threshold. */
  ghost predicate Aggregable(cfg: Config, node: Node) {
    && cfg.Valid() && NodeValid(cfg, node) && Uniform(Received(cfg, node))
    && |Received(cfg, node)[0].shares| == |cfg.committee.validators|
    && |Received(cfg, node)[0].coeffs| <= cfg.params.securityThreshold
  }

  function OwnAggregate(cfg: Config, node: Node): Transcript
    requires Aggregable(cfg, node)
  {
    AggregateOf(Received(cfg, node))
  }

  /** The node can aggregate what it received, and the results apply to the aggregate. */
  ghost predicate ReadyToUse(cfg: Config, node: Node) {
    Aggregable(cfg, node) && Ready(cfg, node, OwnAggregate(cfg, node))
  }

  /** The node's own aggregate is ready exactly when it passes the full check, that is,
      when the deviations of the dealers cancel for every validator.  No dealer has to be
      honest. */
  lemma OwnAggregateReadyIff(cfg: Config, node: Node)
    requires Aggregable(cfg, node)
    ensures Ready(cfg, node, OwnAggregate(cfg, node)) <==> SharesMatch(OwnAggregate(cfg, node), cfg.committee)
    ensures Ready(cfg, node, OwnAggregate(cfg, node)) <==>
            forall i :: 0 <= i < |cfg.committee.validators| ==>
              Sum(Deviations(Received(cfg, node), cfg.committee, i)) == 0
  {
    hide Sum, SharesMatch, AggregateOf, Deviations;
    AggregateConstant(Received(cfg, node));
    AggregateMatchesIff(Received(cfg, node), cfg.committee);
  }

  /** After verified deals, an own aggregate that passes the full check is the transcript
      of a polynomial, with its proof of knowledge. */
  lemma CheckedAggregateIsDealt(cfg: Config, events: seq<Event>, node: Node)
    requires cfg.Valid() && DistinctAddresses(cfg) && DkgRuns.Run(cfg, INITIAL, events, node)
    requires Aggregable(cfg, node) && SharesMatch(OwnAggregate(cfg, node), cfg.committee)
    ensures OwnAggregate(cfg, node) == TranscriptOf(OwnAggregate(cfg, node).coeffs, cfg.committee)
  {
    hide DkgRuns.Run, DistinctAddresses, SharesMatch, AggregateOf, VerifyOptimistic, TranscriptOf;
    RunKeepsProofs(cfg, INITIAL, events, node);
    EntriesFrom(node.vss, |cfg.committee.validators|);
    var ts := Received(cfg, node);
    forall i | 0 <= i < |ts| ensures VerifyOptimistic(ts[i]) {
      assert ts[i] in node.vss.Values;
    }
    AggregateKeepsProof(ts);
    AcceptedIsHonest(AggregateOf(ts), cfg.committee);
  }

  /** Every deal of the run is the transcript of a polynomial with n coefficients. */
  ghost predicate HonestDeals(cfg: Config, events: seq<Event>, n: nat) {
    forall e :: e in events && e.FromChain? && e.payload.Deal? ==>
      && |e.payload.pvss.coeffs| == n && n > 0
      && e.payload.pvss == TranscriptOf(e.payload.pvss.coeffs, cfg.committee)
  }

  /** A node that applied verified deals of honest dealers, at least one, can aggregate
      them, and everything above holds for the aggregate. */
  lemma HonestRunIsReady(cfg: Config, events: seq<Event>, node: Node, n: nat)
    requires cfg.Valid() && DistinctAddresses(cfg) && DkgRuns.Run(cfg, INITIAL, events, node)
    requires HonestDeals(cfg, events, n) && n <= cfg.params.securityThreshold
    requires node.vss != map[]
    ensures ReadyToUse(cfg, node)
    ensures OwnAggregate(cfg, node) == TranscriptOf(OwnAggregate(cfg, node).coeffs, cfg.committee)
  {
    hide DistinctAddresses, DkgRuns.Run, TranscriptOf, PhaseInvariant, AggregateOf, Ready, SharesMatch,
         VerifyOptimistic;
    ReachableHasPhase(cfg, events, node);
    RunCollectsDeals(cfg, INITIAL, events, node);
    var ts := Received(cfg, node);
    EntriesFrom(node.vss, |cfg.committee.validators|);
    ReceivedCount(cfg, node);
    forall i | 0 <= i < |ts|
      ensures |ts[i].coeffs| == n && n > 0 && ts[i] == TranscriptOf(ts[i].coeffs, cfg.committee)
    {
      assert ts[i] in node.vss.Values;
      var k :| k in node.vss && node.vss[k] == ts[i];
      assert (k, ts[i]) in Pairs(node.vss);
      var e :| e in events && e.FromChain? && e.payload.Deal? && e.payload.pvss == ts[i];
    }
    AggregateOfAccepted(ts, cfg.committee);
    AcceptedIsHonest(AggregateOf(ts), cfg.committee);
    OwnAggregateReadyIff(cfg, node);
  }

  // ----- sessions that exist -----

  /** Where one deal is enough, the deal of any listed validator leads to the dealt phase
      and to an aggregate. */
  lemma OneDealSession(cfg: Config, i: nat, phi: Poly)
    requires cfg.Valid() && DistinctAddresses(cfg) && cfg.MinimumShares() <= 1
    requires i < |cfg.committee.validators|
    requires 1 <= |phi| <= cfg.params.securityThreshold && |phi| <= cfg.committee.domain.Size()
    ensures var deal := FromChain(cfg.committee.validators[i].validator, Deal(TranscriptOf(phi, cfg.committee)));
            var node := After(cfg, INITIAL, deal);
            DkgRuns.Run(cfg, INITIAL, [deal], node) && node.state.Dealt? && ReadyToUse(cfg, node)
  {
    hide Mul, Eval, VerifyOptimistic, TranscriptOf, Ready, Aggregable;
    var v := cfg.committee.validators[i].validator;
    var t := TranscriptOf(phi, cfg.committee);
    assert t.coeffs == phi by { DealtCoefficients(phi, cfg.committee); }
    var deal := FromChain(v, Deal(t));
    AcceptedIsHonest(t, cfg.committee);
    assert cfg.committee.validators[i] in cfg.committee.validators;
    VerifiedDeal(cfg, INITIAL, v, t);
    var node := After(cfg, INITIAL, deal);
    assert [deal][1..] == [];
    HonestRunIsReady(cfg, [deal], node, |phi|);
  }

  lemma DealtCoefficients(phi: Poly, c: Committee)
    requires phi != []
    ensures TranscriptOf(phi, c).coeffs == phi
  {
  }

  /** A session of one validator with threshold one, for any secret and any decryption
      key: one honest deal leads to the dealt phase and to an aggregate. */
  lemma SingleValidatorSession(s: F, dk: F, address: string)
    requires dk != 0
    ensures var v := ExternalValidator(address, Mul(G2_GENERATOR, dk));
            var cfg := Config(Params(0, 1, 1), Committee(MakeValidators([v]), FftDomain(0, 1)), 0);
            && cfg.Valid() && DistinctAddresses(cfg) && OwnsKey(cfg.committee, 0, dk)
            && var deal := FromChain(v, Deal(TranscriptOf([s], cfg.committee)));
               var node := After(cfg, INITIAL, deal);
               DkgRuns.Run(cfg, INITIAL, [deal], node) && node.state.Dealt? && ReadyToUse(cfg, node)
  {
    hide Mul, Eval, VerifyOptimistic, TranscriptOf, ReadyToUse, After, DkgRuns.Run;
    var v := ExternalValidator(address, Mul(G2_GENERATOR, dk));
    var cfg := Config(Params(0, 1, 1), Committee(MakeValidators([v]), FftDomain(0, 1)), 0);
    PowOne(1);
    OneDealSession(cfg, 0, [s]);
  }

  /** Two validators, both needed, over the domain {1, -1}. */
  function PairConfig(v: ExternalValidator, w: ExternalValidator): Config {
    Config(Params(0, 2, 2), Committee(MakeValidators([v, w]), FftDomain(1, Neg(1))), 0)
  }

  lemma PairIsValid(v: ExternalValidator, w: ExternalValidator)
    requires P > 2
    ensures PairConfig(v, w).Valid() && PairConfig(v, w).committee.domain.Size() == 2
    ensures |PairConfig(v, w).committee.validators| == 2
  {
    hide Mul;
    MinusOneSquared();
  }

  /** A session of two validators with threshold two, for any dealt line and any keys. */
  lemma PairSession(s: F, slope: F, v: ExternalValidator, w: ExternalValidator, dk: F)
    requires P > 2 && v.address != w.address && dk != 0 && v.encryptionKey == Mul(G2_GENERATOR, dk)
    ensures var cfg := PairConfig(v, w);
            && cfg.Valid() && DistinctAddresses(cfg) && OwnsKey(cfg.committee, 0, dk) && cfg.committee.Point(0) == 1
            && var deal := FromChain(v, Deal(TranscriptOf([s, slope], cfg.committee)));
               var node := After(cfg, INITIAL, deal);
               DkgRuns.Run(cfg, INITIAL, [deal], node) && node.state.Dealt? && ReadyToUse(cfg, node)
  {
    hide Mul, Eval, VerifyOptimistic, TranscriptOf, ReadyToUse, After, DkgRuns.Run;
    var cfg := PairConfig(v, w);
    PairIsValid(v, w);
    OneDealSession(cfg, 0, [s, slope]);
  }

  lemma MinusOneSquared()
    ensures Pow(Neg(1), 2) == 1 && Pow(Neg(1), 1) == Neg(1)
  {
    hide Mul;
    PowTwo(Neg(1));
    MulMinusOne(Neg(1));
    MulZeroOne(Neg(1));
  }

  /** In that session the share of the first validator, refreshed with the polynomial x,
      does not verify, for any message. */
  lemma RefreshedShareExample(s: F, slope: F, v: ExternalValidator, w: ExternalValidator, dk: F,
                              message: Bytes, aad: Bytes)
    requires P > 2 && v.address != w.address && dk != 0 && v.encryptionKey == Mul(G2_GENERATOR, dk)
    ensures var cfg := PairConfig(v, w);
            cfg.Valid() && DistinctAddresses(cfg) &&
            var node := After(cfg, INITIAL, FromChain(v, Deal(TranscriptOf([s, slope], cfg.committee))));
            ReadyToUse(cfg, node) &&
            var ct := Encrypt(message, aad, FinalKey(cfg, node), 1);
            var share := RefreshDecryptionShare(OwnAggregate(cfg, node), ct, aad, dk, 0, VanishingAt(0, [0, 1]),
                                                cfg.committee.domain);
            share.Ok? && !VerifySimple(share.value, OwnAggregate(cfg, node).shares[0], cfg.committee.Key(0),
                                       G2_GENERATOR, ct)
  {
    hide Mul, Eval, VerifySimple, TranscriptOf, Ready, After, DkgRuns.Run, FinalKey, AggregateOf, VanishingAt,
         CheckCiphertextValidity;
    PairSession(s, slope, v, w, dk);
    var cfg := PairConfig(v, w);
    DealtCoefficients([s, slope], cfg.committee);
    var node := After(cfg, INITIAL, FromChain(v, Deal(TranscriptOf([s, slope], cfg.committee))));
    ReadyIsValid(cfg, node, OwnAggregate(cfg, node));
    var ct := Encrypt(message, aad, FinalKey(cfg, node), 1);
    EncryptIsValid(message, aad, FinalKey(cfg, node), 1);
    var delta := VanishingAt(0, [0, 1]);
    var share := RefreshDecryptionShare(OwnAggregate(cfg, node), ct, aad, dk, 0, delta, cfg.committee.domain);
    RefreshedShareVerifiesIff(cfg, node, OwnAggregate(cfg, node), ct, aad, 0, dk, delta, share.value);
    LineAtOne();
    MulZeroOne(1);
  }

  lemma LineAtOne()
    ensures Eval(VanishingAt(0, [0, 1]), 1) == 1
  {
    hide Mul;
    var poly := [0, 1];
    assert poly[1..] == [1];
    EvalConstant(1, 1);
    EvalAtZero(poly);
    VanishingIsOnto(0, poly);
    MulZeroOne(1);
  }

  /** Two dealers whose transcripts both fail the full check: the first validator's share
      is one too large in the first and one too small in the second.  Their aggregate is
      ready all the same. */
  lemma CancellingDealers(f: Poly, g: Poly, v: ExternalValidator, w: ExternalValidator)
    requires P > 2 && v.address != w.address && |f| == |g| == 2
    ensures var cfg := PairConfig(v, w);
            var (t0, t1) := CancellingTranscripts(f, g, cfg.committee);
            var deals := [FromChain(v, Deal(t0)), FromChain(w, Deal(t1))];
            && cfg.Valid() && DistinctAddresses(cfg)
            && !SharesMatch(t0, cfg.committee) && !SharesMatch(t1, cfg.committee)
            && exists node :: DkgRuns.Run(cfg, INITIAL, deals, node) && ReadyToUse(cfg, node)
  {
    hide Pow2, Pow, CancellingTranscripts, SharesMatch, DkgRuns.Run, AggregateOf, Ready, VerifyOptimistic,
         Received, DistinctAddresses;
    var cfg := PairConfig(v, w);
    PairIsValid(v, w);
    var (t0, t1) := CancellingTranscripts(f, g, cfg.committee);
    CancellingTranscriptsFail(f, g, cfg.committee);
    TwoDeals(cfg, v, w, t0, t1);
    var node := Dkg.Node(map[0 := t0, 1 := t1], Dealt);
    TwoReceived(cfg, t0, t1);
    CancellingAggregate(f, g, cfg.committee);
    OwnAggregateReadyIff(cfg, node);
  }

  lemma TwoReceived(cfg: Config, t0: Transcript, t1: Transcript)
    requires |cfg.committee.validators| == 2
    ensures Received(cfg, Dkg.Node(map[0 := t0, 1 := t1], Dealt)) == [t0, t1]
  {
    var vss := map[0 := t0, 1 := t1];
    assert Entries(vss, 0) == [];
    assert Entries(vss, 1) == [t0];
  }

  /** The transcripts of f and g with one added to and subtracted from the first share. */
  function CancellingTranscripts(f: Poly, g: Poly, c: Committee): (Transcript, Transcript)
    requires f != [] && g != [] && c.validators != []
  {
    var s, t := TranscriptOf(f, c), TranscriptOf(g, c);
    (s.(shares := s.shares[0 := Add(s.shares[0], 1)]), t.(shares := t.shares[0 := Sub(t.shares[0], 1)]))
  }

  lemma CancellingTranscriptsFail(f: Poly, g: Poly, c: Committee)
    requires c.Valid() && c.validators != [] && 1 <= |f| == |g| <= c.domain.Size()
    ensures var (t0, t1) := CancellingTranscripts(f, g, c);
            && !SharesMatch(t0, c) && !SharesMatch(t1, c)
            && t0.coeffs == f && t1.coeffs == g && |t0.shares| == |t1.shares| == |c.validators|
            && VerifyOptimistic(t0) && VerifyOptimistic(t1)
  {
    hide Mul, Eval, TranscriptOf, VerifyOptimistic, Pow, Pow2, SharesMatch;
    var s, t := TranscriptOf(f, c), TranscriptOf(g, c);
    DealtCoefficients(f, c);
    DealtCoefficients(g, c);
    AcceptedIsHonest(s, c);
    AcceptedIsHonest(t, c);
    AlteredShareFails(s, c, Add(s.shares[0], 1));
    AlteredShareFails(t, c, Sub(t.shares[0], 1));
    var (t0, t1) := CancellingTranscripts(f, g, c);
    ProofIsConstant(s);
    ProofIsConstant(t);
    ProofIsConstant(t0);
    ProofIsConstant(t1);
  }

  lemma CancellingAggregate(f: Poly, g: Poly, c: Committee)
    requires c.Valid() && c.validators != [] && 1 <= |f| == |g| <= c.domain.Size()
    ensures var (t0, t1) := CancellingTranscripts(f, g, c);
            Uniform([t0, t1]) && SharesMatch(AggregateOf([t0, t1]), c)
  {
    hide Mul, Eval, Pow, Pow2, SharesMatch;
    var s, t := TranscriptOf(f, c), TranscriptOf(g, c);
    var (t0, t1) := CancellingTranscripts(f, g, c);
    TranscriptOfSum(f, g, c);
    assert [t0, t1][..1] == [t0];
    assert AggregateOf([t0]) == t0;
    assert TranscriptAdd(t0, t1).shares == TranscriptAdd(s, t).shares;
    assert AggregateOf([t0, t1]) == TranscriptOf(AddAll(f, g), c);
    AcceptedIsHonest(AggregateOf([t0, t1]), c);
  }

  /** A node that takes a second deal is still in the dealt phase. */
  lemma TwoDeals(cfg: Config, v: ExternalValidator, w: ExternalValidator, t0: Transcript, t1: Transcript)
    requires cfg == PairConfig(v, w) && cfg.Valid() && v.address != w.address
    requires t0.coeffs != [] && t1.coeffs != [] && VerifyOptimistic(t0) && VerifyOptimistic(t1)
    ensures DistinctAddresses(cfg)
    ensures DkgRuns.Run(cfg, INITIAL, [FromChain(v, Deal(t0)), FromChain(w, Deal(t1))],
                        Dkg.Node(map[0 := t0, 1 := t1], Dealt))
  {
    hide VerifyOptimistic, DkgRuns.Run;
    var d0, d1 := FromChain(v, Deal(t0)), FromChain(w, Deal(t1));
    assert cfg.committee.validators == [Validator(v, 0), Validator(w, 1)];
    assert [Validator(v, 0), Validator(w, 1)][1..] == [Validator(w, 1)];
    assert PositionOf(cfg.committee.validators, v) == Some(0);
    assert PositionOf(cfg.committee.validators, w) == Some(1);
    VerifiedDeal(cfg, INITIAL, v, t0);
    var middle := Dkg.Node(map[0 := t0], Dealt);
    assert After(cfg, INITIAL, d0) == middle;
    VerifiedDeal(cfg, middle, w, t1);
    assert map[0 := t0][1 := t1] == map[0 := t0, 1 := t1];
    RunOfTwo(cfg, d0, d1);
  }

  lemma RunOfTwo(cfg: Config, d0: Event, d1: Event)
    requires cfg.Valid() && Verified(cfg, INITIAL, d0) && Verified(cfg, After(cfg, INITIAL, d0), d1)
    ensures DkgRuns.Run(cfg, INITIAL, [d0, d1], After(cfg, After(cfg, INITIAL, d0), d1))
  {
    hide Verified, After;
    VerifiedIsValid(cfg, INITIAL, d0);
    var middle := After(cfg, INITIAL, d0);
    VerifiedIsValid(cfg, middle, d1);
    assert [d0, d1][1..] == [d1] && [d1][1..] == [];
    assert DkgRuns.Run(cfg, After(cfg, middle, d1), [], After(cfg, middle, d1));
    assert DkgRuns.Run(cfg, middle, [d1], After(cfg, middle, d1));
  }

  // ----- with the life cycle in between -----

  ghost predicate AllHoldKeys(c: Committee, dks: seq<F>) {
    |dks| == |c.validators| && forall i :: 0 <= i < |dks| ==> OwnsKey(c, i, dks[i])
  }

  /** The private key shares that all validators decrypt from the aggregate. */
  ghost function InitialHolders(cfg: Config, node: Node, t: Transcript, dks: seq<F>): State
    requires Ready(cfg, node, t) && AllHoldKeys(cfg.committee, dks)
  {
    State(Points(cfg.committee),
          seq(|dks|, i requires 0 <= i < |dks| => DecryptPrivateKeyShare(t, dks[i], i)))
  }

  lemma InitialShare(cfg: Config, node: Node, t: Transcript, dks: seq<F>, i: nat)
    requires Ready(cfg, node, t) && AllHoldKeys(cfg.committee, dks) && i < |dks|
    ensures InitialHolders(cfg, node, t, dks).shares[i] ==
            Mul(G2_GENERATOR, Eval(Trim(t.coeffs), Points(cfg.committee)[i]))
  {
    hide Mul, Eval, Trim, Pow, Distinct, DecryptPrivateKeyShare, Ready;
    ShareOf(cfg, node, t, i, dks[i]);
    var phi := t.coeffs;
    EvalTrim(phi, Points(cfg.committee)[i]);
    MulZeroOne(Eval(phi, Points(cfg.committee)[i]));
  }

  lemma InitialSharesOf(cfg: Config, node: Node, t: Transcript, dks: seq<F>)
    requires Ready(cfg, node, t) && AllHoldKeys(cfg.committee, dks)
    ensures SharesOf(InitialHolders(cfg, node, t, dks), Trim(t.coeffs),
                     cfg.params.securityThreshold, G2_GENERATOR)
  {
    hide Mul, Eval, Trim, Ready, Distinct, DecryptPrivateKeyShare, Points, AllHoldKeys;
    ReadyIsValid(cfg, node, t);
    AggregateIsOnePolynomial(cfg, node, t);
    PointsDistinct(cfg);
    HoldersShape(cfg, node, t, dks);
    forall i | 0 <= i < |dks|
      ensures InitialHolders(cfg, node, t, dks).shares[i] ==
              Mul(G2_GENERATOR, Eval(Trim(t.coeffs), Points(cfg.committee)[i]))
    {
      InitialShare(cfg, node, t, dks, i);
    }
  }

  lemma HoldersShape(cfg: Config, node: Node, t: Transcript, dks: seq<F>)
    requires Ready(cfg, node, t) && AllHoldKeys(cfg.committee, dks)
    ensures var s := InitialHolders(cfg, node, t, dks);
            s.points == Points(cfg.committee) && |s.points| == |s.shares| == |dks|
  {
    hide Ready, Points, DecryptPrivateKeyShare;
  }

  /** After any run of refreshes, recoveries and losses, the decryption shares of any
      security threshold of the holders combine to the secret of the dealing. */
  lemma LifecycleSecret(cfg: Config, node: Node, t: Transcript, dks: seq<F>, steps: seq<Step>, end: State,
                        r: F, who: seq<nat>, shares: seq<ShareSimple>)
    requires Ready(cfg, node, t) && AllHoldKeys(cfg.committee, dks)
    requires Lifecycle.Run(InitialHolders(cfg, node, t, dks), steps, end, cfg.params.securityThreshold, G2_GENERATOR)
    requires end.Valid() && DistinctIndices(who, |end.points|) && |who| >= cfg.params.securityThreshold
    requires |shares| == |who|
    requires forall i :: 0 <= i < |who| ==>
               shares[i].decryptionShare == Pairing(Mul(G1_GENERATOR, r), end.shares[who[i]])
    ensures ShareCombineSimple(shares, Basis(Pick(end.points, who), 0)) == EncryptorsSecret(FinalKey(cfg, node), r)
  {
    hide *;
    ReadyIsValid(cfg, node, t);
    AggregateIsOnePolynomial(cfg, node, t);
    var phi := t.coeffs;
    var x := Eval(phi, 0);
    InitialSharesOf(cfg, node, t, dks);
    SecretSurvives(InitialHolders(cfg, node, t, dks), steps, end, Trim(phi), cfg.params.securityThreshold, G2_GENERATOR,
                   Mul(G1_GENERATOR, r), who, shares);
    EvalTrim(phi, 0);
    GeneratorPower(x);
    SecretAlgebra(r, x);
  }

  /** They still decrypt what was encrypted to the final key. */
  lemma LifecycleDecrypts(cfg: Config, node: Node, t: Transcript, dks: seq<F>, steps: seq<Step>, end: State,
                          message: Bytes, aad: Bytes, r: F, who: seq<nat>, shares: seq<ShareSimple>)
    requires Ready(cfg, node, t) && AllHoldKeys(cfg.committee, dks)
    requires Lifecycle.Run(InitialHolders(cfg, node, t, dks), steps, end, cfg.params.securityThreshold, G2_GENERATOR)
    requires end.Valid() && DistinctIndices(who, |end.points|) && |who| >= cfg.params.securityThreshold
    requires |shares| == |who|
    requires forall i :: 0 <= i < |who| ==>
               shares[i].decryptionShare ==
               Pairing(Encrypt(message, aad, FinalKey(cfg, node), r).commitment, end.shares[who[i]])
    ensures CheckedDecryptWithSharedSecret(Encrypt(message, aad, FinalKey(cfg, node), r), aad, G1_INVERSE,
              ShareCombineSimple(shares, Basis(Pick(end.points, who), 0))) == Ok(message)
  {
    hide Mul, Basis, ShareCombineSimple, Ready, FinalKey, Lifecycle.Run, EncryptorsSecret,
         CheckedDecryptWithSharedSecret, AllHoldKeys, InitialHolders, ProductOfPairings;
    ReadyIsValid(cfg, node, t);
    LifecycleSecret(cfg, node, t, dks, steps, end, r, who, shares);
    DecryptEncrypt(message, aad, FinalKey(cfg, node), r);
  }
}
