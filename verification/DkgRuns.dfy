/** Whole runs of a key generation node: the phases, agreement between nodes, and
    what the aggregation step accepts. */
module DkgRuns {
  import opened Sequences
  import opened Field
  import opened Wrappers
  import opened Sums
  import opened Groups
  import opened Pvss
  import opened Dkg

  datatype Event =
    | FromChain(sender: ExternalValidator, payload: Message)
    | Block

  const INITIAL: Node := Node(map[], Sharing(0, 0))

  ghost predicate DistinctAddresses(cfg: Config) {
    forall i, j :: 0 <= i < j < |cfg.committee.validators| ==>
      cfg.committee.validators[i].validator.address != cfg.committee.validators[j].validator.address
  }

  /** The message was verified against the node before it is applied. */
  ghost predicate Verified(cfg: Config, node: Node, e: Event)
    requires cfg.Valid() && NodeValid(cfg, node)
  {
    e.FromChain? ==> MessageValid(e.payload) && VerifyOutcome(cfg, node, e.sender, e.payload) == Ok(())
  }

  ghost function After(cfg: Config, node: Node, e: Event): (r: Node)
    requires cfg.Valid() && NodeValid(cfg, node) && (e.FromChain? ==> MessageValid(e.payload))
    ensures NodeValid(cfg, r)
  {
    match e
    case Block => BlockOutcome(cfg, node)
    case FromChain(sender, payload) => ApplyOutcome(cfg, node, sender, payload).0
  }

  ghost predicate Run(cfg: Config, start: Node, events: seq<Event>, end: Node)
    requires cfg.Valid() && NodeValid(cfg, start)
    decreases |events|
  {
    if events == [] then start == end
    else Verified(cfg, start, events[0]) && Run(cfg, After(cfg, start, events[0]), events[1..], end)
  }

  lemma VerifiedIsValid(cfg: Config, node: Node, e: Event)
    requires cfg.Valid() && NodeValid(cfg, node) && Verified(cfg, node, e)
    ensures e.FromChain? ==> MessageValid(e.payload)
  {
  }

  // ----- the dealer found by address is the dealer found by identity -----

  lemma {:induction false} SamePosition(validators: seq<Validator>, sender: ExternalValidator)
    requires forall i, j :: 0 <= i < j < |validators| ==>
               validators[i].validator.address != validators[j].validator.address
    requires PositionOf(validators, sender).Some?
    ensures PositionByAddress(validators, sender.address) == PositionOf(validators, sender)
  {
    if sender != validators[0].validator {
      SamePosition(validators[1..], sender);
      assert validators[PositionOf(validators, sender).value].validator == sender;
    }
  }

  // ----- phases -----

  /** What each phase says about the transcripts received. */
  ghost predicate PhaseInvariant(cfg: Config, node: Node)
    requires cfg.Valid() && NodeValid(cfg, node)
  {
    match node.state
    case Sharing(accumulated, _) =>
      accumulated == |node.vss| && (|node.vss| == 0 || |node.vss| < cfg.MinimumShares())
    case Dealt => |node.vss| >= 1 && |node.vss| >= cfg.MinimumShares()
    case Success(finalKey) =>
      |node.vss| >= 1 && |node.vss| >= cfg.MinimumShares() && finalKey == FinalKey(cfg, node)
    case Invalid => false
  }

  /** The effect of a verified deal: one new dealer. */
  lemma VerifiedDeal(cfg: Config, node: Node, sender: ExternalValidator, pvss: Transcript)
    requires cfg.Valid() && DistinctAddresses(cfg) && NodeValid(cfg, node)
    requires Verified(cfg, node, FromChain(sender, Deal(pvss)))
    ensures var d := PositionOf(cfg.committee.validators, sender);
            && d.Some? && d.value !in node.vss && AcceptsDeals(node.state)
            && After(cfg, node, FromChain(sender, Deal(pvss))) ==
               Node(node.vss[d.value := pvss], AfterDeal(cfg, node.state))
  {
    hide VerifyOptimistic;
    SamePosition(cfg.committee.validators, sender);
  }

  lemma StepKeepsPhase(cfg: Config, node: Node, e: Event)
    requires cfg.Valid() && DistinctAddresses(cfg) && NodeValid(cfg, node)
    requires PhaseInvariant(cfg, node) && Verified(cfg, node, e)
    ensures PhaseInvariant(cfg, After(cfg, node, e))
  {
    hide VerifyOptimistic, FinalKey;
    match e
    case Block =>
    case FromChain(sender, Deal(pvss)) => VerifiedDeal(cfg, node, sender, pvss);
    case FromChain(sender, Aggregate(vss, key)) => SuccessKeepsKey(cfg, node);
  }

  lemma SuccessKeepsKey(cfg: Config, node: Node)
    requires NodeValid(cfg, node)
    ensures forall s :: FinalKey(cfg, node.(state := s)) == FinalKey(cfg, node)
  {
  }

  /** In every run of verified messages the phase tells how many dealers there are. */
  lemma {:induction false} RunKeepsPhase(cfg: Config, start: Node, events: seq<Event>, end: Node)
    requires cfg.Valid() && DistinctAddresses(cfg) && NodeValid(cfg, start)
    requires PhaseInvariant(cfg, start) && Run(cfg, start, events, end)
    ensures NodeValid(cfg, end) && PhaseInvariant(cfg, end)
    decreases |events|
  {
    hide PhaseInvariant, Verified, After, DistinctAddresses;
    if events != [] {
      VerifiedIsValid(cfg, start, events[0]);
      StepKeepsPhase(cfg, start, events[0]);
      RunKeepsPhase(cfg, After(cfg, start, events[0]), events[1..], end);
    }
  }

  lemma ReachableHasPhase(cfg: Config, events: seq<Event>, end: Node)
    requires cfg.Valid() && DistinctAddresses(cfg) && Run(cfg, INITIAL, events, end)
    ensures NodeValid(cfg, end) && PhaseInvariant(cfg, end)
  {
    RunKeepsPhase(cfg, INITIAL, events, end);
  }

  /** Every transcript received has a matching proof of knowledge. */
  ghost predicate ProofsMatch(cfg: Config, node: Node)
    requires NodeValid(cfg, node)
  {
    forall k :: k in node.vss ==> VerifyOptimistic(node.vss[k])
  }

  lemma StepKeepsProofs(cfg: Config, node: Node, e: Event)
    requires cfg.Valid() && NodeValid(cfg, node) && ProofsMatch(cfg, node) && Verified(cfg, node, e)
    ensures ProofsMatch(cfg, After(cfg, node, e))
  {
    hide VerifyOptimistic, FinalKey;
  }

  lemma {:induction false} RunKeepsProofs(cfg: Config, start: Node, events: seq<Event>, end: Node)
    requires cfg.Valid() && NodeValid(cfg, start) && ProofsMatch(cfg, start) && Run(cfg, start, events, end)
    ensures NodeValid(cfg, end) && ProofsMatch(cfg, end)
    decreases |events|
  {
    hide ProofsMatch, Verified, After;
    if events != [] {
      VerifiedIsValid(cfg, start, events[0]);
      StepKeepsProofs(cfg, start, events[0]);
      RunKeepsProofs(cfg, After(cfg, start, events[0]), events[1..], end);
    }
  }

  // ----- success is final -----

  /** Events applied without any verification. */
  ghost predicate AnyRun(cfg: Config, start: Node, events: seq<Event>, end: Node)
    requires cfg.Valid() && NodeValid(cfg, start)
    decreases |events|
  {
    if events == [] then start == end
    else
      && (events[0].FromChain? ==> MessageValid(events[0].payload))
      && AnyRun(cfg, After(cfg, start, events[0]), events[1..], end)
  }

  /** Once a node succeeded it rejects every message and nothing changes it any more,
      even if messages are applied unverified. */
  lemma {:induction false} SuccessIsFinal(cfg: Config, node: Node, events: seq<Event>, end: Node)
    requires cfg.Valid() && NodeValid(cfg, node) && node.state.Success?
    requires AnyRun(cfg, node, events, end)
    ensures end == node
    ensures forall sender, payload :: MessageValid(payload) ==>
              VerifyOutcome(cfg, node, sender, payload) == Err(WrongState)
    decreases |events|
  {
    if events != [] {
      assert After(cfg, node, events[0]) == node;
      SuccessIsFinal(cfg, node, events[1..], end);
    }
  }

  // ----- agreement -----

  /** The deals of a run, by dealer. */
  ghost function DealsIn(cfg: Config, events: seq<Event>): set<(nat, Transcript)> {
    set e | e in events && e.FromChain? && e.payload.Deal? && PositionOf(cfg.committee.validators, e.sender).Some?
      :: (PositionOf(cfg.committee.validators, e.sender).value, e.payload.pvss)
  }

  lemma DealsInCons(cfg: Config, events: seq<Event>)
    requires events != []
    ensures DealsIn(cfg, events) == DealsIn(cfg, [events[0]]) + DealsIn(cfg, events[1..])
  {
    assert events == [events[0]] + events[1..];
  }

  /** The entries of a map as pairs. */
  ghost function Pairs(m: map<nat, Transcript>): set<(nat, Transcript)> {
    set k | k in m :: (k, m[k])
  }

  lemma PairsOfUpdate(m: map<nat, Transcript>, k: nat, v: Transcript)
    requires k !in m
    ensures Pairs(m[k := v]) == Pairs(m) + {(k, v)}
  {
    var n := m[k := v];
    forall p | p in Pairs(m) ensures p in Pairs(n) {
      var i :| i in m && p == (i, m[i]);
      assert i in n && n[i] == m[i];
    }
    assert k in n && n[k] == v;
  }

  /** One event adds exactly its deal to the transcripts received. */
  lemma StepAddsDeal(cfg: Config, node: Node, e: Event)
    requires cfg.Valid() && DistinctAddresses(cfg) && NodeValid(cfg, node) && Verified(cfg, node, e)
    ensures Pairs(After(cfg, node, e).vss) == Pairs(node.vss) + DealsIn(cfg, [e])
  {
    hide VerifyOptimistic, FinalKey, Verified, DistinctAddresses, AfterDeal;
    match e
    case Block => assert DealsIn(cfg, [e]) == {};
    case FromChain(sender, Aggregate(vss, key)) => assert DealsIn(cfg, [e]) == {};
    case FromChain(sender, Deal(pvss)) =>
      VerifiedDeal(cfg, node, sender, pvss);
      var d := PositionOf(cfg.committee.validators, sender).value;
      PairsOfUpdate(node.vss, d, pvss);
      OneDeal(cfg, sender, pvss);
  }

  lemma OneDeal(cfg: Config, sender: ExternalValidator, pvss: Transcript)
    requires PositionOf(cfg.committee.validators, sender).Some?
    ensures DealsIn(cfg, [FromChain(sender, Deal(pvss))]) ==
            {(PositionOf(cfg.committee.validators, sender).value, pvss)}
  {
    var e := FromChain(sender, Deal(pvss));
    assert e in [e];
  }

  lemma {:induction false} RunCollectsDeals(cfg: Config, start: Node, events: seq<Event>, end: Node)
    requires cfg.Valid() && DistinctAddresses(cfg) && NodeValid(cfg, start) && Run(cfg, start, events, end)
    ensures Pairs(end.vss) == Pairs(start.vss) + DealsIn(cfg, events)
    decreases |events|
  {
    hide Verified, After, DistinctAddresses;
    if events == [] {
      assert DealsIn(cfg, events) == {};
    } else {
      VerifiedIsValid(cfg, start, events[0]);
      StepAddsDeal(cfg, start, events[0]);
      RunCollectsDeals(cfg, After(cfg, start, events[0]), events[1..], end);
      DealsInCons(cfg, events);
    }
  }

  /** The transcripts dealt in a run, in its order. */
  function DealtTranscripts(events: seq<Event>): seq<Transcript> {
    if events == [] then []
    else (if events[0].FromChain? && events[0].payload.Deal? then [events[0].payload.pvss] else [])
         + DealtTranscripts(events[1..])
  }

  lemma StepReceives(cfg: Config, node: Node, e: Event)
    requires cfg.Valid() && DistinctAddresses(cfg) && NodeValid(cfg, node) && Verified(cfg, node, e)
    ensures multiset(Received(cfg, After(cfg, node, e))) ==
            multiset(Received(cfg, node)) + multiset(DealtTranscripts([e]))
  {
    hide VerifyOptimistic, FinalKey, Verified, DistinctAddresses, AfterDeal, Entries;
    assert DealtTranscripts([]) == [];
    match e
    case Block =>
    case FromChain(sender, Aggregate(vss, key)) =>
    case FromChain(sender, Deal(pvss)) =>
      VerifiedDeal(cfg, node, sender, pvss);
      var d := PositionOf(cfg.committee.validators, sender).value;
      EntriesOfUpdate(node.vss, |cfg.committee.validators|, d, pvss);
      assert DealtTranscripts([e]) == [pvss];
  }

  lemma DealtCons(events: seq<Event>)
    requires events != []
    ensures DealtTranscripts(events) == DealtTranscripts([events[0]]) + DealtTranscripts(events[1..])
  {
    assert [events[0]][1..] == [];
  }

  lemma {:induction false} RunReceives(cfg: Config, start: Node, events: seq<Event>, end: Node)
    requires cfg.Valid() && DistinctAddresses(cfg) && NodeValid(cfg, start) && Run(cfg, start, events, end)
    ensures multiset(Received(cfg, end)) == multiset(Received(cfg, start)) + multiset(DealtTranscripts(events))
    decreases |events|
  {
    hide Verified, After, DistinctAddresses, Received;
    if events == [] {
      assert DealtTranscripts(events) == [];
    } else {
      VerifiedIsValid(cfg, start, events[0]);
      StepReceives(cfg, start, events[0]);
      RunReceives(cfg, After(cfg, start, events[0]), events[1..], end);
      DealtCons(events);
    }
  }

  /** After a run of verified messages a node holds each dealt transcript once: its final
      key is the sum of their constant commitments, and its aggregate is theirs. */
  lemma KeyOfRun(cfg: Config, events: seq<Event>, end: Node)
    requires cfg.Valid() && DistinctAddresses(cfg) && Run(cfg, INITIAL, events, end)
    ensures NodeValid(cfg, end) && multiset(Received(cfg, end)) == multiset(DealtTranscripts(events))
    ensures FinalKey(cfg, end) == Sum(Map(DealtTranscripts(events), CoefficientAt(0)))
    ensures Uniform(Received(cfg, end)) ==>
              && Uniform(DealtTranscripts(events))
              && AggregateOf(Received(cfg, end)) == AggregateOf(DealtTranscripts(events))
  {
    hide Run, DistinctAddresses, Sum, FinalKey, AggregateOf, DealtTranscripts, PhaseInvariant, Uniform, Map;
    ReachableHasPhase(cfg, events, end);
    RunReceives(cfg, INITIAL, events, end);
    EntriesCount(INITIAL.vss, |cfg.committee.validators|);
    assert Received(cfg, INITIAL) == [];
    var ts, us := Received(cfg, end), DealtTranscripts(events);
    FinalKeyIsSum(cfg, end);
    SumMapReordered(ts, us, CoefficientAt(0));
    if Uniform(ts) { AggregateReordered(ts, us); }
  }

  lemma PairsDetermine(m: map<nat, Transcript>, n: map<nat, Transcript>)
    requires Pairs(m) == Pairs(n)
    ensures m == n
  {
    forall k | k in m ensures k in n && n[k] == m[k] { assert (k, m[k]) in Pairs(n); }
    forall k | k in n ensures k in m { assert (k, n[k]) in Pairs(m); }
  }

  ghost predicate NoAggregates(events: seq<Event>) {
    forall e :: e in events && e.FromChain? ==> e.payload.Deal?
  }

  /** A run without aggregation messages does not reach success. */
  lemma {:induction false} OnlyAggregatesSucceed(cfg: Config, start: Node, events: seq<Event>, end: Node)
    requires cfg.Valid() && NodeValid(cfg, start) && Run(cfg, start, events, end)
    requires NoAggregates(events) && !start.state.Success?
    ensures !end.state.Success?
    decreases |events|
  {
    hide VerifyOptimistic, FinalKey;
    if events != [] {
      OnlyAggregatesSucceed(cfg, After(cfg, start, events[0]), events[1..], end);
    }
  }

  ghost predicate SamePhase(a: DkgState, b: DkgState) {
    || (a.Dealt? && b.Dealt?)
    || (a.Sharing? && b.Sharing? && a.accumulatedShares == b.accumulatedShares)
  }

  /** Two nodes of one session: the same validators and parameters, each with its own
      identity. */
  ghost predicate SameSession(cfg1: Config, cfg2: Config) {
    cfg1.params == cfg2.params && cfg1.committee == cfg2.committee
  }

  lemma SessionsAgreeOnKey(cfg1: Config, cfg2: Config, node: Node)
    requires SameSession(cfg1, cfg2) && NodeValid(cfg1, node)
    ensures NodeValid(cfg2, node) && FinalKey(cfg1, node) == FinalKey(cfg2, node)
  {
    hide Sum;
    assert Received(cfg1, node) == Received(cfg2, node);
  }

  lemma InitialNode(cfg: Config)
    ensures NodeValid(cfg, INITIAL) && INITIAL.vss == map[] && INITIAL.state == Sharing(0, 0)
  {
  }

  /** With equal transcripts, what the phase invariant fixes is equal. */
  lemma EqualTranscripts(cfg1: Config, node1: Node, cfg2: Config, node2: Node)
    requires cfg1.Valid() && cfg2.Valid() && SameSession(cfg1, cfg2)
    requires NodeValid(cfg1, node1) && NodeValid(cfg2, node2) && node1.vss == node2.vss
    requires PhaseInvariant(cfg1, node1) && PhaseInvariant(cfg2, node2)
    ensures FinalKey(cfg1, node1) == FinalKey(cfg2, node2)
    ensures !node1.state.Success? && !node2.state.Success? ==> SamePhase(node1.state, node2.state)
    ensures node1.state.Success? && node2.state.Success? ==> node1.state == node2.state
  {
    hide FinalKey;
    assert node1 == node2.(state := node1.state);
    SuccessKeepsKey(cfg1, node2);
    SessionsAgreeOnKey(cfg1, cfg2, node2);
  }

  lemma SessionsShareAddresses(cfg1: Config, cfg2: Config)
    requires SameSession(cfg1, cfg2) && DistinctAddresses(cfg1)
    ensures DistinctAddresses(cfg2)
  {
  }

  lemma SessionsSeeSameDeals(cfg1: Config, cfg2: Config, events: seq<Event>)
    requires SameSession(cfg1, cfg2)
    ensures DealsIn(cfg1, events) == DealsIn(cfg2, events)
  {
  }

  /** Two nodes of one session that apply the same verified deals, in any orders and with
      any blocks in between, hold the same transcripts and the same final key.  They are
      in the same phase until an aggregation arrives, and their cached keys are equal
      after it. */
  lemma Agreement(cfg1: Config, events1: seq<Event>, end1: Node, cfg2: Config, events2: seq<Event>, end2: Node)
    requires cfg1.Valid() && cfg2.Valid() && SameSession(cfg1, cfg2) && DistinctAddresses(cfg1)
    requires Run(cfg1, INITIAL, events1, end1) && Run(cfg2, INITIAL, events2, end2)
    requires DealsIn(cfg1, events1) == DealsIn(cfg1, events2)
    ensures NodeValid(cfg1, end1) && NodeValid(cfg2, end2)
    ensures end1.vss == end2.vss && FinalKey(cfg1, end1) == FinalKey(cfg2, end2)
    ensures NoAggregates(events1) && NoAggregates(events2) ==> SamePhase(end1.state, end2.state)
    ensures end1.state.Success? && end2.state.Success? ==> end1.state == end2.state
  {
    hide *;
    InitialNode(cfg1);
    InitialNode(cfg2);
    SessionsShareAddresses(cfg1, cfg2);
    ReachableHasPhase(cfg1, events1, end1);
    ReachableHasPhase(cfg2, events2, end2);
    RunCollectsDeals(cfg1, INITIAL, events1, end1);
    RunCollectsDeals(cfg2, INITIAL, events2, end2);
    SessionsSeeSameDeals(cfg1, cfg2, events2);
    PairsDetermine(end1.vss, end2.vss);
    EqualTranscripts(cfg1, end1, cfg2, end2);
    if NoAggregates(events1) && NoAggregates(events2) {
      OnlyAggregatesSucceed(cfg1, INITIAL, events1, end1);
      OnlyAggregatesSucceed(cfg2, INITIAL, events2, end2);
    }
  }

  // ----- what is accepted -----

  /** A deal is accepted exactly from a validator that has not dealt yet, while deals are
      taken, when its proof of knowledge matches its constant commitment. */
  lemma DealAcceptedIff(cfg: Config, node: Node, sender: ExternalValidator, pvss: Transcript)
    requires cfg.Valid() && DistinctAddresses(cfg) && NodeValid(cfg, node) && pvss.coeffs != []
    ensures VerifyOutcome(cfg, node, sender, Deal(pvss)) == Ok(()) <==>
            && AcceptsDeals(node.state)
            && pvss.sigma == pvss.coeffs[0]
            && exists i: nat :: i < |cfg.committee.validators| && cfg.committee.validators[i].validator == sender
                             && i !in node.vss
  {
    var v := cfg.committee.validators;
    hide Mul;
    GeneratorPower(pvss.sigma);
    MulComm(pvss.coeffs[0], G2_GENERATOR);
    GeneratorPower(pvss.coeffs[0]);
    var d := PositionOf(v, sender);
    if d.Some? {
      forall i | 0 <= i < |v| && v[i].validator == sender ensures i == d.value {
        assert v[i].validator.address == v[d.value].validator.address;
      }
    }
  }

  /** In a reachable node an aggregation is accepted exactly in the dealt phase, when both
      its constant commitment and its final key are the sum of the dealt ones. */
  lemma AggregateAcceptedIff(cfg: Config, events: seq<Event>, node: Node, sender: ExternalValidator,
                             t: Transcript, key: G1)
    requires cfg.Valid() && DistinctAddresses(cfg) && Run(cfg, INITIAL, events, node)
    requires NodeValid(cfg, node) && t.coeffs != []
    ensures VerifyOutcome(cfg, node, sender, Aggregate(t, key)) == Ok(()) <==>
            node.state.Dealt? && t.coeffs[0] == key == FinalKey(cfg, node)
  {
    hide Run, FinalKey, DistinctAddresses;
    ReachableHasPhase(cfg, events, node);
  }

  // ----- aggregation -----

  lemma ReceivedCount(cfg: Config, node: Node)
    requires NodeValid(cfg, node)
    ensures |Received(cfg, node)| == |node.vss|
  {
    EntriesCount(node.vss, |cfg.committee.validators|);
  }

  /** In every reachable dealt state with transcripts of one shape, the node's own
      aggregation message passes verification, whoever is named as its sender. */
  lemma OwnAggregateVerifies(cfg: Config, events: seq<Event>, node: Node, sender: ExternalValidator)
    requires cfg.Valid() && DistinctAddresses(cfg) && Run(cfg, INITIAL, events, node)
    requires node.state.Dealt? && NodeValid(cfg, node) && Uniform(Received(cfg, node))
    ensures var own := Aggregate(AggregateOf(Received(cfg, node)), FinalKey(cfg, node));
            MessageValid(own) && VerifyOutcome(cfg, node, sender, own) == Ok(())
  {
    hide Run, Sum, DistinctAddresses, AggregateOf;
    ReachableHasPhase(cfg, events, node);
    AggregateConstant(Received(cfg, node));
  }

  /** The aggregation step looks at constant commitments and the count only: with one
      encrypted share altered, the aggregate is still accepted although the full
      transcript check rejects it. */
  lemma AlteredSharesAccepted(cfg: Config, events: seq<Event>, node: Node, sender: ExternalValidator)
    requires cfg.Valid() && DistinctAddresses(cfg) && Run(cfg, INITIAL, events, node)
    requires node.state.Dealt? && NodeValid(cfg, node) && Uniform(Received(cfg, node))
    requires var own := AggregateOf(Received(cfg, node)); SharesMatch(own, cfg.committee) && own.shares != []
    ensures var own := AggregateOf(Received(cfg, node));
            var altered := own.(shares := own.shares[0 := Add(own.shares[0], 1)]);
            && VerifyOutcome(cfg, node, sender, Aggregate(altered, FinalKey(cfg, node))) == Ok(())
            && !SharesMatch(altered, cfg.committee)
  {
    hide Run, Sum, DistinctAddresses, AggregateOf, SharesMatch;
    OwnAggregateVerifies(cfg, events, node, sender);
    var own := AggregateOf(Received(cfg, node));
    AddCancel(own.shares[0], 1, 0);
    AddZero(own.shares[0]);
    AlteredShareFails(own, cfg.committee, Add(own.shares[0], 1));
  }
}
