/** What a node answers to each message, what the answer does to it, and what its block
    counter holds. */
module DkgOutcomes {
  import opened Wrappers
  import opened Groups
  import opened Pvss
  import opened Dkg
  import opened DkgRuns
  import opened DkgDealers

  ghost predicate TakesDeals(node: Node) {
    node.state.Sharing? || node.state.Dealt?
  }

  ghost predicate KnownAddress(cfg: Config, address: string) {
    exists v :: v in cfg.committee.validators && v.validator.address == address
  }

  ghost predicate Listed(cfg: Config, sender: ExternalValidator) {
    exists v :: v in cfg.committee.validators && v.validator == sender
  }

  // ----- applying a message -----

  /** When applying succeeds, with which error it fails otherwise, and that a failure
      changes nothing. */
  lemma ApplyExact(cfg: Config, node: Node, sender: ExternalValidator, payload: Message)
    requires cfg.Valid() && NodeValid(cfg, node) && MessageValid(payload)
    ensures var (next, r) := ApplyOutcome(cfg, node, sender, payload);
            && (r == Ok(()) <==>
                  if payload.Deal? then TakesDeals(node) && KnownAddress(cfg, sender.address) else node.state.Dealt?)
            && (r == Err(UnknownDealer) <==>
                  payload.Deal? && TakesDeals(node) && !KnownAddress(cfg, sender.address))
            && (r == Err(WrongState) <==> if payload.Deal? then !TakesDeals(node) else !node.state.Dealt?)
            && (r.Err? ==> next == node)
  {
    hide FinalKey;
    var d := PositionByAddress(cfg.committee.validators, sender.address);
    if d.Some? { assert cfg.committee.validators[d.value] in cfg.committee.validators; }
  }

  /** What a successful application does: a deal is stored under the first validator with
      the sender's address and nothing else is touched; an aggregation only caches the
      final key. */
  lemma AppliedExact(cfg: Config, node: Node, sender: ExternalValidator, payload: Message)
    requires cfg.Valid() && NodeValid(cfg, node) && MessageValid(payload)
    requires ApplyOutcome(cfg, node, sender, payload).1 == Ok(())
    ensures var next := ApplyOutcome(cfg, node, sender, payload).0;
            match payload
            case Deal(pvss) =>
              exists d: nat ::
                && d < |cfg.committee.validators|
                && cfg.committee.validators[d].validator.address == sender.address
                && (forall v :: v in cfg.committee.validators[..d] ==> v.validator.address != sender.address)
                && next.vss == node.vss[d := pvss]
                && (node.state.Dealt? ==> next.state.Dealt?)
                && (node.state.Sharing? ==>
                      if node.state.accumulatedShares + 1 < cfg.MinimumShares()
                      then next.state == Sharing(node.state.accumulatedShares + 1, node.state.block)
                      else next.state.Dealt?)
            case Aggregate(_, _) => next.vss == node.vss && next.state == Success(FinalKey(cfg, node))
  {
    hide FinalKey;
  }

  /** Every verified message applies. */
  lemma VerifiedApplies(cfg: Config, node: Node, sender: ExternalValidator, payload: Message)
    requires cfg.Valid() && NodeValid(cfg, node) && MessageValid(payload)
    requires VerifyOutcome(cfg, node, sender, payload) == Ok(())
    ensures ApplyOutcome(cfg, node, sender, payload).1 == Ok(())
  {
    hide FinalKey, VerifyOptimistic;
    if payload.Deal? {
      var i := PositionOf(cfg.committee.validators, sender).value;
      assert cfg.committee.validators[i] in cfg.committee.validators;
    }
  }

  // ----- verifying a message -----

  /** Which error a refused deal gets: the first reason that applies. */
  lemma DealRefusedExact(cfg: Config, node: Node, sender: ExternalValidator, pvss: Transcript)
    requires cfg.Valid() && DistinctAddresses(cfg) && NodeValid(cfg, node) && pvss.coeffs != []
    ensures var r := VerifyOutcome(cfg, node, sender, Deal(pvss));
            && (r == Err(WrongState) <==> !TakesDeals(node))
            && (r == Err(UnknownDealer) <==> TakesDeals(node) && !Listed(cfg, sender))
            && (forall i: nat :: i < |cfg.committee.validators| && cfg.committee.validators[i].validator == sender ==>
                  && (r == Err(RepeatDealer(i)) <==> TakesDeals(node) && i in node.vss)
                  && (r == Err(InvalidTranscript) <==>
                        TakesDeals(node) && i !in node.vss && pvss.sigma != pvss.coeffs[0])
                  && (r == Ok(()) <==> TakesDeals(node) && i !in node.vss && pvss.sigma == pvss.coeffs[0]))
  {
    hide VerifyOptimistic;
    ProofIsConstant(pvss);
    var v := cfg.committee.validators;
    var d := PositionOf(v, sender);
    if d.Some? {
      assert v[d.value] in v;
      forall i | 0 <= i < |v| && v[i].validator == sender ensures i == d.value {
        assert v[i].validator.address == v[d.value].validator.address;
      }
    }
  }

  /** Which error a refused aggregation gets, in any node. */
  lemma AggregateRefusedExact(cfg: Config, node: Node, sender: ExternalValidator, t: Transcript, key: G1)
    requires cfg.Valid() && NodeValid(cfg, node) && t.coeffs != []
    ensures var r := VerifyOutcome(cfg, node, sender, Aggregate(t, key));
            var constant, enough := t.coeffs[0] == FinalKey(cfg, node), |node.vss| >= cfg.MinimumShares();
            && (r == Err(WrongState) <==> !node.state.Dealt?)
            && (r == Err(AggregationDoesNotMatch) <==> node.state.Dealt? && !constant)
            && (r == Err(NotEnoughShares) <==> node.state.Dealt? && constant && !enough)
            && (r == Err(WrongFinalKey) <==> node.state.Dealt? && constant && enough && key != t.coeffs[0])
            && (r == Ok(()) <==> node.state.Dealt? && constant && enough && key == t.coeffs[0])
  {
    hide FinalKey;
  }

  // ----- the block counter -----

  /** The blocks of a run before the own deal is stored. */
  ghost function BlocksBeforeOwnDeal(cfg: Config, events: seq<Event>): nat {
    if events == [] || DealerOf(cfg, events[0]) == [cfg.me] then 0
    else (if events[0].Block? then 1 else 0) + BlocksBeforeOwnDeal(cfg, events[1..])
  }

  lemma StepCountsBlocks(cfg: Config, node: Node, e: Event)
    requires cfg.Valid() && NodeValid(cfg, node) && (e.FromChain? ==> MessageValid(e.payload))
    requires After(cfg, node, e).state.Sharing?
    ensures node.state.Sharing?
    ensures cfg.me in After(cfg, node, e).vss <==> cfg.me in node.vss || DealerOf(cfg, e) == [cfg.me]
    ensures After(cfg, node, e).state.block ==
            node.state.block + if e.Block? && cfg.me !in node.vss then 1 else 0
  {
    hide FinalKey;
  }

  lemma {:induction false} RunCountsBlocks(cfg: Config, start: Node, events: seq<Event>, end: Node)
    requires cfg.Valid() && NodeValid(cfg, start) && AnyRun(cfg, start, events, end) && end.state.Sharing?
    ensures start.state.Sharing?
    ensures end.state.block ==
            start.state.block + if cfg.me in start.vss then 0 else BlocksBeforeOwnDeal(cfg, events)
    decreases |events|
  {
    hide After, DealerOf;
    if events != [] {
      RunCountsBlocks(cfg, After(cfg, start, events[0]), events[1..], end);
      StepCountsBlocks(cfg, start, events[0]);
      if events[0].Block? { BlockHasNoDealer(cfg, events[0]); }
    }
  }

  lemma BlockHasNoDealer(cfg: Config, e: Event)
    requires e.Block?
    ensures DealerOf(cfg, e) == []
  {
  }

  /** A block changes nothing but the counter, and that only while sharing. */
  lemma BlockChangesOnlyCounter(cfg: Config, node: Node)
    ensures var next := BlockOutcome(cfg, node);
            && next.vss == node.vss
            && (if node.state.Sharing?
                then next.state.Sharing? && next.state.accumulatedShares == node.state.accumulatedShares
                else next == node)
  {
  }

  /** While a node is sharing, its block counter holds the number of blocks before its own
      deal, whatever messages were applied, verified or not. */
  lemma BlocksCounted(cfg: Config, events: seq<Event>, end: Node)
    requires cfg.Valid() && AnyRun(cfg, INITIAL, events, end) && end.state.Sharing?
    ensures end.state.block == BlocksBeforeOwnDeal(cfg, events)
  {
    hide AnyRun, BlocksBeforeOwnDeal;
    RunCountsBlocks(cfg, INITIAL, events, end);
  }
}
