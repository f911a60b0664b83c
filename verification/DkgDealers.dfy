/** What a run of a key generation node depends on is the list of its dealers: which
    deals are accepted, in which orders, and when the share counter is right. */
module DkgDealers {
  import opened Sequences
  import opened Wrappers
  import opened Pvss
  import opened Dkg
  import opened DkgRuns

  // ----- the dealers of a run -----

  /** The validator that a deal is stored under, found by address. */
  ghost function DealerOf(cfg: Config, e: Event): seq<nat> {
    if e.FromChain? && e.payload.Deal? then
      match PositionByAddress(cfg.committee.validators, e.sender.address)
      case Some(d) => [d]
      case None => []
    else []
  }

  ghost function Dealers(cfg: Config, events: seq<Event>): seq<nat> {
    if events == [] then [] else DealerOf(cfg, events[0]) + Dealers(cfg, events[1..])
  }

  // ----- the counter of a node that verifies nothing -----

  /** The deals suffice for the dealt phase; one is needed in any case. */
  ghost predicate Enough(cfg: Config, deals: nat)
    requires cfg.Valid()
  {
    deals >= 1 && deals >= cfg.MinimumShares()
  }

  /** The events before the aggregation that is applied: the first one after enough deals.
      The argument is the number of deals so far. */
  ghost function Opening(cfg: Config, events: seq<Event>, deals: nat): seq<Event>
    requires cfg.Valid()
  {
    if events == [] then []
    else if events[0].FromChain? && events[0].payload.Aggregate? && Enough(cfg, deals) then []
    else [events[0]] + Opening(cfg, events[1..], deals + |DealerOf(cfg, events[0])|)
  }

  /** The phase of a node that takes deals, told by the number of deals applied. */
  ghost predicate Counted(cfg: Config, node: Node, deals: nat)
    requires cfg.Valid()
  {
    match node.state
    case Sharing(accumulated, _) => accumulated == deals && !Enough(cfg, deals)
    case Dealt => Enough(cfg, deals)
    case _ => false
  }

  /** One event, verified or not, that is not the applied aggregation: a deal of a known
      address adds its dealer, and one to the number of deals. */
  lemma StepCounts(cfg: Config, node: Node, deals: nat, e: Event)
    requires cfg.Valid() && NodeValid(cfg, node) && (e.FromChain? ==> MessageValid(e.payload))
    requires Counted(cfg, node, deals) && !(e.FromChain? && e.payload.Aggregate? && Enough(cfg, deals))
    ensures Counted(cfg, After(cfg, node, e), deals + |DealerOf(cfg, e)|)
    ensures After(cfg, node, e).vss.Keys == node.vss.Keys + SetOf(DealerOf(cfg, e))
  {
    hide FinalKey;
    assert SetOf<nat>([]) == {};
    if DealerOf(cfg, e) != [] {
      var d := DealerOf(cfg, e)[0];
      assert SetOf([d]) == {d};
    }
  }

  lemma {:induction false} AnyRunCounts(cfg: Config, start: Node, deals: nat, events: seq<Event>, end: Node)
    requires cfg.Valid() && NodeValid(cfg, start) && AnyRun(cfg, start, events, end)
    requires Counted(cfg, start, deals)
    ensures NodeValid(cfg, end)
    ensures var opening := Opening(cfg, events, deals);
            && end.vss.Keys == start.vss.Keys + SetOf(Dealers(cfg, opening))
            && (if opening == events then Counted(cfg, end, deals + |Dealers(cfg, opening)|)
                else end.state == Success(FinalKey(cfg, end)) && Enough(cfg, deals + |Dealers(cfg, opening)|))
    decreases |events|
  {
    hide After, DealerOf, FinalKey, Counted, Enough;
    if events == [] {
      assert SetOf<nat>([]) == {};
    } else {
      var e, rest := events[0], events[1..];
      var next := After(cfg, start, e);
      if e.FromChain? && e.payload.Aggregate? && Enough(cfg, deals) {
        AggregationIsApplied(cfg, start, deals, e);
        SuccessIsFinal(cfg, next, rest, end);
        assert SetOf<nat>([]) == {};
      } else {
        StepCounts(cfg, start, deals, e);
        var more := deals + |DealerOf(cfg, e)|;
        AnyRunCounts(cfg, next, more, rest, end);
        var tail := Opening(cfg, rest, more);
        DealersOfOpening(cfg, e, tail);
        assert ([e] + tail == events) <==> tail == rest by { assert events == [e] + rest; Prepended(e, tail, rest); }
      }
    }
  }

  lemma AggregationIsApplied(cfg: Config, node: Node, deals: nat, e: Event)
    requires cfg.Valid() && NodeValid(cfg, node) && (e.FromChain? ==> MessageValid(e.payload))
    requires Counted(cfg, node, deals) && e.FromChain? && e.payload.Aggregate? && Enough(cfg, deals)
    ensures var next := After(cfg, node, e);
            next.vss == node.vss && next.state == Success(FinalKey(cfg, next))
  {
    hide FinalKey;
    SuccessKeepsKey(cfg, node);
  }

  lemma Prepended(e: Event, s: seq<Event>, t: seq<Event>)
    ensures [e] + s == [e] + t <==> s == t
  {
    assert ([e] + s)[1..] == s && ([e] + t)[1..] == t;
  }

  lemma DealersOfOpening(cfg: Config, e: Event, tail: seq<Event>)
    ensures |Dealers(cfg, [e] + tail)| == |DealerOf(cfg, e)| + |Dealers(cfg, tail)|
    ensures SetOf(Dealers(cfg, [e] + tail)) == SetOf(DealerOf(cfg, e)) + SetOf(Dealers(cfg, tail))
  {
    hide DealerOf;
    assert ([e] + tail)[1..] == tail;
    assert Dealers(cfg, [e] + tail) == DealerOf(cfg, e) + Dealers(cfg, tail);
  }

  /** Without any verification the phase still tells how many dealers there are in
      exactly these runs: while sharing, those in which no dealer repeats; once dealt, and
      after an aggregation was applied, those with the minimum of different dealers before
      it. */
  lemma UnverifiedPhaseIff(cfg: Config, events: seq<Event>, end: Node)
    requires cfg.Valid() && NodeValid(cfg, end) && AnyRun(cfg, INITIAL, events, end)
    ensures var dealers := Dealers(cfg, Opening(cfg, events, 0));
            && end.vss.Keys == SetOf(dealers)
            && (end.state.Success? <==> Opening(cfg, events, 0) != events)
            && (end.state.Sharing? ==>
                  && end.state.accumulatedShares == |dealers|
                  && (end.state.accumulatedShares == |end.vss| <==> Distinct(dealers))
                  && (PhaseInvariant(cfg, end) <==> Distinct(dealers)))
            && (!end.state.Sharing? ==>
                  (PhaseInvariant(cfg, end) <==> |SetOf(dealers)| >= cfg.MinimumShares()))
  {
    hide *;
    var ds := Dealers(cfg, Opening(cfg, events, 0));
    InitialIsCounted(cfg);
    AnyRunCounts(cfg, INITIAL, 0, events, end);
    assert INITIAL.vss.Keys + SetOf(ds) == SetOf(ds);
    CountedPhase(cfg, end, ds);
  }

  lemma InitialIsCounted(cfg: Config)
    requires cfg.Valid()
    ensures NodeValid(cfg, INITIAL) && Counted(cfg, INITIAL, 0) && INITIAL.vss.Keys == {}
  {
  }

  lemma CountedPhase(cfg: Config, end: Node, dealers: seq<nat>)
    requires cfg.Valid() && NodeValid(cfg, end) && end.vss.Keys == SetOf(dealers)
    requires Counted(cfg, end, |dealers|) || (end.state == Success(FinalKey(cfg, end)) && Enough(cfg, |dealers|))
    ensures end.state.Success? <==> !Counted(cfg, end, |dealers|)
    ensures end.state.Sharing? ==>
              && end.state.accumulatedShares == |dealers|
              && (end.state.accumulatedShares == |end.vss| <==> Distinct(dealers))
              && (PhaseInvariant(cfg, end) <==> Distinct(dealers))
    ensures !end.state.Sharing? ==> (PhaseInvariant(cfg, end) <==> |SetOf(dealers)| >= cfg.MinimumShares())
  {
    hide FinalKey, Distinct, SetOf;
    DistinctCount(dealers);
    DistinctSome(dealers);
    assert |end.vss| == |SetOf(dealers)|;
  }

  /** The same deal twice, without verification: the counter runs ahead of the dealers. */
  lemma UnverifiedRepeatMiscounts(cfg: Config, pvss: Transcript)
    requires cfg.Valid() && cfg.MinimumShares() > 2 && pvss.coeffs != []
    ensures var e := FromChain(cfg.committee.validators[0].validator, Deal(pvss));
            var node := After(cfg, After(cfg, INITIAL, e), e);
            && AnyRun(cfg, INITIAL, [e, e], node) && !Distinct(Dealers(cfg, [e, e]))
            && node.state == Sharing(2, 0) && |node.vss| == 1
  {
    var v := cfg.committee.validators;
    assert PositionByAddress(v, v[0].validator.address) == Some(0);
    assert map[0 := pvss][0 := pvss] == map[0 := pvss];
    var e := FromChain(v[0].validator, Deal(pvss));
    assert After(cfg, INITIAL, e) == Node(map[0 := pvss], Sharing(1, 0));
    assert [e, e][1..] == [e] && [e][1..] == [];
    assert Dealers(cfg, [e]) == [0];
    assert Dealers(cfg, [e, e]) == [0, 0];
    assert [0, 0][0] == [0, 0][1];
  }

  // ----- which deals are accepted, in which orders -----

  /** A deal that a node without any transcripts accepts. */
  ghost predicate Acceptable(cfg: Config, e: Event) {
    e.FromChain? && e.payload.Deal? ==>
      && e.payload.pvss.coeffs != []
      && PositionOf(cfg.committee.validators, e.sender).Some?
      && VerifyOptimistic(e.payload.pvss)
  }

  /** While deals are taken, an event is verified exactly when it is acceptable and its
      dealer is new; then exactly that dealer is added and deals are still taken. */
  lemma VerifiedIff(cfg: Config, node: Node, e: Event)
    requires cfg.Valid() && DistinctAddresses(cfg) && NodeValid(cfg, node) && AcceptsDeals(node.state)
    requires e.FromChain? ==> e.payload.Deal?
    ensures Verified(cfg, node, e) <==>
            Acceptable(cfg, e) && forall d :: d in DealerOf(cfg, e) ==> d !in node.vss
    ensures Acceptable(cfg, e) ==>
              && AcceptsDeals(After(cfg, node, e).state)
              && After(cfg, node, e).vss.Keys == node.vss.Keys + SetOf(DealerOf(cfg, e))
  {
    hide VerifyOptimistic, FinalKey;
    if e.FromChain? && PositionOf(cfg.committee.validators, e.sender).Some? {
      SamePosition(cfg.committee.validators, e.sender);
    }
    assert SetOf<nat>([]) == {};
    if DealerOf(cfg, e) != [] {
      assert SetOf(DealerOf(cfg, e)) == {DealerOf(cfg, e)[0]};
    }
  }

  /** Every event of the sequence is verified when it is applied. */
  ghost predicate Completes(cfg: Config, start: Node, events: seq<Event>)
    requires cfg.Valid() && NodeValid(cfg, start)
  {
    exists end :: Run(cfg, start, events, end)
  }

  ghost predicate NewDealers(cfg: Config, start: Node, events: seq<Event>) {
    forall d :: d in Dealers(cfg, events) ==> d !in start.vss
  }

  lemma DealersCons(cfg: Config, start: Node, next: Node, events: seq<Event>)
    requires events != [] && next.vss.Keys == start.vss.Keys + SetOf(DealerOf(cfg, events[0]))
    ensures Distinct(Dealers(cfg, events)) && NewDealers(cfg, start, events) <==>
            && (forall d :: d in DealerOf(cfg, events[0]) ==> d !in start.vss)
            && Distinct(Dealers(cfg, events[1..])) && NewDealers(cfg, next, events[1..])
  {
    var d, ds := DealerOf(cfg, events[0]), Dealers(cfg, events[1..]);
    if d == [] {
      assert d + ds == ds && SetOf(d) == {};
    } else {
      DistinctCons(d + ds);
      assert d == [d[0]] && (d + ds)[1..] == ds && SetOf(d) == {d[0]};
    }
  }

  /** A sequence of deals and blocks is verified from beginning to end exactly when each
      deal is acceptable by itself, no dealer repeats, and none has dealt before. */
  lemma {:induction false} DealsAcceptedIff(cfg: Config, start: Node, events: seq<Event>)
    requires cfg.Valid() && DistinctAddresses(cfg) && NodeValid(cfg, start) && AcceptsDeals(start.state)
    requires NoAggregates(events)
    ensures Completes(cfg, start, events) <==>
            && (forall e :: e in events ==> Acceptable(cfg, e))
            && Distinct(Dealers(cfg, events)) && NewDealers(cfg, start, events)
    decreases |events|
  {
    hide Verified, After, DistinctAddresses, Acceptable, DealerOf, AcceptsDeals;
    if events == [] {
      assert Run(cfg, start, events, start);
    } else {
      var e, rest := events[0], events[1..];
      assert events == [e] + rest;
      VerifiedIff(cfg, start, e);
      CompletesCons(cfg, start, events);
      if Acceptable(cfg, e) {
        AcceptableIsValid(cfg, e);
        var next := After(cfg, start, e);
        DealsAcceptedIff(cfg, next, rest);
        DealersCons(cfg, start, next, events);
      }
    }
  }

  lemma CompletesCons(cfg: Config, start: Node, events: seq<Event>)
    requires cfg.Valid() && NodeValid(cfg, start) && events != []
    ensures Completes(cfg, start, events) <==>
            Verified(cfg, start, events[0]) && Completes(cfg, After(cfg, start, events[0]), events[1..])
  {
    hide After, VerifyOutcome, NodeValid;
    if Completes(cfg, start, events) {
      var end :| Run(cfg, start, events, end);
      assert Run(cfg, After(cfg, start, events[0]), events[1..], end);
    }
    if Verified(cfg, start, events[0]) && Completes(cfg, After(cfg, start, events[0]), events[1..]) {
      var end :| Run(cfg, After(cfg, start, events[0]), events[1..], end);
      assert Run(cfg, start, events, end);
    }
  }

  lemma AcceptableIsValid(cfg: Config, e: Event)
    requires Acceptable(cfg, e) && (e.FromChain? ==> e.payload.Deal?)
    ensures e.FromChain? ==> MessageValid(e.payload)
  {
  }

  // ----- any order -----

  lemma AppendAssoc(s: seq<nat>, t: seq<nat>, u: seq<nat>)
    ensures s + (t + u) == (s + t) + u
  {
  }

  lemma {:induction false} DealersConcat(cfg: Config, a: seq<Event>, b: seq<Event>)
    ensures Dealers(cfg, a + b) == Dealers(cfg, a) + Dealers(cfg, b)
  {
    hide DealerOf;
    if a == [] {
      assert a + b == b;
    } else {
      DealersConcat(cfg, a[1..], b);
      assert (a + b)[0] == a[0] && (a + b)[1..] == a[1..] + b;
      AppendAssoc(DealerOf(cfg, a[0]), Dealers(cfg, a[1..]), Dealers(cfg, b));
    }
  }

  /** The dealers of reordered events are the reordered dealers. */
  lemma {:induction false} DealersReordered(cfg: Config, events: seq<Event>, reordered: seq<Event>)
    requires multiset(events) == multiset(reordered)
    ensures multiset(Dealers(cfg, events)) == multiset(Dealers(cfg, reordered))
    decreases |events|
  {
    hide *;
    if events == [] {
      assert |multiset(reordered)| == 0;
    } else {
      var n := |events| - 1;
      var k := FindEqual(events, reordered);
      var a, e, b := reordered[..k], [reordered[k]], reordered[k + 1..];
      DealersReordered(cfg, events[..n], a + b);
      DealersConcat(cfg, a, b);
      DealersConcat(cfg, e, b);
      DealersConcat(cfg, a, e + b);
      DealersConcat(cfg, events[..n], e);
      assert reordered == a + (e + b) && events == events[..n] + e;
    }
  }

  lemma {:induction false} SessionsSeeSameDealers(cfg1: Config, cfg2: Config, events: seq<Event>)
    requires SameSession(cfg1, cfg2)
    ensures Dealers(cfg1, events) == Dealers(cfg2, events)
    ensures forall e :: Acceptable(cfg1, e) <==> Acceptable(cfg2, e)
  {
    hide VerifyOptimistic, PositionOf, PositionByAddress;
    if events != [] { SessionsSeeSameDealers(cfg1, cfg2, events[1..]); }
  }

  /** Deals that one node verified are verified by every node of the session in every
      order, with the blocks anywhere in between, and lead to the same transcripts, final
      key and phase. */
  lemma AnyOrderAgrees(cfg1: Config, events: seq<Event>, end: Node, cfg2: Config, reordered: seq<Event>)
    requires cfg1.Valid() && cfg2.Valid() && SameSession(cfg1, cfg2) && DistinctAddresses(cfg1)
    requires Run(cfg1, INITIAL, events, end)
    requires NoAggregates(events) && multiset(events) == multiset(reordered)
    ensures Completes(cfg2, INITIAL, reordered)
    ensures forall other :: Run(cfg2, INITIAL, reordered, other) ==>
              && NodeValid(cfg1, end) && NodeValid(cfg2, other)
              && other.vss == end.vss && SamePhase(other.state, end.state)
              && FinalKey(cfg2, other) == FinalKey(cfg1, end)
  {
    hide Run, DealsIn, NoAggregates, FinalKey, SamePhase, Completes;
    ReorderedCompletes(cfg1, events, end, cfg2, reordered);
    SameEntries(events, reordered);
    SameNoAggregates(events, reordered);
    SameDeals(cfg2, events, reordered);
    assert SameSession(cfg2, cfg1) && DistinctAddresses(cfg2);
    forall other | Run(cfg2, INITIAL, reordered, other)
      ensures NodeValid(cfg1, end) && NodeValid(cfg2, other)
      ensures other.vss == end.vss && SamePhase(other.state, end.state)
      ensures FinalKey(cfg2, other) == FinalKey(cfg1, end)
    {
      Agreement(cfg2, reordered, other, cfg1, events, end);
    }
  }

  lemma ReorderedCompletes(cfg1: Config, events: seq<Event>, end: Node, cfg2: Config, reordered: seq<Event>)
    requires cfg1.Valid() && cfg2.Valid() && SameSession(cfg1, cfg2) && DistinctAddresses(cfg1)
    requires Run(cfg1, INITIAL, events, end)
    requires NoAggregates(events) && multiset(events) == multiset(reordered)
    ensures Completes(cfg2, INITIAL, reordered)
  {
    hide Run, Acceptable, Dealers, Distinct, NoAggregates;
    assert DistinctAddresses(cfg2);
    SameEntries(events, reordered);
    SameNoAggregates(events, reordered);
    DealersReordered(cfg1, events, reordered);
    DistinctReordered(Dealers(cfg1, events), Dealers(cfg1, reordered));
    SessionsSeeSameDealers(cfg1, cfg2, reordered);
    assert Completes(cfg1, INITIAL, events);
    DealsAcceptedIff(cfg1, INITIAL, events);
    DealsAcceptedIff(cfg2, INITIAL, reordered);
  }

  lemma SameNoAggregates(events: seq<Event>, reordered: seq<Event>)
    requires forall e :: e in events <==> e in reordered
    ensures NoAggregates(events) <==> NoAggregates(reordered)
  {
  }

  lemma SameDeals(cfg: Config, events: seq<Event>, reordered: seq<Event>)
    requires forall e :: e in events <==> e in reordered
    ensures DealsIn(cfg, events) == DealsIn(cfg, reordered)
  {
  }
}
