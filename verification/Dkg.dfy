/** The state machine of the distributed key generation: what one node does with the
    messages that reach it. */
module Dkg {
  import opened Sequences
  import opened Field
  import opened Polynomials
  import opened Wrappers
  import opened NewtonInverse
  import opened EvaluationDomains
  import opened Sums
  import opened Groups
  import opened Pvss

  datatype Params = Params(tau: nat, securityThreshold: nat, sharesNum: nat)

  datatype DkgState =
    | Sharing(accumulatedShares: nat, block: nat)
    | Dealt
    | Success(finalKey: G1)
    | Invalid

  datatype Message =
    | Deal(pvss: Transcript)
    | Aggregate(aggregate: Transcript, finalKey: G1)

  datatype PvssScheduler = Wait | Issue

  datatype DkgError =
    | NoDomain
    | NotInValidatorSet
    | UnknownDealer
    | RepeatDealer(dealer: nat)
    | InvalidTranscript
    | AggregationDoesNotMatch
    | NotEnoughShares
    | WrongFinalKey
    | WrongState

  /** What does not change during a session. */
  datatype Config = Config(params: Params, committee: Committee, me: nat) {
    /** A domain for the number of shares, one share per validator, in order, and
        parameters that `u32` can subtract. */
    ghost predicate Valid() {
      && committee.domain.Valid()
      && params.sharesNum <= committee.domain.Size()
      && |committee.validators| <= committee.domain.Size()
      && (forall i :: 0 <= i < |committee.validators| ==> committee.validators[i].shareIndex == i)
      && params.securityThreshold <= params.sharesNum
      && me < |committee.validators|
    }

    function MinimumShares(): nat
      requires params.securityThreshold <= params.sharesNum
    {
      params.sharesNum - params.securityThreshold
    }
  }

  /** What does change: the transcripts by dealer, and the phase. */
  datatype Node = Node(vss: map<nat, Transcript>, state: DkgState)

  ghost predicate NodeValid(cfg: Config, node: Node) {
    && (forall k :: k in node.vss ==> k < |cfg.committee.validators|)
    && (forall k :: k in node.vss ==> node.vss[k].coeffs != [])
  }

  /** Messages carry at least one commitment. */
  ghost predicate MessageValid(payload: Message) {
    match payload
    case Deal(pvss) => pvss.coeffs != []
    case Aggregate(vss, _) => vss.coeffs != []
  }

  // ----- the received transcripts in the order of their dealers -----

  function Entries(vss: map<nat, Transcript>, n: nat): seq<Transcript> {
    if n == 0 then [] else Entries(vss, n - 1) + if n - 1 in vss then [vss[n - 1]] else []
  }

  function Received(cfg: Config, node: Node): seq<Transcript> {
    Entries(node.vss, |cfg.committee.validators|)
  }

  /** Every entry is the transcript of some dealer. */
  lemma {:induction false} EntriesFrom(vss: map<nat, Transcript>, n: nat)
    ensures forall t :: t in Entries(vss, n) ==> t in vss.Values
  {
    if n > 0 {
      EntriesFrom(vss, n - 1);
    }
  }

  /** There are as many entries as dealers. */
  lemma {:induction false} EntriesCount(vss: map<nat, Transcript>, n: nat)
    requires forall k :: k in vss ==> k < n
    ensures |Entries(vss, n)| == |vss|
  {
    if n == 0 {
      assert vss == map[];
    } else {
      var rest := map k | k in vss && k < n - 1 :: vss[k];
      EntriesCount(rest, n - 1);
      EntriesAgree(vss, rest, n - 1);
      CountWithout(vss, rest, n - 1);
    }
  }

  lemma CountWithout(vss: map<nat, Transcript>, rest: map<nat, Transcript>, n: nat)
    requires forall k :: k in vss ==> k <= n
    requires rest == map k | k in vss && k < n :: vss[k]
    ensures |vss| == |rest| + if n in vss then 1 else 0
  {
    if n in vss {
      assert vss == rest[n := vss[n]];
    } else {
      assert vss == rest;
    }
  }

  lemma {:induction false} EntriesAgree(a: map<nat, Transcript>, b: map<nat, Transcript>, n: nat)
    requires forall k :: k < n ==> (k in a <==> k in b) && (k in a ==> a[k] == b[k])
    ensures Entries(a, n) == Entries(b, n)
  {
    if n > 0 { EntriesAgree(a, b, n - 1); }
  }

  /** Each dealer's transcript is listed once, after those of the smaller dealers. */
  lemma {:induction false} EntryOfDealer(vss: map<nat, Transcript>, n: nat, d: nat)
    requires d in vss && d < n
    ensures var i := |set k | k in vss && k < d|;
            i < |Entries(vss, n)| && Entries(vss, n)[i] == vss[d]
  {
    if d == n - 1 {
      var below := map k | k in vss && k < d :: vss[k];
      EntriesAgree(vss, below, d);
      EntriesCount(below, d);
      assert below.Keys == set k | k in vss && k < d;
      assert |below| == |below.Keys|;
    } else {
      EntryOfDealer(vss, n - 1, d);
    }
  }

  /** Storing a transcript adds exactly that one, in place of the dealer's former one. */
  lemma {:induction false} EntriesOfUpdate(vss: map<nat, Transcript>, n: nat, d: nat, t: Transcript)
    requires d < n
    ensures multiset(Entries(vss[d := t], n)) + Entry(vss, d) == multiset(Entries(vss, n)) + multiset{t}
  {
    hide Entries, Entry;
    var next := vss[d := t];
    EntriesStep(vss, n);
    EntriesStep(next, n);
    EntryOfUpdate(vss, d, t, n - 1);
    var before, after := multiset(Entries(vss, n - 1)), multiset(Entries(next, n - 1));
    if d == n - 1 {
      EntriesAgree(next, vss, d);
      ExchangeLast(before, Entry(vss, d), multiset{t});
    } else {
      EntriesOfUpdate(vss, n - 1, d, t);
      ExchangeInner(before, after, Entry(vss, n - 1), Entry(vss, d), multiset{t});
    }
  }

  function Entry(vss: map<nat, Transcript>, d: nat): multiset<Transcript> {
    if d in vss then multiset{vss[d]} else multiset{}
  }

  lemma EntryOfUpdate(vss: map<nat, Transcript>, d: nat, t: Transcript, k: nat)
    ensures Entry(vss[d := t], k) == if k == d then multiset{t} else Entry(vss, k)
  {
  }

  lemma ExchangeLast<T>(a: multiset<T>, x: multiset<T>, y: multiset<T>)
    ensures a + y + x == a + x + y
  {
  }

  lemma ExchangeInner<T>(a: multiset<T>, b: multiset<T>, e: multiset<T>, x: multiset<T>, y: multiset<T>)
    requires b + x == a + y
    ensures b + e + x == a + e + y
  {
    assert b + e + x == b + x + e && a + e + y == a + y + e;
  }

  lemma EntriesStep(vss: map<nat, Transcript>, n: nat)
    requires n > 0
    ensures multiset(Entries(vss, n)) == multiset(Entries(vss, n - 1)) + Entry(vss, n - 1)
  {
  }

  lemma ReceivedNonEmptyCoeffs(cfg: Config, node: Node)
    requires NodeValid(cfg, node)
    ensures forall i :: 0 <= i < |Received(cfg, node)| ==> Received(cfg, node)[i].coeffs != []
  {
    var ts := Received(cfg, node);
    EntriesFrom(node.vss, |cfg.committee.validators|);
    forall i | 0 <= i < |ts| ensures ts[i].coeffs != [] {
      assert ts[i] in node.vss.Values;
    }
  }

  /** `final_key`: the sum of the constant commitments. */
  ghost function FinalKey(cfg: Config, node: Node): G1
    requires NodeValid(cfg, node)
  {
    ReceivedNonEmptyCoeffs(cfg, node);
    Sum(Constants(Received(cfg, node)))
  }

  /** The final key sums the constant commitments of all transcripts received. */
  lemma FinalKeyIsSum(cfg: Config, node: Node)
    requires NodeValid(cfg, node)
    ensures FinalKey(cfg, node) == Sum(Map(Received(cfg, node), CoefficientAt(0)))
  {
    hide Sum;
    ReceivedNonEmptyCoeffs(cfg, node);
    assert Constants(Received(cfg, node)) == Map(Received(cfg, node), CoefficientAt(0));
  }

  lemma FinalKeyOfNone(cfg: Config, state: DkgState)
    ensures FinalKey(cfg, Node(map[], state)) == 0
  {
    EntriesCount(map[], |cfg.committee.validators|);
    assert Constants([]) == [];
    SumOne(0);
  }

  /** A new deal adds its constant commitment to the final key; a deal in place of another
      exchanges theirs. */
  lemma FinalKeyOfDeal(cfg: Config, node: Node, d: nat, t: Transcript, state: DkgState)
    requires NodeValid(cfg, node) && d < |cfg.committee.validators| && t.coeffs != []
    ensures NodeValid(cfg, Node(node.vss[d := t], state))
    ensures Add(FinalKey(cfg, Node(node.vss[d := t], state)), if d in node.vss then node.vss[d].coeffs[0] else 0) ==
            Add(FinalKey(cfg, node), t.coeffs[0])
  {
    hide Sum, Add, FinalKey, Entries;
    var next := Node(node.vss[d := t], state);
    var a, b := Received(cfg, next), Received(cfg, node);
    EntriesOfUpdate(node.vss, |cfg.committee.validators|, d, t);
    FinalKeyIsSum(cfg, next);
    FinalKeyIsSum(cfg, node);
    AddZero(FinalKey(cfg, next));
    SumWithMore(b, t);
    if d in node.vss {
      SumWithMore(a, node.vss[d]);
      SumMapReordered(a + [node.vss[d]], b + [t], CoefficientAt(0));
    } else {
      SumMapReordered(a, b + [t], CoefficientAt(0));
    }
  }

  lemma SumWithMore(ts: seq<Transcript>, t: Transcript)
    requires t.coeffs != []
    ensures Sum(Map(ts + [t], CoefficientAt(0))) == Add(Sum(Map(ts, CoefficientAt(0))), t.coeffs[0])
  {
    hide Sum, Add;
    SumOfMore(ts + [t], CoefficientAt(0));
    assert (ts + [t])[..|ts|] == ts;
  }

  // ----- positions of validators -----

  /** The first validator that is the sender, with key and address. */
  function PositionOf(validators: seq<Validator>, sender: ExternalValidator): (r: Option<nat>)
    ensures r.Some? ==> r.value < |validators| && validators[r.value].validator == sender
    ensures r.Some? ==> forall v :: v in validators[..r.value] ==> v.validator != sender
    ensures r.None? ==> forall v :: v in validators ==> v.validator != sender
  {
    if validators == [] then None
    else if sender == validators[0].validator then Some(0)
    else match PositionOf(validators[1..], sender)
         case None => None
         case Some(k) => Some(k + 1)
  }

  /** The first validator with the sender's address. */
  function PositionByAddress(validators: seq<Validator>, address: string): (r: Option<nat>)
    ensures r.Some? ==> r.value < |validators| && validators[r.value].validator.address == address
    ensures r.Some? ==> forall v :: v in validators[..r.value] ==> v.validator.address != address
    ensures r.None? ==> forall v :: v in validators ==> v.validator.address != address
  {
    if validators == [] then None
    else if address == validators[0].validator.address then Some(0)
    else match PositionByAddress(validators[1..], address)
         case None => None
         case Some(k) => Some(k + 1)
  }

  // ----- the transitions as functions of the node -----

  predicate AcceptsDeals(state: DkgState) { state.Sharing? || state.Dealt? }

  /** `verify_message` */
  ghost function VerifyOutcome(cfg: Config, node: Node, sender: ExternalValidator, payload: Message)
    : Result<(), DkgError>
    requires cfg.Valid() && NodeValid(cfg, node) && MessageValid(payload)
  {
    match payload
    case Deal(pvss) =>
      if !AcceptsDeals(node.state) then Err(WrongState)
      else
        var dealer := PositionOf(cfg.committee.validators, sender);
        if dealer.None? then Err(UnknownDealer)
        else if dealer.value in node.vss then Err(RepeatDealer(dealer.value))
        else if !VerifyOptimistic(pvss) then Err(InvalidTranscript)
        else Ok(())
    case Aggregate(vss, finalKey) =>
      if !node.state.Dealt? then Err(WrongState)
      else if FinalKey(cfg, node) != vss.coeffs[0] then Err(AggregationDoesNotMatch)
      else if |node.vss| < cfg.MinimumShares() then Err(NotEnoughShares)
      else if FinalKey(cfg, node) != finalKey then Err(WrongFinalKey)
      else Ok(())
  }

  /** The phase after one more deal. */
  function AfterDeal(cfg: Config, state: DkgState): DkgState
    requires cfg.params.securityThreshold <= cfg.params.sharesNum
  {
    match state
    case Sharing(accumulated, block) =>
      if accumulated + 1 >= cfg.MinimumShares() then Dealt else Sharing(accumulated + 1, block)
    case _ => state
  }

  /** `apply_message` */
  ghost function ApplyOutcome(cfg: Config, node: Node, sender: ExternalValidator, payload: Message)
    : (r: (Node, Result<(), DkgError>))
    requires cfg.Valid() && NodeValid(cfg, node) && MessageValid(payload)
    ensures NodeValid(cfg, r.0)
  {
    match payload
    case Deal(pvss) =>
      if !AcceptsDeals(node.state) then (node, Err(WrongState))
      else
        var dealer := PositionByAddress(cfg.committee.validators, sender.address);
        if dealer.None? then (node, Err(UnknownDealer))
        else (Node(node.vss[dealer.value := pvss], AfterDeal(cfg, node.state)), Ok(()))
    case Aggregate(_, _) =>
      if !node.state.Dealt? then (node, Err(WrongState))
      else (node.(state := Success(FinalKey(cfg, node))), Ok(()))
  }

  /** `increase_block` */
  function BlockOutcome(cfg: Config, node: Node): Node {
    match node.state
    case Sharing(accumulated, block) =>
      if cfg.me !in node.vss then node.(state := Sharing(accumulated, block + 1)) else node
    case _ => node
  }

  // ----- the node itself -----

  /** `PubliclyVerifiableDkg` */
  class PubliclyVerifiableDkg {
    const cfg: Config
    var vss: map<nat, Transcript>
    var state: DkgState

    ghost function Abstract(): Node
      reads this
    {
      Node(vss, state)
    }

    ghost predicate Valid()
      reads this
    {
      cfg.Valid() && NodeValid(cfg, Abstract())
    }

    constructor Start(config: Config)
      ensures cfg == config && Abstract() == Node(map[], Sharing(0, 0))
    {
      cfg := config;
      vss := map[];
      state := Sharing(0, 0);
    }

    /** `new`: it checks neither the threshold nor that the domain is large enough for the
        validators, which is what a usable node needs. */
    static method New(validators: seq<ExternalValidator>, params: Params, me: ExternalValidator)
      returns (r: Result<PubliclyVerifiableDkg, DkgError>)
      ensures r == Err(NoDomain) <==> NewFftDomain(params.sharesNum).None?
      ensures r == Err(NotInValidatorSet) <==> NewFftDomain(params.sharesNum).Some? && me !in validators
      ensures r.Ok? <==> NewFftDomain(params.sharesNum).Some? && me in validators
      ensures r.Ok? ==>
                && fresh(r.value)
                && (r.value.Valid() <==>
                      && params.securityThreshold <= params.sharesNum
                      && |validators| <= Pow2(CeilLog2(params.sharesNum)))
                && r.value.Abstract() == Node(map[], Sharing(0, 0))
                && r.value.cfg.params == params
                && r.value.cfg.committee == Committee(MakeValidators(validators), NewFftDomain(params.sharesNum).value)
                && r.value.cfg.me < |validators| && validators[r.value.cfg.me] == me
                && me !in validators[..r.value.cfg.me]
    {
      hide NewFftDomain, Pow2;
      var domain := NewFftDomain(params.sharesNum);
      if domain.None? {
        return Err(NoDomain);
      }
      var committee := Committee(MakeValidators(validators), domain.value);
      var position := PositionOf(committee.validators, me);
      if position.None? {
        assert forall i :: 0 <= i < |validators| ==> committee.validators[i] in committee.validators;
        return Err(NotInValidatorSet);
      }
      assert validators[position.value] == me;
      assert forall i :: 0 <= i < position.value ==>
                           committee.validators[i] in committee.validators[..position.value];
      var dkg := new PubliclyVerifiableDkg.Start(Config(params, committee, position.value));
      return Ok(dkg);
    }

    /** `increase_block` */
    method IncreaseBlock() returns (answer: PvssScheduler)
      requires Valid()
      modifies this`state
      ensures Valid() && Abstract() == BlockOutcome(cfg, old(Abstract())) && answer == Wait
    {
      if state.Sharing? && cfg.me !in vss {
        state := Sharing(state.accumulatedShares, state.block + 1);
      }
      return Wait;
    }

    /** `share`: deals first, then looks at the phase. */
    method Share(s: F, random: Poly) returns (r: Result<Message, DkgError>)
      requires Valid() && random != [] && |random| <= cfg.committee.domain.Size()
      ensures r == if AcceptsDeals(state) then Ok(Deal(TranscriptOf(random[0 := s], cfg.committee)))
                   else Err(WrongState)
    {
      hide TranscriptOf, Pow2, Pow, Mul;
      var t := Pvss.Deal(s, random, cfg.committee);
      if AcceptsDeals(state) {
        return Ok(Deal(t));
      }
      return Err(WrongState);
    }

    /** The stored transcripts in the order of their keys, as a sorted map yields them. */
    method InOrder() returns (ts: seq<Transcript>)
      requires Valid()
      ensures ts == Received(cfg, Abstract())
    {
      ts := [];
      for k := 0 to |cfg.committee.validators|
        invariant ts == Entries(vss, k)
      {
        if k in vss {
          ts := ts + [vss[k]];
        }
      }
    }

    /** `final_key` */
    method ComputeFinalKey() returns (key: G1)
      requires Valid()
      ensures key == FinalKey(cfg, Abstract())
    {
      var ts := InOrder();
      ReceivedNonEmptyCoeffs(cfg, Abstract());
      key := Sum(Constants(ts));
    }

    /** `aggregate`; it needs transcripts of one shape. */
    method AggregateAll() returns (r: Result<Message, DkgError>)
      requires Valid()
      requires state.Dealt? ==> Uniform(Received(cfg, Abstract()))
      ensures r == if state.Dealt?
                   then Ok(Aggregate(AggregateOf(Received(cfg, Abstract())), FinalKey(cfg, Abstract())))
                   else Err(WrongState)
    {
      if !state.Dealt? {
        return Err(WrongState);
      }
      var key := ComputeFinalKey();
      var ts := InOrder();
      var sum := Pvss.Aggregate(ts);
      return Ok(Aggregate(sum, key));
    }

    /** `verify_message` */
    method VerifyMessage(sender: ExternalValidator, payload: Message) returns (r: Result<(), DkgError>)
      requires Valid() && MessageValid(payload)
      ensures r == VerifyOutcome(cfg, Abstract(), sender, payload)
    {
      hide VerifyOptimistic, Sum, Add, Mul, Pow, Pow2, Entries;
      if payload.Deal? && AcceptsDeals(state) {
        var dealer := PositionOf(cfg.committee.validators, sender);
        if dealer.None? {
          return Err(UnknownDealer);
        }
        if dealer.value in vss {
          return Err(RepeatDealer(dealer.value));
        }
        if !VerifyOptimistic(payload.pvss) {
          return Err(InvalidTranscript);
        }
        return Ok(());
      }
      if payload.Aggregate? && state.Dealt? {
        var minimumShares := cfg.MinimumShares();
        var ts := InOrder();
        ReceivedNonEmptyCoeffs(cfg, Abstract());
        EntriesCount(vss, |cfg.committee.validators|);
        var verified := VerifyAggregation(payload.aggregate, ts, cfg.committee);
        if verified.Err? {
          return Err(AggregationDoesNotMatch);
        }
        if verified.value < minimumShares {
          return Err(NotEnoughShares);
        }
        var key := ComputeFinalKey();
        if key == payload.finalKey {
          return Ok(());
        }
        return Err(WrongFinalKey);
      }
      return Err(WrongState);
    }

    /** `apply_message` */
    method ApplyMessage(sender: ExternalValidator, payload: Message) returns (r: Result<(), DkgError>)
      requires Valid() && MessageValid(payload)
      modifies this
      ensures Valid() && (Abstract(), r) == ApplyOutcome(cfg, old(Abstract()), sender, payload)
    {
      if payload.Deal? && AcceptsDeals(state) {
        var dealer := PositionByAddress(cfg.committee.validators, sender.address);
        if dealer.None? {
          return Err(UnknownDealer);
        }
        vss := vss[dealer.value := payload.pvss];
        if state.Sharing? {
          state := Sharing(state.accumulatedShares + 1, state.block);
          if state.accumulatedShares >= cfg.params.sharesNum - cfg.params.securityThreshold {
            state := Dealt;
          }
        }
        return Ok(());
      }
      if payload.Aggregate? && state.Dealt? {
        var key := ComputeFinalKey();
        state := Success(key);
        return Ok(());
      }
      return Err(WrongState);
    }
  }

  /** `make_validators`: share indices in the order of the list. */
  function MakeValidators(validators: seq<ExternalValidator>): (r: seq<Validator>)
    ensures |r| == |validators|
    ensures forall i :: 0 <= i < |r| ==> r[i] == Validator(validators[i], i)
  {
    seq(|validators|, i requires 0 <= i < |validators| => Validator(validators[i], i))
  }
}
