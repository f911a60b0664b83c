/** Runs of refresh rounds, recoveries and losses over the holders of one key. */
module Lifecycle {
  import opened Sequences
  import opened Field
  import opened Polynomials
  import opened RootProducts
  import opened Groups
  import opened Lagrange
  import opened Decryption
  import opened Combine
  import opened Refresh

  /** The holders: their domain points and their private key shares. */
  datatype State = State(points: seq<F>, shares: seq<G2>) {
    ghost predicate Valid() {
      |points| == |shares| && Distinct(points)
    }
  }

  datatype Step =
    /** Every holder refreshes with the dealer's polynomial, which vanishes at zero. */
    | RefreshAll(random: Poly)
    /** The holders `who` recover the share at xr.  `randoms` are the random choices of
        the dealers of updates, `received` the updates in each participant's order. */
    | Recover(xr: F, who: seq<nat>, randoms: seq<Poly>, received: seq<seq<G2>>)
    /** A holder loses its share. */
    | Lose(holder: nat)

  function Pick<T>(s: seq<T>, who: seq<nat>): (r: seq<T>)
    requires forall i :: 0 <= i < |who| ==> who[i] < |s|
    ensures |r| == |who|
  {
    seq(|who|, i requires 0 <= i < |who| => s[who[i]])
  }

  ghost predicate DistinctIndices(who: seq<nat>, n: nat) {
    Distinct(who) && forall i :: 0 <= i < |who| ==> who[i] < n
  }

  /** What the protocol asks of a step: random polynomials of at most t coefficients, and
      at least t participants in a recovery, each receiving one update per dealer. */
  ghost predicate Allowed(s: State, step: Step, t: nat, h: G2) {
    match step
    case RefreshAll(random) => 1 <= |random| <= t
    case Recover(xr, who, randoms, received) =>
      && DistinctIndices(who, |s.points|) && |who| >= t
      && (forall k :: 0 <= k < |randoms| ==> 1 <= |randoms[k]| <= t)
      && |received| == |who|
      && (forall i :: 0 <= i < |who| ==>
            multiset(received[i]) == multiset(UpdatesFor(DealUpdates(Pick(s.points, who), h, xr, randoms), i)))
    case Lose(holder) => holder < |s.points|
  }

  /** The holder of x, if there is one. */
  function IndexOf(points: seq<F>, x: F): (i: nat)
    ensures i <= |points|
    ensures i < |points| ==> points[i] == x
    ensures i == |points| ==> x !in points
  {
    if points == [] then 0
    else if points[0] == x then 0
    else 1 + IndexOf(points[1..], x)
  }

  /** A recovered share replaces the one at its point or joins as a new holder. */
  function Store(s: State, x: F, share: G2): State
    requires |s.points| == |s.shares|
  {
    var i := IndexOf(s.points, x);
    if i < |s.points| then s.(shares := s.shares[i := share])
    else State(s.points + [x], s.shares + [share])
  }

  function UpdatedShares(s: State, who: seq<nat>, received: seq<seq<G2>>): (r: seq<G2>)
    requires |s.points| == |s.shares| && |received| == |who|
    requires forall i :: 0 <= i < |who| ==> who[i] < |s.points|
    ensures |r| == |who|
  {
    seq(|who|, i requires 0 <= i < |who| => UpdateShare(s.shares[who[i]], received[i]))
  }

  ghost function Apply(s: State, step: Step, t: nat, h: G2): State
    requires s.Valid() && Allowed(s, step, t, h)
  {
    match step
    case RefreshAll(random) =>
      s.(shares := seq(|s.shares|, i requires 0 <= i < |s.shares| =>
                     RefreshShare(h, s.points[i], VanishingAt(0, random), s.shares[i])))
    case Recover(xr, who, randoms, received) =>
      Store(s, xr, RecoverShare(xr, Pick(s.points, who), UpdatedShares(s, who, received)))
    case Lose(holder) =>
      State(Others(s.points, holder), Others(s.shares, holder))
  }

  /** All shares lie on f, which has at most t coefficients. */
  ghost predicate SharesOf(s: State, f: Poly, t: nat, h: G2) {
    && s.Valid() && Canonical(f) && |f| <= t
    && forall i :: 0 <= i < |s.points| ==> s.shares[i] == Mul(h, Eval(f, s.points[i]))
  }

  // ----- one step -----

  /** The polynomial the shares lie on after a step: a refresh adds the dealer's. */
  function Moved(f: Poly, step: Step): Poly {
    if step.RefreshAll? && step.random != [] then PolyAdd(f, VanishingAt(0, step.random)) else f
  }

  /** A refresh moves all shares from f to f plus the dealer's polynomial, at the same
      points. */
  lemma RefreshKeeps(s: State, random: Poly, f: Poly, t: nat, h: G2)
    requires SharesOf(s, f, t, h) && Allowed(s, RefreshAll(random), t, h)
    ensures var g := PolyAdd(f, VanishingAt(0, random));
            SharesOf(Apply(s, RefreshAll(random), t, h), g, t, h) && Eval(g, 0) == Eval(f, 0)
    ensures Apply(s, RefreshAll(random), t, h).points == s.points
  {
    hide Mul, Eval, PolyAdd, VanishingAt, Distinct;
    var delta := VanishingAt(0, random);
    VanishingAtCorrect(0, random);
    var g := PolyAdd(f, delta);
    forall i | 0 <= i < |s.points|
      ensures RefreshShare(h, s.points[i], delta, s.shares[i]) == Mul(h, Eval(g, s.points[i]))
    {
      EvalAdd(f, delta, s.points[i]);
      MulAdd(h, Eval(f, s.points[i]), Eval(delta, s.points[i]));
    }
    EvalAdd(f, delta, 0);
    AddZero(Eval(f, 0));
  }

  /** A recovery leaves every holder where it is and every share at another point as it
      is; afterwards there is a holder at xr, with the share there. */
  lemma RecoverKeeps(s: State, step: Step, f: Poly, t: nat, h: G2)
    requires step.Recover? && SharesOf(s, f, t, h) && Allowed(s, step, t, h)
    ensures var next := Apply(s, step, t, h);
            && SharesOf(next, f, t, h)
            && (if step.xr in s.points then next.points == s.points else next.points == s.points + [step.xr])
            && (forall i :: 0 <= i < |s.points| && s.points[i] != step.xr ==> next.shares[i] == s.shares[i])
            && (forall i :: 0 <= i < |next.points| && next.points[i] == step.xr ==>
                  next.shares[i] == Mul(h, Eval(f, step.xr)))
  {
    hide Mul, Eval, RecoverShare, UpdatedShares, IndexOf;
    RecoveredShare(s, step, f, t, h);
    StoreKeeps(s, step.xr, Mul(h, Eval(f, step.xr)), f, t, h);
  }

  lemma PickDistinct(points: seq<F>, who: seq<nat>)
    requires Distinct(points) && DistinctIndices(who, |points|)
    ensures Distinct(Pick(points, who))
  {
    var xs := Pick(points, who);
    forall i, j | 0 <= i < j < |xs| ensures xs[i] != xs[j] {
      assert points[if who[i] < who[j] then who[i] else who[j]] != points[if who[i] < who[j] then who[j] else who[i]];
    }
  }

  lemma RecoveredShare(s: State, step: Step, f: Poly, t: nat, h: G2)
    requires step.Recover? && SharesOf(s, f, t, h) && Allowed(s, step, t, h)
    ensures RecoverShare(step.xr, Pick(s.points, step.who), UpdatedShares(s, step.who, step.received))
            == Mul(h, Eval(f, step.xr))
  {
    hide Mul, Eval, RecoverShare, UpdateShare, DealUpdates;
    var xs := Pick(s.points, step.who);
    PickDistinct(s.points, step.who);
    TrimCanonical(f);
    RecoveryIsExact(f, t, xs, h, step.xr, step.randoms, UpdatedShares(s, step.who, step.received), step.received);
  }

  lemma StoreKeeps(s: State, x: F, share: G2, f: Poly, t: nat, h: G2)
    requires SharesOf(s, f, t, h) && share == Mul(h, Eval(f, x))
    ensures SharesOf(Store(s, x, share), f, t, h)
  {
    hide Mul, Eval, IndexOf;
  }

  /** A loss removes one holder with its share and keeps all others in order. */
  lemma LoseKeeps(s: State, holder: nat, f: Poly, t: nat, h: G2)
    requires SharesOf(s, f, t, h) && holder < |s.points|
    ensures var next := Apply(s, Lose(holder), t, h);
            && SharesOf(next, f, t, h)
            && |next.points| == |s.points| - 1
            && next.points[..holder] == s.points[..holder] && next.points[holder..] == s.points[holder + 1..]
            && next.shares[..holder] == s.shares[..holder] && next.shares[holder..] == s.shares[holder + 1..]
  {
    hide Mul, Eval;
    var s' := Apply(s, Lose(holder), t, h);
    forall i, j | 0 <= i < j < |s'.points| ensures s'.points[i] != s'.points[j] {
      assert s'.points[i] == s.points[if i < holder then i else i + 1];
      assert s'.points[j] == s.points[if j < holder then j else j + 1];
    }
    forall i | 0 <= i < |s'.points| ensures s'.shares[i] == Mul(h, Eval(f, s'.points[i])) {
      assert s'.points[i] == s.points[if i < holder then i else i + 1];
    }
  }

  lemma StepKeeps(s: State, step: Step, f: Poly, t: nat, h: G2)
    requires SharesOf(s, f, t, h) && Allowed(s, step, t, h)
    ensures SharesOf(Apply(s, step, t, h), Moved(f, step), t, h) && Eval(Moved(f, step), 0) == Eval(f, 0)
  {
    hide Mul, Eval, Apply, SharesOf;
    match step
    case RefreshAll(random) => RefreshKeeps(s, random, f, t, h);
    case Recover(xr, who, randoms, received) => RecoverKeeps(s, step, f, t, h);
    case Lose(holder) => LoseKeeps(s, holder, f, t, h);
  }

  lemma SharesOfValid(s: State, f: Poly, t: nat, h: G2)
    requires SharesOf(s, f, t, h)
    ensures s.Valid()
  {
  }

  // ----- whole runs -----

  /** A run: every step allowed where it happens, ending in the given state. */
  ghost predicate Run(s: State, steps: seq<Step>, end: State, t: nat, h: G2)
    decreases |steps|
  {
    if steps == [] then s == end else
      s.Valid() && Allowed(s, steps[0], t, h) && Run(Apply(s, steps[0], t, h), steps[1..], end, t, h)
  }

  /** The first polynomial plus those of all refreshes. */
  function MovedBy(f: Poly, steps: seq<Step>): Poly
    decreases |steps|
  {
    if steps == [] then f else MovedBy(Moved(f, steps[0]), steps[1..])
  }

  /** After any run all shares lie on the first polynomial plus those of the refreshes: it
      has at most t coefficients and the first value at zero. */
  lemma {:induction false} RunKeeps(s: State, steps: seq<Step>, end: State, f: Poly, t: nat, h: G2)
    requires SharesOf(s, f, t, h) && Run(s, steps, end, t, h)
    ensures SharesOf(end, MovedBy(f, steps), t, h) && Eval(MovedBy(f, steps), 0) == Eval(f, 0)
    decreases |steps|
  {
    hide SharesOf, Apply, Eval, PolyAdd, VanishingAt;
    if steps != [] {
      StepKeeps(s, steps[0], f, t, h);
      RunKeeps(Apply(s, steps[0], t, h), steps[1..], end, Moved(f, steps[0]), t, h);
    }
  }

  lemma RunSnoc(s: State, step: Step, t: nat, h: G2)
    requires s.Valid() && Allowed(s, step, t, h)
    ensures Run(s, [step], Apply(s, step, t, h), t, h)
  {
    hide Apply, Allowed;
    assert [step][1..] == [];
  }

  /** The updates that the dealers send to every participant, in the dealers' order. */
  function UpdatesForAll(points: seq<F>, h: G2, xr: F, randoms: seq<Poly>): (r: seq<seq<G2>>)
    requires forall k :: 0 <= k < |randoms| ==> randoms[k] != []
    ensures |r| == |points|
  {
    seq(|points|, i requires 0 <= i < |points| => UpdatesFor(DealUpdates(points, h, xr, randoms), i))
  }

  /** As long as t holders are left, every refresh, every recovery and every loss is a run:
      for any random choices and any point. */
  lemma StepsArePossible(s: State, t: nat, h: G2, random: Poly, xr: F, randoms: seq<Poly>, who: seq<nat>, holder: nat)
    requires s.Valid() && DistinctIndices(who, |s.points|) && |who| >= t
    requires 1 <= |random| <= t && forall k :: 0 <= k < |randoms| ==> 1 <= |randoms[k]| <= t
    requires holder < |s.points|
    ensures exists end :: Run(s, [RefreshAll(random)], end, t, h)
    ensures exists end ::
              Run(s, [Recover(xr, who, randoms, UpdatesForAll(Pick(s.points, who), h, xr, randoms))], end, t, h)
    ensures exists end :: Run(s, [Lose(holder)], end, t, h)
  {
    hide Apply, Run, DealUpdates;
    RunSnoc(s, RefreshAll(random), t, h);
    RunSnoc(s, Recover(xr, who, randoms, UpdatesForAll(Pick(s.points, who), h, xr, randoms)), t, h);
    RunSnoc(s, Lose(holder), t, h);
  }

  /** After any run, the decryption shares of any t or more holders combine to the
      secret of the first dealing. */
  lemma SecretSurvives(s: State, steps: seq<Step>, end: State, f: Poly, t: nat, h: G2,
                       u: G1, who: seq<nat>, shares: seq<ShareSimple>)
    requires SharesOf(s, f, t, h) && Run(s, steps, end, t, h) && end.Valid()
    requires DistinctIndices(who, |end.points|) && |who| >= t && |shares| == |who|
    requires forall i :: 0 <= i < |who| ==> shares[i].decryptionShare == Pairing(u, end.shares[who[i]])
    ensures ShareCombineSimple(shares, Basis(Pick(end.points, who), 0)) == Pairing(u, Mul(h, Eval(f, 0)))
  {
    hide Mul, Eval, Basis, ShareCombineSimple, Trim, Run, Distinct;
    RunKeeps(s, steps, end, f, t, h);
    var g := MovedBy(f, steps);
    var xs := Pick(end.points, who);
    PickDistinct(end.points, who);
    TrimCanonical(g);
    forall i | 0 <= i < |xs| ensures shares[i].decryptionShare == Pairing(Mul(u, h), Eval(g, xs[i])) {
      MulAssoc(u, h, Eval(g, xs[i]));
    }
    SimpleCombines(g, xs, Mul(u, h), shares);
    MulAssoc(u, h, Eval(f, 0));
  }
}
