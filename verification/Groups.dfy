/** The pairing groups, each element represented by its exponent to the base of the
    group's generator: the group operation becomes addition, a scalar multiple a
    product, and the pairing multiplies exponents. */
module Groups {
  import opened Field
  import opened Sums

  type G1 = F
  type G2 = F
  type GT = F

  /** The generators of G1 and of G2. */
  const G1_GENERATOR: G1 := 1
  const G2_GENERATOR: G2 := 1

  /** The neutral element of the target group. */
  const GT_ONE: GT := 0

  /** Raising a generator to x gives the element represented by x. */
  lemma GeneratorPower(x: F)
    ensures Mul(G1_GENERATOR, x) == x && Mul(G2_GENERATOR, x) == x
  {
    MulZeroOne(x);
  }

  function Pairing(a: G1, b: G2): GT { Mul(a, b) }

  function PairingTerms(pairs: seq<(G1, G2)>): (r: seq<GT>)
    ensures |r| == |pairs|
  {
    seq(|pairs|, i requires 0 <= i < |pairs| => Pairing(pairs[i].0, pairs[i].1))
  }

  /** `E::product_of_pairings` */
  function ProductOfPairings(pairs: seq<(G1, G2)>): GT {
    Sum(PairingTerms(pairs))
  }

  lemma PairingProductOfTwo(a: G1, b: G2, c: G1, d: G2)
    ensures ProductOfPairings([(a, b), (c, d)]) == Add(Mul(a, b), Mul(c, d))
  {
    hide Mul, Add;
    assert PairingTerms([(a, b), (c, d)]) == [Mul(a, b)] + [Mul(c, d)];
    SumSnoc([Mul(a, b)], Mul(c, d));
    SumOne(Mul(a, b));
  }

  lemma PairingProductOfOne(a: G1, b: G2)
    ensures ProductOfPairings([(a, b)]) == Mul(a, b)
  {
    hide Mul;
    assert PairingTerms([(a, b)]) == [Mul(a, b)];
    SumOne(Mul(a, b));
  }
}
