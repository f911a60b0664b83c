/** The radix-2 evaluation domain: the powers of a root of unity whose order is a
    power of two.  The transform is evaluation on the domain; its inverse is
    interpolation. */
module EvaluationDomains {
  import opened Sequences
  import opened Field
  import opened Polynomials
  import opened Wrappers
  import opened NewtonInverse
  import opened Combinations
  import opened SubproductTree

  datatype FftDomain = FftDomain(logSize: nat, groupGen: F) {
    function Size(): nat { Pow2(logSize) }

    ghost predicate Valid() {
      && groupGen != 0
      && Pow(groupGen, Size()) == 1
      && (logSize > 0 ==> Pow(groupGen, Pow2(logSize - 1)) != 1)
    }

    /** `domain.element(i)` */
    function Element(i: nat): F { Pow(groupGen, i) }

    /** `domain.elements()` */
    function Elements(): (r: seq<F>)
      ensures |r| == Size()
    {
      seq(Size(), i requires 0 <= i => Element(i))
    }
  }

  lemma {:induction false} Pow2Add(m: nat, n: nat)
    ensures Pow2(m + n) == Pow2(m) * Pow2(n)
  {
    if m > 0 { Pow2Add(m - 1, n); }
  }

  /** `Radix2EvaluationDomain::new`: the smallest power of two that is at least n,
      if the field has a root of unity of that order. */
  function NewFftDomain(n: nat): (r: Option<FftDomain>)
    ensures r.Some? ==> r.value.Valid() && r.value.logSize == CeilLog2(n) && n <= r.value.Size()
    ensures r.None? <==> CeilLog2(n) > PARAMS.twoAdicity
    ensures r.None? ==> forall w: F :: !FftDomain(CeilLog2(n), w).Valid()
  {
    var k := CeilLog2(n);
    if k > PARAMS.twoAdicity then NoRootOfOrder(k); None else
      RootOfOrder(k);
      Some(FftDomain(k, Pow(PARAMS.root, Pow2(PARAMS.twoAdicity - k))))
  }

  lemma RootOfOrder(k: nat)
    requires k <= PARAMS.twoAdicity
    ensures FftDomain(k, Pow(PARAMS.root, Pow2(PARAMS.twoAdicity - k))).Valid()
  {
    hide Mul, Pow, Pow2;
    var s, root := PARAMS.twoAdicity, PARAMS.root;
    var w := Pow(root, Pow2(s - k));
    PowIsPowMod(root, Pow2(s));
    Pow2Add(s - k, k);
    PowMul(root, Pow2(s - k), Pow2(k));
    if k > 0 {
      PowIsPowMod(root, Pow2(s - 1));
      Pow2Add(s - k, k - 1);
      PowMul(root, Pow2(s - k), Pow2(k - 1));
    }
    UnitNonZero(w, Pow2(k));
  }

  /** No element has an order 2^k beyond the two-adicity: a power of it would have the
      order 2^(twoAdicity + 1). */
  lemma NoRootOfOrder(k: nat)
    requires k > PARAMS.twoAdicity
    ensures forall w: F :: !FftDomain(k, w).Valid()
  {
    hide Mul, Pow, Pow2;
    var s := PARAMS.twoAdicity;
    forall w: F | Pow(w, Pow2(k)) == 1 ensures Pow(w, Pow2(k - 1)) == 1 {
      var x := Pow(w, Pow2(k - 1 - s));
      Pow2Add(k - 1 - s, s + 1);
      Pow2Add(k - 1 - s, s);
      PowMul(w, Pow2(k - 1 - s), Pow2(s + 1));
      PowMul(w, Pow2(k - 1 - s), Pow2(s));
      PowIsPowMod(x, Pow2(s + 1));
      PowIsPowMod(x, Pow2(s));
    }
  }

  lemma UnitNonZero(w: F, n: nat)
    requires n > 0 && Pow(w, n) == 1
    ensures w != 0
  {
    MulZeroOne(Pow(w, n - 1));
  }

  lemma PowTwo(w: F)
    ensures Pow(w, 2) == Mul(w, w)
  {
    hide Mul;
    assert Pow(w, 2) == Mul(w, Mul(w, Pow(w, 0)));
    MulZeroOne(w);
  }

  /** y^i = y for odd i when y^2 = 1. */
  lemma OddPower(y: F, j: nat)
    requires Mul(y, y) == 1
    ensures Pow(y, 2 * j + 1) == y
  {
    hide Mul;
    PowMul(y, 2, j);
    PowTwo(y);
    PowOne(j);
    MulZeroOne(y);
  }

  /** An element with w^(2^k) = 1 and w^(2^(k-1)) != 1 has order exactly 2^k. */
  lemma {:induction false} OrderIsExact(w: F, k: nat, i: nat)
    requires Pow(w, Pow2(k)) == 1 && (k > 0 ==> Pow(w, Pow2(k - 1)) != 1)
    requires 0 < i < Pow2(k)
    ensures Pow(w, i) != 1
    decreases k
  {
    hide Mul, Pow;
    if i % 2 == 0 {
      var v, j := Pow(w, 2), i / 2;
      PowMul(w, 2, j);
      PowMul(w, 2, Pow2(k - 1));
      if k > 1 { PowMul(w, 2, Pow2(k - 2)); }
      assert k > 1;
      OrderIsExact(v, k - 1, j);
    } else {
      var y, j, h := Pow(w, Pow2(k - 1)), i / 2, Pow2(k - 1);
      PowMul(w, h, 2);
      PowTwo(y);
      OddPower(y, j);
      PowMul(w, h, i);
      PowMul(w, i, h);
      PowOne(h);
      assert h * i == i * h;
    }
  }

  /** The elements of a domain are pairwise distinct. */
  lemma ElementsDistinct(d: FftDomain)
    requires d.Valid()
    ensures Distinct(d.Elements())
  {
    hide Mul, Pow;
    var w := d.groupGen;
    forall i, j | 0 <= i < j < d.Size() ensures Pow(w, i) != Pow(w, j) {
      OrderIsExact(w, d.logSize, j - i);
      PowAdd(w, i, j - i);
      PowNonZero(w, i);
      MulZeroOne(Pow(w, i));
      if Pow(w, i) == Pow(w, j) { MulCancel(Pow(w, i), Pow(w, j - i), 1); }
    }
  }

  lemma ElementNonZero(d: FftDomain, i: nat)
    requires d.Valid()
    ensures d.Element(i) != 0
  {
    PowNonZero(d.groupGen, i);
  }

  /** Every element is a root of x^size - 1. */
  lemma ElementPower(d: FftDomain, i: nat)
    requires d.Valid()
    ensures Pow(d.Element(i), d.Size()) == 1
  {
    hide Mul, Pow, Pow2;
    PowMul(d.groupGen, i, d.Size());
    PowMul(d.groupGen, d.Size(), i);
    assert i * d.Size() == d.Size() * i;
    PowOne(i);
  }

  /** The size of a domain is invertible in the field. */
  lemma SizeNonZero(d: FftDomain)
    requires d.Valid()
    ensures FromNat(d.Size()) != 0
  {
    hide Mul, Pow;
    if d.logSize == 0 {
      FromNatSucc(0);
    } else {
      UnitNonZero(d.groupGen, d.Size());
      PowNonZero(d.groupGen, Pow2(d.logSize - 1));
      assert P > 2;
      FromNatPow2(d.logSize);
    }
  }

  lemma {:induction false} FromNatPow2(k: nat)
    requires P > 2
    ensures FromNat(Pow2(k)) != 0
  {
    hide Mul, FromNat;
    if k == 0 {
      FromNatSucc(0);
    } else {
      var h := Pow2(k - 1);
      FromNatPow2(k - 1);
      FromNatTwice(h);
      MulNonZero(2, FromNat(h));
    }
  }

  lemma FromNatTwice(n: nat)
    requires P > 2
    ensures FromNat(2 * n) == Mul(2, FromNat(n))
  {
    ModMul(n, 2);
    assert 2 * n == n * 2;
    assert 2 * FromNat(n) == (n % P) * 2;
  }

  // ----- the transforms -----

  /** `fft_in_place`, which pads to the size of the domain first. */
  function Fft(d: FftDomain, f: Poly): (r: seq<F>)
    requires |f| <= d.Size()
    ensures |r| == d.Size()
    ensures forall i :: 0 <= i < d.Size() ==> r[i] == Eval(f, d.Element(i))
  {
    seq(d.Size(), i requires 0 <= i => Eval(f, d.Element(i)))
  }

  /** `ifft_in_place` */
  function Ifft(d: FftDomain, v: seq<F>): (f: Poly)
    requires d.Valid() && |v| == d.Size()
    ensures |f| == d.Size()
  {
    ElementsDistinct(d);
    Pad(Interpolant(d.Elements(), v), d.Size())
  }

  lemma FftIsValues(d: FftDomain, f: Poly)
    requires |f| <= d.Size()
    ensures Fft(d, f) == Values(f, d.Elements())
  {
  }

  lemma IfftFft(d: FftDomain, f: Poly)
    requires d.Valid() && |f| == d.Size()
    ensures Ifft(d, Fft(d, f)) == f
  {
    hide Eval, Interpolant, Pow2, Pow, Values;
    ElementsDistinct(d);
    FftIsValues(d, f);
    InterpolateValues(d.Elements(), f);
    var g := Ifft(d, Fft(d, f));
    forall i | 0 <= i < |f| ensures g[i] == f[i] {
      assert At(g, i) == At(Trim(f), i) == At(f, i);
    }
  }

  lemma FftIfft(d: FftDomain, v: seq<F>)
    requires d.Valid() && |v| == d.Size()
    ensures Fft(d, Ifft(d, v)) == v
  {
    hide Eval, Interpolant, Pow2, Pow;
    ElementsDistinct(d);
    var p := Interpolant(d.Elements(), v);
    forall i | 0 <= i < d.Size() ensures Eval(Ifft(d, v), d.Element(i)) == v[i] {
      InterpolantAt(d.Elements(), v, i);
      EvalByCoefficients(p, Pad(p, d.Size()), d.Element(i));
    }
  }
}
