/** The formal derivative and the product rule. */
module Derivative {
  import opened Field
  import opened Polynomials

  /** The coefficient of x^i in the derivative of f. */
  function DerivativeAt(f: Poly, i: int): F {
    if i < 0 then 0 else Mul(FromNat(i + 1), At(f, i + 1))
  }

  /** The vector that `derivative` returns; its top entry may be zero. */
  function RawDerivative(f: Poly): (r: Poly)
    ensures |r| == if f == [] then 0 else |f| - 1
    ensures forall i {:trigger At(r, i)} :: At(r, i) == DerivativeAt(f, i)
  {
    var r := seq(if f == [] then 0 else |f| - 1, i requires 0 <= i => DerivativeAt(f, i));
    assert forall i {:trigger At(r, i)} :: At(r, i) == DerivativeAt(f, i) by {
      forall i ensures At(r, i) == DerivativeAt(f, i) {
        if i >= 0 { MulZeroOne(FromNat(i + 1)); }
      }
    }
    r
  }

  /** `derivative` */
  method ComputeDerivative(f: Poly) returns (coeffs: Poly)
    requires f != []
    ensures coeffs == RawDerivative(f)
  {
    hide Mul;
    coeffs := [];
    for i := 1 to |f|
      invariant |coeffs| == i - 1
      invariant forall j :: 0 <= j < i - 1 ==> coeffs[j] == DerivativeAt(f, j)
    {
      coeffs := coeffs + [Mul(FromNat(i), f[i])];
    }
    forall j | 0 <= j < |coeffs| ensures coeffs[j] == RawDerivative(f)[j] {
      assert RawDerivative(f)[j] == At(RawDerivative(f), j);
    }
  }

  function Deriv(f: Poly): (r: Poly)
    ensures Canonical(r)
    ensures forall i {:trigger At(r, i)} :: At(r, i) == DerivativeAt(f, i)
  {
    Trim(RawDerivative(f))
  }

  lemma DerivAdd(f: Poly, g: Poly)
    ensures Deriv(PolyAdd(f, g)) == PolyAdd(Deriv(f), Deriv(g))
  {
    hide Mul, Deriv, PolyAdd, Add, At;
    forall i ensures At(Deriv(PolyAdd(f, g)), i) == At(PolyAdd(Deriv(f), Deriv(g)), i) {
      if i >= 0 { MulAdd(FromNat(i + 1), At(f, i + 1), At(g, i + 1)); }
      AddZero(0);
    }
    Extensional(Deriv(PolyAdd(f, g)), PolyAdd(Deriv(f), Deriv(g)));
  }

  lemma DerivScale(c: F, f: Poly)
    ensures Deriv(Scale(c, f)) == Scale(c, Deriv(f))
  {
    hide Mul, Deriv, Scale, At;
    forall i ensures At(Deriv(Scale(c, f)), i) == At(Scale(c, Deriv(f)), i) {
      if i >= 0 { MulLeft(c, FromNat(i + 1), At(f, i + 1)); }
      MulZeroOne(c);
    }
    Extensional(Deriv(Scale(c, f)), Scale(c, Deriv(f)));
  }

  /** (x f)' = f + x f' */
  lemma DerivShift(f: Poly)
    ensures Deriv(Shift(f)) == PolyAdd(f, Shift(Deriv(f)))
  {
    hide Mul, Deriv, Shift, PolyAdd, Add, FromNat;
    forall i ensures At(Deriv(Shift(f)), i) == At(PolyAdd(f, Shift(Deriv(f))), i) {
      var d := At(Shift(Deriv(f)), i);
      assert d == DerivativeAt(f, i - 1);
      if i >= 0 {
        assert At(Deriv(Shift(f)), i) == Mul(FromNat(i + 1), At(f, i));
        FromNatTimesSucc(i, At(f, i));
        if i == 0 { FromNatSucc(0); MulZeroOne(At(f, 0)); }
      }
      AddZero(0);
    }
    Extensional(Deriv(Shift(f)), PolyAdd(f, Shift(Deriv(f))));
  }

  /** (n + 1) a = a + n a */
  lemma FromNatTimesSucc(n: nat, a: F)
    ensures Mul(FromNat(n + 1), a) == Add(a, Mul(FromNat(n), a))
  {
    hide Mul, FromNat;
    FromNatSucc(n);
    MulComm(FromNat(n + 1), a);
    MulComm(FromNat(n), a);
    MulAdd(a, FromNat(n), 1);
    MulZeroOne(a);
    AddComm(Mul(a, FromNat(n)), a);
  }

  lemma DerivConstant(c: F)
    ensures Deriv([c]) == [] && Deriv([]) == []
  {
  }

  /** The product rule: (f g)' = f' g + f g'. */
  lemma {:induction false} ProductRule(f: Poly, g: Poly)
    ensures Deriv(PolyMul(f, g)) == PolyAdd(PolyMul(Deriv(f), g), PolyMul(f, Deriv(g)))
  {
    hide Mul, Deriv, Shift, Scale, PolyAdd, Trim, At;
    var dg := Deriv(g);
    if f == [] {
      DerivConstant(0);
      PolyAddZero([]);
      assert Trim([]) == [];
    } else {
      var t := f[1..];
      ProductRule(t, g);
      DerivAdd(Scale(f[0], g), Shift(PolyMul(t, g)));
      DerivScale(f[0], g);
      DerivShift(PolyMul(t, g));
      ShiftAdd(PolyMul(Deriv(t), g), PolyMul(t, dg));
      DerivDecompose(f, g);
      Rearrange(Scale(f[0], dg), PolyMul(t, g), Shift(PolyMul(Deriv(t), g)), Shift(PolyMul(t, dg)));
    }
  }

  /** a + (b + (c + d)) = (b + c) + (a + d) */
  lemma Rearrange(a: Poly, b: Poly, c: Poly, d: Poly)
    ensures PolyAdd(a, PolyAdd(b, PolyAdd(c, d))) == PolyAdd(PolyAdd(b, c), PolyAdd(a, d))
  {
    hide *;
    PolyAddAssoc(b, c, d);
    PolyAddAssoc(a, PolyAdd(b, c), d);
    PolyAddComm(a, PolyAdd(b, c));
    PolyAddAssoc(PolyAdd(b, c), a, d);
  }

  /** f' g for f = f(0) + x t: the terms t g and x t' g. */
  lemma DerivDecompose(f: Poly, g: Poly)
    requires f != []
    ensures PolyMul(Deriv(f), g) == PolyAdd(PolyMul(f[1..], g), Shift(PolyMul(Deriv(f[1..]), g)))
  {
    hide Mul, Deriv, Shift, PolyAdd, PolyMul, Trim, At;
    var t := f[1..];
    Decompose(f);
    DerivTrim(f);
    DerivAdd([f[0]], Shift(t));
    DerivConstant(f[0]);
    DerivShift(t);
    PolyAddZero(PolyAdd(t, Shift(Deriv(t))));
    TrimCanonical(PolyAdd(t, Shift(Deriv(t))));
    AddMul(t, Shift(Deriv(t)), g);
    ShiftMul(Deriv(t), g);
  }

  lemma DerivTrim(f: Poly)
    ensures Deriv(Trim(f)) == Deriv(f)
  {
    hide Mul;
    Extensional(Deriv(Trim(f)), Deriv(f));
  }
}
