/** Inversion of a power series modulo x^length by Newton iteration. */
module NewtonInverse {
  import opened Field
  import opened Polynomials
  import opened Wrappers

  /** f = g mod x^n */
  ghost predicate AgreeMod(f: Poly, g: Poly, n: nat) {
    forall i :: i < n ==> At(f, i) == At(g, i)
  }

  lemma AgreeAt(f: Poly, g: Poly, n: nat, i: int)
    requires AgreeMod(f, g, n) && i < n
    ensures At(f, i) == At(g, i)
  {
  }

  /** `ark_std::log2`: the least k with n <= 2^k. */
  function CeilLog2(n: nat): (k: nat)
    ensures n <= Pow2(k)
    ensures k > 0 ==> Pow2(k - 1) < n
  {
    if n <= 1 then 0 else
      var k := CeilLog2((n + 1) / 2);
      k + 1
  }

  /** Cut to at most n coefficients: the remainder modulo x^n. */
  function Truncate(f: Poly, n: nat): (r: Poly)
    ensures |r| == if |f| < n then |f| else n
    ensures AgreeMod(r, f, n)
  {
    if |f| < n then f else f[..n]
  }

  // ----- arithmetic modulo x^n -----

  lemma {:induction false} MulAgree(f: Poly, g: Poly, h: Poly, n: nat)
    requires AgreeMod(g, h, n)
    ensures AgreeMod(PolyMul(f, g), PolyMul(f, h), n)
  {
    hide Mul, PolyMul;
    if f == [] {
    } else {
      MulAgree(f[1..], g, h, n);
      forall i | i < n ensures At(PolyMul(f, g), i) == At(PolyMul(f, h), i) {
        MulAt(f, g, i);
        MulAt(f, h, i);
      }
    }
  }

  /** x^m | f and x^n | g imply x^(m+n) | f g, coefficient by coefficient. */
  lemma {:induction false} LowZeros(f: Poly, m: nat, g: Poly, n: nat, i: int)
    requires AgreeMod(f, [], m) && AgreeMod(g, [], n) && i < m + n
    ensures At(PolyMul(f, g), i) == 0
    decreases |f|
  {
    hide Mul, PolyMul;
    if f == [] {
    } else {
      MulAt(f, g, i);
      MulZeroOne(f[0]);
      MulZeroOne(At(g, i));
      if m == 0 {
        assert At(g, i) == At([], i);
        LowZeros(f[1..], 0, g, n, i - 1);
      } else {
        assert f[0] == At(f, 0) == At([], 0);
        assert AgreeMod(f[1..], [], m - 1) by {
          forall j | j < m - 1 ensures At(f[1..], j) == 0 { assert j >= 0 ==> At(f, j + 1) == At([], j + 1); }
        }
        LowZeros(f[1..], m - 1, g, n, i - 1);
      }
    }
  }

  /** The next Newton iterate, before truncation: 2 g - f g^2. */
  function NewtonStep(f: Poly, g: Poly): Poly {
    PolySub(PolyAdd(g, g), PolyMul(f, PolyMul(g, g)))
  }

  lemma SquareOfProduct(f: Poly, g: Poly)
    ensures PolyMul(f, PolyMul(f, PolyMul(g, g))) == PolyMul(PolyMul(f, g), PolyMul(f, g))
  {
    hide *;
    PolyMulAssoc(f, g, g);
    PolyMulComm(PolyMul(f, g), g);
    PolyMulAssoc(f, g, PolyMul(f, g));
  }

  /** With p = f g and e = p - 1, the product f (2 g - f g^2) is 1 - e^2. */
  lemma NewtonIdentity(f: Poly, g: Poly)
    ensures var e := PolySub(PolyMul(f, g), ONE);
            PolyMul(f, NewtonStep(f, g)) == PolySub(ONE, PolyMul(e, e))
  {
    hide Mul, PolyMul;
    var p := PolyMul(f, g);
    var e := PolySub(p, ONE);
    MulSubLeft(f, PolyAdd(g, g), PolyMul(f, PolyMul(g, g)));
    PolyMulAdd(f, g, g);
    SquareOfProduct(f, g);
    assert p == PolyAdd(ONE, e) by { PolySubAdd(p, ONE); TrimCanonical(p); }
    assert PolyMul(p, p) == PolyAdd(p, PolyAdd(e, PolyMul(e, e))) by {
      AddMul(ONE, e, p);
      MulOne(p);
      TrimCanonical(p);
      PolyMulAdd(e, ONE, e);
      MulOne(e);
      TrimCanonical(e);
    }
    SubtractSquare(p, e, PolyMul(e, e));
  }

  lemma SubtractSquare(p: Poly, e: Poly, s: Poly)
    requires p == PolyAdd(ONE, e)
    ensures PolySub(PolyAdd(p, p), PolyAdd(p, PolyAdd(e, s))) == PolySub(ONE, s)
  {
    hide Add, Sub, PolyAdd, PolySub;
    var l, r := PolySub(PolyAdd(p, p), PolyAdd(p, PolyAdd(e, s))), PolySub(ONE, s);
    forall i ensures At(l, i) == At(r, i) {
      var pi, oi, ei, si := At(p, i), At(ONE, i), At(e, i), At(s, i);
      SubCancel(pi, pi, Add(ei, si));
      AddComm(oi, ei);
      SubCancel(ei, oi, si);
    }
    Extensional(l, r);
  }

  /** One Newton step doubles the precision. */
  lemma NewtonDoubles(f: Poly, g: Poly, n: nat)
    requires AgreeMod(PolyMul(f, g), ONE, n)
    ensures AgreeMod(PolyMul(f, NewtonStep(f, g)), ONE, 2 * n)
  {
    hide Mul, PolyMul, NewtonStep;
    var e := PolySub(PolyMul(f, g), ONE);
    NewtonIdentity(f, g);
    assert AgreeMod(e, [], n);
    forall i | i < 2 * n ensures At(PolySub(ONE, PolyMul(e, e)), i) == At(ONE, i) {
      LowZeros(e, n, e, n, i);
    }
  }

  lemma InitialInverse(f: Poly)
    requires f != [] && f[0] != 0
    ensures AgreeMod(PolyMul(f, [Inv(f[0])]), ONE, 1)
  {
    hide Mul, PolyMul;
    MulAtZero(f, [Inv(f[0])]);
    assert At(f, 0) == f[0] && At([Inv(f[0])], 0) == Inv(f[0]);
  }

  /** The inverse of a field element, if it has one. */
  function InverseOf(a: F): (r: Option<F>)
    ensures r.None? <==> a == 0
  {
    if a == 0 then None else Some(Inv(a))
  }

  /** `inverse_mod_xl` */
  method InverseModXl(func: Poly, length: nat) returns (r: Option<Poly>)
    requires func != []
    ensures r.None? <==> func[0] == 0
    ensures r.Some? ==> AgreeMod(PolyMul(func, r.value), ONE, length)
    ensures r.Some? ==>
              && AgreeMod(PolyMul(func, r.value), ONE, Pow2(CeilLog2(length)))
              && |r.value| <= Pow2(CeilLog2(length))
  {
    hide Mul, PolyMul;
    var log := CeilLog2(length);
    var f0Inv := InverseOf(func[0]);
    if f0Inv.None? {
      return None;
    }
    var funcInv := [f0Inv.value];
    InitialInverse(func);
    var acc := 2;
    for i := 0 to log
      invariant acc == 2 * Pow2(i) && |funcInv| <= Pow2(i)
      invariant AgreeMod(PolyMul(func, funcInv), ONE, Pow2(i))
    {
      ghost var before := funcInv;
      funcInv := PolySub(PolyAdd(funcInv, funcInv), PolyMul(func, PolyMul(funcInv, funcInv)));
      NewtonDoubles(func, before, Pow2(i));
      MulAgree(func, Truncate(funcInv, acc), funcInv, acc);
      funcInv := Truncate(funcInv, acc);
      acc := acc * 2;
    }
    r := Some(funcInv);
  }

  /** Two inverses modulo x^n agree modulo x^n. */
  lemma InverseUnique(f: Poly, g: Poly, h: Poly, n: nat)
    requires AgreeMod(PolyMul(f, g), ONE, n) && AgreeMod(PolyMul(f, h), ONE, n)
    ensures AgreeMod(g, h, n)
  {
    hide Mul, PolyMul;
    MulAgree(g, PolyMul(f, h), ONE, n);
    MulAgree(h, PolyMul(f, g), ONE, n);
    MulOne(g);
    MulOne(h);
    MulSwapLeft(g, f, h);
    MulSwapLeft(h, f, g);
    PolyMulComm(g, h);
    forall i | i < n ensures At(g, i) == At(h, i) {
      assert At(g, i) == At(Trim(g), i) && At(h, i) == At(Trim(h), i);
      assert At(PolyMul(g, PolyMul(f, h)), i) == At(PolyMul(g, ONE), i);
      assert At(PolyMul(h, PolyMul(f, g)), i) == At(PolyMul(h, ONE), i);
    }
  }
}
