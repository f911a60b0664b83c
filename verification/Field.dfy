/** The scalar field F of the pairing: integers modulo an arbitrary prime that has
    a chosen root of unity of order 2^twoAdicity, as the bound `F: FftField` of the
    source demands.  Nothing below depends on which prime it is. */
module Field {

  // ----- the parameters of the field -----

  ghost predicate IsPrime(p: int) {
    2 <= p && forall m :: 2 <= m < p ==> p % m != 0
  }

  function Pow2(k: nat): (r: nat)
    ensures r >= 1
  {
    if k == 0 then 1 else 2 * Pow2(k - 1)
  }

  function PowMod(p: nat, x: nat, n: nat): nat
    requires p >= 2
  {
    if n == 0 then 1 else (x * PowMod(p, x, n - 1)) % p
  }

  /** `root` has multiplicative order exactly 2^twoAdicity modulo `modulus`, the largest
      power of two that is the order of any element. */
  datatype FftParams = FftParams(modulus: nat, twoAdicity: nat, root: nat)

  ghost predicate IsFftField(q: FftParams) {
    && IsPrime(q.modulus)
    && q.root < q.modulus
    && PowMod(q.modulus, q.root, Pow2(q.twoAdicity)) == 1
    && (q.twoAdicity > 0 ==> PowMod(q.modulus, q.root, Pow2(q.twoAdicity - 1)) != 1)
    && NoLargerOrder(q)
  }

  ghost predicate NoLargerOrder(q: FftParams)
    requires q.modulus >= 2
  {
    forall x: nat :: x < q.modulus ==>
      PowMod(q.modulus, x, Pow2(q.twoAdicity + 1)) == 1 ==> PowMod(q.modulus, x, Pow2(q.twoAdicity)) == 1
  }

  /** Modulo three, two has order two and nothing has order four. */
  lemma ThreeIsFftField()
    ensures IsFftField(FftParams(3, 1, 2))
  {
    assert Pow2(0) == 1 && Pow2(1) == 2 && Pow2(2) == 4;
    assert PowMod(3, 2, 0) == 1 && PowMod(3, 2, 1) == 2 && PowMod(3, 2, 2) == 1;
    assert PowMod(3, 1, 0) == PowMod(3, 1, 1) == PowMod(3, 1, 2) == 1;
    assert PowMod(3, 0, 4) == 0;
  }

  type FftField = q: FftParams | IsFftField(q) witness (ThreeIsFftField(); FftParams(3, 1, 2))

  const PARAMS: FftField
  const P: nat := PARAMS.modulus

  type F = x: int | 0 <= x < P witness 0

  // ----- the operations -----

  function Add(a: F, b: F): F { if a + b < P then a + b else a + b - P }

  function Neg(a: F): F { if a == 0 then 0 else P - a }

  function Sub(a: F, b: F): F { if b <= a then a - b else a - b + P }

  function Mul(a: F, b: F): F { (a * b) % P }

  /** `F::from(n)` for an unsigned integer. */
  function FromNat(n: nat): F { n % P }

  function Pow(a: F, n: nat): F
  {
    if n == 0 then 1 else Mul(a, Pow(a, n - 1))
  }

  // ----- arithmetic modulo P -----

  lemma MultipleBound(k: int, p: int)
    requires 0 < p
    ensures k >= 1 ==> k * p >= p
    ensures k <= -1 ==> k * p <= -p
  {
  }

  lemma ModUnique(x: int, q: int, r: int)
    requires x == q * P + r && 0 <= r < P
    ensures x % P == r
  {
    var q', r' := x / P, x % P;
    assert (q - q') * P == r' - r by {
      assert x == q' * P + r';
      assert (q - q') * P == q * P - q' * P;
    }
    MultipleBound(q - q', P);
  }

  lemma ModShift(x: int, k: int)
    ensures (x + k * P) % P == x % P
  {
    var q, r := x / P, x % P;
    assert x + k * P == (q + k) * P + r by {
      assert x == q * P + r;
      assert (q + k) * P == q * P + k * P;
    }
    ModUnique(x + k * P, q + k, r);
  }

  lemma ModAdd(x: int, y: int)
    ensures (x % P + y) % P == (x + y) % P
  {
    var q := x / P;
    assert x + y == (x % P + y) + q * P;
    ModShift(x % P + y, q);
  }

  lemma ModMul(x: int, y: int)
    ensures ((x % P) * y) % P == (x * y) % P
  {
    var q, r := x / P, x % P;
    assert x * y == r * y + (q * y) * P by {
      assert x == r + q * P;
      assert (r + q * P) * y == r * y + (q * y) * P;
    }
    ModShift(r * y, q * y);
  }

  lemma AddIsMod(a: F, b: F)
    ensures Add(a, b) == (a + b) % P
  {
    ModUnique(a + b, if a + b < P then 0 else 1, Add(a, b));
  }

  // ----- the field laws -----

  lemma MulComm(a: F, b: F)
    ensures Mul(a, b) == Mul(b, a)
  {
    assert a * b == b * a;
  }

  lemma MulAssoc(a: F, b: F, c: F)
    ensures Mul(Mul(a, b), c) == Mul(a, Mul(b, c))
  {
    ModMul(a * b, c);
    ModMul(b * c, a);
    assert (a * b) * c == (b * c) * a;
    assert ((b * c) % P) * a == a * ((b * c) % P);
  }

  lemma MulAdd(a: F, b: F, c: F)
    ensures Mul(a, Add(b, c)) == Add(Mul(a, b), Mul(a, c))
  {
    calc {
      Mul(a, Add(b, c));
      { AddIsMod(b, c); }
      (a * ((b + c) % P)) % P;
      { assert a * ((b + c) % P) == ((b + c) % P) * a; ModMul(b + c, a); }
      ((b + c) * a) % P;
      { assert (b + c) * a == a * b + a * c; ModAdd(a * b, a * c); }
      (Mul(a, b) + a * c) % P;
      { ModAdd(a * c, Mul(a, b)); }
      (Mul(a, b) + Mul(a, c)) % P;
      { AddIsMod(Mul(a, b), Mul(a, c)); }
      Add(Mul(a, b), Mul(a, c));
    }
  }

  lemma MulZeroOne(a: F)
    ensures Mul(a, 0) == 0 && Mul(0, a) == 0
    ensures Mul(a, 1) == a && Mul(1, a) == a
  {
    ModUnique(a, 0, a);
    assert a * 0 == 0 && 0 * a == 0 && a * 1 == a && 1 * a == a;
  }

  lemma MulNeg(a: F, b: F)
    ensures Mul(a, Neg(b)) == Neg(Mul(a, b))
  {
    hide Mul;
    MulAdd(a, b, Neg(b));
    MulZeroOne(a);
  }

  lemma MulSub(a: F, b: F, c: F)
    ensures Mul(a, Sub(b, c)) == Sub(Mul(a, b), Mul(a, c))
  {
    hide Mul;
    assert Add(Sub(b, c), c) == b;
    MulAdd(a, Sub(b, c), c);
  }

  /** (a b)(c d) = (a c)(b d) */
  lemma MulSwap(a: F, b: F, c: F, d: F)
    ensures Mul(Mul(a, b), Mul(c, d)) == Mul(Mul(a, c), Mul(b, d))
  {
    hide Mul;
    MulAssoc(a, b, Mul(c, d));
    MulAssoc(b, c, d);
    MulComm(b, c);
    MulAssoc(c, b, d);
    MulAssoc(a, c, Mul(b, d));
  }

  /** a (b c) = b (a c) */
  lemma MulLeft(a: F, b: F, c: F)
    ensures Mul(a, Mul(b, c)) == Mul(b, Mul(a, c))
  {
    hide Mul;
    MulAssoc(a, b, c);
    MulComm(a, b);
    MulAssoc(b, a, c);
  }

  // ----- inverses, by Bezout -----

  datatype Bezout = Bezout(gcd: int, x: int, y: int)

  /** Extended Euclid: the greatest common divisor as a combination of a and b. */
  function ExtGcd(a: nat, b: nat): (r: Bezout)
    ensures a * r.x + b * r.y == r.gcd
    ensures a + b > 0 ==> r.gcd > 0 && a % r.gcd == 0 && b % r.gcd == 0
    decreases b
  {
    if b == 0 then Bezout(a, 1, 0)
    else
      var s := ExtGcd(b, a % b);
      BezoutStep(a, b, s.gcd, s.x, s.y);
      Bezout(s.gcd, s.y, s.x - (a / b) * s.y)
  }

  lemma BezoutStep(a: nat, b: nat, g: int, x: int, y: int)
    requires b > 0 && b * x + (a % b) * y == g
    requires g > 0 && b % g == 0 && (a % b) % g == 0
    ensures a * y + b * (x - (a / b) * y) == g
    ensures a % g == 0
  {
    var q, r := a / b, a % b;
    assert a == b * q + r;
    assert a * y == (b * q) * y + r * y;
    assert b * (x - q * y) == b * x - (b * q) * y;
    var k, l := b / g, r / g;
    assert b == g * k && r == g * l;
    assert a == g * (k * q + l) by { assert (g * k) * q == g * (k * q); }
    DivisibleBy(g, k * q + l);
  }

  lemma DivisibleBy(g: int, k: int)
    requires g > 0
    ensures (g * k) % g == 0
  {
    var x := g * k;
    var q, r := x / g, x % g;
    assert (k - q) * g == r by { assert x == q * g + r; assert (k - q) * g == k * g - q * g; }
    MultipleBound(k - q, g);
  }

  /** `inverse()` of a non-zero element. */
  function Inv(a: F): (r: F)
    requires a != 0
    ensures Mul(a, r) == 1 && r != 0
  {
    InverseExists(a);
    InverseIsUnique(a);
    MulZeroOne(a);
    var r: F :| Mul(a, r) == 1;
    r
  }

  lemma InverseExists(a: F)
    requires a != 0
    ensures exists b: F :: Mul(a, b) == 1
  {
    var s := ExtGcd(a, P);
    InvStep(a, s.gcd, s.x, s.y);
    var b: F := s.x % P;
    assert Mul(a, b) == 1;
  }

  lemma InverseIsUnique(a: F)
    requires a != 0
    ensures forall b: F, c: F :: Mul(a, b) == 1 && Mul(a, c) == 1 ==> b == c
  {
    forall b: F, c: F | Mul(a, b) == 1 && Mul(a, c) == 1 ensures b == c {
      hide Mul;
      MulAssoc(b, a, c);
      MulComm(a, b);
      MulZeroOne(b);
      MulZeroOne(c);
    }
  }

  lemma CommonDivisorIsOne(a: F, g: int)
    requires a != 0 && g > 0 && a % g == 0 && P % g == 0
    ensures g == 1
  {
    var k := a / g;
    assert a == g * k;
    MultipleBound(k, g);
    assert g <= a < P;
    assert IsPrime(P);
  }

  lemma InvStep(a: F, g: int, x: int, y: int)
    requires a != 0 && a * x + P * y == g
    requires g > 0 && a % g == 0 && P % g == 0
    ensures Mul(a, x % P) == 1 && x % P != 0
  {
    CommonDivisorIsOne(a, g);
    assert a * x == (-y) * P + 1 by { assert P * y == y * P; assert (-y) * P == -(y * P); }
    ModUnique(a * x, -y, 1);
    MulReduced(a, x);
    MulZeroOne(a);
  }

  lemma MulReduced(a: F, x: int)
    ensures Mul(a, x % P) == (a * x) % P
  {
    ModMul(x, a);
    assert a * (x % P) == (x % P) * a;
    assert a * x == x * a;
  }

  lemma MulCancel(a: F, b: F, c: F)
    requires a != 0 && Mul(a, b) == Mul(a, c)
    ensures b == c
  {
    hide Mul;
    var i := Inv(a);
    MulComm(a, i);
    MulAssoc(i, a, b);
    MulAssoc(i, a, c);
    MulZeroOne(b);
    MulZeroOne(c);
  }

  lemma MulNonZero(a: F, b: F)
    ensures Mul(a, b) == 0 <==> a == 0 || b == 0
  {
    hide Mul;
    MulZeroOne(a);
    MulZeroOne(b);
    if a != 0 && Mul(a, b) == 0 { MulCancel(a, b, 0); }
  }

  /** The inverse is unique. */
  lemma InvUnique(a: F, b: F)
    requires a != 0 && Mul(a, b) == 1
    ensures b == Inv(a)
  {
    MulCancel(a, b, Inv(a));
  }

  lemma InvMul(a: F, b: F)
    requires a != 0 && b != 0
    ensures Mul(a, b) != 0 && Inv(Mul(a, b)) == Mul(Inv(a), Inv(b))
  {
    hide Mul;
    MulNonZero(a, b);
    MulSwap(a, b, Inv(a), Inv(b));
    MulZeroOne(1);
    InvUnique(Mul(a, b), Mul(Inv(a), Inv(b)));
  }

  function Div(a: F, b: F): F
    requires b != 0
  {
    Mul(a, Inv(b))
  }

  lemma DivMul(a: F, b: F)
    requires b != 0
    ensures Mul(Div(a, b), b) == a
  {
    hide Mul;
    MulAssoc(a, Inv(b), b);
    MulComm(Inv(b), b);
    MulZeroOne(a);
  }

  lemma SubZero(a: F, b: F)
    ensures Sub(a, b) == 0 <==> a == b
  {
  }

  lemma AddComm(a: F, b: F)
    ensures Add(a, b) == Add(b, a)
  {
  }

  lemma AddZero(a: F)
    ensures Add(a, 0) == a == Add(0, a)
  {
  }

  lemma AddAssoc(a: F, b: F, c: F)
    ensures Add(Add(a, b), c) == Add(a, Add(b, c))
  {
  }

  /** (a + b) + (c + d) = (a + c) + (b + d) */
  lemma AddSwap(a: F, b: F, c: F, d: F)
    ensures Add(Add(a, b), Add(c, d)) == Add(Add(a, c), Add(b, d))
  {
    hide Add;
    AddAssoc(a, b, Add(c, d));
    AddAssoc(b, c, d);
    AddComm(b, c);
    AddAssoc(c, b, d);
    AddAssoc(a, c, Add(b, d));
  }

  lemma AddCancel(a: F, b: F, c: F)
    ensures Add(a, b) == Add(a, c) <==> b == c
  {
  }

  lemma NegCancel(a: F, b: F)
    ensures Add(Neg(a), b) == 0 <==> a == b
    ensures Neg(Neg(a)) == a
  {
  }

  lemma SubCancel(a: F, b: F, c: F)
    ensures Sub(Add(a, b), Add(a, c)) == Sub(b, c)
  {
  }

  lemma SubOfSum(a: F, b: F)
    ensures Sub(Add(a, b), a) == b
  {
  }

  lemma EqualSums(a: F, b: F, r: F, s: F)
    requires Add(a, r) == Add(b, s)
    ensures Sub(a, b) == Sub(s, r)
  {
  }

  // ----- powers -----

  lemma {:induction false} PowAdd(a: F, m: nat, n: nat)
    ensures Pow(a, m + n) == Mul(Pow(a, m), Pow(a, n))
  {
    hide Mul;
    if m == 0 {
      MulZeroOne(Pow(a, n));
    } else {
      PowAdd(a, m - 1, n);
      MulAssoc(a, Pow(a, m - 1), Pow(a, n));
    }
  }

  lemma {:induction false} PowOne(n: nat)
    ensures Pow(1, n) == 1
  {
    if n > 0 { PowOne(n - 1); MulZeroOne(1); }
  }

  lemma {:induction false} PowMul(a: F, m: nat, n: nat)
    ensures Pow(a, m * n) == Pow(Pow(a, m), n)
  {
    hide Mul;
    if n == 0 {
      assert m * n == 0;
    } else {
      PowMul(a, m, n - 1);
      assert m * n == m + m * (n - 1);
      PowAdd(a, m, m * (n - 1));
    }
  }

  lemma {:induction false} PowIsPowMod(a: F, n: nat)
    ensures Pow(a, n) == PowMod(P, a, n)
  {
    if n > 0 { PowIsPowMod(a, n - 1); }
  }

  lemma {:induction false} PowNonZero(a: F, n: nat)
    requires a != 0
    ensures Pow(a, n) != 0
  {
    if n > 0 { PowNonZero(a, n - 1); MulNonZero(a, Pow(a, n - 1)); }
  }

  // ----- natural numbers in the field -----

  lemma FromNatSucc(n: nat)
    ensures FromNat(n + 1) == Add(FromNat(n), 1)
    ensures FromNat(0) == 0 && FromNat(1) == 1
  {
    ModAdd(n, 1);
    AddIsMod(FromNat(n), 1);
    ModUnique(0, 0, 0);
    ModUnique(1, 0, 1);
  }
}
