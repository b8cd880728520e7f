// The final powering of type A pairings in F_q[i]: conj(f)/f, then the cofactor. It forgets factors from F_q.
module FinalPower {
  import opened Arith
  import opened Fp
  import opened QuadraticField
  import opened Residues
  import opened Lucas
  import opened Frobenius

  // F_q[i] is a field.
  ghost predicate HasI(q: nat)
  {
    IsPrime(q) && q > 2 && !HasRoot(q, q - 1)
  }

  // It is one exactly for q = 3 mod 4, as the generated q = h*r - 1 with 12 dividing h is.
  lemma {:induction false} HasIIff(q: nat)
    requires IsPrime(q) && q > 2
    ensures HasI(q) <==> q % 4 == 3
  {
    hide IsPrime, HasRoot;
    OddPrime(q);
    Quarters(q);
    MinusOneSquareIff(q);
  }

  const Zero: Q2 := Q2(0, 0)

  // ---------------------------------------------------------------- inverses

  lemma {:induction false} NormValue(q: nat, a: Q2)
    requires q > 1 && In(q, a)
    ensures Norm(q, -1, a) == (a.x * a.x + a.y * a.y) % q
  {
    Homomorphism(q);
    assert Elem(q, 0);
    MinusPoly(a.x, a.y);
    hide Red, Sub, Mul, Elem, Minus, Times;
    assert Norm(q, -1, a) == Red(q, a.x * a.x + a.y * a.y);
  }

  lemma MinusPoly(x: int, y: int)
    ensures Minus(Times(x, x), Times(-1, Times(y, y))) == x * x + y * y
  {
  }

  lemma {:induction false} NormNonzero(q: nat, a: Q2)
    requires HasI(q) && In(q, a)
    ensures a != Zero <==> Norm(q, -1, a) != 0
  {
    NormValue(q, a);
    ModSmall(0, q);
    if a.y == 0 {
      if a.x != 0 { ProductNonzero(q, a.x, a.x); }
    } else if Norm(q, -1, a) == 0 {
      ImaginaryUnit(q, a.x, a.y);
    }
  }

  lemma {:induction false} ImaginaryUnit(q: nat, x: int, y: int)
    requires IsPrime(q) && Elem(q, y) && y != 0 && (x * x + y * y) % q == 0
    ensures HasRoot(q, q - 1)
  {
    var i := Inv(q, y);
    hide Inv, IsPrime;
    ModSmall(0, q);
    ModSmall(1, q);
    ModMul(x * x + y * y, 0, i * i, i * i, q);
    ModMul(y * i, 1, y * i, 1, q);
    Expand(x, y, i);
    ModAdd((x * i) * (x * i) + (y * i) * (y * i), 0, (y * i) * (y * i), 1, q);
    ModIntro(-1, q - 1, -1, q);
    ModSmall(q - 1, q);
    var r := (x * i) % q;
    ModMod(x * i, q);
    ModMul(r, x * i, r, x * i, q);
    assert Elem(q, r) && Mul(q, r, r) == q - 1;
  }

  lemma Expand(x: int, y: int, i: int)
    ensures (x * x + y * y) * (i * i) == (x * i) * (x * i) + (y * i) * (y * i)
  {
  }

  // The inverse; zero stays zero, as in fi_invert.
  ghost function QInv(q: nat, a: Q2): (r: Q2)
    requires HasI(q) && In(q, a)
    ensures In(q, r) && (a != Zero ==> QMul(q, -1, r, a) == One) && (a == Zero ==> r == Zero)
  {
    if a == Zero then Zero
    else
      NormNonzero(q, a);
      var i := Inv(q, Norm(q, -1, a));
      InverseExists(q, a, i);
      Q2(Mul(q, a.x, i), Mul(q, a.y, Neg(q, i)))
  }

  lemma {:induction false} InverseExists(q: nat, a: Q2, i: int)
    requires q > 1 && In(q, a) && Elem(q, i) && Mul(q, Norm(q, -1, a), i) == 1
    ensures var r := Q2(Mul(q, a.x, i), Mul(q, a.y, Neg(q, i))); In(q, r) && QMul(q, -1, r, a) == One
  {
    Homomorphism(q);
    assert Elem(q, 0) && Elem(q, 1);
    InversePoly(-1, a.x, a.y, i);
    SwapLast(a.x, a.y);
    hide Red, Add, Sub, Mul, Neg, Elem, Plus, Minus, Times, Opp;
  }

  lemma SwapLast(x: int, y: int)
    ensures Minus(Times(x, x), Times(Times(y, y), -1)) == Minus(Times(x, x), Times(-1, Times(y, y)))
  {
  }

  lemma {:induction false} InverseIsUnique(q: nat, a: Q2, r: Q2)
    requires HasI(q) && In(q, a) && a != Zero && In(q, r) && QMul(q, -1, r, a) == One
    ensures r == QInv(q, a)
  {
    var s := QInv(q, a);
    hide QMul, QInv;
    MulAssociates(q, -1, r, a, s);
    MulCommutes(q, -1, a, s);
    MulOne(q, -1, r);
    MulOne(q, -1, s);
  }

  lemma {:induction false} ProductIn(q: nat, a: Q2, b: Q2)
    requires q > 1 && In(q, a) && In(q, b)
    ensures In(q, QMul(q, -1, a, b))
  {
    MulReduces(q, -1, a, b);
  }

  lemma NormIn(q: nat, a: Q2)
    requires q > 0
    ensures Elem(q, Norm(q, -1, a))
  {
  }

  lemma {:induction false} ZeroTimes(q: nat, a: Q2)
    requires q > 1 && In(q, a)
    ensures QMul(q, -1, Zero, a) == Zero
  {
    MulReduces(q, -1, Zero, a);
    ModSmall(0, q);
    assert 0 * a.x + -1 * (0 * a.y) == 0;
  }

  // ---------------------------------------------------------------- factors from F_q

  function Real(l: int): Q2
  {
    Q2(l, 0)
  }

  // f is g times the nonzero element l of F_q.
  ghost predicate ScaledBy(q: nat, l: int, f: Q2, g: Q2)
    requires q > 0
  {
    Elem(q, l) && l != 0 && In(q, g) && f == QMul(q, -1, Real(l), g)
  }

  lemma {:induction false} RealTimes(q: nat, l: int, a: Q2)
    requires q > 1 && Elem(q, l) && In(q, a)
    ensures QMul(q, -1, Real(l), a) == Q2(Mul(q, l, a.x), Mul(q, l, a.y)) && In(q, Real(l))
  {
    MulReduces(q, -1, Real(l), a);
    assert l * a.x + -1 * (0 * a.y) == l * a.x && l * a.y + 0 * a.x == l * a.y;
  }

  lemma {:induction false} QShuffle(q: nat, a: Q2, b: Q2, c: Q2, d: Q2)
    requires q > 1 && In(q, a) && In(q, b) && In(q, c) && In(q, d)
    ensures QMul(q, -1, QMul(q, -1, a, b), QMul(q, -1, c, d)) == QMul(q, -1, QMul(q, -1, a, c), QMul(q, -1, b, d))
  {
    hide QMul, In;
    ProductIn(q, c, d);
    ProductIn(q, b, d);
    MulAssociates(q, -1, a, b, QMul(q, -1, c, d));
    MulAssociates(q, -1, a, c, QMul(q, -1, b, d));
    MulAssociates(q, -1, b, c, d);
    MulAssociates(q, -1, c, b, d);
    MulCommutes(q, -1, b, c);
  }

  lemma {:induction false} ScaledProduct(q: nat, l: int, f: Q2, g: Q2, m: int, f': Q2, g': Q2)
    requires IsPrime(q) && ScaledBy(q, l, f, g) && ScaledBy(q, m, f', g')
    ensures ScaledBy(q, Mul(q, l, m), QMul(q, -1, f, f'), QMul(q, -1, g, g'))
  {
    ProductNonzero(q, l, m);
    assert Elem(q, 0);
    RealTimes(q, l, Real(m));
    RealTimes(q, l, g);
    ModSmall(0, q);
    assert Mul(q, l, 0) == 0;
    assert In(q, Real(l)) && In(q, Real(m));
    ProductIn(q, g, g');
    hide QMul, Mul, IsPrime, In;
    QShuffle(q, Real(l), g, Real(m), g');
  }

  lemma {:induction false} ScaledNonzero(q: nat, l: int, f: Q2, g: Q2)
    requires IsPrime(q) && ScaledBy(q, l, f, g)
    ensures In(q, f) && (f.x == 0 <==> g.x == 0) && (f.y == 0 <==> g.y == 0)
  {
    RealTimes(q, l, g);
    hide QMul;
    ModSmall(0, q);
    if g.x != 0 { ProductNonzero(q, l, g.x); }
    if g.y != 0 { ProductNonzero(q, l, g.y); }
  }

  lemma {:induction false} ScaledInverse(q: nat, l: int, f: Q2, g: Q2)
    requires HasI(q) && ScaledBy(q, l, f, g)
    ensures In(q, f) && (f == Zero <==> g == Zero) && ScaledBy(q, Inv(q, l), QInv(q, f), QInv(q, g))
  {
    ScaledNonzero(q, l, f, g);
    if g == Zero { ScaledZero(q, Inv(q, l)); } else { ScaledInverseNonzero(q, l, f, g); }
  }

  lemma ScaledZero(q: nat, l: int)
    requires q > 1 && Elem(q, l) && l != 0
    ensures ScaledBy(q, l, Zero, Zero)
  {
    RealTimes(q, l, Zero);
    ModSmall(0, q);
  }

  lemma {:induction false} ScaledInverseNonzero(q: nat, l: int, f: Q2, g: Q2)
    requires HasI(q) && ScaledBy(q, l, f, g) && g != Zero && In(q, f) && f != Zero
    ensures ScaledBy(q, Inv(q, l), QInv(q, f), QInv(q, g))
  {
    var i := Inv(q, l);
    var r := QMul(q, -1, Real(i), QInv(q, g));
    assert In(q, Real(i)) && In(q, Real(l));
    ProductIn(q, Real(i), QInv(q, g));
    RealTimes(q, i, Real(l));
    assert i * l == l * i;
    assert i * 0 == 0;
    ModSmall(0, q);
    hide QMul, QInv, Mul, In, IsPrime, HasRoot;
    QShuffle(q, Real(i), QInv(q, g), Real(l), g);
    OneIn(q);
    MulOne(q, -1, One);
    InverseIsUnique(q, f, r);
  }

  lemma OneIn(q: nat)
    requires q > 1
    ensures In(q, One)
  {
  }

  // ---------------------------------------------------------------- the powering

  // conj(f)/f
  ghost function Unit(q: nat, f: Q2): Q2
    requires HasI(q) && In(q, f)
  {
    QMul(q, -1, Conj(q, f), QInv(q, f))
  }

  lemma {:induction false} ConjIn(q: nat, f: Q2)
    requires q > 1 && In(q, f)
    ensures In(q, Conj(q, f)) && Norm(q, -1, Conj(q, f)) == Norm(q, -1, f)
  {
    var y := (0 - f.y) % q;
    NormValue(q, f);
    NormValue(q, Q2(f.x, y));
    ModMod(0 - f.y, q);
    ModMul(y, 0 - f.y, y, 0 - f.y, q);
    assert (0 - f.y) * (0 - f.y) == f.y * f.y;
    ModAdd(f.x * f.x, f.x * f.x, y * y, f.y * f.y, q);
  }

  // It has norm one and, off the axes, a nonzero second coordinate.
  lemma {:induction false} UnitNormOne(q: nat, f: Q2)
    requires HasI(q) && In(q, f) && f != Zero
    ensures NormOne(q, -1, Unit(q, f)) && (f.x != 0 && f.y != 0 ==> Unit(q, f).y != 0)
  {
    var c, i, u := Conj(q, f), QInv(q, f), Unit(q, f);
    ConjIn(q, f);
    ProductIn(q, c, i);
    NormMultiplies(q, -1, c, i);
    NormMultiplies(q, -1, i, f);
    NormOfOne(q, -1);
    assert Norm(q, -1, u) == 1 by {
      hide QMul, QInv, Norm, Mul, Conj;
      Commutes(q, Norm(q, -1, f), Norm(q, -1, i));
    }
    assert QMul(q, -1, u, f) == c by {
      hide QMul, QInv, Norm;
      MulAssociates(q, -1, c, i, f);
      MulOne(q, -1, c);
    }
    if u.y == 0 && f.x != 0 && f.y != 0 { NoRealUnit(q, f, u.x); }
  }

  lemma {:induction false} NoRealUnit(q: nat, f: Q2, r: int)
    requires IsPrime(q) && q > 2 && In(q, f) && f.x != 0 && f.y != 0 && Elem(q, r) && Norm(q, -1, Real(r)) == 1
    ensures QMul(q, -1, Real(r), f) != Conj(q, f)
  {
    hide QMul, Norm, Mul, IsPrime, Neg;
    RealNorm(q, r);
    RootsOfOne(q, r);
    RealTimes(q, r, f);
    OddPrime(q);
    OneTimes(q, f.y);
    NegValue(q, f.y);
    MinusTimes(q, f.x);
  }

  lemma {:induction false} RealNorm(q: nat, r: int)
    requires q > 1 && Elem(q, r)
    ensures Norm(q, -1, Real(r)) == Mul(q, r, r)
  {
    NormValue(q, Real(r));
    assert r * r + 0 * 0 == r * r;
  }

  lemma {:induction false} NegValue(q: nat, y: int)
    requires Elem(q, y) && y != 0
    ensures Neg(q, y) == q - y
  {
    ModIntro(0 - y, q - y, -1, q);
    ModSmall(q - y, q);
  }

  lemma {:induction false} MinusTimes(q: nat, x: int)
    requires q > 1 && Elem(q, x) && x != 0
    ensures Mul(q, q - 1, x) == q - x
  {
    assert (q - 1) * x == (q - x) + (x - 1) * q;
    ModIntro((q - 1) * x, q - x, x - 1, q);
    ModSmall(q - x, q);
  }

  // Factors from F_q cancel in conj(f)/f.
  lemma {:induction false} UnitForgetsScale(q: nat, l: int, f: Q2, g: Q2)
    requires HasI(q) && ScaledBy(q, l, f, g)
    ensures In(q, f) && (f == Zero <==> g == Zero) && Unit(q, f) == Unit(q, g)
  {
    ScaledInverse(q, l, f, g);
    ConjScales(q, l, g);
    ConjIn(q, g);
    var i := Inv(q, l);
    assert In(q, Real(l)) && In(q, Real(i));
    RealTimes(q, l, Real(i));
    ModSmall(0, q);
    assert Mul(q, l, 0) == 0;
    ProductIn(q, Conj(q, g), QInv(q, g));
    hide QMul, QInv, Mul, In, IsPrime, HasRoot, Conj;
    QShuffle(q, Real(l), Conj(q, g), Real(i), QInv(q, g));
    MulOne(q, -1, QMul(q, -1, Conj(q, g), QInv(q, g)));
  }

  // conj(f)/f is the power q-1 of f.
  lemma {:induction false} UnitIsPower(q: nat, f: Q2)
    requires HasI(q) && In(q, f) && f != Zero
    ensures Unit(q, f) == QPow(q, -1, f, q - 1)
  {
    MinusOneIs(q);
    FrobeniusConjugates(q, -1, f);
    PowIn(q, -1, f, q - 1);
    var w, i := QPow(q, -1, f, q - 1), QInv(q, f);
    assert QMul(q, -1, w, f) == Conj(q, f);
    hide QMul, QInv, QPow, HasI;
    MulAssociates(q, -1, w, f, i);
    MulCommutes(q, -1, f, i);
    MulOne(q, -1, w);
  }

  lemma {:induction false} MinusOneIs(q: nat)
    requires q > 1
    ensures Red(q, -1) == q - 1
  {
    ModIntro(-1, q - 1, -1, q);
    ModSmall(q - 1, q);
  }

  lemma {:induction false} PowerOfPower(q: nat, f: Q2, m: nat, n: nat)
    requires q > 1 && In(q, f)
    ensures m * n >= 0 && QPow(q, -1, QPow(q, -1, f, m), n) == QPow(q, -1, f, m * n)
  {
    if n == 0 {
      assert m * 0 == 0;
    } else {
      PowerOfPower(q, f, m, n - 1);
      QPowAdd(q, -1, f, m * (n - 1), m);
      assert m * (n - 1) + m == m * n;
      hide QMul;
    }
  }

  // The power of conj(f)/f that the Lucas ladder computes is a power of f.
  lemma {:induction false} UnitPowers(q: nat, f: Q2, cofactor: nat)
    requires HasI(q) && In(q, f) && f != Zero
    ensures (q - 1) * cofactor >= 0 && QPow(q, -1, Unit(q, f), cofactor) == QPow(q, -1, f, (q - 1) * cofactor)
  {
    UnitIsPower(q, f);
    hide Unit, QPow;
    PowerOfPower(q, f, q - 1, cofactor);
  }

  lemma {:induction false} PoweredForgetsScale(q: nat, l: int, f: Q2, g: Q2, cofactor: nat)
    requires HasI(q) && ScaledBy(q, l, f, g)
    ensures In(q, f) && Powered(q, f, cofactor) == Powered(q, g, cofactor)
  {
    UnitForgetsScale(q, l, f, g);
    hide Unit, QPow, ScaledBy;
    if g != Zero {
      UnitPowers(q, f, cofactor);
      UnitPowers(q, g, cofactor);
    }
  }

  lemma {:induction false} ConjScales(q: nat, l: int, g: Q2)
    requires q > 1 && Elem(q, l) && In(q, g)
    ensures Conj(q, QMul(q, -1, Real(l), g)) == QMul(q, -1, Real(l), Conj(q, g))
  {
    ConjIn(q, g);
    RealTimes(q, l, g);
    RealTimes(q, l, Conj(q, g));
    hide QMul;
    NegTimes(q, l, g.y);
  }

  lemma {:induction false} NegTimes(q: nat, l: int, y: int)
    requires q > 0
    ensures Neg(q, Mul(q, l, y)) == Mul(q, l, Neg(q, y))
  {
    ModMod(l * y, q);
    ModAdd(0, 0, l * y % q, l * y, q);
    ModMod(0 - y, q);
    ModMul(l, l, (0 - y) % q, 0 - y, q);
    assert l * (0 - y) == 0 - l * y;
  }

  // What the final powering makes of f: its power (q-1)*cofactor. Of zero it makes a power of the imaginary unit, since
  // the Lucas sequence then runs with trace 0.
  ghost function Powered(q: nat, f: Q2, cofactor: nat): Q2
    requires HasI(q) && In(q, f)
  {
    if f == Zero then Q2(QPow(q, -1, Q2(0, 1), cofactor).x, 0) else ProductNotNegative(q - 1, cofactor); QPow(q, -1, f, (q - 1) * cofactor)
  }

  lemma PoweredIs(q: nat, f: Q2, cofactor: nat)
    requires HasI(q) && In(q, f) && f != Zero
    ensures (q - 1) * cofactor >= 0 && Powered(q, f, cofactor) == QPow(q, -1, f, (q - 1) * cofactor)
  {
    hide QPow;
    ProductNotNegative(q - 1, cofactor);
  }

  lemma ProductNotNegative(a: nat, b: nat)
    ensures a * b >= 0
  {
  }

  // With cofactor*r = q + 1 the result has order dividing r.
  lemma {:induction false} PoweredOrder(q: nat, f: Q2, cofactor: nat, r: nat)
    requires HasI(q) && In(q, f) && f != Zero && cofactor * r == q + 1
    ensures QPow(q, -1, Powered(q, f, cofactor), r) == One
  {
    var u := Unit(q, f);
    UnitPowers(q, f, cofactor);
    UnitNormOne(q, f);
    MinusOneIs(q);
    FrobeniusConjugates(q, -1, u);
    ConjugateInverts(q, -1, u);
    PowerOfPower(q, u, cofactor, r);
    assert QPow(q, -1, u, q + 1) == QMul(q, -1, QPow(q, -1, u, q), u);
    hide QPow, QMul, Unit, HasI;
  }

  // That power is 1 or -1.
  lemma {:induction false} PoweredZero(q: nat, cofactor: nat)
    requires HasI(q) && cofactor % 2 == 0
    ensures In(q, Zero) && Powered(q, Zero, cofactor) == if cofactor % 4 == 0 then One else Q2(q - 1, 0)
  {
    hide *;
    ZeroIs(q, cofactor);
    ImaginaryPowers(q, cofactor);
  }

  lemma ZeroIs(q: nat, cofactor: nat)
    requires HasI(q)
    ensures q > 2 && In(q, Zero) && Powered(q, Zero, cofactor) == Q2(QPow(q, -1, Q2(0, 1), cofactor).x, 0) && One == Q2(1, 0)
  {
    hide QPow;
  }

  lemma {:induction false} ImaginaryPowers(q: nat, n: nat)
    requires q > 2
    ensures QPow(q, -1, Q2(0, 1), n) ==
      if n % 4 == 0 then One else if n % 4 == 1 then Q2(0, 1) else if n % 4 == 2 then Q2(q - 1, 0) else Q2(0, q - 1)
  {
    hide *;
    PowerUnfolds(q, n);
    if n > 0 {
      ImaginaryPowers(q, n - 1);
      var u := QPow(q, -1, Q2(0, 1), n - 1);
      ImaginaryTimes(q, u);
    }
  }

  lemma PowerUnfolds(q: nat, n: nat)
    requires q > 0
    ensures QPow(q, -1, Q2(0, 1), n) == if n == 0 then One else QMul(q, -1, QPow(q, -1, Q2(0, 1), n - 1), Q2(0, 1))
  {
  }

  // One turn: 1, i, -1, -i.
  lemma {:induction false} ImaginaryTimes(q: nat, u: Q2)
    requires q > 2
    ensures One == Q2(1, 0)
    ensures u == Q2(1, 0) ==> QMul(q, -1, u, Q2(0, 1)) == Q2(0, 1)
    ensures u == Q2(0, 1) ==> QMul(q, -1, u, Q2(0, 1)) == Q2(q - 1, 0)
    ensures u == Q2(q - 1, 0) ==> QMul(q, -1, u, Q2(0, 1)) == Q2(0, q - 1)
    ensures u == Q2(0, q - 1) ==> QMul(q, -1, u, Q2(0, 1)) == Q2(1, 0)
  {
    if In(q, u) {
      MulReduces(q, -1, u, Q2(0, 1));
      hide QMul;
      ModSmall(0, q);
      ModSmall(1, q);
      ModSmall(q - 1, q);
      ModIntro(-1, q - 1, -1, q);
      ModIntro(0 - (q - 1), 1, -1, q);
      assert u.x * 0 + -1 * (u.y * 1) == 0 - u.y && u.x * 1 + u.y * 0 == u.x;
    }
  }

  lemma {:induction false} TraceZero(q: nat)
    requires q > 1
    ensures NormOne(q, -1, Q2(0, 1))
  {
    NormValue(q, Q2(0, 1));
    ModSmall(1, q);
  }

  // The cofactor is even: it is (q+1)/r with q + 1 even and r odd. Wherever the routine divides by zero, left is what
  // that leaves, and does not matter.
  method TateExp(out: Element, in_: Element, temp: Element, cofactor: nat, q: nat, left: int)
    requires HasI(q) && in_.Valid(q) && cofactor % 2 == 0
    requires out != in_ && out != temp && in_ != temp
    modifies out, in_, temp
    ensures out.Value() == old(Powered(q, in_.Value(), cofactor)) && out.Valid(q)
    ensures old(in_.Value()) != Zero ==> (q - 1) * cofactor >= 0 && out.Value() == QPow(q, -1, old(in_.Value()), (q - 1) * cofactor)
  {
    ghost var f := in_.Value();
    NormNonzero(q, f);
    if f != Zero { UnitNormOne(q, f); }
    TraceZero(q);
    ConjIn(q, f);
    ZeroConj(q);
    FiInvert(temp, in_, q, left);
    if f != Zero { InverseIsUnique(q, f, temp.Value()); }
    in_.y := Neg(q, in_.y);
    assert in_.Value() == Conj(q, f);
    FiMul(in_, in_, temp, q);
    assert in_.Value() == Unit(q, f);
    MinusOneIs(q);
    if f != Zero { UnitPowers(q, f, cofactor); }
    hide QPow, QMul, Unit, HasI;
    LucasOdd(out, in_, temp, cofactor, q, -1, left, if f == Zero then Q2(0, 1) else Unit(q, f));
  }

  lemma ZeroConj(q: nat)
    requires q > 1
    ensures Conj(q, Zero) == Zero && QMul(q, -1, Zero, Zero) == Zero
  {
    ModSmall(0, q);
    ZeroTimes(q, Zero);
  }
}
