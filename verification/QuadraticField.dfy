// The quadratic extension F_p[s]/(s^2 - N): x + y*s, updated in place through destination parameters.
module QuadraticField {
  import opened Arith
  import opened Fp

  datatype Q2 = Q2(x: int, y: int)

  predicate In(p: nat, a: Q2)
  {
    Elem(p, a.x) && Elem(p, a.y)
  }

  // Schoolbook product.
  function QMul(p: nat, N: int, a: Q2, b: Q2): Q2
    requires p > 0
  {
    Q2(Add(p, Mul(p, a.x, b.x), Mul(p, Red(p, N), Mul(p, a.y, b.y))), Add(p, Mul(p, a.x, b.y), Mul(p, a.y, b.x)))
  }

  function QAdd(p: nat, a: Q2, b: Q2): Q2
    requires p > 0
  {
    Q2(Add(p, a.x, b.x), Add(p, a.y, b.y))
  }

  const One: Q2 := Q2(1, 0)

  function QPow(p: nat, N: int, a: Q2, n: nat): Q2
    requires p > 0
  {
    if n == 0 then One else QMul(p, N, QPow(p, N, a, n - 1), a)
  }

  function Norm(p: nat, N: int, a: Q2): int
    requires p > 0
  {
    Sub(p, Mul(p, a.x, a.x), Mul(p, Red(p, N), Mul(p, a.y, a.y)))
  }

  function Conj(p: nat, a: Q2): Q2
    requires p > 0
  {
    Q2(a.x, Neg(p, a.y))
  }

  // ---------------------------------------------------------------- ring laws

  // The product as the reduction of an integer polynomial.
  lemma {:induction false} MulReduces(p: nat, N: int, a: Q2, b: Q2)
    requires p > 1 && In(p, a) && In(p, b)
    ensures QMul(p, N, a, b) == Q2(Red(p, a.x * b.x + N * (a.y * b.y)), Red(p, a.x * b.y + a.y * b.x))
    ensures In(p, QMul(p, N, a, b))
  {
    Homomorphism(p);
    MulPoly(N, a.x, a.y, b.x, b.y);
    hide Red, Add, Mul, Elem, Plus, Times;
  }

  lemma MulPoly(N: int, a0: int, a1: int, b0: int, b1: int)
    ensures Plus(Times(a0, b0), Times(N, Times(a1, b1))) == a0 * b0 + N * (a1 * b1)
    ensures Plus(Times(a0, b1), Times(a1, b0)) == a0 * b1 + a1 * b0
  {
  }

  lemma {:induction false} MulCommutes(p: nat, N: int, a: Q2, b: Q2)
    requires p > 1 && In(p, a) && In(p, b)
    ensures QMul(p, N, a, b) == QMul(p, N, b, a)
  {
    MulReduces(p, N, a, b);
    MulReduces(p, N, b, a);
    hide QMul, Red;
    assert a.x * b.x == b.x * a.x && a.y * b.y == b.y * a.y && a.x * b.y == b.y * a.x && a.y * b.x == b.x * a.y;
  }

  lemma {:induction false} MulAssociates(p: nat, N: int, a: Q2, b: Q2, c: Q2)
    requires p > 1 && In(p, a) && In(p, b) && In(p, c)
    ensures QMul(p, N, QMul(p, N, a, b), c) == QMul(p, N, a, QMul(p, N, b, c))
  {
    Homomorphism(p);
    AssocPoly(N, a.x, a.y, b.x, b.y, c.x, c.y);
    hide Red, Add, Mul, Elem, Plus, Times;
  }

  lemma AssocPoly(N: int, a0: int, a1: int, b0: int, b1: int, c0: int, c1: int)
    ensures var x, y := Plus(Times(a0, b0), Times(N, Times(a1, b1))), Plus(Times(a0, b1), Times(a1, b0));
            var u, v := Plus(Times(b0, c0), Times(N, Times(b1, c1))), Plus(Times(b0, c1), Times(b1, c0));
            && Plus(Times(x, c0), Times(N, Times(y, c1))) == Plus(Times(a0, u), Times(N, Times(a1, v)))
            && Plus(Times(x, c1), Times(y, c0)) == Plus(Times(a0, v), Times(a1, u))
  {
    AssocReal(N, a0, a1, b0, b1, c0, c1);
    AssocImaginary(N, a0, a1, b0, b1, c0, c1);
  }

  lemma AssocReal(N: int, a0: int, a1: int, b0: int, b1: int, c0: int, c1: int)
    ensures (a0 * b0 + N * (a1 * b1)) * c0 + N * ((a0 * b1 + a1 * b0) * c1)
         == a0 * (b0 * c0 + N * (b1 * c1)) + N * (a1 * (b0 * c1 + b1 * c0))
  {
  }

  lemma AssocImaginary(N: int, a0: int, a1: int, b0: int, b1: int, c0: int, c1: int)
    ensures (a0 * b0 + N * (a1 * b1)) * c1 + (a0 * b1 + a1 * b0) * c0
         == a0 * (b0 * c1 + b1 * c0) + a1 * (b0 * c0 + N * (b1 * c1))
  {
  }

  // s^2 = N, and the product distributes over sums.
  lemma {:induction false} GeneratorSquared(p: nat, N: int)
    requires p > 1
    ensures QMul(p, N, Q2(0, 1), Q2(0, 1)) == Q2(Red(p, N), 0)
  {
    MulReduces(p, N, Q2(0, 1), Q2(0, 1));
    ModSmall(0, p);
    assert 0 * 0 + N * (1 * 1) == N && 0 * 1 + 1 * 0 == 0;
  }

  lemma {:induction false} MulDistributes(p: nat, N: int, a: Q2, b: Q2, c: Q2)
    requires p > 1 && In(p, a) && In(p, b) && In(p, c)
    ensures QMul(p, N, a, QAdd(p, b, c)) == QAdd(p, QMul(p, N, a, b), QMul(p, N, a, c)) && In(p, QAdd(p, b, c))
  {
    Homomorphism(p);
    DistributePoly(N, a.x, a.y, b.x, b.y, c.x, c.y);
    hide Red, Add, Mul, Elem, Plus, Times;
  }

  lemma DistributePoly(N: int, a0: int, a1: int, b0: int, b1: int, c0: int, c1: int)
    ensures Plus(Times(a0, Plus(b0, c0)), Times(N, Times(a1, Plus(b1, c1)))) ==
      Plus(Plus(Times(a0, b0), Times(N, Times(a1, b1))), Plus(Times(a0, c0), Times(N, Times(a1, c1))))
    ensures Plus(Times(a0, Plus(b1, c1)), Times(a1, Plus(b0, c0))) == Plus(Plus(Times(a0, b1), Times(a1, b0)), Plus(Times(a0, c1), Times(a1, c0)))
  {
    assert a1 * (b1 + c1) == a1 * b1 + a1 * c1 && N * (a1 * b1 + a1 * c1) == N * (a1 * b1) + N * (a1 * c1);
  }

  lemma {:induction false} MulOne(p: nat, N: int, a: Q2)
    requires p > 1 && In(p, a)
    ensures QMul(p, N, a, One) == a && QMul(p, N, One, a) == a && In(p, One)
  {
    assert In(p, One);
    MulReduces(p, N, a, One);
    MulCommutes(p, N, a, One);
    ElemReduces(p, a.x);
    ElemReduces(p, a.y);
    hide QMul, Red;
    assert a.x * 1 + N * (a.y * 0) == a.x && a.x * 0 + a.y * 1 == a.y;
  }

  lemma {:induction false} PowIn(p: nat, N: int, a: Q2, n: nat)
    requires p > 1 && In(p, a)
    ensures In(p, QPow(p, N, a, n))
  {
    if n > 0 {
      PowIn(p, N, a, n - 1);
      MulReduces(p, N, QPow(p, N, a, n - 1), a);
    }
  }

  lemma {:induction false} QPowAdd(p: nat, N: int, a: Q2, m: nat, n: nat)
    requires p > 1 && In(p, a)
    ensures QPow(p, N, a, m + n) == QMul(p, N, QPow(p, N, a, m), QPow(p, N, a, n))
  {
    PowIn(p, N, a, m);
    if n == 0 {
      MulOne(p, N, QPow(p, N, a, m));
    } else {
      QPowAdd(p, N, a, m, n - 1);
      PowIn(p, N, a, n - 1);
      assert QPow(p, N, a, m + n) == QMul(p, N, QPow(p, N, a, m + (n - 1)), a);
      hide QMul;
      MulAssociates(p, N, QPow(p, N, a, m), QPow(p, N, a, n - 1), a);
    }
  }

  lemma {:induction false} NormMultiplies(p: nat, N: int, a: Q2, b: Q2)
    requires p > 1 && In(p, a) && In(p, b)
    ensures Norm(p, N, QMul(p, N, a, b)) == Mul(p, Norm(p, N, a), Norm(p, N, b))
  {
    Homomorphism(p);
    NormPoly(N, a.x, a.y, b.x, b.y);
    hide Red, Add, Sub, Mul, Elem, Plus, Minus, Times;
  }

  lemma {:induction false} NormPoly(N: int, a0: int, a1: int, b0: int, b1: int)
    ensures var x, y := Plus(Times(a0, b0), Times(N, Times(a1, b1))), Plus(Times(a0, b1), Times(a1, b0));
            Minus(Times(x, x), Times(N, Times(y, y))) ==
            Times(Minus(Times(a0, a0), Times(N, Times(a1, a1))), Minus(Times(b0, b0), Times(N, Times(b1, b1))))
  {
    CrossTerms(N, a0 * b0, a1 * b1, a0 * b1, a1 * b0);
    NormProduct(N, a0, a1, b0, b1);
    RegroupProducts(a0, a1, b0, b1);
  }

  // ---------------------------------------------------------------- elements updated in place

  class Element {
    var x: int
    var y: int

    ghost predicate Valid(p: nat)
      reads this
    {
      In(p, Value())
    }

    function Value(): Q2
      reads this
    {
      Q2(x, y)
    }

    constructor (a: Q2)
      ensures Value() == a
    {
      x := a.x;
      y := a.y;
    }
  }

  lemma {:induction false} KaratsubaIsProduct(p: nat, N: int, a: Q2, b: Q2)
    requires p > 1 && In(p, a) && In(p, b)
    ensures QMul(p, N, a, b) ==
      Q2(Add(p, Mul(p, Mul(p, a.y, b.y), Red(p, N)), Mul(p, a.x, b.x)),
         Sub(p, Sub(p, Mul(p, Add(p, a.x, a.y), Add(p, b.x, b.y)), Mul(p, a.x, b.x)), Mul(p, a.y, b.y)))
    ensures In(p, QMul(p, N, a, b))
  {
    Homomorphism(p);
    KaratsubaPoly(N, a.x, a.y, b.x, b.y);
    hide Red, Add, Sub, Mul, Elem, Plus, Minus, Times;
  }

  // Karatsuba multiplication.
  method FqMul(n: Element, a: Element, b: Element, p: nat, N: int)
    requires p > 1 && a.Valid(p) && b.Valid(p)
    modifies n
    ensures n.Value() == old(QMul(p, N, a.Value(), b.Value())) && n.Valid(p)
  {
    KaratsubaIsProduct(p, N, a.Value(), b.Value());
    hide *;
    var e0 := Add(p, a.x, a.y);
    var e1 := Add(p, b.x, b.y);
    var e2 := Mul(p, e0, e1);
    e0 := Mul(p, a.x, b.x);
    e1 := Mul(p, a.y, b.y);
    n.x := Mul(p, e1, Red(p, N));
    n.x := Add(p, n.x, e0);
    e2 := Sub(p, e2, e0);
    n.y := Sub(p, e2, e1);
  }

  lemma KaratsubaPoly(N: int, a0: int, a1: int, b0: int, b1: int)
    ensures Plus(Times(Times(a1, b1), N), Times(a0, b0)) == Plus(Times(a0, b0), Times(N, Times(a1, b1)))
    ensures Minus(Minus(Times(Plus(a0, a1), Plus(b0, b1)), Times(a0, b0)), Times(a1, b1)) == Plus(Times(a0, b1), Times(a1, b0))
  {
  }

  lemma {:induction false} SquareIsProduct(p: nat, N: int, a: Q2)
    requires p > 1 && In(p, a)
    ensures QMul(p, N, a, a) ==
      Q2(Add(p, Mul(p, a.x, a.x), Mul(p, Mul(p, a.y, a.y), Red(p, N))), Add(p, Mul(p, a.x, a.y), Mul(p, a.x, a.y)))
    ensures In(p, QMul(p, N, a, a))
  {
    Homomorphism(p);
    SquarePoly(N, a.x, a.y);
    hide Red, Add, Sub, Mul, Elem, Plus, Minus, Times;
  }

  method FqSquare(n: Element, a: Element, p: nat, N: int)
    requires p > 1 && a.Valid(p)
    modifies n
    ensures n.Value() == old(QMul(p, N, a.Value(), a.Value())) && n.Valid(p)
  {
    SquareIsProduct(p, N, a.Value());
    hide Red, Add, Mul, Elem;
    var e0 := Square(p, a.x);
    var e1 := Square(p, a.y);
    e1 := Mul(p, e1, Red(p, N));
    e0 := Add(p, e0, e1);
    e1 := Mul(p, a.x, a.y);
    e1 := Double(p, e1);
    n.x := e0;
    n.y := e1;
  }

  lemma SquarePoly(N: int, a0: int, a1: int)
    ensures Plus(Times(a0, a0), Times(Times(a1, a1), N)) == Plus(Times(a0, a0), Times(N, Times(a1, a1)))
    ensures Plus(Times(a0, a1), Times(a0, a1)) == Plus(Times(a0, a1), Times(a1, a0))
  {
  }

  lemma TimesCommutes(a: int, b: int)
    ensures Times(a, b) == Times(b, a)
  {
  }

  // Elements of nonzero norm are inverted through the norm.
  method FqInvert(n: Element, a: Element, p: nat, N: int)
    requires IsPrime(p) && a.Valid(p) && Norm(p, N, a.Value()) != 0
    modifies n
    ensures QMul(p, N, n.Value(), old(a.Value())) == One && n.Valid(p)
  {
    Homomorphism(p);
    ghost var a0, a1 := a.x, a.y;
    assert Elem(p, 0) && Elem(p, 1);
    hide Red, Add, Sub, Mul, Neg, Elem, Plus, Minus, Times, Opp, IsPrime;
    var e0 := Square(p, a.x);
    var e1 := Square(p, a.y);
    e1 := Mul(p, e1, Red(p, N));
    e0 := Sub(p, e0, e1);
    assert e0 == Norm(p, N, a.Value()) by { assert Times(Times(a1, a1), N) == Times(N, Times(a1, a1)) by { TimesCommutes(Times(a1, a1), N); } }
    e0 := Inv(p, e0);
    InversePoly(N, a0, a1, e0);
    n.x := Mul(p, a.x, e0);
    e0 := Neg(p, e0);
    n.y := Mul(p, a.y, e0);
  }

  lemma InversePoly(N: int, a0: int, a1: int, i: int)
    ensures Plus(Times(Times(a0, i), a0), Times(N, Times(Times(a1, Opp(i)), a1)))
         == Times(Minus(Times(a0, a0), Times(Times(a1, a1), N)), i)
    ensures Plus(Times(Times(a0, i), a1), Times(Times(a1, Opp(i)), a0)) == 0
  {
    var u, v := a0 * a0, a1 * a1;
    assert a0 * i * a0 == u * i && a1 * (0 - i) * a1 == -(v * i) && N * -(v * i) == -(v * N * i);
    assert a0 * i * a1 == a0 * a1 * i && a1 * (0 - i) * a0 == -(a0 * a1 * i);
  }

  // ---------------------------------------------------------------- the case s^2 = -1

  lemma {:induction false} FiMulIsProduct(p: nat, a: Q2, b: Q2)
    requires p > 1 && In(p, a) && In(p, b)
    ensures QMul(p, -1, a, b) ==
      Q2(Sub(p, Mul(p, a.x, b.x), Mul(p, a.y, b.y)),
         Sub(p, Sub(p, Mul(p, Add(p, a.x, a.y), Add(p, b.x, b.y)), Mul(p, a.x, b.x)), Mul(p, a.y, b.y)))
    ensures In(p, QMul(p, -1, a, b))
  {
    Homomorphism(p);
    KaratsubaPoly(-1, a.x, a.y, b.x, b.y);
    MinusOne(Times(a.x, b.x), Times(a.y, b.y));
    hide Red, Add, Sub, Mul, Elem, Plus, Minus, Times;
  }

  method FiMul(n: Element, a: Element, b: Element, p: nat)
    requires p > 1 && a.Valid(p) && b.Valid(p)
    modifies n
    ensures n.Value() == old(QMul(p, -1, a.Value(), b.Value())) && n.Valid(p)
  {
    FiMulIsProduct(p, a.Value(), b.Value());
    hide *;
    var e0 := Add(p, a.x, a.y);
    var e1 := Add(p, b.x, b.y);
    var e2 := Mul(p, e0, e1);
    e0 := Mul(p, a.x, b.x);
    e2 := Sub(p, e2, e0);
    e1 := Mul(p, a.y, b.y);
    n.x := Sub(p, e0, e1);
    n.y := Sub(p, e2, e1);
  }

  lemma MinusOne(u: int, v: int)
    ensures Minus(u, v) == Plus(u, Times(-1, v))
  {
  }

  lemma {:induction false} FiSquareIsProduct(p: nat, a: Q2)
    requires p > 1 && In(p, a)
    ensures QMul(p, -1, a, a) ==
      Q2(Mul(p, Add(p, a.x, a.y), Sub(p, a.x, a.y)), Add(p, Mul(p, a.x, a.y), Mul(p, a.x, a.y)))
    ensures In(p, QMul(p, -1, a, a))
  {
    Homomorphism(p);
    FiSquarePoly(a.x, a.y);
    hide Red, Add, Sub, Mul, Elem, Plus, Minus, Times;
  }

  method FiSquare(n: Element, a: Element, p: nat)
    requires p > 1 && a.Valid(p)
    modifies n
    ensures n.Value() == old(QMul(p, -1, a.Value(), a.Value())) && n.Valid(p)
  {
    FiSquareIsProduct(p, a.Value());
    hide *;
    var e0 := Add(p, a.x, a.y);
    var e1 := Sub(p, a.x, a.y);
    e0 := Mul(p, e0, e1);
    e1 := Mul(p, a.x, a.y);
    e1 := Add(p, e1, e1);
    n.x := e0;
    n.y := e1;
  }

  lemma FiSquarePoly(a0: int, a1: int)
    ensures Times(Plus(a0, a1), Minus(a0, a1)) == Plus(Times(a0, a0), Times(-1, Times(a1, a1)))
    ensures Plus(Times(a0, a1), Times(a0, a1)) == Plus(Times(a0, a1), Times(a1, a0))
  {
  }

  method FiInvert(n: Element, a: Element, p: nat, left: int)
    requires IsPrime(p) && a.Valid(p)
    modifies n
    ensures n.Valid(p)
    ensures old(Norm(p, -1, a.Value())) != 0 ==> QMul(p, -1, n.Value(), old(a.Value())) == One
    ensures old(a.Value()) == Q2(0, 0) ==> n.Value() == Q2(0, 0)
  {
    ghost var a0, a1 := a.x, a.y;
    FiNormIs(p, a0, a1);
    hide Red, Add, Sub, Mul, Neg, Elem, IsPrime, Inv, QMul, Norm, Square;
    var e0 := Square(p, a.x);
    var e1 := Square(p, a.y);
    e0 := Add(p, e0, e1);
    ghost var norm := e0;
    NormIsElem(p, norm, a0, a1);
    e0 := InvOr(p, e0, left);
    if norm != 0 { FiInverse(p, a0, a1, e0); }
    FiInverseIn(p, a0, a1, e0);
    n.x := Mul(p, a.x, e0);
    e0 := Neg(p, e0);
    n.y := Mul(p, a.y, e0);
  }

  lemma {:induction false} FiNormIs(p: nat, x: int, y: int)
    requires p > 1 && Elem(p, x) && Elem(p, y)
    ensures Add(p, Square(p, x), Square(p, y)) == Norm(p, -1, Q2(x, y))
  {
    Homomorphism(p);
    assert Elem(p, 0) && Elem(p, 1);
    FiNormPoly(x, y);
    hide Red, Add, Sub, Mul, Neg, Elem, Plus, Minus, Times, Opp;
  }

  lemma NormIsElem(p: nat, e: int, x: int, y: int)
    requires p > 0 && e == Norm(p, -1, Q2(x, y))
    ensures Elem(p, e)
  {
  }

  lemma {:induction false} FiInverse(p: nat, x: int, y: int, i: int)
    requires IsPrime(p) && Elem(p, x) && Elem(p, y) && Elem(p, i) && Mul(p, Norm(p, -1, Q2(x, y)), i) == 1
    ensures QMul(p, -1, Q2(Mul(p, x, i), Mul(p, y, Neg(p, i))), Q2(x, y)) == One
  {
    Homomorphism(p);
    assert Elem(p, 0) && Elem(p, 1);
    FiNormPoly(x, y);
    FiNormIs(p, x, y);
    hide Red, Add, Sub, Mul, Neg, Elem, Plus, Minus, Times, Opp, IsPrime;
    InversePoly(-1, x, y, i);
  }

  lemma FiInverseIn(p: nat, x: int, y: int, i: int)
    requires p > 0
    ensures Elem(p, Mul(p, x, i)) && Elem(p, Mul(p, y, Neg(p, i)))
    ensures x == 0 && y == 0 ==> Mul(p, x, i) == 0 && Mul(p, y, Neg(p, i)) == 0
  {
    ModSmall(0, p);
  }

  lemma FiNormPoly(a0: int, a1: int)
    ensures Plus(Times(a0, a0), Times(a1, a1)) == Minus(Times(a0, a0), Times(-1, Times(a1, a1)))
    ensures Plus(Times(a0, a0), Times(a1, a1)) == Minus(Times(a0, a0), Times(Times(a1, a1), -1))
  {
  }
}
