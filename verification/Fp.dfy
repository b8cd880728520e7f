// The prime field as residues 0..p-1. Red is the reduction homomorphism from the integers, so that
// straight-line field code can be read as the reduction of an integer polynomial.
module Fp {
  import opened Arith

  function Red(p: nat, a: int): int
    requires p > 0
  {
    a % p
  }

  function Add(p: nat, a: int, b: int): int
    requires p > 0
  {
    (a + b) % p
  }

  function Sub(p: nat, a: int, b: int): int
    requires p > 0
  {
    (a - b) % p
  }

  function Mul(p: nat, a: int, b: int): int
    requires p > 0
  {
    a * b % p
  }

  function Square(p: nat, a: int): int
    requires p > 0
  {
    Mul(p, a, a)
  }

  function Double(p: nat, a: int): int
    requires p > 0
  {
    Add(p, a, a)
  }

  function Neg(p: nat, a: int): int
    requires p > 0
  {
    (0 - a) % p
  }

  predicate Elem(p: nat, a: int)
  {
    0 <= a < p
  }

  function Inv(p: nat, a: int): (r: int)
    requires IsPrime(p) && Elem(p, a) && a != 0
    ensures Elem(p, r) && r != 0 && Mul(p, a, r) == 1
  {
    ModSmall(a, p);
    PrimeCoprime(a, p);
    Inverse(a, p)
  }

  // element_invert: left is whatever the inversion of zero leaves behind.
  function InvOr(p: nat, a: int, left: int): int
    requires IsPrime(p) && Elem(p, a)
  {
    if a == 0 then left else Inv(p, a)
  }

  // Integer operations under names, so that proofs can carry a polynomial without computing with it.
  function Plus(a: int, b: int): int { a + b }
  function Minus(a: int, b: int): int { a - b }
  function Times(a: int, b: int): int { a * b }
  function Opp(a: int): int { 0 - a }

  // Every operation commutes with reduction, and elements are their own reductions.
  lemma Homomorphism(p: nat)
    requires p > 0
    ensures forall a, b {:trigger Add(p, Red(p, a), Red(p, b))} :: Add(p, Red(p, a), Red(p, b)) == Red(p, Plus(a, b))
    ensures forall a, b {:trigger Sub(p, Red(p, a), Red(p, b))} :: Sub(p, Red(p, a), Red(p, b)) == Red(p, Minus(a, b))
    ensures forall a, b {:trigger Mul(p, Red(p, a), Red(p, b))} :: Mul(p, Red(p, a), Red(p, b)) == Red(p, Times(a, b))
    ensures forall a {:trigger Neg(p, Red(p, a))} :: Neg(p, Red(p, a)) == Red(p, Opp(a))
    ensures forall a {:trigger Red(p, a)} :: Elem(p, Red(p, a))
    ensures forall a {:trigger Elem(p, a)} :: Elem(p, a) ==> Red(p, a) == a
  {
    hide *;
    forall a, b {:trigger Add(p, Red(p, a), Red(p, b))} ensures Add(p, Red(p, a), Red(p, b)) == Red(p, Plus(a, b)) { OperationsReduce(p, a, b); }
    forall a, b {:trigger Sub(p, Red(p, a), Red(p, b))} ensures Sub(p, Red(p, a), Red(p, b)) == Red(p, Minus(a, b)) { OperationsReduce(p, a, b); }
    forall a, b {:trigger Mul(p, Red(p, a), Red(p, b))} ensures Mul(p, Red(p, a), Red(p, b)) == Red(p, Times(a, b)) { OperationsReduce(p, a, b); }
    forall a {:trigger Neg(p, Red(p, a))} ensures Neg(p, Red(p, a)) == Red(p, Opp(a)) { OperationsReduce(p, a, 0); }
    forall a {:trigger Red(p, a)} ensures Elem(p, Red(p, a)) { OperationsReduce(p, a, 0); }
    forall a {:trigger Elem(p, a)} | Elem(p, a) ensures Red(p, a) == a { ElemReduces(p, a); }
  }

  lemma {:induction false} OperationsReduce(p: nat, a: int, b: int)
    requires p > 0
    ensures Add(p, Red(p, a), Red(p, b)) == Red(p, Plus(a, b))
    ensures Sub(p, Red(p, a), Red(p, b)) == Red(p, Minus(a, b))
    ensures Mul(p, Red(p, a), Red(p, b)) == Red(p, Times(a, b))
    ensures Neg(p, Red(p, a)) == Red(p, Opp(a))
    ensures Elem(p, Red(p, a))
  {
    ModMod(a, p);
    ModMod(b, p);
    ModAdd(a % p, a, b % p, b, p);
    ModAdd(0, 0, a % p, a, p);
    ModMul(a % p, a, b % p, b, p);
  }

  lemma {:induction false} ElemReduces(p: nat, a: int)
    requires Elem(p, a)
    ensures Red(p, a) == a
  {
    ModSmall(a, p);
  }

  // v is the reduction of the polynomial a. Longer straight-line code is followed through this relation,
  // which gives every value one polynomial.
  ghost predicate Rep(p: nat, v: int, a: int)
  {
    p > 0 && v == Red(p, a)
  }

  lemma Represent(p: nat)
    requires p > 0
    ensures forall v, a, w, b {:trigger Rep(p, v, a), Rep(p, w, b), Add(p, v, w)} ::
      Rep(p, v, a) && Rep(p, w, b) ==> Rep(p, Add(p, v, w), Plus(a, b))
    ensures forall v, a, w, b {:trigger Rep(p, v, a), Rep(p, w, b), Sub(p, v, w)} ::
      Rep(p, v, a) && Rep(p, w, b) ==> Rep(p, Sub(p, v, w), Minus(a, b))
    ensures forall v, a, w, b {:trigger Rep(p, v, a), Rep(p, w, b), Mul(p, v, w)} ::
      Rep(p, v, a) && Rep(p, w, b) ==> Rep(p, Mul(p, v, w), Times(a, b))
    ensures forall v, a {:trigger Rep(p, v, a), Neg(p, v)} :: Rep(p, v, a) ==> Rep(p, Neg(p, v), Opp(a))
    ensures forall v, a {:trigger Rep(p, v, a)} :: Rep(p, v, a) ==> v == Red(p, a) && Elem(p, v)
  {
    hide Red, Add, Sub, Mul, Neg, Elem, Plus, Minus, Times, Opp;
    forall a, b {:trigger Plus(a, b)} {:trigger Minus(a, b)} {:trigger Times(a, b)}
      ensures Add(p, Red(p, a), Red(p, b)) == Red(p, Plus(a, b))
      ensures Sub(p, Red(p, a), Red(p, b)) == Red(p, Minus(a, b))
      ensures Mul(p, Red(p, a), Red(p, b)) == Red(p, Times(a, b))
    {
      OperationsReduce(p, a, b);
    }
    forall a {:trigger Red(p, a)} ensures Neg(p, Red(p, a)) == Red(p, Opp(a)) && Elem(p, Red(p, a)) { OperationsReduce(p, a, 0); }
  }

  lemma {:induction false} RepElem(p: nat, a: int)
    requires Elem(p, a)
    ensures Rep(p, a, a)
  {
    ElemReduces(p, a);
  }

  lemma MulElem(p: nat, a: int, b: int)
    requires p > 0
    ensures Elem(p, Mul(p, a, b))
  {
  }

  // Congruent integers stay congruent in a linear combination.
  lemma {:induction false} RedLinear(p: nat, w: int, k: int, u: int, v: int)
    requires p > 0 && Red(p, u) == Red(p, v)
    ensures Red(p, Plus(w, Times(k, u))) == Red(p, Plus(w, Times(k, v)))
  {
    ModMul(k, k, u, v, p);
    ModAdd(w, w, k * u, k * v, p);
  }

  function Halve(p: nat, a: int): int
  {
    if a % 2 == 0 then a / 2 else (a + p) / 2
  }

  lemma {:induction false} HalveDouble(p: nat, u: int)
    requires IsPrime(p) && p > 2 && Elem(p, u)
    ensures Halve(p, Double(p, u)) == u
  {
    assert p % 2 == 1;
    if 2 * u < p { ModSmall(2 * u, p); } else { ModIntro(2 * u, 2 * u - p, 1, p); ModSmall(2 * u - p, p); }
  }

  lemma {:induction false} ProductNonzero(p: nat, a: int, b: int)
    requires IsPrime(p) && Elem(p, a) && Elem(p, b) && a != 0 && b != 0
    ensures Mul(p, a, b) != 0 && Elem(p, Mul(p, a, b))
  {
    if Mul(p, a, b) == 0 {
      PrimeDivides(a, b, p);
      ModSmall(a, p);
      ModSmall(b, p);
    }
  }

  function Div(p: nat, a: int, b: int): int
    requires IsPrime(p) && Elem(p, b) && b != 0
  {
    Mul(p, a, Inv(p, b))
  }

  // (num/t)*b is the u with t*u = num*b.
  lemma {:induction false} QuotientTimes(p: nat, num: int, t: int, b: int, u: int)
    requires IsPrime(p) && Elem(p, num) && Elem(p, t) && t != 0 && Elem(p, b) && Elem(p, u)
    requires Mul(p, t, u) == Mul(p, num, b)
    ensures Mul(p, Div(p, num, t), b) == u
  {
    Homomorphism(p);
    assert Elem(p, 1);
    var i := Inv(p, t);
    hide Inv, IsPrime, Red, Mul, Elem, Times;
    assert Mul(p, Mul(p, num, i), b) == Mul(p, Mul(p, num, b), i) by { TimesSwap(num, i, b); }
    assert Mul(p, Mul(p, t, u), i) == Mul(p, Mul(p, t, i), u) by { TimesSwap(t, i, u); }
    assert Mul(p, 1, u) == u by { TimesOne(u); }
  }

  lemma TimesSwap(a: int, b: int, c: int)
    ensures Times(Times(a, b), c) == Times(Times(a, c), b)
  {
  }

  lemma TimesOne(a: int)
    ensures Times(1, a) == a && Times(a, 1) == a
  {
  }
}
