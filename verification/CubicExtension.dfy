// GF(3^3m) = GF(3^m)[p]/(p^3 - p - 1), a field when 3 does not divide m: its product, and its inversion through
// the norm.
module CubicExtension {
  import opened Arith
  import opened Polynomials
  import opened PolynomialDivision
  import opened TernaryTower
  import opened TernaryIdentities
  import opened TernaryFermat
  import opened TernaryFrobenius
  import EtaPairing
  import TernaryField
  import TernaryCubes
  import TernaryElements
  import TernaryInverse
  import TernaryWords

  datatype K3 = K3(c0: Poly, c1: Poly, c2: Poly)

  predicate Sized3(F: Field, a: K3)
  {
    |a.c0| == F.m > 0 && |a.c1| == F.m && |a.c2| == F.m
  }

  ghost predicate InK3(F: Field, a: K3)
  {
    InK(F, a.c0) && InK(F, a.c1) && InK(F, a.c2)
  }

  function Zero3(F: Field): K3
  {
    K3(KZero(F), KZero(F), KZero(F))
  }

  function One3(F: Field): K3
  {
    K3(KOne(F), KZero(F), KZero(F))
  }

  function Add3(F: Field, a: K3, b: K3): (c: K3)
    requires Sized3(F, a) && Sized3(F, b)
    ensures Sized3(F, c)
  {
    K3(KAdd(a.c0, b.c0), KAdd(a.c1, b.c1), KAdd(a.c2, b.c2))
  }

  function Sub3(F: Field, a: K3, b: K3): (c: K3)
    requires Sized3(F, a) && Sized3(F, b)
    ensures Sized3(F, c)
  {
    K3(KSub(a.c0, b.c0), KSub(a.c1, b.c1), KSub(a.c2, b.c2))
  }

  // gf33m_mult over GF(3^m).
  function Mult3(F: Field, a: K3, b: K3): (e: K3)
    requires Sized3(F, a) && Sized3(F, b)
    ensures Sized3(F, e)
  {
    var a0b0 := KMul(F, a.c0, b.c0);
    var a1b1 := KMul(F, a.c1, b.c1);
    var a2b2 := KMul(F, a.c2, b.c2);
    var d1 := KSub(KSub(KMul(F, KAdd(a.c1, a.c0), KAdd(b.c1, b.c0)), a1b1), a0b0);
    var d2 := KSub(KSub(KAdd(KMul(F, KAdd(a.c2, a.c0), KAdd(b.c2, b.c0)), a1b1), a2b2), a0b0);
    var d3 := KSub(KSub(KMul(F, KAdd(a.c2, a.c1), KAdd(b.c2, b.c1)), a2b2), a1b1);
    K3(KAdd(a0b0, d3), KAdd(KAdd(d1, d3), a2b2), KAdd(d2, a2b2))
  }

  // The same by nine products.
  function Plain3(F: Field, a: K3, b: K3): (e: K3)
    requires Sized3(F, a) && Sized3(F, b)
    ensures Sized3(F, e)
  {
    K3(KAdd(KMul(F, a.c0, b.c0), KAdd(KMul(F, a.c1, b.c2), KMul(F, a.c2, b.c1))),
       KAdd(KAdd(KMul(F, a.c0, b.c1), KMul(F, a.c1, b.c0)), KAdd(KAdd(KMul(F, a.c1, b.c2), KMul(F, a.c2, b.c1)), KMul(F, a.c2, b.c2))),
       KAdd(KAdd(KMul(F, a.c0, b.c2), KMul(F, a.c1, b.c1)), KAdd(KMul(F, a.c2, b.c0), KMul(F, a.c2, b.c2))))
  }

  lemma {:induction false} Mult3Is(F: Field, a: K3, b: K3)
    requires Good(F) && InK3(F, a) && InK3(F, b)
    ensures Sized3(F, a) && Sized3(F, b) && Mult3(F, a, b) == Plain3(F, a, b) && InK3(F, Mult3(F, a, b))
  {
    hide InK, KMul, KAdd, KSub;
    Lowest(F, a.c0, a.c1, a.c2, b.c0, b.c1, b.c2);
    Middle(F, a.c0, a.c1, a.c2, b.c0, b.c1, b.c2);
    Highest(F, a.c0, a.c1, a.c2, b.c0, b.c1, b.c2);
  }

  lemma {:induction false} Lowest(F: Field, a0: Poly, a1: Poly, a2: Poly, b0: Poly, b1: Poly, b2: Poly)
    requires Good(F) && InK(F, a0) && InK(F, a1) && InK(F, a2) && InK(F, b0) && InK(F, b1) && InK(F, b2)
    ensures |a0| == |a1| == |a2| == |b0| == |b1| == |b2| == F.m > 0
    ensures var v := KAdd(KMul(F, a0, b0), KSub(KSub(KMul(F, KAdd(a2, a1), KAdd(b2, b1)), KMul(F, a2, b2)), KMul(F, a1, b1)));
            v == KAdd(KMul(F, a0, b0), KAdd(KMul(F, a1, b2), KMul(F, a2, b1))) && InK(F, v)
  {
    hide InK, KMul, KAdd, KSub, KScale, KOne, KZero;
    HoldsInField(F,
      Sum(Prod(Var(0), Var(3)), Dif(Dif(Prod(Sum(Var(2), Var(1)), Sum(Var(5), Var(4))), Prod(Var(2), Var(5))), Prod(Var(1), Var(4)))),
      Sum(Prod(Var(0), Var(3)), Sum(Prod(Var(1), Var(5)), Prod(Var(2), Var(4)))), Null, [a0, a1, a2, b0, b1, b2]);
  }

  lemma {:induction false} Middle(F: Field, a0: Poly, a1: Poly, a2: Poly, b0: Poly, b1: Poly, b2: Poly)
    requires Good(F) && InK(F, a0) && InK(F, a1) && InK(F, a2) && InK(F, b0) && InK(F, b1) && InK(F, b2)
    ensures |a0| == |a1| == |a2| == |b0| == |b1| == |b2| == F.m > 0
    ensures var v := KAdd(KAdd(KSub(KSub(KMul(F, KAdd(a1, a0), KAdd(b1, b0)), KMul(F, a1, b1)), KMul(F, a0, b0)),
                     KSub(KSub(KMul(F, KAdd(a2, a1), KAdd(b2, b1)), KMul(F, a2, b2)), KMul(F, a1, b1))), KMul(F, a2, b2));
            v == KAdd(KAdd(KMul(F, a0, b1), KMul(F, a1, b0)), KAdd(KAdd(KMul(F, a1, b2), KMul(F, a2, b1)), KMul(F, a2, b2))) && InK(F, v)
  {
    hide InK, KMul, KAdd, KSub, KScale, KOne, KZero;
    HoldsInField(F,
      Sum(Sum(Dif(Dif(Prod(Sum(Var(1), Var(0)), Sum(Var(4), Var(3))), Prod(Var(1), Var(4))), Prod(Var(0), Var(3))),
        Dif(Dif(Prod(Sum(Var(2), Var(1)), Sum(Var(5), Var(4))), Prod(Var(2), Var(5))), Prod(Var(1), Var(4)))), Prod(Var(2), Var(5))),
      Sum(Sum(Prod(Var(0), Var(4)), Prod(Var(1), Var(3))), Sum(Sum(Prod(Var(1), Var(5)), Prod(Var(2), Var(4))), Prod(Var(2), Var(5)))),
      Null, [a0, a1, a2, b0, b1, b2]);
  }

  lemma {:induction false} Highest(F: Field, a0: Poly, a1: Poly, a2: Poly, b0: Poly, b1: Poly, b2: Poly)
    requires Good(F) && InK(F, a0) && InK(F, a1) && InK(F, a2) && InK(F, b0) && InK(F, b1) && InK(F, b2)
    ensures |a0| == |a1| == |a2| == |b0| == |b1| == |b2| == F.m > 0
    ensures var v := KAdd(KSub(KSub(KAdd(KMul(F, KAdd(a2, a0), KAdd(b2, b0)), KMul(F, a1, b1)), KMul(F, a2, b2)), KMul(F, a0, b0)), KMul(F, a2, b2));
            v == KAdd(KAdd(KMul(F, a0, b2), KMul(F, a1, b1)), KAdd(KMul(F, a2, b0), KMul(F, a2, b2))) && InK(F, v)
  {
    hide InK, KMul, KAdd, KSub, KScale, KOne, KZero;
    HoldsInField(F,
      Sum(Dif(Dif(Sum(Prod(Sum(Var(2), Var(0)), Sum(Var(5), Var(3))), Prod(Var(1), Var(4))), Prod(Var(2), Var(5))), Prod(Var(0), Var(3))), Prod(Var(2), Var(5))),
      Sum(Sum(Prod(Var(0), Var(5)), Prod(Var(1), Var(4))), Sum(Prod(Var(2), Var(3)), Prod(Var(2), Var(5)))), Null, [a0, a1, a2, b0, b1, b2]);
  }

  // ---------------------------------------------------------------- inversion through the norm

  // The norm, as gf33m_invert computes it.
  function Delta(F: Field, a: K3): (d: Poly)
    requires Sized3(F, a)
    ensures |d| == F.m
  {
    var a02, a12, a22 := KMul(F, a.c0, a.c0), KMul(F, a.c1, a.c1), KMul(F, a.c2, a.c2);
    KAdd(KAdd(KMul(F, KSub(a.c0, a.c2), a02), KMul(F, KSub(a.c1, a.c0), a12)), KMul(F, KSub(a.c2, KSub(a.c1, a.c0)), a22))
  }

  // What it multiplies by the inverse of the norm.
  function Adjoint(F: Field, a: K3): (e: K3)
    requires Sized3(F, a)
    ensures Sized3(F, e)
  {
    var a02, a12, a22 := KMul(F, a.c0, a.c0), KMul(F, a.c1, a.c1), KMul(F, a.c2, a.c2);
    var c2 := KMul(F, a.c0, a.c2);
    K3(KSub(KSub(KAdd(a02, a22), c2), KMul(F, a.c1, KAdd(a.c1, a.c2))), KSub(a22, KMul(F, a.c0, a.c1)), KSub(KSub(a12, c2), a22))
  }

  lemma {:induction false} AdjointTimes(F: Field, a: K3)
    requires Good(F) && InK3(F, a)
    ensures Sized3(F, a) && InK3(F, Adjoint(F, a)) && InK(F, Delta(F, a))
    ensures Mult3(F, a, Adjoint(F, a)) == K3(Delta(F, a), KZero(F), KZero(F))
  {
    hide InK, KMul, KAdd, KSub, KZero;
    AdjointIn(F, a.c0, a.c1, a.c2);
    DeltaIn(F, a.c0, a.c1, a.c2);
    AdjointLow(F, a.c0, a.c1, a.c2);
    AdjointMiddle(F, a.c0, a.c1, a.c2);
    AdjointHigh(F, a.c0, a.c1, a.c2);
    Mult3Is(F, a, Adjoint(F, a));
  }

  lemma {:induction false} AdjointIn(F: Field, a0: Poly, a1: Poly, a2: Poly)
    requires Good(F) && InK(F, a0) && InK(F, a1) && InK(F, a2)
    ensures |a0| == |a1| == |a2| == F.m > 0
    ensures var b := Adjoint(F, K3(a0, a1, a2)); InK(F, b.c0) && InK(F, b.c1) && InK(F, b.c2)
  {
    var e := [a0, a1, a2];
    EvalRep(F, Dif(Dif(Sum(Prod(Var(0), Var(0)), Prod(Var(2), Var(2))), Prod(Var(0), Var(2))), Prod(Var(1), Sum(Var(1), Var(2)))), e);
    EvalRep(F, Dif(Prod(Var(2), Var(2)), Prod(Var(0), Var(1))), e);
    EvalRep(F, Dif(Dif(Prod(Var(1), Var(1)), Prod(Var(0), Var(2))), Prod(Var(2), Var(2))), e);
  }

  lemma {:induction false} DeltaIn(F: Field, a0: Poly, a1: Poly, a2: Poly)
    requires Good(F) && InK(F, a0) && InK(F, a1) && InK(F, a2)
    ensures |a0| == |a1| == |a2| == F.m > 0 && InK(F, Delta(F, K3(a0, a1, a2)))
  {
    hide InK, KMul, KAdd, KSub, KScale, KOne, KZero;
    EvalRep(F, Sum(Sum(Prod(Dif(Var(0), Var(2)), Prod(Var(0), Var(0))), Prod(Dif(Var(1), Var(0)), Prod(Var(1), Var(1)))),
      Prod(Dif(Var(2), Dif(Var(1), Var(0))), Prod(Var(2), Var(2)))), [a0, a1, a2]);
    RepIsIn(F, Delta(F, K3(a0, a1, a2)), PEval(Sum(Sum(Prod(Dif(Var(0), Var(2)), Prod(Var(0), Var(0))), Prod(Dif(Var(1), Var(0)), Prod(Var(1), Var(1)))),
      Prod(Dif(Var(2), Dif(Var(1), Var(0))), Prod(Var(2), Var(2)))), [a0, a1, a2]));
  }

  lemma RepIsIn(F: Field, a: Poly, L: Poly)
    requires Rep(F, a, L)
    ensures InK(F, a)
  {
  }

  const LowProduct: Ex :=
    Sum(Prod(Var(0), Dif(Dif(Sum(Prod(Var(0), Var(0)), Prod(Var(2), Var(2))), Prod(Var(0), Var(2))), Prod(Var(1), Sum(Var(1), Var(2))))),
        Sum(Prod(Var(1), Dif(Dif(Prod(Var(1), Var(1)), Prod(Var(0), Var(2))), Prod(Var(2), Var(2)))),
          Prod(Var(2), Dif(Prod(Var(2), Var(2)), Prod(Var(0), Var(1))))))

  lemma AdjointLowSame()
    ensures SameModThree(LowProduct, Sum(Sum(Prod(Dif(Var(0), Var(2)), Prod(Var(0), Var(0))), Prod(Dif(Var(1), Var(0)), Prod(Var(1), Var(1)))),
        Prod(Dif(Var(2), Dif(Var(1), Var(0))), Prod(Var(2), Var(2)))), Times(-1, Prod(Var(0), Prod(Var(1), Var(2)))), 3)
  {
    hide KEval;
    forall e: seq<int> | |e| == 3 ensures ZEval(LowProduct, e) == ZEval(Sum(Sum(Prod(Dif(Var(0), Var(2)), Prod(Var(0), Var(0))), Prod(Dif(Var(1), Var(0)), Prod(Var(1), Var(1)))), Prod(Dif(Var(2), Dif(Var(1), Var(0))), Prod(Var(2), Var(2)))), e) + 3 * ZEval(Times(-1, Prod(Var(0), Prod(Var(1), Var(2)))), e) { AdjointLowInts(e[0], e[1], e[2]); }
  }

  lemma AdjointLowInts(x: int, y: int, z: int)
    ensures (x * ((((x * x) + (z * z)) - (x * z)) - (y * (y + z)))) + ((y * (((y * y) - (x * z)) - (z * z))) + (z * ((z * z) - (x * y)))) == (((x - z) * (x * x)) + ((y - x) * (y * y))) + ((z - (y - x)) * (z * z)) + 3 * (-1 * (x * (y * z)))
  {
  }

  lemma {:induction false} AdjointLow(F: Field, a0: Poly, a1: Poly, a2: Poly)
    requires Good(F) && InK(F, a0) && InK(F, a1) && InK(F, a2)
    ensures |a0| == |a1| == |a2| == F.m > 0
    ensures var a := K3(a0, a1, a2); Plain3(F, a, Adjoint(F, a)).c0 == Delta(F, a)
  {
    hide InK, KMul, KAdd, KSub, KScale, KOne, KZero, ZEval, SameModThree;
    AdjointLowSame();
    HoldsInField(F, LowProduct, Sum(Sum(Prod(Dif(Var(0), Var(2)), Prod(Var(0), Var(0))), Prod(Dif(Var(1), Var(0)), Prod(Var(1), Var(1)))),
        Prod(Dif(Var(2), Dif(Var(1), Var(0))), Prod(Var(2), Var(2)))), Times(-1, Prod(Var(0), Prod(Var(1), Var(2)))), [a0, a1, a2]);
  }

  const MiddleProduct: Ex :=
    Sum(Sum(Prod(Var(0), Dif(Prod(Var(2), Var(2)), Prod(Var(0), Var(1)))),
          Prod(Var(1), Dif(Dif(Sum(Prod(Var(0), Var(0)), Prod(Var(2), Var(2))), Prod(Var(0), Var(2))), Prod(Var(1), Sum(Var(1), Var(2)))))),
        Sum(Sum(Prod(Var(1), Dif(Dif(Prod(Var(1), Var(1)), Prod(Var(0), Var(2))), Prod(Var(2), Var(2)))),
          Prod(Var(2), Dif(Prod(Var(2), Var(2)), Prod(Var(0), Var(1))))),
          Prod(Var(2), Dif(Dif(Prod(Var(1), Var(1)), Prod(Var(0), Var(2))), Prod(Var(2), Var(2))))))

  lemma AdjointMiddleSame()
    ensures SameModThree(MiddleProduct, Var(3), Times(-1, Prod(Var(0), Prod(Var(1), Var(2)))), 3)
  {
    hide KEval;
    forall e: seq<int> | |e| == 3 ensures ZEval(MiddleProduct, e) == ZEval(Var(3), e) + 3 * ZEval(Times(-1, Prod(Var(0), Prod(Var(1), Var(2)))), e) { AdjointMiddleInts(e[0], e[1], e[2]); }
  }

  lemma AdjointMiddleInts(x: int, y: int, z: int)
    ensures ((x * ((z * z) - (x * y))) + (y * ((((x * x) + (z * z)) - (x * z)) - (y * (y + z))))) + (((y * (((y * y) - (x * z)) - (z * z))) + (z * ((z * z) - (x * y)))) + (z * (((y * y) - (x * z)) - (z * z)))) == 0 + 3 * (-1 * (x * (y * z)))
  {
  }

  lemma {:induction false} AdjointMiddle(F: Field, a0: Poly, a1: Poly, a2: Poly)
    requires Good(F) && InK(F, a0) && InK(F, a1) && InK(F, a2)
    ensures |a0| == |a1| == |a2| == F.m > 0
    ensures var a := K3(a0, a1, a2); Plain3(F, a, Adjoint(F, a)).c1 == KZero(F)
  {
    hide InK, KMul, KAdd, KSub, KScale, KOne, KZero, ZEval, SameModThree;
    AdjointMiddleSame();
    HoldsInField(F, MiddleProduct, Var(3), Times(-1, Prod(Var(0), Prod(Var(1), Var(2)))), [a0, a1, a2]);
  }

  const HighProduct: Ex :=
    Sum(Sum(Prod(Var(0), Dif(Dif(Prod(Var(1), Var(1)), Prod(Var(0), Var(2))), Prod(Var(2), Var(2)))),
          Prod(Var(1), Dif(Prod(Var(2), Var(2)), Prod(Var(0), Var(1))))),
        Sum(Prod(Var(2), Dif(Dif(Sum(Prod(Var(0), Var(0)), Prod(Var(2), Var(2))), Prod(Var(0), Var(2))), Prod(Var(1), Sum(Var(1), Var(2))))),
          Prod(Var(2), Dif(Dif(Prod(Var(1), Var(1)), Prod(Var(0), Var(2))), Prod(Var(2), Var(2))))))

  lemma AdjointHighSame()
    ensures SameModThree(HighProduct, Var(3), Times(-1, Prod(Var(0), Prod(Var(2), Var(2)))), 3)
  {
    hide KEval;
    forall e: seq<int> | |e| == 3 ensures ZEval(HighProduct, e) == ZEval(Var(3), e) + 3 * ZEval(Times(-1, Prod(Var(0), Prod(Var(2), Var(2)))), e) { AdjointHighInts(e[0], e[1], e[2]); }
  }

  lemma AdjointHighInts(x: int, y: int, z: int)
    ensures ((x * (((y * y) - (x * z)) - (z * z))) + (y * ((z * z) - (x * y)))) + ((z * ((((x * x) + (z * z)) - (x * z)) - (y * (y + z)))) + (z * (((y * y) - (x * z)) - (z * z)))) == 0 + 3 * (-1 * (x * (z * z)))
  {
  }

  lemma {:induction false} AdjointHigh(F: Field, a0: Poly, a1: Poly, a2: Poly)
    requires Good(F) && InK(F, a0) && InK(F, a1) && InK(F, a2)
    ensures |a0| == |a1| == |a2| == F.m > 0
    ensures var a := K3(a0, a1, a2); Plain3(F, a, Adjoint(F, a)).c2 == KZero(F)
  {
    hide InK, KMul, KAdd, KSub, KScale, KOne, KZero, ZEval, SameModThree;
    AdjointHighSame();
    HoldsInField(F, HighProduct, Var(3), Times(-1, Prod(Var(0), Prod(Var(2), Var(2)))), [a0, a1, a2]);
  }

  // ---------------------------------------------------------------- the norm of a nonzero element is not zero

  // p^3 - p - 1 has no root in GF(3^m): cubing would add 1, and m cubings m.
  lemma {:induction false} NoRoot(F: Field, r: Poly)
    requires IsField(F) && F.m % 3 != 0 && InK(F, r)
    ensures |r| == F.m > 0 && KCube(F, r) != KAdd(r, KOne(F))
  {
    hide IsField, InK, KCube, KAdd, KOne;
    IsGood(F);
    KUnits(F, r);
    if KCube(F, r) == KAdd(r, KOne(F)) {
      RootMoves(F, r, F.m);
      FullCircle(F, r);
      Displaced(F, r);
    }
  }

  lemma {:induction false} RootMoves(F: Field, r: Poly, k: nat)
    requires Good(F) && InK(F, r) && (|r| == F.m > 0 ==> KCube(F, r) == KAdd(r, KOne(F)))
    ensures |r| == F.m > 0 && KIterate(F, r, k) == KAdd(r, KScale(k, KOne(F)))
  {
    hide InK, KCube, KAdd, KScale, KOne;
    KUnits(F, r);
    if k == 0 {
      AddNone(F, r);
    } else {
      RootMoves(F, r, k - 1);
      MoveOnce(F, r, k - 1);
    }
  }

  lemma {:induction false} AddNone(F: Field, r: Poly)
    requires Good(F) && InK(F, r)
    ensures |r| == F.m && KAdd(r, KScale(0, KOne(F))) == r
  {
    hide InK, KMul, KAdd, KSub, KScale, KOne, KZero;
    HoldsInField(F, Sum(Var(0), Times(0, One)), Var(0), Null, [r]);
  }

  lemma {:induction false} MoveOnce(F: Field, r: Poly, k: nat)
    requires Good(F) && InK(F, r) && (|r| == F.m > 0 ==> KCube(F, r) == KAdd(r, KOne(F)))
    ensures |r| == F.m > 0 && KCube(F, KAdd(r, KScale(k, KOne(F)))) == KAdd(r, KScale(k + 1, KOne(F)))
  {
    hide InK, KCube, KAdd, KScale, KOne;
    KUnits(F, r);
    ScaledOne(F, k);
    CubeOfSum(F, r, KScale(k, KOne(F)));
    MoveSum(F, r, k);
  }

  lemma {:induction false} ScaledOne(F: Field, k: nat)
    requires Good(F)
    ensures InK(F, KScale(k, KOne(F))) && F.m > 0 && KCube(F, KScale(k, KOne(F))) == KScale(k, KOne(F))
  {
    hide *;
    ScaleReduces(F, k);
    var u := KOne(F);
    EtaPairing.RepConstants(F);
    EtaPairing.RepIn(F, u, [1]);
    KUnits(F, u);
    CubeIs(F, u);
    if k % 3 == 0 { CubeOfNought(F, u); } else if k % 3 == 1 { CubeOfUnit(F, u); } else { CubeOfTwo(F, u); }
  }

  lemma {:induction false} ScaleReduces(F: Field, k: nat)
    ensures KScale(k, KOne(F)) == KScale(k % 3, KOne(F))
  {
    forall i | 0 <= i < F.m ensures KScale(k, KOne(F))[i] == KScale(k % 3, KOne(F))[i] {
      var d := KOne(F)[i];
      if d == 0 { ZeroTimes(k); ZeroTimes(k % 3); } else { TimesOneIs(k); TimesOneIs(k % 3); }
    }
  }

  lemma ZeroTimes(k: int)
    ensures k * 0 == 0
  {
  }

  lemma {:induction false} CubeOfNought(F: Field, a: Poly)
    requires Good(F) && InK(F, a)
    ensures |a| == F.m > 0 && InK(F, KScale(0, a)) && KCube(F, KScale(0, a)) == KScale(0, KCube(F, a))
  {
    hide InK, KMul, KAdd, KSub, KScale, KOne, KZero;
    HoldsInField(F, Times(0, Var(0)), Times(0, Var(0)), Null, [a]);
    HoldsInField(F, Prod(Times(0, Var(0)), Prod(Times(0, Var(0)), Times(0, Var(0)))), Times(0, Prod(Var(0), Prod(Var(0), Var(0)))), Null, [a]);
  }

  lemma {:induction false} CubeOfUnit(F: Field, a: Poly)
    requires Good(F) && InK(F, a)
    ensures |a| == F.m > 0 && InK(F, KScale(1, a)) && KCube(F, KScale(1, a)) == KScale(1, KCube(F, a))
  {
    hide InK, KMul, KAdd, KSub, KScale, KOne, KZero;
    HoldsInField(F, Times(1, Var(0)), Times(1, Var(0)), Null, [a]);
    HoldsInField(F, Prod(Times(1, Var(0)), Prod(Times(1, Var(0)), Times(1, Var(0)))), Times(1, Prod(Var(0), Prod(Var(0), Var(0)))), Null, [a]);
  }

  lemma {:induction false} CubeOfTwo(F: Field, a: Poly)
    requires Good(F) && InK(F, a)
    ensures |a| == F.m > 0 && InK(F, KScale(2, a)) && KCube(F, KScale(2, a)) == KScale(2, KCube(F, a))
  {
    hide InK, KMul, KAdd, KSub, KScale, KOne, KZero;
    HoldsInField(F, Times(2, Var(0)), Times(2, Var(0)), Null, [a]);
    HoldsInField(F, Prod(Times(2, Var(0)), Prod(Times(2, Var(0)), Times(2, Var(0)))), Times(2, Prod(Var(0), Prod(Var(0), Var(0)))), Times(2, Prod(Var(0), Prod(Var(0), Var(0)))), [a]);
  }

  lemma MoveSumSame(k: int)
    ensures SameModThree(Sum(Sum(Var(0), One), Times(k, One)), Sum(Var(0), Times(k + 1, One)), Null, 1)
  {
    hide KEval;
    TimesOneIs(k);
    TimesOneIs(k + 1);
    forall e: seq<int> | |e| == 1
      ensures ZEval(Sum(Sum(Var(0), One), Times(k, One)), e) == ZEval(Sum(Var(0), Times(k + 1, One)), e) + 3 * ZEval(Null, e) {
      assert ZEval(Times(k, One), e) == k * 1 && ZEval(Times(k + 1, One), e) == (k + 1) * 1;
      assert ZEval(Sum(Var(0), One), e) == e[0] + 1 && ZEval(Var(0), e) == e[0] && ZEval(Null, e) == 0;
    }
  }

  lemma {:induction false} MoveSum(F: Field, r: Poly, k: nat)
    requires Good(F) && InK(F, r)
    ensures |r| == F.m && KAdd(KAdd(r, KOne(F)), KScale(k, KOne(F))) == KAdd(r, KScale(k + 1, KOne(F)))
  {
    hide InK, KMul, KAdd, KSub, KScale, KOne, KZero;
    MoveSumSame(k);
    HoldsInField(F, Sum(Sum(Var(0), One), Times(k, One)), Sum(Var(0), Times(k + 1, One)), Null, [r]);
  }

  lemma {:induction false} Displaced(F: Field, r: Poly)
    requires Good(F) && InK(F, r) && F.m % 3 != 0
    ensures |r| == F.m && KAdd(r, KScale(F.m, KOne(F))) != r
  {
    assert KScale(F.m, KOne(F))[0] == F.m * 1 % 3;
    assert KAdd(r, KScale(F.m, KOne(F)))[0] == (r[0] + F.m % 3) % 3;
  }

  // x^3 - x*y^2 - y^3
  function Form(F: Field, x: Poly, y: Poly): (r: Poly)
    requires |x| == |y| == F.m > 0
    ensures |r| == F.m
  {
    KSub(KSub(KCube(F, x), KMul(F, x, KMul(F, y, y))), KCube(F, y))
  }

  lemma {:induction false} FormScales(F: Field, x: Poly, y: Poly, i: Poly)
    requires Good(F) && InK(F, x) && InK(F, y) && InK(F, i)
    ensures |x| == |y| == |i| == F.m > 0
    ensures KMul(F, KCube(F, i), Form(F, x, y)) == Form(F, KMul(F, x, i), KMul(F, y, i))
  {
    hide InK, KMul, KSub, KCube;
    CubeOfProduct(F, x, i);
    CubeOfProduct(F, y, i);
    MixedProduct(F, x, y, i);
    KCubeLinear(F, i, i);
    KCubeLinear(F, x, x);
    KCubeLinear(F, y, y);
    KCommutes(F, y, y);
    KCommutes(F, x, KMul(F, y, y));
    DistributeForm(F, KCube(F, i), KCube(F, x), KMul(F, x, KMul(F, y, y)), KCube(F, y));
  }

  lemma {:induction false} CubeOfProduct(F: Field, x: Poly, i: Poly)
    requires Good(F) && InK(F, x) && InK(F, i)
    ensures |x| == |i| == F.m > 0 && KCube(F, KMul(F, x, i)) == KMul(F, KCube(F, i), KCube(F, x))
  {
    hide InK, KMul, KAdd, KSub, KScale, KOne, KZero;
    HoldsInField(F, Prod(Prod(Var(0), Var(1)), Prod(Prod(Var(0), Var(1)), Prod(Var(0), Var(1)))),
      Prod(Prod(Var(1), Prod(Var(1), Var(1))), Prod(Var(0), Prod(Var(0), Var(0)))), Null, [x, i]);
  }

  lemma {:induction false} MixedProduct(F: Field, x: Poly, y: Poly, i: Poly)
    requires Good(F) && InK(F, x) && InK(F, y) && InK(F, i)
    ensures |x| == |y| == |i| == F.m > 0
    ensures KMul(F, KMul(F, x, i), KMul(F, KMul(F, y, i), KMul(F, y, i))) == KMul(F, KCube(F, i), KMul(F, x, KMul(F, y, y)))
  {
    hide InK, KMul, KAdd, KSub, KScale, KOne, KZero;
    HoldsInField(F, Prod(Prod(Var(0), Var(2)), Prod(Prod(Var(1), Var(2)), Prod(Var(1), Var(2)))),
      Prod(Prod(Var(2), Prod(Var(2), Var(2))), Prod(Var(0), Prod(Var(1), Var(1)))), Null, [x, y, i]);
  }

  lemma {:induction false} DistributeForm(F: Field, c: Poly, p: Poly, q: Poly, r: Poly)
    requires Good(F) && InK(F, c) && InK(F, p) && InK(F, q) && InK(F, r)
    ensures |c| == |p| == |q| == |r| == F.m > 0
    ensures KMul(F, c, KSub(KSub(p, q), r)) == KSub(KSub(KMul(F, c, p), KMul(F, c, q)), KMul(F, c, r))
  {
    hide InK, KMul, KAdd, KSub, KScale, KOne, KZero;
    HoldsInField(F, Prod(Var(0), Dif(Dif(Var(1), Var(2)), Var(3))), Dif(Dif(Prod(Var(0), Var(1)), Prod(Var(0), Var(2))), Prod(Var(0), Var(3))), Null, [c, p, q, r]);
  }

  lemma {:induction false} FormAtOne(F: Field, r: Poly)
    requires Good(F) && InK(F, r)
    ensures |r| == F.m > 0 && KAdd(KAdd(r, KOne(F)), Form(F, r, KOne(F))) == KCube(F, r)
  {
    hide InK, KMul, KAdd, KSub, KScale, KOne, KZero;
    HoldsInField(F,
      Sum(Sum(Var(0), One), Dif(Dif(Prod(Var(0), Prod(Var(0), Var(0))), Prod(Var(0), Prod(One, One))), Prod(One, Prod(One, One)))),
      Prod(Var(0), Prod(Var(0), Var(0))), Null, [r]);
  }

  // The form has no zero but x = y = 0.
  lemma {:induction false} FormNonzero(F: Field, x: Poly, y: Poly)
    requires IsField(F) && F.m % 3 != 0 && InK(F, x) && InK(F, y) && (x != KZero(F) || y != KZero(F))
    ensures |x| == |y| == F.m > 0 && Form(F, x, y) != KZero(F)
  {
    hide IsField, InK, KMul, KAdd, KSub, KCube, KOne, KZero, Form;
    IsGood(F);
    KUnits(F, x);
    KUnits(F, y);
    if y == KZero(F) {
      FormAtZero(F, x);
      CubeNonzero(F, x);
    } else if Form(F, x, y) == KZero(F) {
      var i := InverseExists(F, y);
      var r := KMul(F, x, i);
      KCommutes(F, x, i);
      KCommutes(F, y, i);
      FormScales(F, x, y, i);
      KCubeLinear(F, i, i);
      KCommutes(F, KCube(F, i), KZero(F));
      KUnits(F, KCube(F, i));
      FormAtOne(F, r);
      KCommutes(F, r, KOne(F));
      KCommutes(F, KAdd(r, KOne(F)), KZero(F));
      KUnits(F, KAdd(r, KOne(F)));
      NoRoot(F, r);
    }
  }

  lemma {:induction false} FormAtZero(F: Field, x: Poly)
    requires Good(F) && InK(F, x)
    ensures |x| == F.m > 0 && Form(F, x, KZero(F)) == KCube(F, x)
  {
    hide InK, KMul, KAdd, KSub, KScale, KOne, KZero;
    HoldsInField(F,
      Dif(Dif(Prod(Var(0), Prod(Var(0), Var(0))), Prod(Var(0), Prod(Var(1), Var(1)))), Prod(Var(1), Prod(Var(1), Var(1)))),
      Prod(Var(0), Prod(Var(0), Var(0))), Null, [x]);
  }

  lemma {:induction false} CubeNonzero(F: Field, x: Poly)
    requires IsField(F) && InK(F, x) && x != KZero(F)
    ensures |x| == F.m > 0 && KCube(F, x) != KZero(F)
  {
    IsGood(F);
    hide IsField, InK, KMul, KZero;
    ProductNonzero(F, x, x);
    ProductNonzero(F, x, KMul(F, x, x));
  }

  // Without the highest coefficient the norm is the form.
  lemma {:induction false} LinearNorm(F: Field, x: Poly, y: Poly)
    requires Good(F) && InK(F, x) && InK(F, y)
    ensures |x| == |y| == F.m > 0 && Delta(F, K3(x, y, KZero(F))) == Form(F, x, KNeg(y))
  {
    hide InK, KMul, KAdd, KSub, KScale, KOne, KZero;
    HoldsInField(F,
      Sum(Sum(Prod(Dif(Var(0), Var(2)), Prod(Var(0), Var(0))), Prod(Dif(Var(1), Var(0)), Prod(Var(1), Var(1)))),
        Prod(Dif(Var(2), Dif(Var(1), Var(0))), Prod(Var(2), Var(2)))),
      Dif(Dif(Prod(Var(0), Prod(Var(0), Var(0))), Prod(Var(0), Prod(Times(-1, Var(1)), Times(-1, Var(1))))),
        Prod(Times(-1, Var(1)), Prod(Times(-1, Var(1)), Times(-1, Var(1))))),
      Null, [x, y]);
  }

  function RestLow(F: Field, a: K3): (r: Poly)
    requires Sized3(F, a)
    ensures |r| == F.m
  {
    KSub(KMul(F, a.c2, a.c2), KMul(F, a.c0, a.c1))
  }

  function RestHigh(F: Field, a: K3): (r: Poly)
    requires Sized3(F, a)
    ensures |r| == F.m
  {
    KSub(KAdd(KMul(F, a.c2, a.c2), KMul(F, a.c0, a.c2)), KMul(F, a.c1, a.c1))
  }

  // Dividing p^3 - p - 1 by the quadratic a leaves a linear rest, which a and its adjoint share.
  lemma {:induction false} QuadraticTimes(F: Field, a: K3)
    requires Good(F) && InK3(F, a)
    ensures Sized3(F, a) && Mult3(F, a, K3(KNeg(a.c1), a.c2, KZero(F))) == K3(RestLow(F, a), RestHigh(F, a), KZero(F))
    ensures InK(F, KNeg(a.c1)) && InK(F, KZero(F)) && InK(F, RestLow(F, a)) && InK(F, RestHigh(F, a))
    ensures RestLow(F, a) == Adjoint(F, a).c1 && RestHigh(F, a) == KNeg(Adjoint(F, a).c2)
  {
    hide InK, KMul, KAdd, KSub, KNeg, KZero;
    EtaPairing.KClosed(F, a.c1, a.c1);
    QuadraticLow(F, a.c0, a.c1, a.c2);
    QuadraticHigh(F, a.c0, a.c1, a.c2);
    QuadraticTop(F, a.c0, a.c1, a.c2);
    Mult3Is(F, a, K3(KNeg(a.c1), a.c2, KZero(F)));
  }

  lemma {:induction false} QuadraticLow(F: Field, a0: Poly, a1: Poly, a2: Poly)
    requires Good(F) && InK(F, a0) && InK(F, a1) && InK(F, a2)
    ensures |a0| == |a1| == |a2| == F.m > 0
    ensures var a := K3(a0, a1, a2); Plain3(F, a, K3(KNeg(a1), a2, KZero(F))).c0 == RestLow(F, a) && InK(F, RestLow(F, a))
  {
    hide InK, KMul, KAdd, KSub, KScale, KOne, KZero;
    HoldsInField(F, Dif(Prod(Var(2), Var(2)), Prod(Var(0), Var(1))),
      Sum(Prod(Var(0), Times(-1, Var(1))), Sum(Prod(Var(1), Var(3)), Prod(Var(2), Var(2)))), Null, [a0, a1, a2]);
  }

  lemma {:induction false} QuadraticHigh(F: Field, a0: Poly, a1: Poly, a2: Poly)
    requires Good(F) && InK(F, a0) && InK(F, a1) && InK(F, a2)
    ensures |a0| == |a1| == |a2| == F.m > 0
    ensures var a := K3(a0, a1, a2);
            && Plain3(F, a, K3(KNeg(a1), a2, KZero(F))).c1 == RestHigh(F, a) && InK(F, RestHigh(F, a))
            && RestHigh(F, a) == KNeg(Adjoint(F, a).c2)
  {
    hide InK, KMul, KAdd, KSub, KScale, KOne, KZero;
    HoldsInField(F, Dif(Sum(Prod(Var(2), Var(2)), Prod(Var(0), Var(2))), Prod(Var(1), Var(1))),
      Sum(Sum(Prod(Var(0), Var(2)), Prod(Var(1), Times(-1, Var(1)))), Sum(Sum(Prod(Var(1), Var(3)), Prod(Var(2), Var(2))), Prod(Var(2), Var(3)))),
      Null, [a0, a1, a2]);
    HoldsInField(F, Dif(Sum(Prod(Var(2), Var(2)), Prod(Var(0), Var(2))), Prod(Var(1), Var(1))),
      Times(-1, Dif(Dif(Prod(Var(1), Var(1)), Prod(Var(0), Var(2))), Prod(Var(2), Var(2)))), Null, [a0, a1, a2]);
  }

  lemma {:induction false} QuadraticTop(F: Field, a0: Poly, a1: Poly, a2: Poly)
    requires Good(F) && InK(F, a0) && InK(F, a1) && InK(F, a2)
    ensures |a0| == |a1| == |a2| == F.m > 0
    ensures var a := K3(a0, a1, a2); Plain3(F, a, K3(KNeg(a1), a2, KZero(F))).c2 == KZero(F)
  {
    hide InK, KMul, KAdd, KSub, KScale, KOne, KZero;
    HoldsInField(F, Sum(Sum(Prod(Var(0), Var(3)), Prod(Var(1), Var(2))), Sum(Prod(Var(2), Times(-1, Var(1))), Prod(Var(2), Var(3)))),
      Var(3), Null, [a0, a1, a2]);
  }

  // If the rest vanishes, a1/a2 is a zero of the form.
  lemma {:induction false} RestOfForm(F: Field, a0: Poly, a1: Poly, a2: Poly)
    requires Good(F) && InK(F, a0) && InK(F, a1) && InK(F, a2)
    ensures |a0| == |a1| == |a2| == F.m > 0
    ensures var a := K3(a0, a1, a2); Form(F, a1, a2) == KNeg(KAdd(KMul(F, a1, RestHigh(F, a)), KMul(F, a2, RestLow(F, a))))
  {
    hide InK, KMul, KAdd, KSub, KScale, KOne, KZero;
    HoldsInField(F, Dif(Dif(Prod(Var(1), Prod(Var(1), Var(1))), Prod(Var(1), Prod(Var(2), Var(2)))), Prod(Var(2), Prod(Var(2), Var(2)))),
      Times(-1, Sum(Prod(Var(1), Dif(Sum(Prod(Var(2), Var(2)), Prod(Var(0), Var(2))), Prod(Var(1), Var(1)))),
        Prod(Var(2), Dif(Prod(Var(2), Var(2)), Prod(Var(0), Var(1)))))), Null, [a0, a1, a2]);
  }

  lemma {:induction false} RestNonzero(F: Field, a: K3)
    requires IsField(F) && F.m % 3 != 0 && InK3(F, a) && a.c2 != KZero(F)
    ensures Sized3(F, a) && (RestLow(F, a) != KZero(F) || RestHigh(F, a) != KZero(F))
  {
    hide IsField, InK, KMul, KAdd, KSub, KNeg, KZero, Form, RestLow, RestHigh;
    IsGood(F);
    RestOfForm(F, a.c0, a.c1, a.c2);
    FormNonzero(F, a.c1, a.c2);
    if RestLow(F, a) == KZero(F) && RestHigh(F, a) == KZero(F) {
      KUnits(F, a.c1);
      KUnits(F, a.c2);
      KCommutes(F, a.c1, KZero(F));
      KCommutes(F, a.c2, KZero(F));
      KUnits(F, KZero(F));
      NegZero(F);
    }
  }

  lemma {:induction false} NegZero(F: Field)
    requires Good(F)
    ensures KNeg(KZero(F)) == KZero(F)
  {
    assert KNeg(KZero(F)) == KZero(F);
  }

  // ---------------------------------------------------------------- inside GF(3^6m)

  function Embed3(F: Field, a: K3): (r: K6)
    requires Sized3(F, a)
    ensures Sized6(F, r)
  {
    K6(K2(a.c0, KZero(F)), K2(a.c1, KZero(F)), K2(a.c2, KZero(F)))
  }

  ghost function EmbedPoly(x: Poly, y: Poly, z: Poly): K6
  {
    K6(K2(x, []), K2(y, []), K2(z, []))
  }

  lemma {:induction false} RepEmbed(F: Field, a: K3, x: Poly, y: Poly, z: Poly)
    requires Good(F) && Rep(F, a.c0, x) && Rep(F, a.c1, y) && Rep(F, a.c2, z)
    ensures Sized3(F, a) && Rep6(F, Embed3(F, a), EmbedPoly(x, y, z))
  {
    hide Cong, KZero;
    EtaPairing.RepConstants(F);
  }

  lemma {:induction false} EvEmbed(x: Poly, y: Poly, z: Poly, X: int)
    ensures Ev6(EmbedPoly(x, y, z), X) == Z6(Z2(Ev(x, X), 0), Z2(Ev(y, X), 0), Z2(Ev(z, X), 0))
  {
    hide Ev;
    EvConst(0, X);
  }

  lemma {:induction false} RealProduct(a: int, b: int, c: int, x: int, y: int, z: int)
    ensures YMul(Z6(Z2(a, 0), Z2(b, 0), Z2(c, 0)), Z6(Z2(x, 0), Z2(y, 0), Z2(z, 0))) ==
      Z6(Z2(a * x + (b * z + c * y), 0), Z2(a * y + b * x + (b * z + c * y + c * z), 0), Z2(a * z + b * y + (c * x + c * z), 0))
  {
    hide ZMul;
    TernaryCubes.ZReals(a, x);
    TernaryCubes.ZReals(a, y);
    TernaryCubes.ZReals(a, z);
    TernaryCubes.ZReals(b, x);
    TernaryCubes.ZReals(b, y);
    TernaryCubes.ZReals(b, z);
    TernaryCubes.ZReals(c, x);
    TernaryCubes.ZReals(c, y);
    TernaryCubes.ZReals(c, z);
  }

  ghost function PlainPoly(a: K3, b: K3): K6
  {
    EmbedPoly(PAdd(PMul(a.c0, b.c0), PAdd(PMul(a.c1, b.c2), PMul(a.c2, b.c1))),
      PAdd(PAdd(PMul(a.c0, b.c1), PMul(a.c1, b.c0)), PAdd(PAdd(PMul(a.c1, b.c2), PMul(a.c2, b.c1)), PMul(a.c2, b.c2))),
      PAdd(PAdd(PMul(a.c0, b.c2), PMul(a.c1, b.c1)), PAdd(PMul(a.c2, b.c0), PMul(a.c2, b.c2))))
  }

  lemma {:induction false} EvPlain(a: K3, b: K3, X: int)
    ensures Ev6(PlainPoly(a, b), X) == YMul(Ev6(EmbedPoly(a.c0, a.c1, a.c2), X), Ev6(EmbedPoly(b.c0, b.c1, b.c2), X))
  {
    hide Ev, PMul, PAdd, YMul;
    EvEmbed(a.c0, a.c1, a.c2, X);
    EvEmbed(b.c0, b.c1, b.c2, X);
    var p, q, r := PAdd(PMul(a.c0, b.c0), PAdd(PMul(a.c1, b.c2), PMul(a.c2, b.c1))),
      PAdd(PAdd(PMul(a.c0, b.c1), PMul(a.c1, b.c0)), PAdd(PAdd(PMul(a.c1, b.c2), PMul(a.c2, b.c1)), PMul(a.c2, b.c2))),
      PAdd(PAdd(PMul(a.c0, b.c2), PMul(a.c1, b.c1)), PAdd(PMul(a.c2, b.c0), PMul(a.c2, b.c2)));
    EvEmbed(p, q, r, X);
    hide EmbedPoly, Ev6;
    NineValues(a, b, X);
    SumsOfNine(a, b, X);
    RealProduct(Ev(a.c0, X), Ev(a.c1, X), Ev(a.c2, X), Ev(b.c0, X), Ev(b.c1, X), Ev(b.c2, X));
  }

  lemma NineValues(a: K3, b: K3, X: int)
    ensures Ev(PMul(a.c0, b.c0), X) == Ev(a.c0, X) * Ev(b.c0, X) && Ev(PMul(a.c0, b.c1), X) == Ev(a.c0, X) * Ev(b.c1, X)
    ensures Ev(PMul(a.c0, b.c2), X) == Ev(a.c0, X) * Ev(b.c2, X) && Ev(PMul(a.c1, b.c0), X) == Ev(a.c1, X) * Ev(b.c0, X)
    ensures Ev(PMul(a.c1, b.c1), X) == Ev(a.c1, X) * Ev(b.c1, X) && Ev(PMul(a.c1, b.c2), X) == Ev(a.c1, X) * Ev(b.c2, X)
    ensures Ev(PMul(a.c2, b.c0), X) == Ev(a.c2, X) * Ev(b.c0, X) && Ev(PMul(a.c2, b.c1), X) == Ev(a.c2, X) * Ev(b.c1, X)
    ensures Ev(PMul(a.c2, b.c2), X) == Ev(a.c2, X) * Ev(b.c2, X)
  {
    hide *;
    EvMul(a.c0, b.c0, X);
    EvMul(a.c0, b.c1, X);
    EvMul(a.c0, b.c2, X);
    EvMul(a.c1, b.c0, X);
    EvMul(a.c1, b.c1, X);
    EvMul(a.c1, b.c2, X);
    EvMul(a.c2, b.c0, X);
    EvMul(a.c2, b.c1, X);
    EvMul(a.c2, b.c2, X);
  }

  lemma SumsOfNine(a: K3, b: K3, X: int)
    ensures Ev(PAdd(PMul(a.c0, b.c0), PAdd(PMul(a.c1, b.c2), PMul(a.c2, b.c1))), X) ==
      Ev(PMul(a.c0, b.c0), X) + (Ev(PMul(a.c1, b.c2), X) + Ev(PMul(a.c2, b.c1), X))
    ensures Ev(PAdd(PAdd(PMul(a.c0, b.c1), PMul(a.c1, b.c0)), PAdd(PAdd(PMul(a.c1, b.c2), PMul(a.c2, b.c1)), PMul(a.c2, b.c2))), X) ==
      Ev(PMul(a.c0, b.c1), X) + Ev(PMul(a.c1, b.c0), X) + (Ev(PMul(a.c1, b.c2), X) + Ev(PMul(a.c2, b.c1), X) + Ev(PMul(a.c2, b.c2), X))
    ensures Ev(PAdd(PAdd(PMul(a.c0, b.c2), PMul(a.c1, b.c1)), PAdd(PMul(a.c2, b.c0), PMul(a.c2, b.c2))), X) ==
      Ev(PMul(a.c0, b.c2), X) + Ev(PMul(a.c1, b.c1), X) + (Ev(PMul(a.c2, b.c0), X) + Ev(PMul(a.c2, b.c2), X))
  {
    hide *;
    EvAdd(PMul(a.c1, b.c2), PMul(a.c2, b.c1), X);
    EvAdd(PMul(a.c0, b.c0), PAdd(PMul(a.c1, b.c2), PMul(a.c2, b.c1)), X);
    EvAdd(PMul(a.c0, b.c1), PMul(a.c1, b.c0), X);
    EvAdd(PAdd(PMul(a.c1, b.c2), PMul(a.c2, b.c1)), PMul(a.c2, b.c2), X);
    EvAdd(PAdd(PMul(a.c0, b.c1), PMul(a.c1, b.c0)), PAdd(PAdd(PMul(a.c1, b.c2), PMul(a.c2, b.c1)), PMul(a.c2, b.c2)), X);
    EvAdd(PMul(a.c0, b.c2), PMul(a.c1, b.c1), X);
    EvAdd(PMul(a.c2, b.c0), PMul(a.c2, b.c2), X);
    EvAdd(PAdd(PMul(a.c0, b.c2), PMul(a.c1, b.c1)), PAdd(PMul(a.c2, b.c0), PMul(a.c2, b.c2)), X);
  }

  lemma {:induction false} RepPlain(F: Field, a: K3, b: K3)
    requires Good(F) && InK3(F, a) && InK3(F, b)
    ensures Sized3(F, a) && Sized3(F, b) && Rep6(F, Embed3(F, Plain3(F, a, b)), PlainPoly(a, b))
  {
    hide Rep, InK, KMul, KAdd, PMul, PAdd, KZero;
    RepSelf(F, a.c0);
    RepSelf(F, a.c1);
    RepSelf(F, a.c2);
    RepSelf(F, b.c0);
    RepSelf(F, b.c1);
    RepSelf(F, b.c2);
    RepMul(F, a.c0, a.c0, b.c0, b.c0);
    RepMul(F, a.c0, a.c0, b.c1, b.c1);
    RepMul(F, a.c0, a.c0, b.c2, b.c2);
    RepMul(F, a.c1, a.c1, b.c0, b.c0);
    RepMul(F, a.c1, a.c1, b.c1, b.c1);
    RepMul(F, a.c1, a.c1, b.c2, b.c2);
    RepMul(F, a.c2, a.c2, b.c0, b.c0);
    RepMul(F, a.c2, a.c2, b.c1, b.c1);
    RepMul(F, a.c2, a.c2, b.c2, b.c2);
    LengthsOf(F, a, b);
    var m12, m21, m22 := KMul(F, a.c1, b.c2), KMul(F, a.c2, b.c1), KMul(F, a.c2, b.c2);
    RepAdd(F, m12, PMul(a.c1, b.c2), m21, PMul(a.c2, b.c1));
    var s, S := KAdd(m12, m21), PAdd(PMul(a.c1, b.c2), PMul(a.c2, b.c1));
    RepAdd(F, KMul(F, a.c0, b.c0), PMul(a.c0, b.c0), s, S);
    RepAdd(F, KMul(F, a.c0, b.c1), PMul(a.c0, b.c1), KMul(F, a.c1, b.c0), PMul(a.c1, b.c0));
    RepAdd(F, s, S, m22, PMul(a.c2, b.c2));
    RepAdd(F, KAdd(KMul(F, a.c0, b.c1), KMul(F, a.c1, b.c0)), PAdd(PMul(a.c0, b.c1), PMul(a.c1, b.c0)), KAdd(s, m22), PAdd(S, PMul(a.c2, b.c2)));
    RepAdd(F, KMul(F, a.c0, b.c2), PMul(a.c0, b.c2), KMul(F, a.c1, b.c1), PMul(a.c1, b.c1));
    RepAdd(F, KMul(F, a.c2, b.c0), PMul(a.c2, b.c0), m22, PMul(a.c2, b.c2));
    RepAdd(F, KAdd(KMul(F, a.c0, b.c2), KMul(F, a.c1, b.c1)), PAdd(PMul(a.c0, b.c2), PMul(a.c1, b.c1)),
      KAdd(KMul(F, a.c2, b.c0), m22), PAdd(PMul(a.c2, b.c0), PMul(a.c2, b.c2)));
    var r := Plain3(F, a, b);
    RepEmbed(F, r, PAdd(PMul(a.c0, b.c0), S), PAdd(PAdd(PMul(a.c0, b.c1), PMul(a.c1, b.c0)), PAdd(S, PMul(a.c2, b.c2))),
      PAdd(PAdd(PMul(a.c0, b.c2), PMul(a.c1, b.c1)), PAdd(PMul(a.c2, b.c0), PMul(a.c2, b.c2))));
  }

  lemma LengthsOf(F: Field, a: K3, b: K3)
    requires Good(F) && InK3(F, a) && InK3(F, b)
    ensures Sized3(F, a) && Sized3(F, b)
  {
  }

  // The product of GF(3^3m) is that of GF(3^6m).
  lemma {:induction false} EmbedMult(F: Field, a: K3, b: K3)
    requires Good(F) && InK3(F, a) && InK3(F, b)
    ensures Sized3(F, a) && Sized3(F, b) && InK3(F, Mult3(F, a, b))
    ensures Gf33mMult(F, Embed3(F, a), Embed3(F, b)) == Embed3(F, Mult3(F, a, b))
  {
    hide *;
    LengthsOf(F, a, b);
    Mult3Is(F, a, b);
    RepPlain(F, a, b);
    EmbedSelf(F, a);
    EmbedSelf(F, b);
    var L, N := EmbedPoly(a.c0, a.c1, a.c2), EmbedPoly(b.c0, b.c1, b.c2);
    Rep6Product(F, Embed3(F, a), L, Embed3(F, b), N);
    forall X ensures Ev6(TMul(L, N), X) == Ev6(PlainPoly(a, b), X) {
      EvTMul(L, N, X);
      EvPlain(a, b, X);
    }
    Rep6Equal(F, Gf33mMult(F, Embed3(F, a), Embed3(F, b)), TMul(L, N), Embed3(F, Plain3(F, a, b)), PlainPoly(a, b));
  }

  lemma {:induction false} EmbedSelf(F: Field, a: K3)
    requires Good(F) && InK3(F, a)
    ensures Sized3(F, a) && Rep6(F, Embed3(F, a), EmbedPoly(a.c0, a.c1, a.c2)) && InK6(F, Embed3(F, a))
  {
    hide Rep, InK, KZero;
    RepSelf(F, a.c0);
    RepSelf(F, a.c1);
    RepSelf(F, a.c2);
    RepEmbed(F, a, a.c0, a.c1, a.c2);
    Rep6In(F, Embed3(F, a), EmbedPoly(a.c0, a.c1, a.c2));
  }

  lemma {:induction false} Mult3Associates(F: Field, a: K3, b: K3, c: K3)
    requires Good(F) && InK3(F, a) && InK3(F, b) && InK3(F, c)
    ensures Sized3(F, a) && Sized3(F, b) && Sized3(F, c) && Mult3(F, Mult3(F, a, b), c) == Mult3(F, a, Mult3(F, b, c))
  {
    hide *;
    EmbedMult(F, a, b);
    EmbedMult(F, b, c);
    EmbedMult(F, Mult3(F, a, b), c);
    EmbedMult(F, a, Mult3(F, b, c));
    EmbedSelf(F, a);
    EmbedSelf(F, b);
    EmbedSelf(F, c);
    MultAssociates(F, Embed3(F, a), Embed3(F, b), Embed3(F, c));
    EmbedInjective(F, Mult3(F, Mult3(F, a, b), c), Mult3(F, a, Mult3(F, b, c)));
  }

  lemma EmbedInjective(F: Field, a: K3, b: K3)
    requires Sized3(F, a) && Sized3(F, b) && Embed3(F, a) == Embed3(F, b)
    ensures a == b
  {
  }

  lemma {:induction false} Mult3Commutes(F: Field, a: K3, b: K3)
    requires Good(F) && InK3(F, a) && InK3(F, b)
    ensures Sized3(F, a) && Sized3(F, b) && Mult3(F, a, b) == Mult3(F, b, a) && InK3(F, Mult3(F, a, b))
  {
    hide *;
    EmbedMult(F, a, b);
    EmbedMult(F, b, a);
    EmbedSelf(F, a);
    EmbedSelf(F, b);
    MultCommutes(F, Embed3(F, a), Embed3(F, b));
    EmbedInjective(F, Mult3(F, a, b), Mult3(F, b, a));
  }

  // A factor from GF(3^m).
  function Scalar(F: Field, d: Poly): K3
  {
    K3(d, KZero(F), KZero(F))
  }

  lemma {:induction false} ScalarIn(F: Field, d: Poly)
    requires Good(F) && InK(F, d)
    ensures InK3(F, Scalar(F, d)) && Sized3(F, Scalar(F, d)) && InK(F, KZero(F))
  {
    hide InK, KZero;
    KUnits(F, d);
  }

  lemma {:induction false} TimesScalar(F: Field, b: K3, d: Poly)
    requires Good(F) && InK3(F, b) && InK(F, d)
    ensures Sized3(F, b) && Sized3(F, Scalar(F, d))
    ensures Mult3(F, b, Scalar(F, d)) == K3(KMul(F, b.c0, d), KMul(F, b.c1, d), KMul(F, b.c2, d))
  {
    hide InK, KMul, KAdd, KZero;
    ScalarIn(F, d);
    Mult3Is(F, b, Scalar(F, d));
    ScalarParts(F, b.c0, b.c1, b.c2, d);
  }

  lemma {:induction false} ScalarParts(F: Field, b0: Poly, b1: Poly, b2: Poly, d: Poly)
    requires Good(F) && InK(F, b0) && InK(F, b1) && InK(F, b2) && InK(F, d)
    ensures |b0| == |b1| == |b2| == |d| == F.m > 0
    ensures Plain3(F, K3(b0, b1, b2), Scalar(F, d)) == K3(KMul(F, b0, d), KMul(F, b1, d), KMul(F, b2, d))
  {
    hide InK, KMul, KAdd, KSub, KScale, KOne, KZero;
    var e := [b0, b1, b2, d];
    HoldsInField(F, Sum(Prod(Var(0), Var(3)), Sum(Prod(Var(1), Var(4)), Prod(Var(2), Var(4)))), Prod(Var(0), Var(3)), Null, e);
    HoldsInField(F, Sum(Sum(Prod(Var(0), Var(4)), Prod(Var(1), Var(3))), Sum(Sum(Prod(Var(1), Var(4)), Prod(Var(2), Var(4))), Prod(Var(2), Var(4)))),
      Prod(Var(1), Var(3)), Null, e);
    HoldsInField(F, Sum(Sum(Prod(Var(0), Var(4)), Prod(Var(1), Var(4))), Sum(Prod(Var(2), Var(3)), Prod(Var(2), Var(4)))), Prod(Var(2), Var(3)), Null, e);
  }

  lemma {:induction false} Zero3Times(F: Field, b: K3)
    requires Good(F) && InK3(F, b)
    ensures F.m > 0 && Sized3(F, b) && Sized3(F, Zero3(F)) && InK3(F, Zero3(F)) && Mult3(F, Zero3(F), b) == Zero3(F) && Mult3(F, b, Zero3(F)) == Zero3(F)
  {
    hide InK, KMul, KAdd, KZero, Mult3;
    KUnits(F, b.c0);
    KUnits(F, b.c1);
    KUnits(F, b.c2);
    KCommutes(F, b.c0, KZero(F));
    KCommutes(F, b.c1, KZero(F));
    KCommutes(F, b.c2, KZero(F));
    TimesScalar(F, b, KZero(F));
    ScalarIn(F, KZero(F));
    Mult3Commutes(F, b, Zero3(F));
  }

  // Scaling by a nonzero element of GF(3^m) loses nothing.
  lemma {:induction false} ScalarCancels(F: Field, b: K3, d: Poly)
    requires IsField(F) && InK3(F, b) && InK(F, d) && d != KZero(F)
    requires Sized3(F, b) && Sized3(F, Scalar(F, d)) ==> Mult3(F, b, Scalar(F, d)) == Zero3(F)
    ensures b == Zero3(F)
  {
    hide IsField, InK, KMul, KZero, Mult3;
    IsGood(F);
    TimesScalar(F, b, d);
    if b.c0 != KZero(F) { ProductNonzero(F, b.c0, d); }
    if b.c1 != KZero(F) { ProductNonzero(F, b.c1, d); }
    if b.c2 != KZero(F) { ProductNonzero(F, b.c2, d); }
  }

  // The norm of every nonzero element is nonzero.
  lemma {:induction false} DeltaNonzero(F: Field, a: K3)
    requires IsField(F) && F.m % 3 != 0 && InK3(F, a) && a != Zero3(F)
    ensures Sized3(F, a) && InK(F, Delta(F, a)) && Delta(F, a) != KZero(F)
  {
    hide IsField, InK, KNeg, KZero, Delta, Mult3, Adjoint, Form, RestLow, RestHigh;
    IsGood(F);
    AdjointTimes(F, a);
    if a.c2 == KZero(F) {
      LinearDelta(F, a.c0, a.c1);
    } else if Delta(F, a) == KZero(F) {
      QuadraticTimes(F, a);
      RestNonzero(F, a);
      var b := K3(KNeg(a.c1), a.c2, KZero(F));
      var l := K3(RestLow(F, a), RestHigh(F, a), KZero(F));
      LinearDelta(F, RestLow(F, a), RestHigh(F, a));
      AnnihilatedByLinear(F, a, b, l, Adjoint(F, a));
      NegZero(F);
    }
  }

  lemma {:induction false} LinearDelta(F: Field, x: Poly, y: Poly)
    requires IsField(F) && F.m % 3 != 0 && InK(F, x) && InK(F, y) && (x != KZero(F) || y != KZero(F))
    ensures |x| == |y| == F.m > 0 && Delta(F, K3(x, y, KZero(F))) != KZero(F)
  {
    hide IsField, InK, KNeg, KZero, Delta, Form;
    IsGood(F);
    LinearNorm(F, x, y);
    EtaPairing.KClosed(F, y, y);
    NegTwice(F, y);
    NegZero(F);
    FormNonzero(F, x, KNeg(y));
  }

  // a*c = 0 and a*b = l linear with nonzero norm: c = 0.
  lemma {:induction false} AnnihilatedByLinear(F: Field, a: K3, b: K3, l: K3, c: K3)
    requires IsField(F) && InK3(F, a) && InK3(F, b) && InK3(F, l) && InK3(F, c)
    requires Sized3(F, a) && Sized3(F, b) && Sized3(F, l) && Sized3(F, c)
    requires Mult3(F, a, c) == Zero3(F) && Mult3(F, a, b) == l && Delta(F, l) != KZero(F)
    ensures c == Zero3(F)
  {
    hide *;
    IsGood(F);
    Mult3Associates(F, b, a, c);
    Mult3Commutes(F, a, b);
    Zero3Times(F, b);
    var j := Adjoint(F, l);
    AdjointTimes(F, l);
    Mult3Associates(F, j, l, c);
    Mult3Commutes(F, l, j);
    Zero3Times(F, j);
    var d := Delta(F, l);
    ScalarIn(F, d);
    ScalarIs(F, d);
    Mult3Commutes(F, Scalar(F, d), c);
    ScalarCancels(F, c, d);
  }

  lemma ScalarIs(F: Field, d: Poly)
    ensures Scalar(F, d) == K3(d, KZero(F), KZero(F)) && Scalar(F, KOne(F)) == One3(F) && Scalar(F, KZero(F)) == Zero3(F)
  {
  }

  // ---------------------------------------------------------------- inverses

  // gf3m_invert, as a power.
  function KInv(F: Field, a: Poly): (r: Poly)
    requires |a| == F.m > 0
    ensures |r| == F.m
  {
    KPow(F, a, if Size(F) >= 2 then Size(F) - 2 else 0)
  }

  lemma {:induction false} KInvIs(F: Field, a: Poly)
    requires IsField(F) && InK(F, a) && a != KZero(F)
    ensures |a| == F.m > 0 && InK(F, KInv(F, a)) && KMul(F, a, KInv(F, a)) == KOne(F)
  {
    hide IsField, InK, KMul, KZero, KOne, KPow, Size;
    IsGood(F);
    UnitPower(F, a);
    ManyElements(F);
    KPowUnfolds(F, a, Size(F) - 1);
    KPowIn(F, a, Size(F) - 2);
  }

  // gf3m_invert on words computes it.
  lemma {:induction false} WordsInvert(F: Field, e: seq<TernaryWords.Word>, a: seq<TernaryWords.Word>, len: nat)
    requires IsField(F) && TernaryField.Elt(e, len, F.m) && TernaryField.Elt(a, len, F.m)
    requires TernaryInverse.IsInverse(TernaryElements.Digits(e, len), TernaryElements.Digits(a, len), F.m, F.t)
    ensures |Denoted(a, len, F.m)| == F.m > 0 && Denoted(e, len, F.m) == KInv(F, Denoted(a, len, F.m))
  {
    hide Cong, Ev, TernaryElements.Digit, TernaryElements.Digits, Denoted, KMul, KInv, PMul, TernaryField.Trinomial, TernaryInverse.IsInverse, IsField, KOne, KZero, Rep;
    IsGood(F);
    var A, E := TernaryElements.Digits(a, len), TernaryElements.Digits(e, len);
    var x, y := Denoted(a, len, F.m), Denoted(e, len, F.m);
    CongItself(F, A);
    CongItself(F, E);
    DenotedRep(F, a, len, A);
    DenotedRep(F, e, len, E);
    EtaPairing.RepIn(F, x, A);
    EtaPairing.RepIn(F, y, E);
    EtaPairing.RepConstants(F);
    KUnits(F, x);
    RepMul(F, x, A, y, E);
    InverseMeans(F, A, E);
    RepCong(F, KMul(F, x, y), PMul(A, E), KOne(F), [1]);
    KUnits(F, y);
    OneNotZero(F);
    KInvIs(F, x);
    CancelFactor(F, x, y, KInv(F, x));
  }

  lemma CongItself(F: Field, f: Poly)
    ensures Cong(3, Modulus(F), f, f)
  {
    hide Modulus, Cong;
    CongSame(3, Modulus(F), f, f);
  }

  lemma InverseMeans(F: Field, A: Poly, E: Poly)
    ensures TernaryInverse.IsInverse(E, A, F.m, F.t) <==> Cong(3, Modulus(F), PMul(A, E), [1])
  {
    hide Cong, TernaryField.Trinomial, PMul;
  }

  lemma OneNotZero(F: Field)
    requires F.m > 0
    ensures KOne(F) != KZero(F)
  {
    assert KOne(F)[0] != KZero(F)[0];
  }

  lemma ManyElements(F: Field)
    requires Good(F)
    ensures Size(F) >= 2
  {
    PowPositive(3, F.m - 1);
  }

  // gf33m_invert over GF(3^m).
  function Invert3(F: Field, a: K3): (e: K3)
    requires Sized3(F, a)
    ensures Sized3(F, e)
  {
    var delta := KInv(F, Delta(F, a));
    var c := Adjoint(F, a);
    K3(KMul(F, c.c0, delta), KMul(F, c.c1, delta), KMul(F, c.c2, delta))
  }

  // Every nonzero element times what the routine returns is 1.
  lemma {:induction false} Invert3Is(F: Field, a: K3)
    requires IsField(F) && F.m % 3 != 0 && InK3(F, a) && a != Zero3(F)
    ensures Sized3(F, a) && InK3(F, Invert3(F, a)) && Mult3(F, a, Invert3(F, a)) == One3(F)
  {
    hide *;
    IsGood(F);
    DeltaNonzero(F, a);
    var d := Delta(F, a);
    KInvIs(F, d);
    var i := KInv(F, d);
    AdjointTimes(F, a);
    var c := Adjoint(F, a);
    ScalarIn(F, i);
    ScalarIn(F, d);
    ScalarIs(F, d);
    TimesScalar(F, c, i);
    TimesScalar(F, Scalar(F, d), i);
    Invert3Unfolds(F, a);
    Mult3Commutes(F, c, Scalar(F, i));
    Mult3Associates(F, a, c, Scalar(F, i));
    KUnits(F, i);
    ScalarIs(F, KOne(F));
  }

  lemma Invert3Unfolds(F: Field, a: K3)
    requires Sized3(F, a)
    ensures var i, c := KInv(F, Delta(F, a)), Adjoint(F, a); Invert3(F, a) == K3(KMul(F, c.c0, i), KMul(F, c.c1, i), KMul(F, c.c2, i))
  {
  }
}
