// Polynomial identities over GF(3^m) and GF(3^6m) by reflection: an identity of integer expressions up to a
// multiple of three holds for all elements of the field.
module TernaryIdentities {
  import opened Arith
  import opened Polynomials
  import opened PolynomialDivision
  import opened TernaryField
  import opened TernaryTower
  import opened TernaryCubes
  import EtaPairing

  datatype Ex = Var(i: nat) | One | Sum(x: Ex, y: Ex) | Dif(x: Ex, y: Ex) | Prod(x: Ex, y: Ex) | Times(n: int, x: Ex)

  // The value over the integers.
  function ZEval(x: Ex, e: seq<int>): int
    decreases x
  {
    match x
    case Var(i) => if i < |e| then e[i] else 0
    case One => 1
    case Sum(y, z) => ZEval(y, e) + ZEval(z, e)
    case Dif(y, z) => ZEval(y, e) - ZEval(z, e)
    case Prod(y, z) => ZEval(y, e) * ZEval(z, e)
    case Times(n, y) => n * ZEval(y, e)
  }

  ghost predicate AllIn(F: Field, e: seq<Poly>)
  {
    forall i :: 0 <= i < |e| ==> InK(F, e[i])
  }

  predicate Shaped(F: Field, e: seq<Poly>)
  {
    F.m > 0 && forall i :: 0 <= i < |e| ==> |e[i]| == F.m
  }

  // The value over the field, operation by operation.
  function KEval(F: Field, x: Ex, e: seq<Poly>): (r: Poly)
    requires Shaped(F, e)
    ensures |r| == F.m
    decreases x
  {
    match x
    case Var(i) => if i < |e| then e[i] else KZero(F)
    case One => KOne(F)
    case Sum(y, z) => KAdd(KEval(F, y, e), KEval(F, z, e))
    case Dif(y, z) => KSub(KEval(F, y, e), KEval(F, z, e))
    case Prod(y, z) => KMul(F, KEval(F, y, e), KEval(F, z, e))
    case Times(n, y) => KScale(n, KEval(F, y, e))
  }

  // The polynomial the value represents.
  ghost function PEval(x: Ex, e: seq<Poly>): Poly
    decreases x
  {
    match x
    case Var(i) => if i < |e| then e[i] else []
    case One => [1]
    case Sum(y, z) => PAdd(PEval(y, e), PEval(z, e))
    case Dif(y, z) => PSub(PEval(y, e), PEval(z, e))
    case Prod(y, z) => PMul(PEval(y, e), PEval(z, e))
    case Times(n, y) => PScale(n, PEval(y, e))
  }

  function Values(e: seq<Poly>, X: int): (v: seq<int>)
    ensures |v| == |e| && forall i :: 0 <= i < |e| ==> v[i] == Ev(e[i], X)
  {
    seq(|e|, i requires 0 <= i < |e| => Ev(e[i], X))
  }

  lemma {:induction false} EvalRep(F: Field, x: Ex, e: seq<Poly>)
    requires Good(F) && AllIn(F, e)
    ensures Shaped(F, e) && Rep(F, KEval(F, x, e), PEval(x, e))
    decreases x
  {
    hide Cong, PAdd, PSub, PMul, PScale, KAdd, KSub, KMul, KScale, KZero, KOne;
    match x
    case Var(i) =>
      if i < |e| { RepSelf(F, e[i]); } else { EtaPairing.RepConstants(F); }
    case One =>
      EtaPairing.RepConstants(F);
    case Sum(y, z) =>
      EvalRep(F, y, e);
      EvalRep(F, z, e);
      RepAdd(F, KEval(F, y, e), PEval(y, e), KEval(F, z, e), PEval(z, e));
    case Dif(y, z) =>
      EvalRep(F, y, e);
      EvalRep(F, z, e);
      RepSub(F, KEval(F, y, e), PEval(y, e), KEval(F, z, e), PEval(z, e));
    case Prod(y, z) =>
      EvalRep(F, y, e);
      EvalRep(F, z, e);
      RepMul(F, KEval(F, y, e), PEval(y, e), KEval(F, z, e), PEval(z, e));
    case Times(n, y) =>
      EvalRep(F, y, e);
      RepScale(F, n, KEval(F, y, e), PEval(y, e));
  }

  lemma {:induction false} EvEval(x: Ex, e: seq<Poly>, X: int)
    ensures Ev(PEval(x, e), X) == ZEval(x, Values(e, X))
    decreases x
  {
    hide Ev, PAdd, PSub, PMul, PScale;
    match x
    case Var(i) =>
      EvConst(0, X);
    case One =>
      EvConst(1, X);
    case Sum(y, z) =>
      EvEval(y, e, X);
      EvEval(z, e, X);
      EvAdd(PEval(y, e), PEval(z, e), X);
    case Dif(y, z) =>
      EvEval(y, e, X);
      EvEval(z, e, X);
      EvSub(PEval(y, e), PEval(z, e), X);
    case Prod(y, z) =>
      EvEval(y, e, X);
      EvEval(z, e, X);
      EvMul(PEval(y, e), PEval(z, e), X);
    case Times(n, y) =>
      EvEval(y, e, X);
      EvScale(n, PEval(y, e), X);
  }

  // x and y differ by three times z, over the integers.
  ghost predicate SameModThree(x: Ex, y: Ex, z: Ex, n: nat)
  {
    forall e: seq<int> :: |e| == n ==> ZEval(x, e) == ZEval(y, e) + 3 * ZEval(z, e)
  }

  const Null: Ex := Times(0, One)

  lemma {:induction false} HoldsInField(F: Field, x: Ex, y: Ex, z: Ex, e: seq<Poly>)
    requires Good(F) && AllIn(F, e) && SameModThree(x, y, z, |e|)
    ensures Shaped(F, e) && KEval(F, x, e) == KEval(F, y, e) && InK(F, KEval(F, x, e))
  {
    hide ZEval, KEval, PEval, Ev;
    EvalRep(F, x, e);
    EvalRep(F, y, e);
    forall X ensures Ev(PEval(x, e), X) == Ev(PEval(y, e), X) + 3 * Ev(PEval(z, e), X) {
      EvEval(x, e, X);
      EvEval(y, e, X);
      EvEval(z, e, X);
      assert |Values(e, X)| == |e|;
    }
    RepThree(F, KEval(F, x, e), PEval(x, e), KEval(F, y, e), PEval(y, e), PEval(z, e));
  }

  // ---------------------------------------------------------------- laws of GF(3^m)

  lemma {:induction false} KAddCommutes(F: Field, a: Poly, b: Poly)
    requires Good(F) && InK(F, a) && InK(F, b)
    ensures |a| == |b| && KAdd(a, b) == KAdd(b, a)
  {
    hide InK, KMul, KAdd, KSub, KScale, KOne, KZero;
    HoldsInField(F, Sum(Var(0), Var(1)), Sum(Var(1), Var(0)), Null, [a, b]);
  }

  lemma {:induction false} KMulCommutes(F: Field, a: Poly, b: Poly)
    requires Good(F) && InK(F, a) && InK(F, b)
    ensures |a| == |b| == F.m > 0 && KMul(F, a, b) == KMul(F, b, a)
  {
    hide InK, KMul, KAdd, KSub, KScale, KOne, KZero;
    HoldsInField(F, Prod(Var(0), Var(1)), Prod(Var(1), Var(0)), Null, [a, b]);
  }

  lemma {:induction false} KCommutes(F: Field, a: Poly, b: Poly)
    requires Good(F) && InK(F, a) && InK(F, b)
    ensures |a| == |b| == F.m > 0 && KAdd(a, b) == KAdd(b, a) && KMul(F, a, b) == KMul(F, b, a)
    ensures InK(F, KAdd(a, b)) && InK(F, KMul(F, a, b)) && InK(F, KSub(a, b))
  {
    hide *;
    EtaPairing.KClosed(F, a, b);
    KAddCommutes(F, a, b);
    KMulCommutes(F, a, b);
  }

  lemma {:induction false} KOneTimes(F: Field, a: Poly)
    requires Good(F) && InK(F, a)
    ensures |a| == F.m > 0 && KMul(F, KOne(F), a) == a
  {
    hide InK, KMul, KAdd, KSub, KScale, KOne, KZero;
    HoldsInField(F, Prod(One, Var(0)), Var(0), Null, [a]);
  }

  lemma {:induction false} KZeroTimes(F: Field, a: Poly)
    requires Good(F) && InK(F, a)
    ensures |a| == F.m > 0 && KMul(F, KZero(F), a) == KZero(F)
  {
    hide InK, KMul, KAdd, KSub, KScale, KOne, KZero;
    HoldsInField(F, Prod(Var(1), Var(0)), Var(1), Null, [a]);
  }

  lemma {:induction false} KZeroPlus(F: Field, a: Poly)
    requires Good(F) && InK(F, a)
    ensures |a| == F.m && KAdd(KZero(F), a) == a && KSub(a, a) == KZero(F)
  {
    hide InK, KMul, KAdd, KSub, KScale, KOne, KZero;
    HoldsInField(F, Sum(Var(1), Var(0)), Var(0), Null, [a]);
    HoldsInField(F, Dif(Var(0), Var(0)), Var(1), Null, [a]);
  }

  lemma {:induction false} KUnits(F: Field, a: Poly)
    requires Good(F) && InK(F, a)
    ensures |a| == F.m > 0 && InK(F, KOne(F)) && InK(F, KZero(F))
    ensures KMul(F, KOne(F), a) == a && KMul(F, KZero(F), a) == KZero(F) && KAdd(KZero(F), a) == a && KSub(a, a) == KZero(F)
  {
    hide *;
    EtaPairing.KClosed(F, a, a);
    KOneTimes(F, a);
    KZeroTimes(F, a);
    KZeroPlus(F, a);
  }

  lemma {:induction false} KMulAssociates(F: Field, a: Poly, b: Poly, c: Poly)
    requires Good(F) && InK(F, a) && InK(F, b) && InK(F, c)
    ensures |a| == |b| == |c| == F.m > 0 && KMul(F, KMul(F, a, b), c) == KMul(F, a, KMul(F, b, c))
  {
    hide InK, KMul, KAdd, KSub, KScale, KOne, KZero;
    HoldsInField(F, Prod(Prod(Var(0), Var(1)), Var(2)), Prod(Var(0), Prod(Var(1), Var(2))), Null, [a, b, c]);
  }

  // Sums and differences that vanish, digit by digit.
  lemma {:induction false} DifferenceIsZero(F: Field, a: Poly, b: Poly)
    requires InK(F, a) && InK(F, b)
    ensures |a| == |b| == F.m && (KSub(a, b) == KZero(F) <==> a == b)
  {
    if KSub(a, b) == KZero(F) {
      forall i | 0 <= i < F.m ensures a[i] == b[i] { assert KSub(a, b)[i] == (a[i] + (-1 * b[i]) % 3) % 3; }
    }
  }

  lemma {:induction false} SumIsZero(F: Field, a: Poly, b: Poly)
    requires Good(F) && InK(F, a) && InK(F, b) && (|a| == |b| ==> KAdd(a, b) == KZero(F))
    ensures |b| == F.m && a == KNeg(b)
  {
    forall i | 0 <= i < F.m ensures a[i] == KNeg(b)[i] {
      assert KAdd(a, b)[i] == (a[i] + b[i]) % 3;
      assert KNeg(b)[i] == (-1 * b[i]) % 3;
    }
  }

  // ---------------------------------------------------------------- elements of GF(3^6m)

  datatype Ex6 = Ex6(a: Ex, b: Ex, c: Ex, d: Ex, f: Ex, g: Ex)

  function KEval6(F: Field, x: Ex6, e: seq<Poly>): (r: K6)
    requires Shaped(F, e)
    ensures Sized6(F, r)
  {
    K6(K2(KEval(F, x.a, e), KEval(F, x.b, e)), K2(KEval(F, x.c, e), KEval(F, x.d, e)), K2(KEval(F, x.f, e), KEval(F, x.g, e)))
  }

  function ZEval6(x: Ex6, e: seq<int>): Z6
  {
    Z6(Z2(ZEval(x.a, e), ZEval(x.b, e)), Z2(ZEval(x.c, e), ZEval(x.d, e)), Z2(ZEval(x.f, e), ZEval(x.g, e)))
  }

  ghost function PEval6(x: Ex6, e: seq<Poly>): K6
  {
    K6(K2(PEval(x.a, e), PEval(x.b, e)), K2(PEval(x.c, e), PEval(x.d, e)), K2(PEval(x.f, e), PEval(x.g, e)))
  }

  lemma {:induction false} EvalRep6(F: Field, x: Ex6, e: seq<Poly>)
    requires Good(F) && AllIn(F, e)
    ensures Shaped(F, e) && Rep6(F, KEval6(F, x, e), PEval6(x, e)) && InK6(F, KEval6(F, x, e))
  {
    hide KEval, PEval, Cong;
    EvalRep(F, x.a, e);
    EvalRep(F, x.b, e);
    EvalRep(F, x.c, e);
    EvalRep(F, x.d, e);
    EvalRep(F, x.f, e);
    EvalRep(F, x.g, e);
  }

  lemma {:induction false} EvEval6(x: Ex6, e: seq<Poly>, X: int)
    ensures Ev6(PEval6(x, e), X) == ZEval6(x, Values(e, X))
  {
    hide PEval, Ev, ZEval;
    EvEval(x.a, e, X);
    EvEval(x.b, e, X);
    EvEval(x.c, e, X);
    EvEval(x.d, e, X);
    EvEval(x.f, e, X);
    EvEval(x.g, e, X);
  }

  // A value of GF(3^6m) represented by L; its digits agree with those of N when the values differ by three times W.
  lemma {:induction false} Rep6Three(F: Field, a: K6, L: K6, b: K6, N: K6, W: K6)
    requires Good(F) && Rep6(F, a, L) && Rep6(F, b, N)
    requires forall X :: Ev6(L, X) == YAdd(Ev6(N, X), YThree(Ev6(W, X)))
    ensures a == b
  {
    hide Rep2, Ev2, ZAdd, ZThree;
    forall X ensures Ev2(L.a0, X) == ZAdd(Ev2(N.a0, X), ZThree(Ev2(W.a0, X))) && Ev2(L.a1, X) == ZAdd(Ev2(N.a1, X), ZThree(Ev2(W.a1, X)))
      && Ev2(L.a2, X) == ZAdd(Ev2(N.a2, X), ZThree(Ev2(W.a2, X))) {
      assert Ev6(L, X) == YAdd(Ev6(N, X), YThree(Ev6(W, X)));
    }
    Rep2Three(F, a.a0, L.a0, b.a0, N.a0, W.a0);
    Rep2Three(F, a.a1, L.a1, b.a1, N.a1, W.a1);
    Rep2Three(F, a.a2, L.a2, b.a2, N.a2, W.a2);
  }
}
