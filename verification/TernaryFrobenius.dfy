// Powers in GF(3^m) and GF(3^6m), and what iterated cubing does: 3m cubings conjugate.
module TernaryFrobenius {
  import opened Arith
  import opened Polynomials
  import opened TernaryTower
  import opened TernaryIdentities
  import opened TernaryFermat
  import EtaPairing
  import TernaryCubes

  // ---------------------------------------------------------------- powers in GF(3^m)

  lemma {:induction false} KPowSum(F: Field, a: Poly, i: nat, j: nat)
    requires Good(F) && InK(F, a)
    ensures |a| == F.m > 0 && KPow(F, a, i + j) == KMul(F, KPow(F, a, i), KPow(F, a, j))
  {
    hide *;
    KUnits(F, a);
    KPowIn(F, a, j);
    KPowUnfolds(F, a, i);
    KPowUnfolds(F, a, i + j);
    if i == 0 {
      KUnits(F, KPow(F, a, j));
    } else {
      KPowSum(F, a, i - 1, j);
      KPowIn(F, a, i - 1);
      KMulAssociates(F, a, KPow(F, a, i - 1), KPow(F, a, j));
    }
  }

  // k cubings
  function KIterate(F: Field, a: Poly, k: nat): (r: Poly)
    requires |a| == F.m > 0
    ensures |r| == F.m
  {
    if k == 0 then a else KCube(F, KIterate(F, a, k - 1))
  }

  lemma {:induction false} KIterateIsPower(F: Field, a: Poly, k: nat)
    requires Good(F) && InK(F, a)
    ensures |a| == F.m > 0 && Pow(3, k) >= 1 && InK(F, KIterate(F, a, k)) && KIterate(F, a, k) == KPow(F, a, Pow(3, k))
  {
    hide KMul, KOne, InK, KPow;
    KUnits(F, a);
    PowPositive(3, k);
    if k == 0 {
      KPowUnfolds(F, a, 1);
      KCommutes(F, a, KOne(F));
    } else {
      KIterateIsPower(F, a, k - 1);
      var n := Pow(3, k - 1);
      KPowSum(F, a, n, n);
      KPowSum(F, a, n, 2 * n);
      KPowIn(F, a, 3 * n);
      CubeIs(F, KPow(F, a, n));
    }
  }

  lemma CubeIs(F: Field, a: Poly)
    requires |a| == F.m > 0
    ensures KCube(F, a) == KMul(F, a, KMul(F, a, a))
  {
  }

  // m cubings change nothing.
  lemma {:induction false} FullCircle(F: Field, a: Poly)
    requires IsField(F) && InK(F, a)
    ensures |a| == F.m > 0 && KIterate(F, a, F.m) == a
  {
    hide *;
    IsGood(F);
    KIterateIsPower(F, a, F.m);
    Fermat(F, a);
    SizeIs(F);
  }

  lemma SizeIs(F: Field)
    ensures Size(F) == Pow(3, F.m)
  {
  }

  // ---------------------------------------------------------------- powers in GF(3^6m)

  function One6(F: Field): (r: K6)
    requires F.m > 0
    ensures Sized6(F, r)
  {
    K6(K2(KOne(F), KZero(F)), K2(KZero(F), KZero(F)), K2(KZero(F), KZero(F)))
  }

  // The conjugate: s goes to -s.
  function Conj6(F: Field, a: K6): (r: K6)
    requires Sized6(F, a)
    ensures Sized6(F, r)
  {
    K6(K2(a.a0.x0, KNeg(a.a0.x1)), K2(a.a1.x0, KNeg(a.a1.x1)), K2(a.a2.x0, KNeg(a.a2.x1)))
  }

  ghost function OnePoly(): K6
  {
    K6(K2([1], []), K2([], []), K2([], []))
  }

  lemma {:induction false} RepOne6(F: Field)
    requires Good(F)
    ensures F.m > 0 && Rep6(F, One6(F), OnePoly()) && InK6(F, One6(F))
  {
    hide Rep, KOne, KZero;
    EtaPairing.RepConstants(F);
    Rep6In(F, One6(F), OnePoly());
  }

  lemma {:induction false} EvOne6(X: int)
    ensures Ev6(OnePoly(), X) == Z6(Z2(1, 0), Z2(0, 0), Z2(0, 0))
  {
    hide Ev;
    EvConst(1, X);
  }

  lemma {:induction false} YOneMul(u: Z6)
    ensures YMul(Z6(Z2(1, 0), Z2(0, 0), Z2(0, 0)), u) == u
  {
    hide ZMul, ZAdd;
    TernaryCubes.ZZero(Z2(0, 0));
    TernaryCubes.ZOne(Z2(1, 0));
  }

  lemma {:induction false} OneTimes(F: Field, a: K6)
    requires Good(F) && InK6(F, a)
    ensures F.m > 0 && Sized6(F, a) && InK6(F, One6(F)) && Gf33mMult(F, One6(F), a) == a
  {
    hide *;
    RepOne6(F);
    Rep6Self(F, a);
    Rep6Product(F, One6(F), OnePoly(), a, a);
    forall X ensures Ev6(TMul(OnePoly(), a), X) == Ev6(a, X) {
      EvTMul(OnePoly(), a, X);
      EvOne6(X);
      YOneMul(Ev6(a, X));
    }
    Rep6Equal(F, Gf33mMult(F, One6(F), a), TMul(OnePoly(), a), a, a);
  }

  lemma {:induction false} MultCommutes(F: Field, a: K6, b: K6)
    requires Good(F) && InK6(F, a) && InK6(F, b)
    ensures Sized6(F, a) && Sized6(F, b) && Gf33mMult(F, a, b) == Gf33mMult(F, b, a) && InK6(F, Gf33mMult(F, a, b))
  {
    hide *;
    Rep6Self(F, a);
    Rep6Self(F, b);
    Rep6Product(F, a, a, b, b);
    Rep6Product(F, b, b, a, a);
    forall X ensures Ev6(TMul(a, b), X) == Ev6(TMul(b, a), X) {
      EvTMul(a, b, X);
      EvTMul(b, a, X);
      TernaryCubes.YMulCommutes(Ev6(a, X), Ev6(b, X));
    }
    Rep6Equal(F, Gf33mMult(F, a, b), TMul(a, b), Gf33mMult(F, b, a), TMul(b, a));
    Rep6In(F, Gf33mMult(F, a, b), TMul(a, b));
  }

  function Pow6(F: Field, a: K6, n: nat): (r: K6)
    requires Sized6(F, a)
    ensures Sized6(F, r)
  {
    if n == 0 then One6(F) else Gf33mMult(F, a, Pow6(F, a, n - 1))
  }

  lemma Pow6Unfolds(F: Field, a: K6, n: nat)
    requires Sized6(F, a)
    ensures Pow6(F, a, 0) == One6(F) && (n > 0 ==> Pow6(F, a, n) == Gf33mMult(F, a, Pow6(F, a, n - 1)))
  {
  }

  lemma {:induction false} Pow6In(F: Field, a: K6, n: nat)
    requires Good(F) && InK6(F, a)
    ensures Sized6(F, a) && InK6(F, Pow6(F, a, n))
  {
    hide *;
    OneTimes(F, a);
    Pow6Unfolds(F, a, n);
    if n > 0 {
      Pow6In(F, a, n - 1);
      MultCommutes(F, a, Pow6(F, a, n - 1));
    }
  }

  lemma {:induction false} Pow6Sum(F: Field, a: K6, i: nat, j: nat)
    requires Good(F) && InK6(F, a)
    ensures Sized6(F, a) && Pow6(F, a, i + j) == Gf33mMult(F, Pow6(F, a, i), Pow6(F, a, j))
  {
    hide *;
    Pow6In(F, a, j);
    Pow6Unfolds(F, a, i);
    Pow6Unfolds(F, a, i + j);
    if i == 0 {
      OneTimes(F, Pow6(F, a, j));
    } else {
      Pow6Sum(F, a, i - 1, j);
      Pow6In(F, a, i - 1);
      MultAssociates(F, a, Pow6(F, a, i - 1), Pow6(F, a, j));
    }
  }

  lemma {:induction false} Pow6One(F: Field, a: K6)
    requires Good(F) && InK6(F, a)
    ensures Sized6(F, a) && Pow6(F, a, 1) == a
  {
    hide *;
    OneTimes(F, a);
    Pow6Unfolds(F, a, 1);
    MultCommutes(F, a, One6(F));
  }

  lemma {:induction false} Pow6Product(F: Field, a: K6, i: nat, j: nat)
    requires Good(F) && InK6(F, a)
    ensures Sized6(F, a) && i * j >= 0 && Pow6(F, Pow6(F, a, i), j) == Pow6(F, a, i * j)
  {
    hide *;
    Pow6In(F, a, i);
    Pow6Unfolds(F, Pow6(F, a, i), j);
    MulLe(0, i, j);
    if j == 0 {
      Pow6Unfolds(F, a, 0);
      assert i * 0 == 0;
    } else {
      Pow6Product(F, a, i, j - 1);
      MulLe(0, i, j - 1);
      assert i * j == i + i * (j - 1);
      Pow6Sum(F, a, i, i * (j - 1));
    }
  }

  // k cubings
  function Iterate(F: Field, a: K6, k: nat): (r: K6)
    requires Sized6(F, a)
    ensures Sized6(F, r)
  {
    if k == 0 then a else Gf33mCubic(F, Iterate(F, a, k - 1))
  }

  lemma IterateUnfolds(F: Field, a: K6, k: nat)
    requires Sized6(F, a)
    ensures Iterate(F, a, 0) == a && (k > 0 ==> Iterate(F, a, k) == Gf33mCubic(F, Iterate(F, a, k - 1)))
  {
  }

  // k cubings are the power 3^k.
  lemma {:induction false} IterateIsPower(F: Field, a: K6, k: nat)
    requires Good(F) && InK6(F, a)
    ensures Sized6(F, a) && Pow(3, k) >= 1 && InK6(F, Iterate(F, a, k)) && Iterate(F, a, k) == Pow6(F, a, Pow(3, k))
  {
    hide *;
    Pow6One(F, a);
    IterateUnfolds(F, a, k);
    PowerOfThree(k);
    if k > 0 {
      IterateIsPower(F, a, k - 1);
      var n := Pow(3, k - 1);
      TernaryCubes.CubicIsCube(F, Pow6(F, a, n));
      Pow6Sum(F, a, n, n);
      Pow6Sum(F, a, n, 2 * n);
      Pow6In(F, a, 3 * n);
    }
  }

  lemma PowerOfThree(k: nat)
    ensures Pow(3, k) >= 1 && Pow(3, 0) == 1 && (k > 0 ==> Pow(3, k) == 3 * Pow(3, k - 1) && Pow(3, k - 1) >= 1)
  {
    PowPositive(3, k);
    if k > 0 { PowPositive(3, k - 1); }
  }

  // ---------------------------------------------------------------- cubing is a substitution after cubing coefficients

  // p goes to p + 1 and s to -s.
  function Substitute(F: Field, a: K6): (r: K6)
    requires Sized6(F, a)
    ensures Sized6(F, r)
  {
    var c := Conj6(F, a);
    K6(Gf32mAdd(F, Gf32mAdd(F, c.a0, c.a1), c.a2), Gf32mSub(F, c.a1, c.a2), c.a2)
  }

  function CubeEach(F: Field, a: K6): (r: K6)
    requires Sized6(F, a)
    ensures Sized6(F, r)
  {
    K6(K2(KCube(F, a.a0.x0), KCube(F, a.a0.x1)), K2(KCube(F, a.a1.x0), KCube(F, a.a1.x1)), K2(KCube(F, a.a2.x0), KCube(F, a.a2.x1)))
  }

  lemma {:induction false} CubicSplits(F: Field, a: K6)
    requires Sized6(F, a)
    ensures Gf33mCubic(F, a) == Substitute(F, CubeEach(F, a))
  {
    hide KCube, Gf32mAdd, Gf32mSub, KNeg;
  }

  lemma {:induction false} KCubeLinear(F: Field, a: Poly, b: Poly)
    requires Good(F) && InK(F, a) && InK(F, b)
    ensures |a| == |b| == F.m > 0
    ensures KCube(F, KAdd(a, b)) == KAdd(KCube(F, a), KCube(F, b)) && KCube(F, KSub(a, b)) == KSub(KCube(F, a), KCube(F, b))
    ensures KCube(F, KNeg(a)) == KNeg(KCube(F, a)) && InK(F, KCube(F, a))
  {
    hide *;
    EtaPairing.KClosed(F, a, b);
    CubeOfSum(F, a, b);
    CubeOfDifference(F, a, b);
    CubeOfNegation(F, a);
  }

  lemma {:induction false} CubeOfNegation(F: Field, a: Poly)
    requires Good(F) && InK(F, a)
    ensures |a| == F.m > 0 && KCube(F, KNeg(a)) == KNeg(KCube(F, a))
  {
    hide InK, KMul, KAdd, KSub, KScale, KOne, KZero;
    HoldsInField(F, Prod(Times(-1, Var(0)), Prod(Times(-1, Var(0)), Times(-1, Var(0)))), Times(-1, Prod(Var(0), Prod(Var(0), Var(0)))), Null, [a]);
  }

  lemma {:induction false} CubeOfSum(F: Field, a: Poly, b: Poly)
    requires Good(F) && InK(F, a) && InK(F, b)
    ensures |a| == |b| == F.m > 0 && KCube(F, KAdd(a, b)) == KAdd(KCube(F, a), KCube(F, b))
  {
    hide InK, KMul, KAdd, KSub, KScale, KOne, KZero;
    HoldsInField(F, Prod(Sum(Var(0), Var(1)), Prod(Sum(Var(0), Var(1)), Sum(Var(0), Var(1)))),
      Sum(Prod(Var(0), Prod(Var(0), Var(0))), Prod(Var(1), Prod(Var(1), Var(1)))),
      Prod(Prod(Var(0), Var(1)), Sum(Var(0), Var(1))), [a, b]);
  }

  lemma {:induction false} CubeOfDifference(F: Field, a: Poly, b: Poly)
    requires Good(F) && InK(F, a) && InK(F, b)
    ensures |a| == |b| == F.m > 0 && KCube(F, KSub(a, b)) == KSub(KCube(F, a), KCube(F, b))
  {
    hide InK, KMul, KAdd, KSub, KScale, KOne, KZero;
    HoldsInField(F, Prod(Dif(Var(0), Var(1)), Prod(Dif(Var(0), Var(1)), Dif(Var(0), Var(1)))),
      Dif(Prod(Var(0), Prod(Var(0), Var(0))), Prod(Var(1), Prod(Var(1), Var(1)))),
      Prod(Prod(Var(0), Var(1)), Dif(Var(1), Var(0))), [a, b]);
  }

  lemma {:induction false} SubstituteIn(F: Field, a: K6)
    requires Good(F) && InK6(F, a)
    ensures Sized6(F, a) && InK6(F, Substitute(F, a)) && InK6(F, Conj6(F, a)) && InK6(F, CubeEach(F, a))
  {
    hide InK, KAdd, KSub, KNeg, KCube;
    ClosedAll(F, a);
    var c := Conj6(F, a);
    EtaPairing.KClosed(F, c.a0.x0, c.a1.x0);
    EtaPairing.KClosed(F, c.a0.x1, c.a1.x1);
    EtaPairing.KClosed(F, KAdd(c.a0.x0, c.a1.x0), c.a2.x0);
    EtaPairing.KClosed(F, KAdd(c.a0.x1, c.a1.x1), c.a2.x1);
    EtaPairing.KClosed(F, c.a1.x0, c.a2.x0);
    EtaPairing.KClosed(F, c.a1.x1, c.a2.x1);
  }

  lemma {:induction false} ClosedAll(F: Field, a: K6)
    requires Good(F) && InK6(F, a)
    ensures Sized6(F, a) && InK6(F, Conj6(F, a)) && InK6(F, CubeEach(F, a))
  {
    hide InK, KNeg, KCube;
    EtaPairing.KClosed(F, a.a0.x0, a.a0.x1);
    EtaPairing.KClosed(F, a.a1.x0, a.a1.x1);
    EtaPairing.KClosed(F, a.a2.x0, a.a2.x1);
    EtaPairing.KClosed(F, a.a0.x1, a.a0.x0);
    EtaPairing.KClosed(F, a.a1.x1, a.a1.x0);
    EtaPairing.KClosed(F, a.a2.x1, a.a2.x0);
  }

  lemma {:induction false} SubstituteCommutes(F: Field, a: K6)
    requires Good(F) && InK6(F, a)
    ensures Sized6(F, a) && CubeEach(F, Substitute(F, a)) == Substitute(F, CubeEach(F, a))
  {
    hide InK, KAdd, KSub, KNeg, KCube;
    ClosedAll(F, a);
    var c := Conj6(F, a);
    KCubeLinear(F, a.a0.x1, a.a0.x0);
    KCubeLinear(F, a.a1.x1, a.a0.x0);
    KCubeLinear(F, a.a2.x1, a.a0.x0);
    KCubeLinear(F, c.a0.x0, c.a1.x0);
    KCubeLinear(F, c.a0.x1, c.a1.x1);
    EtaPairing.KClosed(F, c.a0.x0, c.a1.x0);
    EtaPairing.KClosed(F, c.a0.x1, c.a1.x1);
    KCubeLinear(F, KAdd(c.a0.x0, c.a1.x0), c.a2.x0);
    KCubeLinear(F, KAdd(c.a0.x1, c.a1.x1), c.a2.x1);
    KCubeLinear(F, c.a1.x0, c.a2.x0);
    KCubeLinear(F, c.a1.x1, c.a2.x1);
  }

  function Substitutes(F: Field, a: K6, k: nat): (r: K6)
    requires Sized6(F, a)
    ensures Sized6(F, r)
  {
    if k == 0 then a else Substitute(F, Substitutes(F, a, k - 1))
  }

  lemma SubstitutesUnfold(F: Field, a: K6, k: nat)
    requires Sized6(F, a)
    ensures Substitutes(F, a, 0) == a && (k > 0 ==> Substitutes(F, a, k) == Substitute(F, Substitutes(F, a, k - 1)))
  {
  }

  lemma {:induction false} SubstitutesIn(F: Field, a: K6, k: nat)
    requires Good(F) && InK6(F, a)
    ensures Sized6(F, a) && InK6(F, Substitutes(F, a, k))
  {
    hide *;
    SubstituteIn(F, a);
    SubstitutesUnfold(F, a, k);
    if k > 0 {
      SubstitutesIn(F, a, k - 1);
      SubstituteIn(F, Substitutes(F, a, k - 1));
    }
  }

  lemma {:induction false} SubstitutesCommute(F: Field, a: K6, k: nat)
    requires Good(F) && InK6(F, a)
    ensures Sized6(F, a) && CubeEach(F, Substitutes(F, a, k)) == Substitutes(F, CubeEach(F, a), k)
  {
    hide *;
    SubstituteIn(F, a);
    SubstitutesUnfold(F, a, k);
    SubstitutesUnfold(F, CubeEach(F, a), k);
    if k > 0 {
      SubstitutesCommute(F, a, k - 1);
      SubstitutesIn(F, a, k - 1);
      SubstituteCommutes(F, Substitutes(F, a, k - 1));
    }
  }

  lemma {:induction false} SubstitutesSum(F: Field, a: K6, i: nat, j: nat)
    requires Sized6(F, a)
    ensures Substitutes(F, a, i + j) == Substitutes(F, Substitutes(F, a, j), i)
  {
    hide *;
    SubstitutesUnfold(F, a, i + j);
    SubstitutesUnfold(F, Substitutes(F, a, j), i);
    if i > 0 { SubstitutesSum(F, a, i - 1, j); }
  }

  // Every coefficient cubed k times.
  function IterateEach(F: Field, a: K6, k: nat): (r: K6)
    requires Sized6(F, a)
    ensures Sized6(F, r)
  {
    if k == 0 then a else CubeEach(F, IterateEach(F, a, k - 1))
  }

  lemma IterateEachUnfolds(F: Field, a: K6, k: nat)
    requires Sized6(F, a)
    ensures IterateEach(F, a, 0) == a && (k > 0 ==> IterateEach(F, a, k) == CubeEach(F, IterateEach(F, a, k - 1)))
  {
  }

  lemma {:induction false} IterateEachIn(F: Field, a: K6, k: nat)
    requires Good(F) && InK6(F, a)
    ensures Sized6(F, a) && InK6(F, IterateEach(F, a, k))
  {
    hide *;
    SubstituteIn(F, a);
    IterateEachUnfolds(F, a, k);
    if k > 0 {
      IterateEachIn(F, a, k - 1);
      SubstituteIn(F, IterateEach(F, a, k - 1));
    }
  }

  lemma {:induction false} IterateEachIs(F: Field, a: K6, k: nat)
    requires Sized6(F, a)
    ensures IterateEach(F, a, k) == K6(K2(KIterate(F, a.a0.x0, k), KIterate(F, a.a0.x1, k)),
      K2(KIterate(F, a.a1.x0, k), KIterate(F, a.a1.x1, k)), K2(KIterate(F, a.a2.x0, k), KIterate(F, a.a2.x1, k)))
  {
    hide KCube;
    if k > 0 { IterateEachIs(F, a, k - 1); }
  }

  lemma {:induction false} EachFullCircle(F: Field, a: K6)
    requires IsField(F) && InK6(F, a)
    ensures Sized6(F, a) && IterateEach(F, a, F.m) == a
  {
    IsGood(F);
    hide IsField, InK, KIterate, IterateEach;
    FullCircle(F, a.a0.x0);
    FullCircle(F, a.a0.x1);
    FullCircle(F, a.a1.x0);
    FullCircle(F, a.a1.x1);
    FullCircle(F, a.a2.x0);
    FullCircle(F, a.a2.x1);
    IterateEachIs(F, a, F.m);
  }

  // Iterated cubing substitutes after cubing all coefficients.
  lemma {:induction false} IterateSplits(F: Field, a: K6, k: nat)
    requires Good(F) && InK6(F, a)
    ensures Sized6(F, a) && Iterate(F, a, k) == Substitutes(F, IterateEach(F, a, k), k)
  {
    hide *;
    SubstituteIn(F, a);
    IterateUnfolds(F, a, k);
    IterateEachUnfolds(F, a, k);
    SubstitutesUnfold(F, IterateEach(F, a, k), k);
    if k > 0 {
      IterateSplits(F, a, k - 1);
      IterateEachIn(F, a, k - 1);
      var b := IterateEach(F, a, k - 1);
      SubstitutesIn(F, b, k - 1);
      CubicSplits(F, Substitutes(F, b, k - 1));
      SubstitutesCommute(F, b, k - 1);
    }
  }

  lemma {:induction false} IterateSum(F: Field, a: K6, i: nat, j: nat)
    requires Sized6(F, a)
    ensures Iterate(F, a, i + j) == Iterate(F, Iterate(F, a, j), i)
  {
    hide *;
    IterateUnfolds(F, a, i + j);
    IterateUnfolds(F, Iterate(F, a, j), i);
    if i > 0 { IterateSum(F, a, i - 1, j); }
  }

  // m cubings are m substitutions.
  lemma {:induction false} DegreeCubings(F: Field, a: K6)
    requires IsField(F) && InK6(F, a)
    ensures Sized6(F, a) && Iterate(F, a, F.m) == Substitutes(F, a, F.m)
  {
    hide *;
    IsGood(F);
    EachFullCircle(F, a);
    IterateSplits(F, a, F.m);
  }

  // ---------------------------------------------------------------- three substitutions conjugate

  // The real parts of three substitutions.
  lemma {:induction false} ThreeReal(F: Field, x: Poly, y: Poly, w: Poly)
    requires Good(F) && InK(F, x) && InK(F, y) && InK(F, w)
    ensures |x| == |y| == |w| == F.m > 0
    ensures var x1, y1 := KAdd(KAdd(x, y), w), KSub(y, w);
            var x2, y2 := KAdd(KAdd(x1, y1), w), KSub(y1, w);
            KAdd(KAdd(x2, y2), w) == x && KSub(y2, w) == y
  {
    var e := [x, y, w];
    HoldsInField(F, Dif(Dif(Dif(Var(1), Var(2)), Var(2)), Var(2)), Var(1), Times(-1, Var(2)), e);
    HoldsInField(F,
      Sum(Sum(Sum(Sum(Sum(Sum(Var(0), Var(1)), Var(2)), Dif(Var(1), Var(2))), Var(2)), Dif(Dif(Var(1), Var(2)), Var(2))), Var(2)),
      Var(0), Var(1), e);
  }

  // The parts with s, negated each time.
  lemma {:induction false} ThreeImaginary(F: Field, x: Poly, y: Poly, w: Poly)
    requires Good(F) && InK(F, x) && InK(F, y) && InK(F, w)
    ensures |x| == |y| == |w| == F.m > 0 && KNeg(KNeg(KNeg(w))) == KNeg(w)
    ensures var x1, y1, w1 := KAdd(KAdd(KNeg(x), KNeg(y)), KNeg(w)), KSub(KNeg(y), KNeg(w)), KNeg(w);
            var x2, y2, w2 := KAdd(KAdd(KNeg(x1), KNeg(y1)), KNeg(w1)), KSub(KNeg(y1), KNeg(w1)), KNeg(w1);
            KAdd(KAdd(KNeg(x2), KNeg(y2)), KNeg(w2)) == KNeg(x) && KSub(KNeg(y2), KNeg(w2)) == KNeg(y)
  {
    ThreeImaginaryLow(F, y, w);
    var e := [x, y, w];
    HoldsInField(F,
      Sum(Sum(Times(-1, Sum(Sum(Times(-1, Sum(Sum(Times(-1, Var(0)), Times(-1, Var(1))), Times(-1, Var(2)))),
        Times(-1, Dif(Times(-1, Var(1)), Times(-1, Var(2))))), Times(-1, Times(-1, Var(2))))),
        Times(-1, Dif(Times(-1, Dif(Times(-1, Var(1)), Times(-1, Var(2)))), Times(-1, Times(-1, Var(2)))))), Times(-1, Times(-1, Times(-1, Var(2))))),
      Times(-1, Var(0)), Times(-1, Var(1)), e);
  }

  lemma {:induction false} ThreeImaginaryLow(F: Field, y: Poly, w: Poly)
    requires Good(F) && InK(F, y) && InK(F, w)
    ensures |y| == |w| == F.m > 0 && KNeg(KNeg(KNeg(w))) == KNeg(w)
    ensures var y1, w1 := KSub(KNeg(y), KNeg(w)), KNeg(w);
            var y2, w2 := KSub(KNeg(y1), KNeg(w1)), KNeg(w1);
            KSub(KNeg(y2), KNeg(w2)) == KNeg(y)
  {
    hide InK, KMul, KAdd, KSub, KScale, KOne, KZero;
    HoldsInField(F, Times(-1, Times(-1, Times(-1, Var(1)))), Times(-1, Var(1)), Null, [y, w]);
    HoldsInField(F,
      Dif(Times(-1, Dif(Times(-1, Dif(Times(-1, Var(0)), Times(-1, Var(1)))), Times(-1, Times(-1, Var(1))))), Times(-1, Times(-1, Times(-1, Var(1))))),
      Times(-1, Var(0)), Var(1), [y, w]);
  }

  lemma {:induction false} ThreeSubstitutions(F: Field, a: K6)
    requires Good(F) && InK6(F, a)
    ensures Sized6(F, a) && Substitutes(F, a, 3) == Conj6(F, a)
  {
    hide InK, KAdd, KSub, KNeg, Substitutes;
    ThreeReal(F, a.a0.x0, a.a1.x0, a.a2.x0);
    ThreeImaginary(F, a.a0.x1, a.a1.x1, a.a2.x1);
    SubstitutesUnfold(F, a, 1);
    SubstitutesUnfold(F, a, 2);
    SubstitutesUnfold(F, a, 3);
  }

  lemma {:induction false} ConjTwice(F: Field, a: K6)
    requires Good(F) && InK6(F, a)
    ensures Sized6(F, a) && Conj6(F, Conj6(F, a)) == a && InK6(F, Conj6(F, a))
  {
    hide InK, KNeg;
    SubstituteIn(F, a);
    NegTwice(F, a.a0.x1);
    NegTwice(F, a.a1.x1);
    NegTwice(F, a.a2.x1);
  }

  lemma {:induction false} NegTwice(F: Field, x: Poly)
    requires Good(F) && InK(F, x)
    ensures |x| == F.m > 0 && KNeg(KNeg(x)) == x
  {
    hide InK, KMul, KAdd, KSub, KScale, KOne, KZero;
    HoldsInField(F, Times(-1, Times(-1, Var(0))), Var(0), Null, [x]);
  }

  lemma {:induction false} SixSubstitutions(F: Field, a: K6, k: nat)
    requires Good(F) && InK6(F, a)
    ensures Sized6(F, a) && Substitutes(F, a, 6 * k) == a
  {
    hide *;
    ConjTwice(F, a);
    SubstitutesUnfold(F, a, 0);
    if k > 0 {
      SixSubstitutions(F, a, k - 1);
      SubstitutesSum(F, a, 6, 6 * (k - 1));
      SubstitutesSum(F, a, 3, 3);
      ThreeSubstitutions(F, a);
      ThreeSubstitutions(F, Conj6(F, a));
    }
  }

  // For odd m, 3m cubings conjugate.
  lemma {:induction false} ConjugateByCubing(F: Field, a: K6)
    requires IsField(F) && F.m % 2 == 1 && InK6(F, a)
    ensures Sized6(F, a) && Iterate(F, a, 3 * F.m) == Conj6(F, a)
  {
    hide *;
    IsGood(F);
    var m := F.m;
    DegreeCubings(F, a);
    var b := Substitutes(F, a, m);
    SubstitutesIn(F, a, m);
    DegreeCubings(F, b);
    SubstitutesSum(F, a, m, m);
    IterateSum(F, a, m, m);
    var c := Substitutes(F, b, m);
    SubstitutesIn(F, b, m);
    DegreeCubings(F, c);
    SubstitutesSum(F, a, m, 2 * m);
    IterateSum(F, a, m, 2 * m);
    var k := (m - 1) / 2;
    assert 3 * m == 6 * k + 3;
    SubstitutesSum(F, a, 6 * k, 3);
    ThreeSubstitutions(F, a);
    ConjTwice(F, a);
    SixSubstitutions(F, Conj6(F, a), k);
  }

  // Conjugation respects products.
  lemma {:induction false} ConjMult(F: Field, a: K6, b: K6)
    requires Good(F) && InK6(F, a) && InK6(F, b)
    ensures Sized6(F, a) && Sized6(F, b) && Conj6(F, Gf33mMult(F, a, b)) == Gf33mMult(F, Conj6(F, a), Conj6(F, b))
  {
    hide *;
    Rep6Self(F, a);
    Rep6Self(F, b);
    ConjTwice(F, a);
    ConjTwice(F, b);
    var p := TMul(a, b);
    Rep6Product(F, a, a, b, b);
    RepConj(F, Gf33mMult(F, a, b), p);
    RepConj(F, a, a);
    RepConj(F, b, b);
    Rep6Product(F, Conj6(F, a), ConjPoly(a), Conj6(F, b), ConjPoly(b));
    forall X ensures Ev6(ConjPoly(p), X) == Ev6(TMul(ConjPoly(a), ConjPoly(b)), X) {
      EvConj(p, X);
      EvTMul(a, b, X);
      EvTMul(ConjPoly(a), ConjPoly(b), X);
      EvConj(a, X);
      EvConj(b, X);
      YConjMul(Ev6(a, X), Ev6(b, X));
    }
    Rep6Equal(F, Conj6(F, Gf33mMult(F, a, b)), ConjPoly(p), Gf33mMult(F, Conj6(F, a), Conj6(F, b)), TMul(ConjPoly(a), ConjPoly(b)));
  }

  ghost function ConjPoly(L: K6): K6
  {
    K6(K2(L.a0.x0, PScale(-1, L.a0.x1)), K2(L.a1.x0, PScale(-1, L.a1.x1)), K2(L.a2.x0, PScale(-1, L.a2.x1)))
  }

  lemma {:induction false} RepConj(F: Field, a: K6, L: K6)
    requires Good(F) && Rep6(F, a, L)
    ensures Sized6(F, a) && Rep6(F, Conj6(F, a), ConjPoly(L))
  {
    hide KNeg, PScale, Cong;
    EtaPairing.RepNeg(F, a.a0.x1, L.a0.x1);
    EtaPairing.RepNeg(F, a.a1.x1, L.a1.x1);
    EtaPairing.RepNeg(F, a.a2.x1, L.a2.x1);
  }

  lemma {:induction false} EvConj(L: K6, X: int)
    ensures Ev6(ConjPoly(L), X) == YConj(Ev6(L, X))
  {
    hide Ev, PScale;
    EvScale(-1, L.a0.x1, X);
    EvScale(-1, L.a1.x1, X);
    EvScale(-1, L.a2.x1, X);
  }
}
