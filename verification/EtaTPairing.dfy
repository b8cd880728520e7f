// The eta_T pairing of y^2 = x^3 - x + 1 over GF(3^m): one of the two loops, then the final powering.
module EtaTPairing {
  import opened Arith
  import opened TernaryTower
  import opened TernaryCubes
  import opened TernaryIdentities
  import opened TernaryFermat
  import opened TernaryFrobenius
  import opened CubicExtension
  import opened SexticExtension
  import opened TernaryPoints
  import opened EtaFinalPower
  import opened EtaPairing
  import opened Polynomials

  // ---------------------------------------------------------------- no point has ordinate zero

  lemma {:induction false} OrdinateNonzero(F: Field, P: Point)
    requires IsTower(F) && OnCurve(F, P) && P.Affine?
    ensures P.y != KZero(F)
  {
    hide InK, KMul, KAdd, KSub, KOne, KZero, KCube, KScale;
    TowerIsField(F);
    EtaPairing.KClosed(F, P.x, P.y);
    KUnits(F, P.y);
    if P.y == KZero(F) {
      NoRoot(F, KNeg(P.x));
      CubeOfNegation(F, P.x);
      EtaPairing.KClosed(F, P.x, KCube(F, P.x));
      MovesByOne(F, P.x, KCube(F, P.x));
    }
  }

  // w - x + 1 = 0 makes -w = -x + 1.
  lemma {:induction false} MovesByOne(F: Field, x: Poly, w: Poly)
    requires Good(F) && InK(F, x) && InK(F, w) && (|w| == |x| == F.m > 0 ==> KAdd(KSub(w, x), KOne(F)) == KZero(F))
    ensures |w| == |x| == F.m > 0 && KNeg(w) == KAdd(KNeg(x), KOne(F))
  {
    hide InK, KMul, KAdd, KSub, KScale, KOne, KZero;
    KUnits(F, x);
    KUnits(F, KOne(F));
    EtaPairing.KClosed(F, x, w);
    EtaPairing.KClosed(F, KNeg(x), KOne(F));
    HoldsInField(F, Dif(Sum(Times(-1, Var(0)), One), Sum(Dif(Var(1), Var(0)), One)), Times(-1, Var(1)), Null, [x, w]);
    MinusZero(F, KAdd(KNeg(x), KOne(F)));
  }

  // ---------------------------------------------------------------- the loops never return zero

  lemma {:induction false} NoDivisors(F: Field, a: K6, b: K6)
    requires IsTower(F) && InK6(F, a) && InK6(F, b) && (F.m > 0 ==> a != Zero6(F) && b != Zero6(F))
    ensures F.m > 0 && Sized6(F, a) && Sized6(F, b) && Gf33mMult(F, a, b) != Zero6(F) && InK6(F, Gf33mMult(F, a, b))
  {
    hide *;
    TowerIsField(F);
    MultCommutes(F, a, b);
    ZeroTimes6(F, b);
    if Gf33mMult(F, a, b) == Zero6(F) { Cancel6(F, a, Zero6(F), b); }
  }

  lemma {:induction false} CubicNonzero(F: Field, a: K6)
    requires IsTower(F) && InK6(F, a) && (F.m > 0 ==> a != Zero6(F))
    ensures F.m > 0 && Sized6(F, a) && Gf33mCubic(F, a) != Zero6(F) && InK6(F, Gf33mCubic(F, a))
  {
    hide *;
    TowerIsField(F);
    NoDivisors(F, a, a);
    NoDivisors(F, a, Gf33mMult(F, a, a));
    CubicIsCube(F, a);
  }

  lemma {:induction false} TangentNonzero(F: Field, t: Poly, u: Poly)
    requires Good(F) && InK(F, t) && InK(F, u)
    ensures |t| == |u| == F.m > 0 && Tangent(F, t, u) != Zero6(F) && InK6(F, Tangent(F, t, u))
  {
    RepTangent(F, t, u);
    assert KNeg(KOne(F))[0] == 2;
    assert KZero(F)[0] == 0;
  }

  lemma {:induction false} StepNonzero(F: Field, xp: Poly, yp: Poly, s: State)
    requires IsTower(F) && InK(F, xp) && InK(F, yp) && InField(F, s) && (F.m > 0 ==> s.R != Zero6(F))
    ensures F.m > 0 && |xp| == |yp| == F.m && SizedState(F, s)
    ensures Step4(F, xp, yp, s).R != Zero6(F) && InField(F, Step4(F, xp, yp, s))
  {
    hide IsTower, InK, InK6, Gf33mMult, Gf33mCubic, Tangent, Zero6, KMul, KAdd, KSub, KNeg, KOne, Ninth;
    TowerIsField(F);
    StateSizes(F, xp, yp, s);
    KClosed(F, s.xq, s.yq);
    KClosed(F, s.yq, s.xq);
    KClosed(F, Ninth(F, s.xq), KOne(F));
    KClosed(F, Ninth(F, s.yq), KOne(F));
    var xq := KSub(Ninth(F, s.xq), KOne(F));
    var yq := KNeg(Ninth(F, s.yq));
    KClosed(F, xp, xq);
    KClosed(F, yp, yq);
    CubicNonzero(F, s.R);
    TangentNonzero(F, KAdd(xp, xq), KMul(F, yp, yq));
    NoDivisors(F, Gf33mCubic(F, s.R), Tangent(F, KAdd(xp, xq), KMul(F, yp, yq)));
  }

  lemma {:induction false} IterateNonzero(F: Field, xp: Poly, yp: Poly, s: State, n: nat)
    requires IsTower(F) && InK(F, xp) && InK(F, yp) && InField(F, s) && (F.m > 0 ==> s.R != Zero6(F))
    ensures F.m > 0 && |xp| == |yp| == F.m && SizedState(F, s)
    ensures Iterate4(F, xp, yp, s, n).R != Zero6(F) && InField(F, Iterate4(F, xp, yp, s, n))
  {
    hide IsTower, InK, InField, Step4, Zero6, SizedState;
    TowerIsField(F);
    StateSizes(F, xp, yp, s);
    if n > 0 {
      IterateNonzero(F, xp, yp, s, n - 1);
      StepNonzero(F, xp, yp, Iterate4(F, xp, yp, s, n - 1));
    }
  }

  // The first product is zero only when both ordinates are.
  lemma {:induction false} StartNonzero(F: Field, xp: Poly, yp: Poly, xq: Poly, yq: Poly)
    requires IsTower(F) && InK(F, xp) && InK(F, yp) && InK(F, xq) && InK(F, yq) && yp != KZero(F)
    ensures F.m > 0 && |xp| == |yp| == |xq| == |yq| == F.m
    ensures InField(F, Start(F, xp, yp, xq, yq)) && Start(F, xp, yp, xq, yq).R != Zero6(F)
  {
    hide IsTower, InK, InField, Tangent, KMul, KAdd, KSub, KNeg, KOne, KCube, KZero, Gf33mMult, Ev6, Ev;
    TowerIsField(F);
    StartIn(F, xp, yp, xq, yq);
    KClosed(F, xp, yp);
    KClosed(F, yp, xp);
    KClosed(F, xq, yq);
    KClosed(F, yq, xq);
    NegNonzero(F, yp);
    var x, y := StartXp(F, xp), StartYp(F, yp);
    var x3, y3 := KCube(F, xq), KCube(F, yq);
    NegNonzero(F, y);
    KClosed(F, x, x3);
    KClosed(F, y, y3);
    KClosed(F, y3, y);
    var t := KAdd(x, x3);
    KClosed(F, y, t);
    var v1 := KMul(F, y, t);
    KClosed(F, v1, y);
    TangentNonzero(F, t, KMul(F, y, y3));
    var z := KZero(F);
    NoDivisors(F, K6(K2(v1, KNeg(y3)), K2(KNeg(y), z), K2(z, z)), Tangent(F, t, KMul(F, y, y3)));
    NoDivisors(F, K6(K2(KNeg(v1), y3), K2(y, z), K2(z, z)), Tangent(F, t, KMul(F, y, y3)));
  }

  lemma {:induction false} NegNonzero(F: Field, a: Poly)
    requires Good(F) && InK(F, a) && a != KZero(F)
    ensures |a| == F.m && KNeg(a) != KZero(F)
  {
    if KNeg(a) == KZero(F) {
      forall i | 0 <= i < F.m ensures a[i] == KZero(F)[i] { assert KNeg(a)[i] == (-1 * a[i]) % 3; }
    }
  }

  // ---------------------------------------------------------------- the pairing

  // The value of the loop.
  function Loop(F: Field, P: Point, Q: Point): (r: K6)
    requires P.Affine? && Q.Affine? && |P.x| == |P.y| == |Q.x| == |Q.y| == F.m > 0
    ensures Sized6(F, r)
  {
    Iterate4(F, StartXp(F, P.x), StartYp(F, P.y), Start(F, P.x, P.y, Q.x, Q.y), (F.m - 1) / 2).R
  }

  lemma OnCurveMeans(F: Field, P: Point)
    requires OnCurve(F, P) && P.Affine?
    ensures InK(F, P.x) && InK(F, P.y) && |P.x| == |P.y| == F.m > 0
  {
    hide InK, KMul, Cubic;
  }

  lemma LoopIs(F: Field, P: Point, Q: Point)
    requires P.Affine? && Q.Affine? && |P.x| == |P.y| == |Q.x| == |Q.y| == F.m > 0
    ensures Loop(F, P, Q) == Iterate4(F, StartXp(F, P.x), StartYp(F, P.y), Start(F, P.x, P.y, Q.x, Q.y), (F.m - 1) / 2).R
  {
    hide Iterate4, Start, StartXp, StartYp;
  }

  lemma {:induction false} LoopNonzero(F: Field, P: Point, Q: Point)
    requires IsTower(F) && OnCurve(F, P) && OnCurve(F, Q) && P.Affine? && Q.Affine?
    ensures InK6(F, Loop(F, P, Q)) && Loop(F, P, Q) != Zero6(F)
  {
    hide IsTower, InK, InField, Start, StartXp, StartYp, Iterate4, Zero6, Cubic, KMul;
    TowerIsField(F);
    OrdinateNonzero(F, P);
    StartIn(F, P.x, P.y, Q.x, Q.y);
    StartNonzero(F, P.x, P.y, Q.x, Q.y);
    IterateNonzero(F, StartXp(F, P.x), StartYp(F, P.y), Start(F, P.x, P.y, Q.x, Q.y), (F.m - 1) / 2);
    StateSizes(F, StartXp(F, P.x), StartYp(F, P.y), Iterate4(F, StartXp(F, P.x), StartYp(F, P.y), Start(F, P.x, P.y, Q.x, Q.y), (F.m - 1) / 2));
  }

  method EtaTPairing(F: Field, P: Point, Q: Point, left: K3) returns (c: K6)
    requires IsTower(F) && InK3(F, left) && OnCurve(F, P) && OnCurve(F, Q)
    ensures F.m > 0 && Sized6(F, c) && InK6(F, c)
    ensures P.Infinity? || Q.Infinity? ==> c == One6(F)
    ensures P.Affine? && Q.Affine? ==> FinalExponent(F.m) >= 0 && c == Pow6(F, Loop(F, P, Q), FinalExponent(F.m))
    ensures GroupOrder(F.m) >= 0 && Pow6(F, c, GroupOrder(F.m)) == One6(F)
  {
    hide *;
    TowerIsField(F);
    FactorsPositive(F.m);
    if P.Infinity? || Q.Infinity? {
      c := One6(F);
      OneNorm(F);
      PowerOfOne(F, GroupOrder(F.m));
    } else {
      OnCurveMeans(F, P);
      OnCurveMeans(F, Q);
      LoopNonzero(F, P, Q);
      LoopIs(F, P, Q);
      if (F.m - 1) / 2 % 2 == 0 {
        c := Algorithm5(F, P.x, P.y, Q.x, Q.y);
      } else {
        c := Algorithm4(F, P.x, P.y, Q.x, Q.y);
      }
      c := Algorithm8(F, c, left);
    }
  }

  lemma {:induction false} PowerOfOne(F: Field, n: nat)
    requires Good(F)
    ensures F.m > 0 && InK6(F, One6(F)) && Pow6(F, One6(F), n) == One6(F)
  {
    hide *;
    RepOne6(F);
    Pow6Unfolds(F, One6(F), n);
    if n > 0 {
      PowerOfOne(F, n - 1);
      OneTimes(F, One6(F));
    }
  }
}
