// The two loops for the eta_T pairing in characteristic three: one step at a time, and two at a time with a
// closed form for a cube.
module EtaPairing {
  import opened Arith
  import opened Polynomials
  import opened PolynomialDivision
  import opened TernaryField
  import opened TernaryTower

  // -t^2 + u*s - t*p - p^2
  function Tangent(F: Field, t: Poly, u: Poly): (S: K6)
    requires |t| == |u| == F.m > 0
    ensures Sized6(F, S)
  {
    var nt := KNeg(t);
    var nt2 := KMul(F, t, nt);
    K6(K2(nt2, u), K2(nt, KZero(F)), K2(KNeg(KOne(F)), KZero(F)))
  }

  // algorithm4a: the cube of the same expression in closed form.
  function TangentCubed(F: Field, t: Poly, u: Poly): (S: K6)
    requires |t| == |u| == F.m > 0
    ensures Sized6(F, S)
  {
    var e1 := KOne(F);
    var c0 := KCube(F, t);
    var c1 := KNeg(KCube(F, u));
    var m0 := KMul(F, c0, c0);
    var v0 := KSub(KSub(KNeg(m0), c0), e1);
    var v2 := KSub(e1, c0);
    K6(K2(v0, c1), K2(v2, KZero(F)), K2(KNeg(e1), KZero(F)))
  }

  // ---------------------------------------------------------------- constants and negation

  lemma {:induction false} RepConstants(F: Field)
    requires Good(F)
    ensures Rep(F, KZero(F), []) && Rep(F, KOne(F), [1])
  {
    forall i: nat ensures Coef(KZero(F), i) == Coef([], i) && Coef(KOne(F), i) == Coef([1], i) { }
    assert SameCoefs(KZero(F), []) && SameCoefs(KOne(F), [1]);
    forall X ensures Ev(KZero(F), X) == Ev([], X) && Ev(KOne(F), X) == Ev([1], X) {
      SameCoefsSameValues(KZero(F), [], X);
      SameCoefsSameValues(KOne(F), [1], X);
    }
    CongSame(3, Modulus(F), KZero(F), []);
    CongSame(3, Modulus(F), KOne(F), [1]);
  }

  lemma {:induction false} RepNeg(F: Field, a: Poly, L: Poly)
    requires Rep(F, a, L)
    ensures Rep(F, KNeg(a), PScale(-1, L))
  {
    hide Cong;
    RepScale(F, -1, a, L);
  }

  lemma {:induction false} RepIn(F: Field, a: Poly, L: Poly)
    requires Rep(F, a, L)
    ensures InK(F, a) && |a| == F.m
  {
    hide Cong;
  }

  // ---------------------------------------------------------------- the closed form

  lemma {:induction false} RepTangent(F: Field, t: Poly, u: Poly)
    requires Good(F) && InK(F, t) && InK(F, u)
    ensures |t| == |u| == F.m > 0 && Rep6(F, Tangent(F, t, u), TangentPoly(t, u)) && InK6(F, Tangent(F, t, u))
  {
    hide Cong, KMul, KNeg, KZero, KOne, PMul, PScale;
    RepSelf(F, t);
    RepSelf(F, u);
    RepNeg(F, t, t);
    RepMul(F, t, t, KNeg(t), PScale(-1, t));
    RepConstants(F);
    RepNeg(F, KOne(F), [1]);
  }

  ghost function TangentPoly(t: Poly, u: Poly): K6
  {
    K6(K2(PMul(t, PScale(-1, t)), u), K2(PScale(-1, t), []), K2(PScale(-1, [1]), []))
  }

  ghost function CubedPoly(t: Poly, u: Poly): K6
  {
    var c := Spread(t);
    K6(K2(PSub(PSub(PScale(-1, PMul(c, c)), c), [1]), PScale(-1, Spread(u))), K2(PSub([1], c), []), K2(PScale(-1, [1]), []))
  }

  lemma {:induction false} RepTangentCubed(F: Field, t: Poly, u: Poly)
    requires Good(F) && InK(F, t) && InK(F, u)
    ensures |t| == |u| == F.m > 0 && Rep6(F, TangentCubed(F, t, u), CubedPoly(t, u))
  {
    hide Cong, KMul, KCube, KNeg, KSub, KZero, KOne, PMul, PScale, PSub, Spread;
    RepSelf(F, t);
    RepSelf(F, u);
    RepCube(F, t, t);
    RepCube(F, u, u);
    var c0, c := KCube(F, t), Spread(t);
    RepNeg(F, KCube(F, u), Spread(u));
    RepMul(F, c0, c, c0, c);
    RepConstants(F);
    RepNeg(F, KMul(F, c0, c0), PMul(c, c));
    RepSub(F, KNeg(KMul(F, c0, c0)), PScale(-1, PMul(c, c)), c0, c);
    RepSub(F, KSub(KNeg(KMul(F, c0, c0)), c0), PSub(PScale(-1, PMul(c, c)), c), KOne(F), [1]);
    RepSub(F, KOne(F), [1], c0, c);
    RepNeg(F, KOne(F), [1]);
  }

  lemma {:induction false} EvTangentPoly(t: Poly, u: Poly, X: int)
    ensures var y := Ev(t, X);
            Ev6(TangentPoly(t, u), X) == Z6(Z2(0 - y * y, Ev(u, X)), Z2(0 - y, 0), Z2(-1, 0))
  {
    hide Ev, PMul, PScale;
    EvMul(t, PScale(-1, t), X);
    EvScale(-1, t, X);
    EvScale(-1, [1], X);
    EvConst(1, X);
    NegSquare(Ev(t, X));
  }

  lemma NegSquare(y: int)
    ensures y * (-1 * y) == 0 - y * y && -1 * (y * y) == 0 - y * y
  {
  }

  lemma {:induction false} EvCubedPoly(t: Poly, u: Poly, X: int)
    ensures var y := Ev(t, X * X * X);
            Ev6(CubedPoly(t, u), X) == Z6(Z2(0 - y * y - y - 1, 0 - Ev(u, X * X * X)), Z2(1 - y, 0), Z2(-1, 0))
  {
    hide Ev, PMul, PScale, PSub, Spread;
    var c := Spread(t);
    EvSpreadIs(t, X);
    EvSpreadIs(u, X);
    EvScale(-1, Spread(u), X);
    EvScale(-1, PMul(c, c), X);
    EvMul(c, c, X);
    EvSub(PScale(-1, PMul(c, c)), c, X);
    EvSub(PSub(PScale(-1, PMul(c, c)), c), [1], X);
    EvSub([1], c, X);
    EvScale(-1, [1], X);
    EvConst(1, X);
    NegSquare(Ev(c, X));
  }

  lemma {:induction false} ClosedValues(t: Poly, u: Poly, X: int)
    ensures Ev6(TCub(TangentPoly(t, u)), X) == Ev6(CubedPoly(t, u), X)
  {
    hide *;
    EvTCub(TangentPoly(t, u), X);
    EvTangentPoly(t, u, X * X * X);
    EvCubedPoly(t, u, X);
    ClosedPoly(Ev(t, X * X * X) * Ev(t, X * X * X), Ev(t, X * X * X), Ev(u, X * X * X));
  }

  lemma {:induction false} ClosedPoly(z: int, y: int, w: int)
    ensures YTau(YConj(Z6(Z2(0 - z, w), Z2(0 - y, 0), Z2(-1, 0)))) == Z6(Z2(0 - z - y - 1, 0 - w), Z2(1 - y, 0), Z2(-1, 0))
  {
    ClosedConj(z, y, w);
    hide YTau, YConj;
    ClosedTau(z, y, w);
  }

  lemma ClosedConj(z: int, y: int, w: int)
    ensures YConj(Z6(Z2(0 - z, w), Z2(0 - y, 0), Z2(-1, 0))) == Z6(Z2(0 - z, 0 - w), Z2(0 - y, 0), Z2(-1, 0))
  {
  }

  lemma ClosedTau(z: int, y: int, w: int)
    ensures YTau(Z6(Z2(0 - z, 0 - w), Z2(0 - y, 0), Z2(-1, 0))) == Z6(Z2(0 - z - y - 1, 0 - w), Z2(1 - y, 0), Z2(-1, 0))
  {
  }

  // algorithm4a computes the cube.
  lemma {:induction false} ClosedForm(F: Field, t: Poly, u: Poly)
    requires Good(F) && InK(F, t) && InK(F, u)
    ensures |t| == |u| == F.m > 0 && TangentCubed(F, t, u) == Gf33mCubic(F, Tangent(F, t, u))
  {
    hide *;
    RepTangent(F, t, u);
    RepTangentCubed(F, t, u);
    Rep6Cubic(F, Tangent(F, t, u), TangentPoly(t, u));
    forall X ensures Ev6(TCub(TangentPoly(t, u)), X) == Ev6(CubedPoly(t, u), X) { ClosedValues(t, u, X); }
    Rep6Equal(F, Gf33mCubic(F, Tangent(F, t, u)), TCub(TangentPoly(t, u)), TangentCubed(F, t, u), CubedPoly(t, u));
  }

  // ---------------------------------------------------------------- the loops

  datatype State = State(R: K6, xq: Poly, yq: Poly)

  predicate SizedState(F: Field, s: State)
  {
    Sized6(F, s.R) && |s.xq| == F.m && |s.yq| == F.m && F.m > 0
  }

  ghost predicate InField(F: Field, s: State)
  {
    InK6(F, s.R) && InK(F, s.xq) && InK(F, s.yq)
  }

  function Ninth(F: Field, a: Poly): (r: Poly)
    requires |a| == F.m > 0
    ensures |r| == F.m
  {
    KCube(F, KCube(F, a))
  }

  // One round of algorithm4.
  function Step4(F: Field, xp: Poly, yp: Poly, s: State): (r: State)
    requires |xp| == |yp| == F.m && SizedState(F, s)
    ensures SizedState(F, r)
  {
    var R := Gf33mCubic(F, s.R);
    var xq := KSub(Ninth(F, s.xq), KOne(F));
    var yq := KNeg(Ninth(F, s.yq));
    var t := KAdd(xp, xq);
    var u := KMul(F, yp, yq);
    State(Gf33mMult(F, R, Tangent(F, t, u)), xq, yq)
  }

  function Iterate4(F: Field, xp: Poly, yp: Poly, s: State, n: nat): (r: State)
    requires |xp| == |yp| == F.m && SizedState(F, s)
    ensures SizedState(F, r)
    decreases n
  {
    if n == 0 then s else Step4(F, xp, yp, Iterate4(F, xp, yp, s, n - 1))
  }

  // Where both loops start: the shifted first point, the cubed second point and the first line product.
  function StartXp(F: Field, xp: Poly): (r: Poly)
    requires |xp| == F.m
    ensures |r| == F.m
  {
    KAdd(xp, KOne(F))
  }

  function StartYp(F: Field, yp: Poly): (r: Poly)
    requires |yp| == F.m
    ensures |r| == F.m
  {
    if F.m % 12 == 1 || F.m % 12 == 11 then KNeg(yp) else yp
  }

  function Start(F: Field, xp: Poly, yp: Poly, xq0: Poly, yq0: Poly): (r: State)
    requires |xp| == |yp| == |xq0| == |yq0| == F.m > 0
    ensures SizedState(F, r)
  {
    var x, y := StartXp(F, xp), StartYp(F, yp);
    var xq, yq := KCube(F, xq0), KCube(F, yq0);
    var t := KAdd(x, xq);
    var v2 := KMul(F, y, yq);
    var v1 := KMul(F, y, t);
    var z := KZero(F);
    var a1 :=
      if F.m % 12 == 7 || F.m % 12 == 11 then K6(K2(v1, KNeg(yq)), K2(KNeg(y), z), K2(z, z))
      else K6(K2(KNeg(v1), yq), K2(y, z), K2(z, z));
    State(Gf33mMult(F, a1, Tangent(F, t, v2)), xq, yq)
  }

  // Two rounds at once, as in algorithm5.
  function Step5(F: Field, xp: Poly, yp: Poly, s: State): (r: State)
    requires |xp| == |yp| == F.m && SizedState(F, s)
    ensures SizedState(F, r)
  {
    var R := Gf33mCubic(F, Gf33mCubic(F, s.R));
    var x1, y1 := KSub(Ninth(F, s.xq), KOne(F)), Ninth(F, s.yq);
    var S := TangentCubed(F, KAdd(xp, x1), KNeg(KMul(F, yp, y1)));
    var x2, y2 := KSub(Ninth(F, x1), KOne(F)), Ninth(F, y1);
    var S2 := Tangent(F, KAdd(xp, x2), KMul(F, yp, y2));
    State(Gf33mMult(F, R, Gf33mMult(F, S, S2)), x2, y2)
  }

  // ---------------------------------------------------------------- one double round is two rounds

  lemma {:induction false} NinthRep(F: Field, a: Poly, L: Poly)
    requires Good(F) && Rep(F, a, L)
    ensures |a| == F.m > 0 && Rep(F, Ninth(F, a), Spread(Spread(L)))
  {
    hide Cong, KCube, Spread;
    RepIn(F, a, L);
    RepCube(F, a, L);
    RepIn(F, KCube(F, a), Spread(L));
    RepCube(F, KCube(F, a), Spread(L));
  }

  // Ninth powers commute with negation, and so does the product with yp.
  lemma {:induction false} SignsAgree(F: Field, yp: Poly, y: Poly)
    requires Good(F) && InK(F, yp) && InK(F, y)
    ensures |y| == |yp| == F.m > 0
    ensures KNeg(Ninth(F, KNeg(y))) == Ninth(F, y) && KMul(F, yp, KNeg(y)) == KNeg(KMul(F, yp, y))
  {
    hide Cong, KMul, KNeg, Ninth, PMul, PScale, Spread, Ev;
    RepSelf(F, y);
    RepSelf(F, yp);
    RepNeg(F, y, y);
    NinthRep(F, y, y);
    NinthRep(F, KNeg(y), PScale(-1, y));
    var p, q := Spread(Spread(PScale(-1, y))), Spread(Spread(y));
    RepNeg(F, Ninth(F, KNeg(y)), p);
    forall X ensures Ev(PScale(-1, p), X) == Ev(q, X) && Ev(PMul(yp, PScale(-1, y)), X) == Ev(PScale(-1, PMul(yp, y)), X) {
      EvScale(-1, p, X);
      EvSpreadIs(Spread(PScale(-1, y)), X);
      EvSpreadIs(Spread(y), X);
      EvSpreadIs(PScale(-1, y), X * X * X);
      EvSpreadIs(y, X * X * X);
      EvScale(-1, y, (X * X * X) * (X * X * X) * (X * X * X));
      EvMul(yp, PScale(-1, y), X);
      EvScale(-1, y, X);
      EvScale(-1, PMul(yp, y), X);
      EvMul(yp, y, X);
      SignValue(Ev(yp, X), Ev(y, X));
    }
    RepEqual(F, KNeg(Ninth(F, KNeg(y))), PScale(-1, p), Ninth(F, y), q);
    RepMul(F, yp, yp, y, y);
    RepNeg(F, KMul(F, yp, y), PMul(yp, y));
    RepMul(F, yp, yp, KNeg(y), PScale(-1, y));
    RepEqual(F, KMul(F, yp, KNeg(y)), PMul(yp, PScale(-1, y)), KNeg(KMul(F, yp, y)), PScale(-1, PMul(yp, y)));
  }

  lemma SignValue(a: int, b: int)
    ensures a * (-1 * b) == -1 * (a * b)
  {
  }

  lemma {:induction false} KClosed(F: Field, a: Poly, b: Poly)
    requires Good(F) && InK(F, a) && InK(F, b)
    ensures |a| == |b| == F.m > 0
    ensures InK(F, KAdd(a, b)) && InK(F, KSub(a, b)) && InK(F, KNeg(a)) && InK(F, KMul(F, a, b)) && InK(F, KCube(F, a)) && InK(F, KOne(F))
    ensures InK(F, Ninth(F, a)) && InK(F, KZero(F))
  {
    hide Cong, KMul, KCube, KSub, KNeg, KOne, KZero, KAdd, Ninth;
    RepSelf(F, a);
    RepSelf(F, b);
    RepAdd(F, a, a, b, b);
    RepSub(F, a, a, b, b);
    RepNeg(F, a, a);
    RepMul(F, a, a, b, b);
    RepCube(F, a, a);
    RepConstants(F);
    NinthRep(F, a, a);
  }

  lemma {:induction false} DoubleRound(F: Field, xp: Poly, yp: Poly, s: State)
    requires Good(F) && InK(F, xp) && InK(F, yp) && InField(F, s)
    ensures |xp| == |yp| == F.m && SizedState(F, s) && Step5(F, xp, yp, s) == Step4(F, xp, yp, Step4(F, xp, yp, s))
    ensures InField(F, Step5(F, xp, yp, s))
  {
    hide Gf33mMult, Gf33mCubic, Tangent, TangentCubed, KAdd, KSub, KNeg, KMul, KOne, Ninth, InK6, InK, Sized6, Good;
    StateSizes(F, xp, yp, s);
    KClosed(F, s.xq, xp);
    KClosed(F, s.yq, yp);
    var e1 := KOne(F);
    KClosed(F, Ninth(F, s.xq), e1);
    var x1, y1 := KSub(Ninth(F, s.xq), e1), Ninth(F, s.yq);
    KClosed(F, xp, x1);
    KClosed(F, y1, y1);
    KClosed(F, yp, y1);
    KClosed(F, yp, KNeg(y1));
    SignsAgree(F, yp, y1);
    KClosed(F, x1, e1);
    KClosed(F, Ninth(F, x1), e1);
    var x2, y2 := KSub(Ninth(F, x1), e1), Ninth(F, y1);
    KClosed(F, xp, x2);
    KClosed(F, yp, y2);
    var t1, u1 := KAdd(xp, x1), KMul(F, yp, KNeg(y1));
    var t2, u2 := KAdd(xp, x2), KMul(F, yp, y2);
    RepTangent(F, t1, u1);
    RepTangent(F, t2, u2);
    ClosedForm(F, t1, u1);
    Regrouped(F, s.R, Tangent(F, t1, u1), Tangent(F, t2, u2));
  }

  lemma {:induction false} StateSizes(F: Field, xp: Poly, yp: Poly, s: State)
    requires Good(F) && InK(F, xp) && InK(F, yp) && InField(F, s)
    ensures |xp| == |yp| == F.m > 0 && SizedState(F, s) && InK6(F, s.R) && InK(F, s.xq) && InK(F, s.yq)
  {
  }

  // (R^3*E1)^3*E2 = R^9*(E1^3*E2)
  lemma {:induction false} Regrouped(F: Field, R: K6, E1: K6, E2: K6)
    requires Good(F) && InK6(F, R) && InK6(F, E1) && InK6(F, E2)
    ensures Sized6(F, R) && Sized6(F, E1) && Sized6(F, E2)
    ensures Gf33mMult(F, Gf33mCubic(F, Gf33mMult(F, Gf33mCubic(F, R), E1)), E2) ==
      Gf33mMult(F, Gf33mCubic(F, Gf33mCubic(F, R)), Gf33mMult(F, Gf33mCubic(F, E1), E2))
    ensures InK6(F, Gf33mMult(F, Gf33mCubic(F, Gf33mCubic(F, R)), Gf33mMult(F, Gf33mCubic(F, E1), E2)))
  {
    hide *;
    CubicMultiplies(F, R, E1);
    var C := Gf33mCubic(F, R);
    CubicMultiplies(F, C, E1);
    CubicMultiplies(F, E1, E2);
    var D := Gf33mCubic(F, E1);
    MultAssociates(F, Gf33mCubic(F, C), D, E2);
    CubicMultiplies(F, D, E2);
    CubicMultiplies(F, Gf33mCubic(F, C), Gf33mMult(F, D, E2));
  }

  // ---------------------------------------------------------------- the routines

  method Algorithm4(F: Field, xp0: Poly, yp0: Poly, xq0: Poly, yq0: Poly) returns (c: K6)
    requires Good(F) && InK(F, xp0) && InK(F, yp0) && InK(F, xq0) && InK(F, yq0)
    ensures |xp0| == |yp0| == |xq0| == |yq0| == F.m
    ensures c == Iterate4(F, StartXp(F, xp0), StartYp(F, yp0), Start(F, xp0, yp0, xq0, yq0), (F.m - 1) / 2).R
  {
    hide Gf33mMult, Gf33mCubic, Tangent, KAdd, KSub, KNeg, KMul, KOne, KCube, StartXp, StartYp, Start;
    var xp, yp := StartXp(F, xp0), StartYp(F, yp0);
    var start := Start(F, xp0, yp0, xq0, yq0);
    var R, xq, yq := start.R, start.xq, start.yq;
    var e1 := KOne(F);
    for i := 0 to (F.m - 1) / 2
      invariant SizedState(F, State(R, xq, yq)) && State(R, xq, yq) == Iterate4(F, xp, yp, start, i)
    {
      R := Gf33mCubic(F, R);
      xq := KCube(F, xq);
      xq := KCube(F, xq);
      xq := KSub(xq, e1);
      yq := KCube(F, yq);
      yq := KCube(F, yq);
      yq := KNeg(yq);
      var t := KAdd(xp, xq);
      var u := KMul(F, yp, yq);
      var S := Tangent(F, t, u);
      R := Gf33mMult(F, R, S);
    }
    c := R;
  }

  lemma {:induction false} StartIn(F: Field, xp: Poly, yp: Poly, xq: Poly, yq: Poly)
    requires Good(F) && InK(F, xp) && InK(F, yp) && InK(F, xq) && InK(F, yq)
    ensures |xp| == |yp| == |xq| == |yq| == F.m > 0
    ensures InK(F, StartXp(F, xp)) && InK(F, StartYp(F, yp)) && InField(F, Start(F, xp, yp, xq, yq))
  {
    hide Gf33mMult, Tangent, KAdd, KNeg, KMul, KOne, KCube, KZero, InK, Good;
    KClosed(F, xp, xq);
    KClosed(F, yp, yq);
    KClosed(F, xq, yq);
    KClosed(F, yq, yq);
    KClosed(F, xp, KOne(F));
    var x, y := StartXp(F, xp), StartYp(F, yp);
    var X, Y := KCube(F, xq), KCube(F, yq);
    KClosed(F, x, X);
    KClosed(F, y, Y);
    KClosed(F, Y, Y);
    var t := KAdd(x, X);
    KClosed(F, y, t);
    KClosed(F, KMul(F, y, t), t);
    RepTangent(F, t, KMul(F, y, Y));
    var z := KZero(F);
    var a1 :=
      if F.m % 12 == 7 || F.m % 12 == 11 then K6(K2(KMul(F, y, t), KNeg(Y)), K2(KNeg(y), z), K2(z, z))
      else K6(K2(KNeg(KMul(F, y, t)), Y), K2(y, z), K2(z, z));
    CubicMultiplies(F, a1, Tangent(F, t, KMul(F, y, Y)));
  }

  lemma {:induction false} IterateTwice(F: Field, xp: Poly, yp: Poly, s: State, n: nat)
    requires |xp| == |yp| == F.m && SizedState(F, s)
    ensures Iterate4(F, xp, yp, s, n + 2) == Step4(F, xp, yp, Step4(F, xp, yp, Iterate4(F, xp, yp, s, n)))
  {
    hide Step4, SizedState;
    assert Iterate4(F, xp, yp, s, n + 2) == Step4(F, xp, yp, Iterate4(F, xp, yp, s, n + 1));
  }

  // Every double round does two rounds; when the number of rounds is even that is all of them.
  method Algorithm5(F: Field, xp0: Poly, yp0: Poly, xq0: Poly, yq0: Poly) returns (c: K6)
    requires Good(F) && InK(F, xp0) && InK(F, yp0) && InK(F, xq0) && InK(F, yq0)
    ensures |xp0| == |yp0| == |xq0| == |yq0| == F.m
    ensures c == Iterate4(F, StartXp(F, xp0), StartYp(F, yp0), Start(F, xp0, yp0, xq0, yq0), 2 * ((F.m - 1) / 4)).R
    ensures (F.m - 1) / 2 % 2 == 0 ==> c == Iterate4(F, StartXp(F, xp0), StartYp(F, yp0), Start(F, xp0, yp0, xq0, yq0), (F.m - 1) / 2).R
  {
    hide Gf33mMult, Gf33mCubic, Tangent, TangentCubed, KAdd, KSub, KNeg, KMul, KOne, KCube, StartXp, StartYp, Start, InField, InK, InK6, Good, Step4, Sized6;
    StartIn(F, xp0, yp0, xq0, yq0);
    var xp, yp := StartXp(F, xp0), StartYp(F, yp0);
    var start := Start(F, xp0, yp0, xq0, yq0);
    var R, xq, yq := start.R, start.xq, start.yq;
    var e1 := KOne(F);
    for i := 0 to (F.m - 1) / 4
      invariant InField(F, State(R, xq, yq)) && SizedState(F, start)
      invariant State(R, xq, yq) == Iterate4(F, xp, yp, start, 2 * i)
    {
      ghost var s := State(R, xq, yq);
      StateSizes(F, xp, yp, s);
      DoubleRound(F, xp, yp, s);
      IterateTwice(F, xp, yp, start, 2 * i);
      R := Gf33mCubic(F, R);
      R := Gf33mCubic(F, R);
      xq := KCube(F, xq);
      xq := KCube(F, xq);
      xq := KSub(xq, e1);
      yq := KCube(F, yq);
      yq := KCube(F, yq);
      var t := KAdd(xp, xq);
      var u := KMul(F, yp, yq);
      var nu := KNeg(u);
      var S := TangentCubed(F, t, nu);
      xq := KCube(F, xq);
      xq := KCube(F, xq);
      xq := KSub(xq, e1);
      yq := KCube(F, yq);
      yq := KCube(F, yq);
      t := KAdd(xp, xq);
      u := KMul(F, yp, yq);
      var S2 := Tangent(F, t, u);
      S := Gf33mMult(F, S, S2);
      R := Gf33mMult(F, R, S);
      assert 2 * i + 2 == 2 * (i + 1);
    }
    c := R;
  }
}

