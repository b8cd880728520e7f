// The group of points of y^2 = x^3 - x + 1 over GF(3^m): square roots, random points, sums by chord and tangent.
module TernaryPoints {
  import opened Arith
  import opened Polynomials
  import opened TernaryTower
  import opened TernaryIdentities
  import opened TernaryFermat
  import opened TernaryFrobenius
  import opened CubicExtension
  import EtaPairing

  datatype Point = Infinity | Affine(x: Poly, y: Poly)

  // x^3 - x + 1
  function Cubic(F: Field, x: Poly): (r: Poly)
    requires |x| == F.m > 0
    ensures |r| == F.m
  {
    KAdd(KSub(KCube(F, x), x), KOne(F))
  }

  ghost predicate OnCurve(F: Field, P: Point)
  {
    P.Affine? ==> InK(F, P.x) && InK(F, P.y) && |P.x| == |P.y| == F.m > 0 && KMul(F, P.y, P.y) == Cubic(F, P.x)
  }

  lemma OnCurveIs(F: Field, x: Poly, y: Poly)
    requires InK(F, x) && InK(F, y)
    ensures |x| == |y| == F.m && (F.m > 0 ==> (OnCurve(F, Affine(x, y)) <==> KMul(F, y, y) == Cubic(F, x)))
  {
    hide KMul, Cubic;
  }

  lemma CubicIs(F: Field, x: Poly)
    requires |x| == F.m > 0
    ensures Cubic(F, x) == KAdd(KSub(KCube(F, x), x), KOne(F))
  {
    hide KCube, KAdd, KSub, KOne;
  }

  // ---------------------------------------------------------------- square roots

  // gf3m_sqrt: the power (3^m + 1)/4, the division rounding down.
  function Sqrt(F: Field, a: Poly): (r: Poly)
    requires |a| == F.m > 0
    ensures |r| == F.m
  {
    KPow(F, a, (Size(F) + 1) / 4)
  }

  ghost predicate IsSquare(F: Field, a: Poly)
  {
    exists b :: InK(F, b) && IsRoot(F, b, a)
  }

  ghost predicate IsRoot(F: Field, b: Poly, a: Poly)
  {
    |b| == F.m > 0 && KMul(F, b, b) == a
  }

  lemma {:induction false} SizeModFour(F: Field, m: nat)
    ensures Pow(3, m) % 4 == if m % 2 == 1 then 3 else 1
  {
    hide *;
    PowerOfThree(m);
    if m > 0 {
      SizeModFour(F, m - 1);
      TimesThree(Pow(3, m - 1));
    }
  }

  lemma TimesThree(n: int)
    ensures n % 4 == 1 ==> 3 * n % 4 == 3
    ensures n % 4 == 3 ==> 3 * n % 4 == 1
  {
  }

  // For odd m the routine finds a root of every square, and of nothing else.
  lemma {:induction false} SqrtIff(F: Field, a: Poly)
    requires IsField(F) && F.m % 2 == 1 && InK(F, a)
    ensures |a| == F.m > 0 && InK(F, Sqrt(F, a)) && (KMul(F, Sqrt(F, a), Sqrt(F, a)) == a <==> IsSquare(F, a))
  {
    hide *;
    IsGood(F);
    KUnits(F, a);
    SqrtIn(F, a);
    var r := Sqrt(F, a);
    if KMul(F, r, r) == a { RootFound(F, r, a); }
    if IsSquare(F, a) {
      var b := RootOf(F, a);
      SqrtOfSquare(F, b);
      RootMeans(F, b, a);
    }
  }

  lemma {:induction false} SqrtIn(F: Field, a: Poly)
    requires Good(F) && InK(F, a)
    ensures |a| == F.m > 0 && InK(F, Sqrt(F, a)) && Sqrt(F, a) == KPow(F, a, (Size(F) + 1) / 4)
  {
    hide InK, KPow, Size, KMul;
    KUnits(F, a);
    KPowIn(F, a, (Size(F) + 1) / 4);
  }

  lemma RootFound(F: Field, r: Poly, a: Poly)
    requires InK(F, r) && |r| == F.m > 0 && KMul(F, r, r) == a
    ensures IsSquare(F, a)
  {
    hide InK, KMul;
    assert IsRoot(F, r, a);
  }

  lemma RootOf(F: Field, a: Poly) returns (b: Poly)
    requires IsSquare(F, a)
    ensures InK(F, b) && IsRoot(F, b, a)
  {
    hide InK, IsRoot;
    b :| InK(F, b) && IsRoot(F, b, a);
  }

  lemma RootMeans(F: Field, b: Poly, a: Poly)
    ensures IsRoot(F, b, a) <==> |b| == F.m > 0 && KMul(F, b, b) == a
  {
    hide KMul;
  }

  lemma {:induction false} SqrtOfSquare(F: Field, b: Poly)
    requires IsField(F) && F.m % 2 == 1 && InK(F, b)
    ensures |b| == F.m > 0
    ensures var a := KMul(F, b, b); InK(F, a) && KMul(F, Sqrt(F, a), Sqrt(F, a)) == a
  {
    hide *;
    IsGood(F);
    KUnits(F, b);
    KCommutes(F, b, b);
    var a, n := KMul(F, b, b), Size(F);
    SqrtIn(F, a);
    SizeIs(F);
    SizeModFour(F, F.m);
    var h := (n + 1) / 4;
    assert h + h + h + h == n + 1;
    KPowSum(F, a, h, h);
    SquaredPower(F, b, 2 * h);
    KPowSum(F, b, 2 * h, 2 * h);
    Fermat(F, b);
    KPowUnfolds(F, b, n + 1);
  }

  // (b*b)^n = b^n * b^n
  lemma {:induction false} SquaredPower(F: Field, b: Poly, n: nat)
    requires Good(F) && InK(F, b)
    ensures |b| == F.m > 0 && KPow(F, KMul(F, b, b), n) == KMul(F, KPow(F, b, n), KPow(F, b, n))
  {
    hide *;
    KUnits(F, b);
    KCommutes(F, b, b);
    KPowUnfolds(F, b, n);
    KPowUnfolds(F, KMul(F, b, b), n);
    if n == 0 {
      KUnits(F, KOne(F));
    } else {
      SquaredPower(F, b, n - 1);
      KPowIn(F, b, n - 1);
      TwoByTwo(F, b, b, KPow(F, b, n - 1), KPow(F, b, n - 1));
    }
  }

  // ---------------------------------------------------------------- random points

  ghost predicate Refused(F: Field, x: Poly)
  {
    |x| == F.m > 0 && (x == KZero(F) || !IsSquare(F, Cubic(F, x)))
  }

  // xs holds the successive random elements, y0 the ordinate before the call. The loop ends at the first nonzero x with
  // a point; but a zero that comes first leaves the two compared elements as they were created, equal, and ends it too.
  method PointRandom(F: Field, xs: seq<Poly>, y0: Poly) returns (P: Point, used: nat, found: bool)
    requires IsField(F) && F.m % 2 == 1 && AllIn(F, xs) && InK(F, y0)
    ensures used <= |xs| && P.Affine? && (found ==> used > 0 && P.x == xs[used - 1])
    ensures F.m > 0 && found ==> (OnCurve(F, P) <==> xs[0] != KZero(F) || KMul(F, y0, y0) == KOne(F))
    ensures |xs| > 0 && xs[0] == KZero(F) ==> found && used == 1 && P == Affine(KZero(F), y0)
    ensures |xs| > 0 && xs[0] != KZero(F) ==> forall i :: 0 <= i < (if found then used - 1 else |xs|) ==> Refused(F, xs[i])
  {
    hide *;
    IsGood(F);
    KUnits(F, y0);
    ListedIn(F, xs);
    var x, y := KZero(F), y0;
    var t, t2 := KZero(F), KZero(F);
    used := 0;
    found := false;
    while !found && used < |xs|
      invariant 0 <= used <= |xs| && InK(F, y)
      invariant used == 0 ==> y == y0 && t == t2 && !found
      invariant found ==> used > 0 && x == xs[used - 1]
      invariant used > 0 ==> (found <==> t == t2)
      invariant used > 0 && xs[0] == KZero(F) ==> found && used == 1 && y == y0
      invariant used > 0 && xs[0] != KZero(F) ==> forall i :: 0 <= i < (if found then used - 1 else used) ==> Refused(F, xs[i])
      invariant found && xs[0] != KZero(F) ==> OnCurve(F, Affine(x, y))
    {
      x := xs[used];
      LengthOf(F, x);
      RefusedIs(F, x);
      if x != KZero(F) {
        CubicIn(F, x);
        t := Cubic(F, x);
        y := Sqrt(F, t);
        t2 := KMul(F, y, y);
        SqrtIff(F, t);
        OnCurveIs(F, x, y);
      }
      found := t2 == t;
      used := used + 1;
    }
    P := Affine(x, y);
    if found && xs[0] == KZero(F) {
      OnCurveIs(F, x, y);
      CubicOfZero(F);
    }
  }

  // Such a run: a first candidate 0 into an element whose ordinate is still 0 gives (0, 0), which is not on the curve.
  method PointRandomFails(F: Field) returns (P: Point)
    requires IsField(F) && F.m % 2 == 1
    ensures F.m > 0 && P == Affine(KZero(F), KZero(F)) && !OnCurve(F, P)
  {
    hide *;
    IsGood(F);
    ZeroInField(F);
    var used, found;
    P, used, found := PointRandom(F, [KZero(F)], KZero(F));
    KUnits(F, KZero(F));
    OneNotZero(F);
  }

  lemma {:induction false} ZeroInField(F: Field)
    requires Good(F)
    ensures F.m > 0 && InK(F, KZero(F)) && AllIn(F, [KZero(F)]) && KMul(F, KZero(F), KZero(F)) == KZero(F)
  {
    hide InK, KMul, KZero;
    EtaPairing.RepConstants(F);
    EtaPairing.RepIn(F, KZero(F), []);
    KUnits(F, KZero(F));
  }

  lemma ListedIn(F: Field, xs: seq<Poly>)
    requires AllIn(F, xs)
    ensures forall i :: 0 <= i < |xs| ==> InK(F, xs[i])
  {
    hide InK;
  }

  lemma LengthOf(F: Field, x: Poly)
    requires Good(F) && InK(F, x)
    ensures |x| == F.m > 0
  {
  }

  lemma RefusedIs(F: Field, x: Poly)
    requires |x| == F.m > 0
    ensures Refused(F, x) <==> x == KZero(F) || !IsSquare(F, Cubic(F, x))
  {
    hide IsSquare, Cubic, KZero;
  }

  lemma {:induction false} CubicIn(F: Field, x: Poly)
    requires Good(F) && InK(F, x)
    ensures |x| == F.m > 0 && InK(F, Cubic(F, x)) && InK(F, KCube(F, x))
  {
    hide *;
    KUnits(F, x);
    CubicIs(F, x);
    EtaPairing.KClosed(F, x, x);
    EtaPairing.KClosed(F, KCube(F, x), x);
    EtaPairing.KClosed(F, KSub(KCube(F, x), x), KOne(F));
  }

  lemma {:induction false} CubicOfZero(F: Field)
    requires Good(F)
    ensures F.m > 0 && InK(F, KZero(F)) && |KZero(F)| == F.m && Cubic(F, KZero(F)) == KOne(F)
  {
    hide InK, KMul, KAdd, KSub, KScale, KOne, KZero, KCube;
    EtaPairing.RepConstants(F);
    EtaPairing.RepIn(F, KZero(F), []);
    EtaPairing.RepIn(F, KOne(F), [1]);
    KUnits(F, KOne(F));
    KUnits(F, KZero(F));
    CubeIs(F, KZero(F));
  }

  // ---------------------------------------------------------------- sums

  // The slope of the chord, or of the tangent where the points agree.
  predicate IsSlope(F: Field, P: Point, Q: Point, l: Poly)
    requires P.Affine? && Q.Affine? && |P.x| == |P.y| == |Q.x| == |Q.y| == |l| == F.m > 0
  {
    if P.x != Q.x then KMul(F, l, KSub(Q.x, P.x)) == KSub(Q.y, P.y) else KMul(F, l, P.y) == KOne(F)
  }

  // The third point of the line, reflected.
  predicate IsThird(F: Field, P: Point, Q: Point, l: Poly, S: Point)
    requires P.Affine? && Q.Affine? && |P.x| == |P.y| == |Q.x| == |Q.y| == |l| == F.m > 0
  {
    && S.Affine? && |S.x| == |S.y| == F.m
    && S.x == KSub(KMul(F, l, l), KAdd(P.x, Q.x))
    && S.y == KNeg(KAdd(P.y, KMul(F, l, KSub(S.x, P.x))))
  }

  // w is y*y + x - 1 on the curve.
  lemma {:induction false} CubeOnCurve(F: Field, x: Poly, y: Poly)
    requires Good(F) && OnCurve(F, Affine(x, y))
    ensures |x| == |y| == F.m > 0 && KCube(F, x) == KSub(KAdd(KMul(F, y, y), x), KOne(F)) && InK(F, KCube(F, x))
  {
    hide InK, KMul, KAdd, KSub, KScale, KOne, KZero, KCube;
    CubicIn(F, x);
    KUnits(F, x);
    HoldsInField(F, Dif(Sum(Sum(Dif(Var(0), Var(1)), One), Var(1)), One), Var(0), Null, [KCube(F, x), x]);
  }

  // l*(y1 + y2) = d^2 - 1
  lemma {:induction false} SlopeTimesSum(F: Field, x1: Poly, y1: Poly, x2: Poly, y2: Poly, l: Poly)
    requires IsField(F) && OnCurve(F, Affine(x1, y1)) && OnCurve(F, Affine(x2, y2)) && InK(F, l) && x1 != x2
    requires |x1| == |y1| == |x2| == |y2| == |l| == F.m > 0 ==> KMul(F, l, KSub(x2, x1)) == KSub(y2, y1)
    ensures |x1| == |y1| == |x2| == |y2| == |l| == F.m > 0
    ensures var d := KSub(x2, x1); InK(F, d) && KMul(F, l, KAdd(y1, y2)) == KSub(KMul(F, d, d), KOne(F))
  {
    hide IsField, InK, KMul, KAdd, KSub, KScale, KOne, KZero, KCube, Cubic;
    IsGood(F);
    CubicIn(F, x1);
    CubicIn(F, x2);
    KUnits(F, l);
    EtaPairing.KClosed(F, x2, x1);
    EtaPairing.KClosed(F, y1, y2);
    EtaPairing.KClosed(F, l, KAdd(y1, y2));
    var d, s := KSub(x2, x1), KAdd(y1, y2);
    EtaPairing.KClosed(F, d, d);
    EtaPairing.KClosed(F, KMul(F, d, d), KOne(F));
    CubeOfDifference(F, x2, x1);
    CubeIs(F, d);
    CubicIs(F, x1);
    CubicIs(F, x2);
    DifferenceIsZero(F, x2, x1);
    Regroup(F, d, l, s);
    SquareDifference(F, y1, y2);
    CurveDifference(F, KCube(F, x1), x1, KCube(F, x2), x2);
    LessItself(F, d);
    CancelFactor(F, d, KMul(F, l, s), KSub(KMul(F, d, d), KOne(F)));
  }

  lemma {:induction false} Regroup(F: Field, d: Poly, l: Poly, s: Poly)
    requires Good(F) && InK(F, d) && InK(F, l) && InK(F, s)
    ensures |d| == |l| == |s| == F.m > 0 && KMul(F, d, KMul(F, l, s)) == KMul(F, KMul(F, l, d), s)
  {
    hide InK, KMul, KAdd, KSub, KScale, KOne, KZero;
    HoldsInField(F, Prod(Var(0), Prod(Var(1), Var(2))), Prod(Prod(Var(1), Var(0)), Var(2)), Null, [d, l, s]);
  }

  lemma {:induction false} SquareDifference(F: Field, a: Poly, b: Poly)
    requires Good(F) && InK(F, a) && InK(F, b)
    ensures |a| == |b| == F.m > 0 && KMul(F, KSub(b, a), KAdd(a, b)) == KSub(KMul(F, b, b), KMul(F, a, a))
  {
    hide InK, KMul, KAdd, KSub, KScale, KOne, KZero;
    HoldsInField(F, Prod(Dif(Var(1), Var(0)), Sum(Var(0), Var(1))), Dif(Prod(Var(1), Var(1)), Prod(Var(0), Var(0))), Null, [a, b]);
  }

  lemma {:induction false} CurveDifference(F: Field, w1: Poly, x1: Poly, w2: Poly, x2: Poly)
    requires Good(F) && InK(F, w1) && InK(F, x1) && InK(F, w2) && InK(F, x2)
    ensures |w1| == |x1| == |w2| == |x2| == F.m > 0
    ensures KSub(KAdd(KSub(w2, x2), KOne(F)), KAdd(KSub(w1, x1), KOne(F))) == KSub(KSub(w2, w1), KSub(x2, x1))
  {
    hide InK, KMul, KAdd, KSub, KScale, KOne, KZero;
    HoldsInField(F, Dif(Sum(Dif(Var(2), Var(3)), One), Sum(Dif(Var(0), Var(1)), One)), Dif(Dif(Var(2), Var(0)), Dif(Var(3), Var(1))), Null,
      [w1, x1, w2, x2]);
  }

  // d*(d*d) - d = d*(d*d - 1)
  lemma {:induction false} LessItself(F: Field, d: Poly)
    requires Good(F) && InK(F, d)
    ensures |d| == F.m > 0 && KSub(KMul(F, d, KMul(F, d, d)), d) == KMul(F, d, KSub(KMul(F, d, d), KOne(F)))
  {
    hide InK, KMul, KAdd, KSub, KScale, KOne, KZero;
    HoldsInField(F, Dif(Prod(Var(0), Prod(Var(0), Var(0))), Var(0)), Prod(Var(0), Dif(Prod(Var(0), Var(0)), One)), Null, [d]);
  }

  // The cubic at l^2 - (x1 + x2), with c for the cube of l.
  lemma {:induction false} CubicAtSum(F: Field, l: Poly, x1: Poly, y1: Poly, x2: Poly, y2: Poly)
    requires Good(F) && InK(F, l) && OnCurve(F, Affine(x1, y1)) && OnCurve(F, Affine(x2, y2))
    ensures |l| == |x1| == |y1| == |x2| == |y2| == F.m > 0
    ensures var x := KSub(KMul(F, l, l), KAdd(x1, x2)); var c := KCube(F, l);
            InK(F, x) && InK(F, c) && Cubic(F, x) == KAdd(KSub(KSub(KMul(F, c, c), KAdd(KSub(KAdd(KMul(F, y1, y1), x1), KOne(F)),
              KSub(KAdd(KMul(F, y2, y2), x2), KOne(F)))), x), KOne(F))
  {
    hide InK, KMul, KAdd, KSub, KScale, KOne, KZero, KCube, Cubic;
    CubicIn(F, l);
    CubeOnCurve(F, x1, y1);
    CubeOnCurve(F, x2, y2);
    EtaPairing.KClosed(F, l, l);
    EtaPairing.KClosed(F, x1, x2);
    EtaPairing.KClosed(F, KMul(F, l, l), KAdd(x1, x2));
    var x := KSub(KMul(F, l, l), KAdd(x1, x2));
    CubicIs(F, x);
    CubeOfDifference(F, KMul(F, l, l), KAdd(x1, x2));
    CubeOfSum(F, x1, x2);
    CubeIs(F, l);
    CubeIs(F, KMul(F, l, l));
    CubeOfSquare(F, l);
  }

  lemma {:induction false} CubeOfSquare(F: Field, l: Poly)
    requires Good(F) && InK(F, l)
    ensures |l| == F.m > 0
    ensures var q, c := KMul(F, l, l), KMul(F, l, KMul(F, l, l)); KMul(F, q, KMul(F, q, q)) == KMul(F, c, c)
  {
    hide InK, KMul, KAdd, KSub, KScale, KOne, KZero;
    HoldsInField(F, Prod(Prod(Var(0), Var(0)), Prod(Prod(Var(0), Var(0)), Prod(Var(0), Var(0)))),
      Prod(Prod(Var(0), Prod(Var(0), Var(0))), Prod(Var(0), Prod(Var(0), Var(0)))), Null, [l]);
  }

  // y3^2 less the cubic at x3 is c(y1 + y2) + l^2 - (y2 - y1)^2.
  lemma {:induction false} ChordExcess(F: Field, x1: Poly, y1: Poly, x2: Poly, y2: Poly, l: Poly, c: Poly)
    requires Good(F) && InK(F, x1) && InK(F, y1) && InK(F, x2) && InK(F, y2) && InK(F, l) && InK(F, c)
    ensures |x1| == |y1| == |x2| == |y2| == |l| == |c| == F.m > 0
    ensures var x, y := KSub(KMul(F, l, l), KAdd(x1, x2)), KSub(KAdd(y1, y2), c);
            KMul(F, y, y) == KAdd(KAdd(KSub(KSub(KMul(F, c, c), KAdd(KSub(KAdd(KMul(F, y1, y1), x1), KOne(F)),
              KSub(KAdd(KMul(F, y2, y2), x2), KOne(F)))), x), KOne(F)),
              KSub(KAdd(KMul(F, c, KAdd(y1, y2)), KMul(F, l, l)), KMul(F, KSub(y2, y1), KSub(y2, y1))))
  {
    hide InK, KMul, KAdd, KSub, KScale, KOne, KZero;
    HoldsInField(F, Prod(Dif(Sum(Var(1), Var(3)), Var(5)), Dif(Sum(Var(1), Var(3)), Var(5))),
      Sum(Sum(Dif(Dif(Prod(Var(5), Var(5)), Sum(Dif(Sum(Prod(Var(1), Var(1)), Var(0)), One), Dif(Sum(Prod(Var(3), Var(3)), Var(2)), One))),
        Dif(Prod(Var(4), Var(4)), Sum(Var(0), Var(2)))), One),
        Dif(Sum(Prod(Var(5), Sum(Var(1), Var(3))), Prod(Var(4), Var(4))), Prod(Dif(Var(3), Var(1)), Dif(Var(3), Var(1))))),
      Sum(Dif(Sum(Prod(Var(1), Var(1)), Prod(Var(3), Var(3))), Prod(Var(5), Sum(Var(1), Var(3)))), Times(-1, One)),
      [x1, y1, x2, y2, l, c]);
  }

  // l^3*s + l^2 - (l*d)^2 = 0 where l*s = d^2 - 1.
  lemma {:induction false} ExcessVanishes(F: Field, l: Poly, s: Poly, d: Poly)
    requires Good(F) && InK(F, l) && InK(F, s) && InK(F, d)
    requires |l| == |s| == |d| == F.m > 0 ==> KMul(F, l, s) == KSub(KMul(F, d, d), KOne(F))
    ensures |l| == |s| == |d| == F.m > 0
    ensures var q := KMul(F, l, d); KSub(KAdd(KMul(F, KCube(F, l), s), KMul(F, l, l)), KMul(F, q, q)) == KZero(F)
  {
    hide *;
    KUnits(F, l);
    KUnits(F, s);
    KUnits(F, d);
    CubeIs(F, l);
    CubeTimes(F, l, s);
    SquaresCancel(F, l, d);
  }

  lemma {:induction false} CubeTimes(F: Field, l: Poly, s: Poly)
    requires Good(F) && InK(F, l) && InK(F, s)
    ensures |l| == |s| == F.m > 0 && KMul(F, KMul(F, l, KMul(F, l, l)), s) == KMul(F, l, KMul(F, l, KMul(F, l, s)))
  {
    hide InK, KMul, KAdd, KSub, KScale, KOne, KZero;
    HoldsInField(F, Prod(Prod(Var(0), Prod(Var(0), Var(0))), Var(1)), Prod(Var(0), Prod(Var(0), Prod(Var(0), Var(1)))), Null, [l, s]);
  }

  lemma {:induction false} SquaresCancel(F: Field, l: Poly, d: Poly)
    requires Good(F) && InK(F, l) && InK(F, d)
    ensures |l| == |d| == F.m > 0
    ensures KSub(KAdd(KMul(F, l, KMul(F, l, KSub(KMul(F, d, d), KOne(F)))), KMul(F, l, l)), KMul(F, KMul(F, l, d), KMul(F, l, d))) == KZero(F)
  {
    hide InK, KMul, KAdd, KSub, KScale, KOne, KZero;
    HoldsInField(F, Dif(Sum(Prod(Var(0), Prod(Var(0), Dif(Prod(Var(1), Var(1)), One))), Prod(Var(0), Var(0))),
      Prod(Prod(Var(0), Var(1)), Prod(Var(0), Var(1)))), Var(2), Null, [l, d]);
  }

  // The reflected third point of the chord is on the curve.
  lemma {:induction false} ChordOnCurve(F: Field, x1: Poly, y1: Poly, x2: Poly, y2: Poly, l: Poly)
    requires IsField(F) && OnCurve(F, Affine(x1, y1)) && OnCurve(F, Affine(x2, y2)) && InK(F, l) && x1 != x2
    requires |x1| == |y1| == |x2| == |y2| == |l| == F.m > 0 ==> KMul(F, l, KSub(x2, x1)) == KSub(y2, y1)
    ensures |x1| == |y1| == |x2| == |y2| == |l| == F.m > 0
    ensures OnCurve(F, Affine(KSub(KMul(F, l, l), KAdd(x1, x2)), KSub(KAdd(y1, y2), KCube(F, l))))
  {
    hide IsField, InK, KMul, KAdd, KSub, KScale, KOne, KZero, KCube, Cubic;
    IsGood(F);
    SlopeTimesSum(F, x1, y1, x2, y2, l);
    CubicAtSum(F, l, x1, y1, x2, y2);
    var d, s, c := KSub(x2, x1), KAdd(y1, y2), KCube(F, l);
    EtaPairing.KClosed(F, y1, y2);
    EtaPairing.KClosed(F, s, c);
    ExcessVanishes(F, l, s, d);
    ChordExcess(F, x1, y1, x2, y2, l, c);
    var x := KSub(KMul(F, l, l), KAdd(x1, x2));
    CubicIn(F, x);
    KUnits(F, Cubic(F, x));
    KCommutes(F, KZero(F), Cubic(F, x));
  }

  lemma {:induction false} TangentExcess(F: Field, x: Poly, y: Poly, l: Poly, c: Poly)
    requires Good(F) && InK(F, x) && InK(F, y) && InK(F, l) && InK(F, c)
    ensures |x| == |y| == |l| == |c| == F.m > 0
    ensures KMul(F, KNeg(KAdd(c, y)), KNeg(KAdd(c, y))) == KAdd(KAdd(KSub(KSub(KMul(F, c, c), KAdd(KSub(KAdd(KMul(F, y, y), x), KOne(F)),
              KSub(KAdd(KMul(F, y, y), x), KOne(F)))), KSub(KMul(F, l, l), KAdd(x, x))), KOne(F)), KSub(KMul(F, l, l), KMul(F, c, y)))
  {
    hide InK, KMul, KAdd, KSub, KScale, KOne, KZero;
    HoldsInField(F, Prod(Times(-1, Sum(Var(3), Var(1))), Times(-1, Sum(Var(3), Var(1)))),
      Sum(Sum(Dif(Dif(Prod(Var(3), Var(3)), Sum(Dif(Sum(Prod(Var(1), Var(1)), Var(0)), One), Dif(Sum(Prod(Var(1), Var(1)), Var(0)), One))),
        Dif(Prod(Var(2), Var(2)), Sum(Var(0), Var(0)))), One), Dif(Prod(Var(2), Var(2)), Prod(Var(3), Var(1)))),
      Sum(Sum(Prod(Var(1), Var(1)), Prod(Var(3), Var(1))), Times(-1, One)), [x, y, l, c]);
  }

  // l^2 = l^3*y where l*y = 1.
  lemma {:induction false} TangentVanishes(F: Field, y: Poly, l: Poly)
    requires Good(F) && InK(F, y) && InK(F, l) && (|l| == |y| == F.m > 0 ==> KMul(F, l, y) == KOne(F))
    ensures |l| == |y| == F.m > 0 && KSub(KMul(F, l, l), KMul(F, KCube(F, l), y)) == KZero(F)
  {
    hide InK, KMul, KAdd, KSub, KScale, KOne, KZero, KCube;
    KUnits(F, l);
    EtaPairing.KClosed(F, l, l);
    KUnits(F, KMul(F, l, l));
    KCommutes(F, KMul(F, l, l), KOne(F));
    CubeIs(F, l);
    HoldsInField(F, Prod(Prod(Var(0), Prod(Var(0), Var(0))), Var(1)), Prod(Prod(Var(0), Var(0)), Prod(Var(0), Var(1))), Null, [l, y]);
  }

  lemma {:induction false} TangentOnCurve(F: Field, x: Poly, y: Poly, l: Poly)
    requires Good(F) && OnCurve(F, Affine(x, y)) && InK(F, l) && (|l| == |y| == F.m > 0 ==> KMul(F, l, y) == KOne(F))
    ensures |x| == |y| == |l| == F.m > 0
    ensures OnCurve(F, Affine(KSub(KMul(F, l, l), KAdd(x, x)), KNeg(KAdd(KCube(F, l), y))))
  {
    hide InK, KMul, KAdd, KSub, KScale, KOne, KZero, KCube, Cubic;
    CubicAtSum(F, l, x, y, x, y);
    var c := KCube(F, l);
    EtaPairing.KClosed(F, c, y);
    EtaPairing.KClosed(F, KAdd(c, y), y);
    TangentExcess(F, x, y, l, c);
    TangentVanishes(F, y, l);
    var x3 := KSub(KMul(F, l, l), KAdd(x, x));
    CubicIn(F, x3);
    KUnits(F, Cubic(F, x3));
    KCommutes(F, KZero(F), Cubic(F, x3));
  }

  // The ordinates the routine computes lie on the line, reflected.
  lemma {:induction false} ChordCollinear(F: Field, x1: Poly, y1: Poly, x2: Poly, y2: Poly, l: Poly)
    requires Good(F) && InK(F, x1) && InK(F, y1) && InK(F, x2) && InK(F, y2) && InK(F, l)
    requires |x1| == |y1| == |x2| == |y2| == |l| == F.m > 0 ==> KMul(F, l, KSub(x2, x1)) == KSub(y2, y1)
    ensures |x1| == |y1| == |x2| == |y2| == |l| == F.m > 0
    ensures KSub(KAdd(y1, y2), KCube(F, l)) == KNeg(KAdd(y1, KMul(F, l, KSub(KSub(KMul(F, l, l), KAdd(x1, x2)), x1))))
  {
    hide InK, KMul, KAdd, KSub, KScale, KOne, KZero, KCube;
    KUnits(F, l);
    CubeIs(F, l);
    var e := [x1, y1, x2, y2, l];
    HoldsInField(F, Sum(Var(1), Prod(Var(4), Dif(Dif(Prod(Var(4), Var(4)), Sum(Var(0), Var(2))), Var(0)))),
      Dif(Sum(Var(1), Prod(Var(4), Prod(Var(4), Var(4)))), Prod(Var(4), Dif(Var(2), Var(0)))), Times(-1, Prod(Var(4), Var(0))), e);
    HoldsInField(F, Dif(Sum(Var(1), Prod(Var(4), Prod(Var(4), Var(4)))), Dif(Var(3), Var(1))),
      Times(-1, Dif(Sum(Var(1), Var(3)), Prod(Var(4), Prod(Var(4), Var(4))))), Var(1), e);
    EtaPairing.KClosed(F, y1, y2);
    CubicIn(F, l);
    EtaPairing.KClosed(F, KAdd(y1, y2), KCube(F, l));
    NegTwice(F, KSub(KAdd(y1, y2), KCube(F, l)));
  }

  lemma {:induction false} TangentCollinear(F: Field, x: Poly, y: Poly, l: Poly)
    requires Good(F) && InK(F, x) && InK(F, y) && InK(F, l)
    ensures |x| == |y| == |l| == F.m > 0 && KAdd(KMul(F, l, l), x) == KSub(KMul(F, l, l), KAdd(x, x))
    ensures KAdd(KCube(F, l), y) == KAdd(y, KMul(F, l, KSub(KSub(KMul(F, l, l), KAdd(x, x)), x)))
  {
    hide InK, KMul, KAdd, KSub, KScale, KOne, KZero, KCube;
    KUnits(F, l);
    CubeIs(F, l);
    var e := [x, y, l];
    HoldsInField(F, Sum(Prod(Var(2), Var(2)), Var(0)), Dif(Prod(Var(2), Var(2)), Sum(Var(0), Var(0))), Var(0), e);
    HoldsInField(F, Sum(Var(1), Prod(Var(2), Dif(Dif(Prod(Var(2), Var(2)), Sum(Var(0), Var(0))), Var(0)))),
      Sum(Prod(Var(2), Prod(Var(2), Var(2))), Var(1)), Times(-1, Prod(Var(2), Var(0))), e);
  }

  // Two points with the same abscissa are equal or opposite.
  lemma {:induction false} SameAbscissa(F: Field, x: Poly, y1: Poly, y2: Poly)
    requires IsField(F) && OnCurve(F, Affine(x, y1)) && OnCurve(F, Affine(x, y2)) && y1 != y2
    ensures y1 == KNeg(y2)
  {
    hide IsField, InK, KMul, KAdd, KSub, KScale, KOne, KZero, KCube, Cubic;
    IsGood(F);
    EtaPairing.KClosed(F, y2, y1);
    KUnits(F, y1);
    SquareDifference(F, y1, y2);
    CubicIn(F, x);
    KUnits(F, Cubic(F, x));
    DifferenceIsZero(F, y2, y1);
    EtaPairing.KClosed(F, y1, y2);
    var d, s := KSub(y2, y1), KAdd(y1, y2);
    if s == KZero(F) {
      SumIsZero(F, y1, y2);
    } else {
      ProductNonzero(F, d, s);
    }
  }

  function Opposite(P: Point): Point
  {
    if P.Infinity? then P else Affine(P.x, KNeg(P.y))
  }

  // What the sum of two points is: the chord and tangent rule.
  ghost predicate IsSum(F: Field, P: Point, Q: Point, S: Point)
    requires OnCurve(F, P) && OnCurve(F, Q)
  {
    if P.Infinity? then S == Q
    else if Q.Infinity? then S == P
    else if P == Opposite(Q) then S == Infinity
    else exists l :: InK(F, l) && IsSlope(F, P, Q, l) && IsThird(F, P, Q, l, S)
  }

  lemma SumFound(F: Field, P: Point, Q: Point, l: Poly, S: Point)
    requires OnCurve(F, P) && OnCurve(F, Q) && P.Affine? && Q.Affine? && P != Opposite(Q) && InK(F, l)
    requires |P.x| == |P.y| == |Q.x| == |Q.y| == |l| == F.m > 0 && IsSlope(F, P, Q, l) && IsThird(F, P, Q, l, S)
    ensures IsSum(F, P, Q, S)
  {
    hide InK, IsSlope, IsThird, OnCurve, Opposite;
  }

  method PointAdd(F: Field, P: Point, Q: Point) returns (S: Point)
    requires IsField(F) && OnCurve(F, P) && OnCurve(F, Q)
    ensures OnCurve(F, S) && IsSum(F, P, Q, S)
  {
    hide IsField, InK, KMul, KAdd, KSub, KScale, KOne, KZero, KCube, Cubic, KInv, IsSum;
    IsGood(F);
    SumCases(F, P, Q);
    if P.Infinity? { return Q; }
    if Q.Infinity? { return P; }
    var x1, y1, x2, y2 := P.x, P.y, Q.x, Q.y;
    KUnits(F, x1);
    if x1 == x2 {
      if y1 == KNeg(y2) { return Infinity; }
      if y1 == y2 {
        NegZero(F);
        KInvIs(F, y1);
        var v0 := KInv(F, y1);
        KCommutes(F, y1, v0);
        TangentOnCurve(F, x1, y1, v0);
        TangentCollinear(F, x1, y1, v0);
        var v1 := KMul(F, v0, v0);
        var v2 := KAdd(KCube(F, v0), y1);
        S := Affine(KAdd(v1, x1), KNeg(v2));
        SumFound(F, P, Q, v0, S);
        return;
      }
      SameAbscissa(F, x1, y1, y2);
      assert false;
    }
    DifferenceIsZero(F, x2, x1);
    EtaPairing.KClosed(F, x2, x1);
    EtaPairing.KClosed(F, y2, y1);
    var v0 := KSub(x2, x1);
    KInvIs(F, v0);
    var v1 := KInv(F, v0);
    v0 := KSub(y2, y1);
    EtaPairing.KClosed(F, v0, v1);
    var v2 := KMul(F, v0, v1);
    SlopeIs(F, KSub(x2, x1), v1, v0);
    ChordOnCurve(F, x1, y1, x2, y2, v2);
    ChordCollinear(F, x1, y1, x2, y2, v2);
    var v3 := KMul(F, v2, v2);
    var v4 := KCube(F, v2);
    v0 := KAdd(x1, x2);
    v3 := KSub(v3, v0);
    v0 := KAdd(y1, y2);
    v4 := KSub(v0, v4);
    S := Affine(v3, v4);
    SumFound(F, P, Q, v2, S);
  }

  lemma SumCases(F: Field, P: Point, Q: Point)
    requires OnCurve(F, P) && OnCurve(F, Q)
    ensures P.Infinity? ==> IsSum(F, P, Q, Q)
    ensures Q.Infinity? ==> IsSum(F, P, Q, P)
    ensures P.Affine? && Q.Affine? && P == Opposite(Q) ==> IsSum(F, P, Q, Infinity)
  {
    hide InK, IsSlope, IsThird, KMul, Cubic;
  }

  lemma {:induction false} SlopeIs(F: Field, d: Poly, i: Poly, q: Poly)
    requires Good(F) && InK(F, d) && InK(F, i) && InK(F, q) && (|d| == |i| == F.m > 0 ==> KMul(F, d, i) == KOne(F))
    ensures |d| == |i| == |q| == F.m > 0 && KMul(F, KMul(F, q, i), d) == q
  {
    hide InK, KMul, KAdd, KSub, KScale, KOne, KZero;
    KMulAssociates(F, q, i, d);
    KCommutes(F, d, i);
    KUnits(F, q);
    KCommutes(F, q, KOne(F));
  }

  // ---------------------------------------------------------------- laws of the sum

  lemma {:induction false} OppositeOnCurve(F: Field, P: Point)
    requires Good(F) && OnCurve(F, P)
    ensures OnCurve(F, Opposite(P)) && Opposite(Opposite(P)) == P && IsSum(F, P, Opposite(P), Infinity)
  {
    hide InK, KMul, KAdd, KSub, KScale, KOne, KZero, KCube, Cubic, IsSlope, IsThird;
    if P.Affine? {
      EtaPairing.KClosed(F, P.x, P.y);
      EtaPairing.KClosed(F, P.y, P.x);
      NegTwice(F, P.y);
      HoldsInField(F, Prod(Times(-1, Var(0)), Times(-1, Var(0))), Prod(Var(0), Var(0)), Null, [P.y]);
    }
  }

  lemma SlopeOf(F: Field, P: Point, Q: Point, S: Point) returns (l: Poly)
    requires OnCurve(F, P) && OnCurve(F, Q) && P.Affine? && Q.Affine? && P != Opposite(Q) && IsSum(F, P, Q, S)
    ensures |P.x| == |P.y| == |Q.x| == |Q.y| == |l| == F.m > 0 && InK(F, l) && IsSlope(F, P, Q, l) && IsThird(F, P, Q, l, S)
  {
    hide KMul, Cubic, IsSlope, IsThird, Opposite;
    l :| InK(F, l) && IsSlope(F, P, Q, l) && IsThird(F, P, Q, l, S);
  }

  lemma {:induction false} SlopeUnique(F: Field, P: Point, Q: Point, l: Poly, k: Poly)
    requires IsField(F) && OnCurve(F, P) && OnCurve(F, Q) && P.Affine? && Q.Affine? && InK(F, l) && InK(F, k)
    requires |P.x| == |P.y| == |Q.x| == |Q.y| == |l| == |k| == F.m > 0 && IsSlope(F, P, Q, l) && IsSlope(F, P, Q, k)
    ensures l == k
  {
    hide IsField, InK, KMul, KAdd, KSub, KScale, KOne, KZero, Cubic;
    IsGood(F);
    KUnits(F, l);
    EtaPairing.KClosed(F, Q.x, P.x);
    var d := if P.x != Q.x then KSub(Q.x, P.x) else P.y;
    DifferenceIsZero(F, Q.x, P.x);
    KCommutes(F, d, l);
    KCommutes(F, d, k);
    KCommutes(F, KZero(F), l);
    OneNotZero(F);
    CancelFactor(F, d, l, k);
  }

  // The rule determines the sum.
  lemma {:induction false} SumUnique(F: Field, P: Point, Q: Point, S: Point, T: Point)
    requires IsField(F) && OnCurve(F, P) && OnCurve(F, Q) && IsSum(F, P, Q, S) && IsSum(F, P, Q, T)
    ensures S == T
  {
    hide IsField, InK, KMul, KAdd, KSub, KScale, KOne, KZero, Cubic, IsSlope;
    if P.Affine? && Q.Affine? && P != Opposite(Q) {
      var l := SlopeOf(F, P, Q, S);
      var k := SlopeOf(F, P, Q, T);
      SlopeUnique(F, P, Q, l, k);
    }
  }

  // The sum does not depend on the order.
  lemma {:induction false} SumCommutes(F: Field, P: Point, Q: Point, S: Point)
    requires IsField(F) && OnCurve(F, P) && OnCurve(F, Q) && IsSum(F, P, Q, S)
    ensures IsSum(F, Q, P, S)
  {
    hide IsField, InK, KMul, KAdd, KSub, KScale, KOne, KZero, Cubic, IsSlope, IsThird;
    IsGood(F);
    OppositeOnCurve(F, P);
    OppositeOnCurve(F, Q);
    if P.Affine? && Q.Affine? && P != Opposite(Q) {
      var l := SlopeOf(F, P, Q, S);
      if P.x != Q.x {
        ChordReversed(F, P, Q, l, S);
      } else if P.y != Q.y {
        SameAbscissa(F, P.x, P.y, Q.y);
        assert false;
      }
      SumFound(F, Q, P, l, S);
    }
  }

  lemma {:induction false} ChordReversed(F: Field, P: Point, Q: Point, l: Poly, S: Point)
    requires Good(F) && OnCurve(F, P) && OnCurve(F, Q) && P.Affine? && Q.Affine? && P.x != Q.x && InK(F, l)
    requires |P.x| == |P.y| == |Q.x| == |Q.y| == |l| == F.m > 0 && IsSlope(F, P, Q, l) && IsThird(F, P, Q, l, S)
    ensures IsSlope(F, Q, P, l) && IsThird(F, Q, P, l, S)
  {
    hide InK, KMul, KAdd, KSub, KScale, KOne, KZero, Cubic;
    KCommutes(F, P.x, Q.x);
    SlopeReversed(F, P.x, Q.x, l);
    DifferenceReversed(F, P.y, Q.y);
    EtaPairing.KClosed(F, l, l);
    EtaPairing.KClosed(F, KMul(F, l, l), KAdd(P.x, Q.x));
    SameLine(F, P.x, P.y, Q.x, Q.y, l, S.x);
  }

  lemma {:induction false} SlopeReversed(F: Field, a: Poly, b: Poly, l: Poly)
    requires Good(F) && InK(F, a) && InK(F, b) && InK(F, l)
    ensures |a| == |b| == |l| == F.m > 0 && KMul(F, l, KSub(a, b)) == KNeg(KMul(F, l, KSub(b, a)))
  {
    hide InK, KMul, KAdd, KSub, KScale, KOne, KZero;
    HoldsInField(F, Prod(Var(2), Dif(Var(0), Var(1))), Times(-1, Prod(Var(2), Dif(Var(1), Var(0)))), Null, [a, b, l]);
  }

  lemma {:induction false} DifferenceReversed(F: Field, a: Poly, b: Poly)
    requires Good(F) && InK(F, a) && InK(F, b)
    ensures |a| == |b| == F.m > 0 && KSub(a, b) == KNeg(KSub(b, a))
  {
    hide InK, KMul, KAdd, KSub, KScale, KOne, KZero;
    HoldsInField(F, Dif(Var(0), Var(1)), Times(-1, Dif(Var(1), Var(0))), Null, [a, b]);
  }

  // Both points give the same line.
  lemma {:induction false} SameLine(F: Field, x1: Poly, y1: Poly, x2: Poly, y2: Poly, l: Poly, x: Poly)
    requires Good(F) && InK(F, x1) && InK(F, y1) && InK(F, x2) && InK(F, y2) && InK(F, l) && InK(F, x)
    requires |x1| == |y1| == |x2| == |y2| == |l| == F.m > 0 ==> KMul(F, l, KSub(x2, x1)) == KSub(y2, y1)
    ensures |x1| == |y1| == |x2| == |y2| == |l| == |x| == F.m > 0
    ensures KAdd(y1, KMul(F, l, KSub(x, x1))) == KAdd(y2, KMul(F, l, KSub(x, x2)))
  {
    hide InK, KMul, KAdd, KSub, KScale, KOne, KZero;
    var e := [x1, y1, x2, y2, l, x];
    HoldsInField(F, Sum(Var(1), Prod(Var(4), Dif(Var(5), Var(0)))),
      Sum(Sum(Var(1), Prod(Var(4), Dif(Var(2), Var(0)))), Prod(Var(4), Dif(Var(5), Var(2)))), Null, e);
    HoldsInField(F, Sum(Sum(Var(1), Dif(Var(3), Var(1))), Prod(Var(4), Dif(Var(5), Var(2)))),
      Sum(Var(3), Prod(Var(4), Dif(Var(5), Var(2)))), Null, e);
  }
}
