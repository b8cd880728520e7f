// The final powering of the eta_T pairing in characteristic three, and the pairing: algorithms 6, 7 and 8.
module EtaFinalPower {
  import opened Arith
  import opened Polynomials
  import opened TernaryTower
  import opened TernaryCubes
  import opened TernaryIdentities
  import opened TernaryFermat
  import opened TernaryFrobenius
  import opened CubicExtension
  import opened SexticExtension
  import EtaPairing

  // ---------------------------------------------------------------- algorithm 6: the power 3^(3m) - 1

  // (v0^2 - v1^2) + v0*v1*s
  function Numerator(F: Field, u: K6): (r: K6)
    requires Sized6(F, u)
    ensures Sized6(F, r)
  {
    Pack(Sub3(F, Mult3(F, Re(u), Re(u)), Mult3(F, Im(u), Im(u))), Mult3(F, Re(u), Im(u)))
  }

  ghost function NumeratorPoly(u: K6): K6
  {
    PackPoly(TSub(PlainPoly(Re(u), Re(u)), PlainPoly(Im(u), Im(u))), PlainPoly(Re(u), Im(u)))
  }

  lemma {:induction false} RepNumerator(F: Field, u: K6)
    requires Good(F) && InK6(F, u)
    ensures Sized6(F, u) && Rep6(F, Numerator(F, u), NumeratorPoly(u)) && InK6(F, Numerator(F, u))
  {
    hide *;
    PartsOf(F, u);
    RepProduct3(F, Re(u), Re(u));
    RepProduct3(F, Im(u), Im(u));
    RepProduct3(F, Re(u), Im(u));
    SizedParts(F, u);
    RepSum3(F, Mult3(F, Re(u), Re(u)), PlainPoly(Re(u), Re(u)), Mult3(F, Im(u), Im(u)), PlainPoly(Im(u), Im(u)));
    NumeratorIs(F, u);
    RepPack(F, Sub3(F, Mult3(F, Re(u), Re(u)), Mult3(F, Im(u), Im(u))), TSub(PlainPoly(Re(u), Re(u)), PlainPoly(Im(u), Im(u))),
      Mult3(F, Re(u), Im(u)), PlainPoly(Re(u), Im(u)));
    Rep6In(F, Numerator(F, u), NumeratorPoly(u));
  }

  lemma NumeratorIs(F: Field, u: K6)
    requires Sized6(F, u)
    ensures Numerator(F, u) == Pack(Sub3(F, Mult3(F, Re(u), Re(u)), Mult3(F, Im(u), Im(u))), Mult3(F, Re(u), Im(u)))
    ensures NumeratorPoly(u) == PackPoly(TSub(PlainPoly(Re(u), Re(u)), PlainPoly(Im(u), Im(u))), PlainPoly(Re(u), Im(u)))
  {
    hide Mult3, Sub3;
  }

  // x^2 + x*t + t^2, for x the real part and t the imaginary one.
  function YQuadratic(x: Z6, t: Z6): Z6
  {
    YAdd(YAdd(YMul(x, x), YMul(x, t)), YMul(t, t))
  }

  lemma {:induction false} EvNumerator(u: K6, X: int)
    ensures var z := Ev6(u, X); Ev6(NumeratorPoly(u), X) == YQuadratic(RealPart(z), ImaginaryPart(z))
  {
    hide *;
    var z := Ev6(u, X);
    NumeratorPolyIs(u);
    EvPack(TSub(PlainPoly(Re(u), Re(u)), PlainPoly(Im(u), Im(u))), PlainPoly(Re(u), Im(u)), X);
    EvTSub(PlainPoly(Re(u), Re(u)), PlainPoly(Im(u), Im(u)), X);
    EvProducts(u, u, X);
    TurnedProducts(z, z);
    PackedQuadratic(YMul(RealPart(z), RealPart(z)), YMul(RealPart(z), Turned(z)), YMul(Turned(z), Turned(z)));
    QuadraticIs(RealPart(z), ImaginaryPart(z));
  }

  lemma NumeratorPolyIs(u: K6)
    ensures NumeratorPoly(u) == PackPoly(TSub(PlainPoly(Re(u), Re(u)), PlainPoly(Im(u), Im(u))), PlainPoly(Re(u), Im(u)))
  {
  }

  lemma QuadraticIs(x: Z6, t: Z6)
    ensures YQuadratic(x, t) == YAdd(YAdd(YMul(x, x), YMul(x, t)), YMul(t, t))
  {
  }

  lemma PackedQuadratic(a: Z6, b: Z6, c: Z6)
    requires RealPart(a) == a && RealPart(b) == b && RealPart(c) == c
    ensures ZPack(YAdd(a, YNeg(c)), b) == YAdd(YAdd(a, ZPack(Z6(Z2(0, 0), Z2(0, 0), Z2(0, 0)), b)), YNeg(c))
  {
  }

  // (x^2 + xt + t^2)(x + t) = (x - t)(x^2 - t^2) + 3xt(x + t)
  lemma {:induction false} QuotientIdentity(x: Z6, t: Z6)
    ensures YMul(YQuadratic(x, t), YAdd(x, t)) ==
      YAdd(YMul(YAdd(x, YNeg(t)), YAdd(YMul(x, x), YNeg(YMul(t, t)))), YThree(YMul(YMul(x, t), YAdd(x, t))))
  {
    hide *;
    QuadraticIs(x, t);
    var a, b, c := YMul(x, x), YMul(x, t), YMul(t, t);
    YAddMul(YAdd(a, b), c, YAdd(x, t));
    YAddMul(a, b, YAdd(x, t));
    YMulAdd(a, x, t);
    YMulAdd(b, x, t);
    YMulAdd(c, x, t);
    YAddMul(x, YNeg(t), YAdd(a, YNeg(c)));
    YMulAdd(x, a, YNeg(c));
    YMulAdd(YNeg(t), a, YNeg(c));
    YMulNeg(x, c);
    YMulNeg(YNeg(t), c);
    YMulCommutes(YNeg(t), c);
    YMulNeg(c, t);
    YMulCommutes(YNeg(t), a);
    YMulNeg(a, t);
    CubeTermsAgree(x, t);
    CollectTerms(YMul(a, x), YMul(a, t), YMul(c, x), YMul(c, t));
  }

  // The products of degree three in terms of x^3, x^2*t, x*t^2, t^3.
  lemma {:induction false} CubeTermsAgree(x: Z6, t: Z6)
    ensures var a, b, c := YMul(x, x), YMul(x, t), YMul(t, t);
            YMul(b, x) == YMul(a, t) && YMul(b, t) == YMul(c, x) && YMul(x, a) == YMul(a, x) && YMul(x, c) == YMul(c, x)
  {
    hide *;
    YMulCommutes(x, t);
    YMulAssociates(x, t, x);
    YMulAssociates(x, x, t);
    YMulAssociates(x, t, t);
    YMulCommutes(x, YMul(t, t));
    YMulCommutes(x, YMul(x, x));
  }

  lemma CollectTerms(p: Z6, q: Z6, r: Z6, s: Z6)
    ensures YAdd(YAdd(YAdd(p, q), YAdd(q, r)), YAdd(r, s)) == YAdd(YAdd(YAdd(p, YNeg(r)), YAdd(YNeg(q), YNeg(YNeg(s)))), YThree(YAdd(q, r)))
  {
  }

  lemma {:induction false} NumeratorTimes(F: Field, u: K6)
    requires Good(F) && InK6(F, u)
    ensures Sized6(F, u) && InK6(F, Numerator(F, u)) && InK6(F, Conj6(F, u)) && InK3(F, Norm(F, u))
    ensures Gf33mMult(F, Numerator(F, u), u) == Gf33mMult(F, Conj6(F, u), Embed3(F, Norm(F, u)))
  {
    hide *;
    RepNumerator(F, u);
    RepNorm(F, u);
    ConjTwice(F, u);
    Rep6Self(F, u);
    RepConj(F, u, u);
    var N := TAdd(PlainPoly(Re(u), Re(u)), PlainPoly(Im(u), Im(u)));
    Rep6Product(F, Numerator(F, u), NumeratorPoly(u), u, u);
    Rep6Product(F, Conj6(F, u), ConjPoly(u), Embed3(F, Norm(F, u)), N);
    var W := TMul(TMul(RealPoly(u), ImaginaryPoly(u)), u);
    forall X ensures Ev6(TMul(NumeratorPoly(u), u), X) == YAdd(Ev6(TMul(ConjPoly(u), N), X), YThree(Ev6(W, X))) {
      NumeratorAt(u, X);
    }
    Rep6Three(F, Gf33mMult(F, Numerator(F, u), u), TMul(NumeratorPoly(u), u),
      Gf33mMult(F, Conj6(F, u), Embed3(F, Norm(F, u))), TMul(ConjPoly(u), N), W);
  }

  ghost function RealPoly(u: K6): K6
  {
    K6(K2(u.a0.x0, []), K2(u.a1.x0, []), K2(u.a2.x0, []))
  }

  ghost function ImaginaryPoly(u: K6): K6
  {
    K6(K2([], u.a0.x1), K2([], u.a1.x1), K2([], u.a2.x1))
  }

  lemma {:induction false} EvRealImaginary(u: K6, X: int)
    ensures Ev6(RealPoly(u), X) == RealPart(Ev6(u, X)) && Ev6(ImaginaryPoly(u), X) == ImaginaryPart(Ev6(u, X))
  {
    hide Ev;
    EvConst(0, X);
  }

  lemma {:induction false} NumeratorAt(u: K6, X: int)
    ensures var N := TAdd(PlainPoly(Re(u), Re(u)), PlainPoly(Im(u), Im(u)));
            var W := TMul(TMul(RealPoly(u), ImaginaryPoly(u)), u);
            Ev6(TMul(NumeratorPoly(u), u), X) == YAdd(Ev6(TMul(ConjPoly(u), N), X), YThree(Ev6(W, X)))
  {
    hide *;
    var N := TAdd(PlainPoly(Re(u), Re(u)), PlainPoly(Im(u), Im(u)));
    var z := Ev6(u, X);
    var x, t := RealPart(z), ImaginaryPart(z);
    EvTMul(NumeratorPoly(u), u, X);
    EvNumerator(u, X);
    EvTMul(ConjPoly(u), N, X);
    EvConj(u, X);
    EvTAdd(PlainPoly(Re(u), Re(u)), PlainPoly(Im(u), Im(u)), X);
    EvProducts(u, u, X);
    TurnedProducts(z, z);
    DoubleNeg(YMul(Turned(z), Turned(z)));
    SumOfParts(z);
    EvTMul(TMul(RealPoly(u), ImaginaryPoly(u)), u, X);
    EvTMul(RealPoly(u), ImaginaryPoly(u), X);
    EvRealImaginary(u, X);
    QuotientIdentity(x, t);
  }

  // A product with an element of GF(3^3m) is taken part by part.
  lemma {:induction false} PackTimes(F: Field, a: K3, b: K3, i: K3)
    requires Good(F) && InK3(F, a) && InK3(F, b) && InK3(F, i)
    ensures Sized3(F, a) && Sized3(F, b) && Sized3(F, i) && InK6(F, Pack(a, b)) && Sized6(F, Pack(a, b))
    ensures Gf33mMult(F, Pack(a, b), Embed3(F, i)) == Pack(Mult3(F, a, i), Mult3(F, b, i))
  {
    hide *;
    LengthsOf(F, a, b);
    LengthsOf(F, i, i);
    RepProduct3(F, a, i);
    RepProduct3(F, b, i);
    PackedIn(F, a, b);
    Rep6Self(F, Pack(a, b));
    EmbedSelf(F, i);
    var I := EmbedPoly(i.c0, i.c1, i.c2);
    Rep6Product(F, Pack(a, b), Pack(a, b), Embed3(F, i), I);
    RepPack(F, Mult3(F, a, i), PlainPoly(a, i), Mult3(F, b, i), PlainPoly(b, i));
    var R := PackPoly(PlainPoly(a, i), PlainPoly(b, i));
    forall X ensures Ev6(TMul(Pack(a, b), I), X) == Ev6(R, X) { PackTimesAt(a, b, i, X); }
    Rep6Equal(F, Gf33mMult(F, Pack(a, b), Embed3(F, i)), TMul(Pack(a, b), I), Pack(Mult3(F, a, i), Mult3(F, b, i)), R);
  }

  lemma PackedIn(F: Field, a: K3, b: K3)
    requires Good(F) && InK3(F, a) && InK3(F, b)
    ensures InK6(F, Pack(a, b)) && Sized6(F, Pack(a, b))
  {
  }

  lemma {:induction false} PackTimesAt(a: K3, b: K3, i: K3, X: int)
    ensures Ev6(TMul(Pack(a, b), EmbedPoly(i.c0, i.c1, i.c2)), X) == Ev6(PackPoly(PlainPoly(a, i), PlainPoly(b, i)), X)
  {
    hide *;
    var u, I := Pack(a, b), EmbedPoly(i.c0, i.c1, i.c2);
    EvTMul(u, I, X);
    EvPack(PlainPoly(a, i), PlainPoly(b, i), X);
    EvPlain(a, i, X);
    EvPlain(b, i, X);
    PackedParts(a, b);
    PartPolys(u);
    EvParts(u, X);
    EvEmbed(i.c0, i.c1, i.c2, X);
    var z, r := Ev6(u, X), Ev6(I, X);
    RealValue(Ev(i.c0, X), Ev(i.c1, X), Ev(i.c2, X));
    SumOfParts(z);
    YAddMul(RealPart(z), ImaginaryPart(z), r);
    YMulCommutes(ImaginaryPart(z), r);
    YMulCommutes(Turned(z), r);
    TurnedProducts(r, z);
    TurnedProducts(z, r);
    PackedSum(YMul(RealPart(z), r), YMul(r, Turned(z)));
  }

  lemma PackedParts(a: K3, b: K3)
    ensures Re(Pack(a, b)) == a && Im(Pack(a, b)) == b
  {
  }

  lemma RealValue(a: int, b: int, c: int)
    ensures RealPart(Z6(Z2(a, 0), Z2(b, 0), Z2(c, 0))) == Z6(Z2(a, 0), Z2(b, 0), Z2(c, 0))
  {
  }

  lemma PackedSum(a: Z6, b: Z6)
    requires RealPart(a) == a
    ensures ZPack(a, b) == YAdd(a, ZPack(Z6(Z2(0, 0), Z2(0, 0), Z2(0, 0)), b))
  {
  }

  // c is the quotient of the conjugate of u by u.
  ghost predicate IsRatio(F: Field, c: K6, u: K6)
  {
    InK6(F, c) && InK6(F, u) && Sized6(F, c) && Sized6(F, u) && Gf33mMult(F, c, u) == Conj6(F, u)
  }

  lemma RatioMeans(F: Field, c: K6, u: K6)
    ensures IsRatio(F, c, u) <==> InK6(F, c) && InK6(F, u) && Sized6(F, c) && Sized6(F, u) && Gf33mMult(F, c, u) == Conj6(F, u)
  {
  }

  lemma {:induction false} RatioBuilt(F: Field, u: K6)
    requires IsTower(F) && InK6(F, u) && (F.m > 0 ==> u != Zero6(F))
    ensures Sized6(F, u) && Sized3(F, Norm(F, u)) && Sized3(F, Invert3(F, Norm(F, u)))
    ensures var i := Invert3(F, Norm(F, u));
            IsRatio(F, Pack(Mult3(F, Re(Numerator(F, u)), i), Mult3(F, Im(Numerator(F, u)), i)), u)
  {
    hide *;
    TowerIsField(F);
    NormNonzero(F, u);
    NumeratorTimes(F, u);
    var n, c, d := Norm(F, u), Numerator(F, u), Conj6(F, u);
    Invert3Is(F, n);
    var i := Invert3(F, n);
    PartsOf(F, c);
    PackTimes(F, Re(c), Im(c), i);
    EmbedSelf(F, i);
    EmbedSelf(F, n);
    EmbedMult(F, n, i);
    OneIn3(F);
    var v, w := Embed3(F, i), Embed3(F, n);
    MultCommutes(F, c, v);
    MultCommutes(F, c, u);
    MultCommutes(F, u, v);
    MultAssociates(F, c, v, u);
    MultAssociates(F, c, u, v);
    MultAssociates(F, d, w, v);
    OneTimes(F, d);
    MultCommutes(F, d, One6(F));
    SizedParts(F, c);
    SizedParts(F, u);
    NormSized(F, u);
    RatioMeans(F, Gf33mMult(F, c, v), u);
  }

  lemma NormSized(F: Field, u: K6)
    requires Sized6(F, u)
    ensures Sized3(F, Norm(F, u)) && Sized3(F, Invert3(F, Norm(F, u)))
  {
    hide Norm, Invert3;
  }

  // The quotient has norm 1, and is the power 3^(3m) - 1.
  lemma {:induction false} RatioIs(F: Field, c: K6, u: K6)
    requires IsTower(F) && IsRatio(F, c, u) && (F.m > 0 ==> u != Zero6(F))
    ensures F.m > 0 && Sized6(F, c) && Sized6(F, u) && Gf33mMult(F, c, Conj6(F, c)) == One6(F)
    ensures Pow(3, 3 * F.m) >= 1 && c == Pow6(F, u, Pow(3, 3 * F.m) - 1)
  {
    hide *;
    TowerIsField(F);
    RatioMeans(F, c, u);
    ConjTwice(F, c);
    ConjTwice(F, u);
    var d, e := Conj6(F, c), Conj6(F, u);
    ConjMult(F, c, u);
    MultCommutes(F, c, d);
    MultCommutes(F, d, e);
    MultAssociates(F, d, c, u);
    OneTimes(F, u);
    Cancel6(F, Gf33mMult(F, c, d), One6(F), u);
    ConjugateByCubing(F, u);
    IterateIsPower(F, u, 3 * F.m);
    var n := Pow(3, 3 * F.m);
    Pow6Unfolds(F, u, n);
    Pow6In(F, u, n - 1);
    MultCommutes(F, u, Pow6(F, u, n - 1));
    Cancel6(F, c, Pow6(F, u, n - 1), u);
  }

  // Zero stays zero: the routine multiplies what it inverts by zero.
  lemma {:induction false} ZeroNumerator(F: Field, u: K6, i: K3)
    requires Good(F) && InK3(F, i) && F.m > 0 && u == Zero6(F)
    ensures Sized6(F, u) && Sized3(F, i) && Re(Numerator(F, u)) == Zero3(F) && Im(Numerator(F, u)) == Zero3(F)
    ensures Mult3(F, Zero3(F), i) == Zero3(F) && Pack(Zero3(F), Zero3(F)) == u
  {
    hide *;
    OneIn3(F);
    Zero6Parts(F);
    SizedParts(F, u);
    LengthsOf(F, i, i);
    Zero3Times(F, i);
    Zero3Times(F, Zero3(F));
    NumeratorIs(F, u);
    ZeroDifference(F);
    PackedParts(Zero3(F), Zero3(F));
  }

  lemma Zero6Parts(F: Field)
    requires F.m > 0
    ensures Re(Zero6(F)) == Zero3(F) && Im(Zero6(F)) == Zero3(F) && Pack(Zero3(F), Zero3(F)) == Zero6(F) && Sized3(F, Zero3(F))
  {
    hide KZero;
  }

  lemma {:induction false} ZeroDifference(F: Field)
    requires Good(F)
    ensures F.m > 0 && Sized3(F, Zero3(F)) && Sub3(F, Zero3(F), Zero3(F)) == Zero3(F)
  {
    hide KZero, KSub;
    ZeroSums(F);
  }

  lemma {:induction false} ZeroPower(F: Field, n: nat)
    requires Good(F) && n > 0
    ensures F.m > 0 && Sized6(F, Zero6(F)) && InK6(F, Zero6(F)) && Conj6(F, Zero6(F)) == Zero6(F)
    ensures Pow6(F, Zero6(F), n) == Zero6(F) && Gf33mMult(F, Zero6(F), Zero6(F)) == Zero6(F)
  {
    hide *;
    RepOne6(F);
    ZeroTimes6(F, One6(F));
    ZeroTimes6(F, Zero6(F));
    Pow6Unfolds(F, Zero6(F), n);
    Pow6In(F, Zero6(F), n - 1);
    ZeroTimes6(F, Pow6(F, Zero6(F), n - 1));
    ConjZero(F);
  }

  lemma {:induction false} ConjZero(F: Field)
    requires Good(F)
    ensures F.m > 0 && Conj6(F, Zero6(F)) == Zero6(F)
  {
    hide KNeg, KZero;
    NegZero(F);
  }

  // What the body below computes from its inverse i.
  lemma {:induction false} Algorithm6Means(F: Field, u: K6, i: K3)
    requires IsTower(F) && InK6(F, u) && InK3(F, i) && Sized6(F, u) && Sized3(F, i) && Sized3(F, Norm(F, u))
    requires u != Zero6(F) ==> Sized3(F, Norm(F, u)) && i == Invert3(F, Norm(F, u))
    ensures F.m > 0 && Pow(3, 3 * F.m) > 1
    ensures var c := Pack(Mult3(F, Re(Numerator(F, u)), i), Mult3(F, Im(Numerator(F, u)), i));
            InK6(F, c) && Sized6(F, c) && Gf33mMult(F, c, u) == Conj6(F, u) && c == Pow6(F, u, Pow(3, 3 * F.m) - 1)
            && (u != Zero6(F) ==> Gf33mMult(F, c, Conj6(F, c)) == One6(F))
  {
    hide *;
    TowerIsField(F);
    PowGrows(1, 3 * F.m);
    PowerOfThree(1);
    SizedParts(F, Numerator(F, u));
    var c := Pack(Mult3(F, Re(Numerator(F, u)), i), Mult3(F, Im(Numerator(F, u)), i));
    if u == Zero6(F) {
      ZeroNumerator(F, u, i);
      ZeroPower(F, Pow(3, 3 * F.m) - 1);
    } else {
      RatioBuilt(F, u);
      RatioMeans(F, c, u);
      RatioIs(F, c, u);
    }
  }

  // The inverse of zero, left, does not matter.
  method Algorithm6(F: Field, u: K6, left: K3) returns (c: K6)
    requires IsTower(F) && InK6(F, u) && InK3(F, left)
    ensures F.m > 0 && Sized6(F, u) && InK6(F, c) && Sized6(F, c)
    ensures Gf33mMult(F, c, u) == Conj6(F, u)
    ensures Pow(3, 3 * F.m) > 1 && c == Pow6(F, u, Pow(3, 3 * F.m) - 1)
    ensures u != Zero6(F) ==> Gf33mMult(F, c, Conj6(F, c)) == One6(F)
  {
    hide IsTower, InK6, InK3, Mult3, Invert3, Add3, Sub3, Gf33mMult, Pow6, Conj6, Zero6, One6, Pow, Zero3;
    TowerIsField(F);
    NormIn(F, u, left);
    var v0, v1 := Re(u), Im(u);
    var m0 := Mult3(F, v0, v0);
    var m1 := Mult3(F, v1, v1);
    var m2 := Mult3(F, v0, v1);
    var a0 := Sub3(F, m0, m1);
    var a1 := Add3(F, m0, m1);
    var i := if a1 == Zero3(F) then left else Invert3(F, a1);
    v0 := Mult3(F, a0, i);
    v1 := Mult3(F, m2, i);
    c := K6(K2(v0.c0, v1.c0), K2(v0.c1, v1.c1), K2(v0.c2, v1.c2));
    PackedParts(a0, m2);
    Algorithm6Means(F, u, i);
  }

  lemma {:induction false} NormIn(F: Field, u: K6, left: K3)
    requires IsTower(F) && InK6(F, u) && InK3(F, left)
    ensures F.m > 0 && Sized6(F, u) && Sized3(F, left) && Sized3(F, Norm(F, u)) && InK3(F, Norm(F, u))
    ensures u != Zero6(F) <==> Norm(F, u) != Zero3(F)
    ensures Norm(F, u) != Zero3(F) ==> InK3(F, Invert3(F, Norm(F, u)))
  {
    hide *;
    TowerIsField(F);
    RepNorm(F, u);
    NormSized(F, u);
    LengthsOf(F, left, left);
    if u == Zero6(F) {
      OneIn3(F);
      Zero6Parts(F);
      NormIs(F, u);
      Zero3Times(F, Zero3(F));
      AddZero3(F, Zero3(F));
    } else {
      NormNonzero(F, u);
      Invert3Is(F, Norm(F, u));
    }
  }

  // ---------------------------------------------------------------- algorithm 7: the power 3^m + 1 for norm 1

  // The inverse of the substitution: p goes to p - 1 and s to -s.
  function Unsubstitute(F: Field, a: K6): (r: K6)
    requires Sized6(F, a)
    ensures Sized6(F, r)
  {
    var c := Conj6(F, a);
    K6(Gf32mAdd(F, Gf32mSub(F, c.a0, c.a1), c.a2), Gf32mAdd(F, c.a1, c.a2), c.a2)
  }

  // What m cubings do to u: first tells that m is 1 modulo 6 and not 5.
  function Turn(F: Field, first: bool, a: K6): (r: K6)
    requires Sized6(F, a)
    ensures Sized6(F, r)
  {
    if first then Substitute(F, a) else Unsubstitute(F, a)
  }

  ghost function TurnPoly(first: bool, L: K6): K6
  {
    var c := ConjPoly(L);
    if first then K6(LAdd(LAdd(c.a0, c.a1), c.a2), LSub(c.a1, c.a2), c.a2)
    else K6(LAdd(LSub(c.a0, c.a1), c.a2), LAdd(c.a1, c.a2), c.a2)
  }

  function YTurn(first: bool, u: Z6): Z6
  {
    var c := YConj(u);
    if first then Z6(ZAdd(ZAdd(c.c0, c.c1), c.c2), ZSub(c.c1, c.c2), c.c2)
    else Z6(ZAdd(ZSub(c.c0, c.c1), c.c2), ZAdd(c.c1, c.c2), c.c2)
  }

  lemma {:induction false} RepTurn(F: Field, first: bool, a: K6, L: K6)
    requires Good(F) && Rep6(F, a, L)
    ensures Sized6(F, a) && Rep6(F, Turn(F, first, a), TurnPoly(first, L)) && InK6(F, Turn(F, first, a))
  {
    hide Rep2, LAdd, LSub, Gf32mAdd, Gf32mSub, Conj6, ConjPoly, InK6;
    RepConj(F, a, L);
    var c, C := Conj6(F, a), ConjPoly(L);
    Rep2Sum(F, c.a0, C.a0, c.a1, C.a1);
    Rep2Sum(F, c.a1, C.a1, c.a2, C.a2);
    Rep2Sum(F, Gf32mAdd(F, c.a0, c.a1), LAdd(C.a0, C.a1), c.a2, C.a2);
    Rep2Sum(F, Gf32mSub(F, c.a0, c.a1), LSub(C.a0, C.a1), c.a2, C.a2);
    Rep6In(F, Turn(F, first, a), TurnPoly(first, L));
  }

  lemma {:induction false} EvTurn(first: bool, L: K6, X: int)
    ensures Ev6(TurnPoly(first, L), X) == YTurn(first, Ev6(L, X))
  {
    hide Ev2, LAdd, LSub, ConjPoly, ZAdd, ZSub, ZConj;
    var C := ConjPoly(L);
    EvConj(L, X);
    EvL(C.a0, C.a1, X);
    EvL(C.a1, C.a2, X);
    EvL(LAdd(C.a0, C.a1), C.a2, X);
    EvL(LSub(C.a0, C.a1), C.a2, X);
  }

  lemma {:induction false} Undoes(F: Field, a: K6)
    requires Good(F) && InK6(F, a)
    ensures Sized6(F, a) && Substitute(F, Unsubstitute(F, a)) == a
  {
    hide *;
    Rep6Self(F, a);
    RepTurn(F, false, a, a);
    var b, B := Turn(F, false, a), TurnPoly(false, a);
    RepTurn(F, true, b, B);
    var W := TopPoly(a);
    forall X ensures Ev6(TurnPoly(true, B), X) == YAdd(Ev6(a, X), YThree(Ev6(W, X))) {
      EvTurn(true, B, X);
      EvTurn(false, a, X);
      TurnsBack(Ev6(a, X));
      EvTop(a, X);
    }
    Rep6Three(F, Turn(F, true, b), TurnPoly(true, B), a, a, W);
    TurnIs(F, a);
    TurnIs(F, b);
  }

  lemma TurnIs(F: Field, a: K6)
    requires Sized6(F, a)
    ensures Turn(F, true, a) == Substitute(F, a) && Turn(F, false, a) == Unsubstitute(F, a)
  {
    hide Substitute, Unsubstitute;
  }

  ghost function TopPoly(a: K6): K6
  {
    K6(a.a2, K2([], []), K2([], []))
  }

  lemma EvTop(a: K6, X: int)
    ensures Ev6(TopPoly(a), X) == Z6(Ev6(a, X).c2, Z2(0, 0), Z2(0, 0))
  {
  }

  lemma TurnsBack(u: Z6)
    ensures YTurn(true, YTurn(false, u)) == YAdd(u, YThree(Z6(u.c2, Z2(0, 0), Z2(0, 0))))
  {
  }

  lemma Sixths(m: nat)
    requires m % 2 == 1 && m % 3 != 0
    ensures m == (if m % 6 == 1 then 6 * (m / 6) + 1 else 6 * (m / 6) + 5)
  {
    var k, r := m / 6, m % 6;
    if r == 0 { DivModUnique(m, 2, 3 * k, 0); }
    if r == 2 { DivModUnique(m, 2, 3 * k + 1, 0); }
    if r == 3 { DivModUnique(m, 3, 2 * k + 1, 0); }
    if r == 4 { DivModUnique(m, 2, 3 * k + 2, 0); }
  }

  // m substitutions are one or, what is the same, five of them.
  lemma {:induction false} DegreeTurns(F: Field, a: K6)
    requires IsTower(F) && InK6(F, a)
    ensures Sized6(F, a) && Iterate(F, a, F.m) == Turn(F, F.m % 6 == 1, a)
  {
    hide *;
    TowerIsField(F);
    DegreeCubings(F, a);
    TurnIs(F, a);
    Sixths(F.m);
    var k := F.m / 6;
    if F.m % 6 == 1 { SixthTurn(F, a, k); } else { FiveTurns(F, a, k); }
  }

  lemma {:induction false} FiveTurns(F: Field, a: K6, k: nat)
    requires Good(F) && InK6(F, a)
    ensures Sized6(F, a) && Substitutes(F, a, 6 * k + 5) == Unsubstitute(F, a)
  {
    hide *;
    Rep6Self(F, a);
    RepTurn(F, false, a, a);
    TurnIs(F, a);
    var b := Unsubstitute(F, a);
    Undoes(F, a);
    SubstitutesUnfold(F, b, 1);
    SubstitutesSum(F, b, 6 * k + 5, 1);
    assert 6 * k + 5 + 1 == 6 * (k + 1);
    SixSubstitutions(F, b, k + 1);
  }

  lemma {:induction false} SixthTurn(F: Field, a: K6, k: nat)
    requires Good(F) && InK6(F, a)
    ensures Sized6(F, a) && Substitutes(F, a, 6 * k + 1) == Substitute(F, a)
  {
    hide *;
    SixSubstitutions(F, a, k);
    SubstitutesUnfold(F, a, 6 * k + 1);
  }

  // ---------------------------------------------------------------- the nine products

  const A3: Ex := Dif(Sum(Prod(Var(1), Var(2)), Prod(Var(0), Var(3))), Prod(Sum(Var(0), Var(1)), Sum(Var(2), Var(3))))
  const A4: Ex := Dif(Times(-1, Prod(Var(2), Var(4))), Prod(Var(3), Var(5)))
  const A5: Ex := Dif(Prod(Var(3), Var(5)), Prod(Var(2), Var(4)))
  const A6: Ex :=
    Sum(Dif(Prod(Var(1), Var(5)), Prod(Var(0), Var(4))), Prod(Sum(Var(0), Var(1)), Dif(Var(4), Var(5))))
  const M8: Ex := Prod(Sum(Var(2), Var(3)), Dif(Var(4), Var(5)))
  const M01: Ex := Sum(Prod(Var(0), Var(4)), Prod(Var(1), Var(5)))

  // The two results of the routine as expressions in the six parts of u.
  const SEVENTH: Ex6 :=
    Ex6(Sum(One, Sum(M01, A4)), Sum(Dif(Prod(Var(1), Var(2)), Prod(Var(0), Var(3))), A6), Dif(A4, A3),
      Dif(Sum(M8, A5), A6), Times(-1, Sum(A3, A4)), Sum(M8, A5))
  const SEVENTH_FIVE: Ex6 :=
    Ex6(Sum(One, Dif(M01, A4)), Sum(Dif(Prod(Var(0), Var(3)), Prod(Var(1), Var(2))), A6), A3,
      Sum(Sum(M8, A5), A6), Times(-1, Sum(A3, A4)), Times(-1, Sum(M8, A5)))

  // The multiples of three by which they differ from the product, over the integers.
  const Q: Ex := Sum(Prod(Var(0), Var(2)), Prod(Var(1), Var(3)))
  const R: Ex := Sum(Prod(Var(2), Var(4)), Prod(Var(3), Var(5)))
  const GAP: Ex6 :=
    Ex6(Times(-1, Sum(Q, R)), Null, Dif(Dif(M01, Q), Times(2, R)), Null, Sum(Q, R), Dif(Prod(Var(3), Var(4)), Prod(Var(2), Var(5))))
  const GAP_FIVE: Ex6 :=
    Ex6(Sum(Q, R), Null, Times(-1, Sum(Sum(Q, M01), Sum(R, Sum(Prod(Var(4), Var(4)), Prod(Var(5), Var(5)))))), Null, Sum(Q, R),
      Dif(Prod(Var(2), Var(5)), Prod(Var(3), Var(4))))

  // How far the norm is from 1 decides how far the routine is from the product.
  function ZDefect(first: bool, n: Z6): Z6
  {
    if first then Z6(Z2(n.c1.re - (n.c0.re - 1), 0), Z2(n.c1.re - n.c2.re, 0), Z2(0 - (n.c1.re + n.c2.re), 0))
    else Z6(Z2(0 - (n.c1.re + (n.c0.re - 1)), 0), Z2(n.c2.re, 0), Z2(0 - (n.c1.re + n.c2.re), 0))
  }

  function Six(a: int, b: int, c: int, d: int, f: int, g: int): Z6
  {
    Z6(Z2(a, b), Z2(c, d), Z2(f, g))
  }

  // (x + y*s)(u - v*s)
  lemma ZMulConj(x: int, y: int, u: int, v: int)
    ensures ZMul(Z2(x, y), Z2(u, 0 - v)) == Z2(x * u + y * v, y * u - x * v)
  {
    assert x * (0 - v) == 0 - x * v && y * (0 - v) == 0 - y * v;
  }

  lemma {:induction false} FirstProduct(a: int, b: int, c: int, d: int, f: int, g: int)
    ensures YMul(Six(a, b, c, d, f, g), YTurn(true, Six(a, b, c, d, f, g))) ==
      Z6(Z2((a * (a + c + f) + b * (b + d + g)) + (c * f + d * g) + (f * (c - f) + g * (d - g)), (b * (a + c + f) - a * (b + d + g)) + (d * f - c * g) + (g * (c - f) - f * (d - g))), Z2((a * (c - f) + b * (d - g)) + (c * (a + c + f) + d * (b + d + g)) + (c * f + d * g) + (f * (c - f) + g * (d - g)) + (f * f + g * g), (b * (c - f) - a * (d - g)) + (d * (a + c + f) - c * (b + d + g)) + (d * f - c * g) + (g * (c - f) - f * (d - g)) + (g * f - f * g)), Z2((a * f + b * g) + (c * (c - f) + d * (d - g)) + (f * (a + c + f) + g * (b + d + g)) + (f * f + g * g), (b * f - a * g) + (d * (c - f) - c * (d - g)) + (g * (a + c + f) - f * (b + d + g)) + (g * f - f * g)))
  {
    hide ZMul;
    ZMulConj(a, b, a + c + f, b + d + g);
    ZMulConj(a, b, c - f, d - g);
    ZMulConj(a, b, f, g);
    ZMulConj(c, d, a + c + f, b + d + g);
    ZMulConj(c, d, c - f, d - g);
    ZMulConj(c, d, f, g);
    ZMulConj(f, g, a + c + f, b + d + g);
    ZMulConj(f, g, c - f, d - g);
    ZMulConj(f, g, f, g);
  }

  lemma {:induction false} FiveProduct(a: int, b: int, c: int, d: int, f: int, g: int)
    ensures YMul(Six(a, b, c, d, f, g), YTurn(false, Six(a, b, c, d, f, g))) ==
      Z6(Z2((a * (a - c + f) + b * (b - d + g)) + (c * f + d * g) + (f * (c + f) + g * (d + g)), (b * (a - c + f) - a * (b - d + g)) + (d * f - c * g) + (g * (c + f) - f * (d + g))), Z2((a * (c + f) + b * (d + g)) + (c * (a - c + f) + d * (b - d + g)) + (c * f + d * g) + (f * (c + f) + g * (d + g)) + (f * f + g * g), (b * (c + f) - a * (d + g)) + (d * (a - c + f) - c * (b - d + g)) + (d * f - c * g) + (g * (c + f) - f * (d + g)) + (g * f - f * g)), Z2((a * f + b * g) + (c * (c + f) + d * (d + g)) + (f * (a - c + f) + g * (b - d + g)) + (f * f + g * g), (b * f - a * g) + (d * (c + f) - c * (d + g)) + (g * (a - c + f) - f * (b - d + g)) + (g * f - f * g)))
  {
    hide ZMul;
    ZMulConj(a, b, a - c + f, b - d + g);
    ZMulConj(a, b, c + f, d + g);
    ZMulConj(a, b, f, g);
    ZMulConj(c, d, a - c + f, b - d + g);
    ZMulConj(c, d, c + f, d + g);
    ZMulConj(c, d, f, g);
    ZMulConj(f, g, a - c + f, b - d + g);
    ZMulConj(f, g, c + f, d + g);
    ZMulConj(f, g, f, g);
  }

  lemma {:induction false} NormParts(a: int, b: int, c: int, d: int, f: int, g: int)
    ensures var z := Six(a, b, c, d, f, g); var n := YMul(z, YConj(z));
            n.c0.re == a * a + b * b + 2 * (c * f + d * g) && n.c1.re == 2 * (a * c + b * d) + 2 * (c * f + d * g) + (f * f + g * g) && n.c2.re == 2 * (a * f + b * g) + (c * c + d * d) + (f * f + g * g)
  {
    hide ZMul;
    ZMulConj(a, b, a, b);
    ZMulConj(a, b, c, d);
    ZMulConj(a, b, f, g);
    ZMulConj(c, d, a, b);
    ZMulConj(c, d, c, d);
    ZMulConj(c, d, f, g);
    ZMulConj(f, g, a, b);
    ZMulConj(f, g, c, d);
    ZMulConj(f, g, f, g);
  }

  lemma {:induction false} FirstParts(a: int, b: int, c: int, d: int, f: int, g: int)
    ensures 1 + ((a * f + b * g) + (-1 * (c * f) - d * g)) ==
      (a * (a + c + f) + b * (b + d + g)) + (c * f + d * g) + (f * (c - f) + g * (d - g)) +
      ((2 * (a * c + b * d) + 2 * (c * f + d * g) + (f * f + g * g)) - ((a * a + b * b + 2 * (c * f + d * g)) - 1)) + 3 * (-1 * ((a * c + b * d) + (c * f + d * g)))
    ensures (b * c - a * d) + (b * g - a * f + (a + b) * (f - g)) ==
      (b * (a + c + f) - a * (b + d + g)) + (d * f - c * g) + (g * (c - f) - f * (d - g)) +
      (0) + 3 * (0)
    ensures (-1 * (c * f) - d * g) - (b * c + a * d - (a + b) * (c + d)) ==
      (a * (c - f) + b * (d - g)) + (c * (a + c + f) + d * (b + d + g)) + (c * f + d * g) + (f * (c - f) + g * (d - g)) + (f * f + g * g) +
      ((2 * (a * c + b * d) + 2 * (c * f + d * g) + (f * f + g * g)) - (2 * (a * f + b * g) + (c * c + d * d) + (f * f + g * g))) + 3 * ((a * f + b * g) - (a * c + b * d) - 2 * (c * f + d * g))
    ensures ((c + d) * (f - g)) + (d * g - c * f) - (b * g - a * f + (a + b) * (f - g)) ==
      (b * (c - f) - a * (d - g)) + (d * (a + c + f) - c * (b + d + g)) + (d * f - c * g) + (g * (c - f) - f * (d - g)) + (g * f - f * g) +
      (0) + 3 * (0)
    ensures -1 * ((b * c + a * d - (a + b) * (c + d)) + (-1 * (c * f) - d * g)) ==
      (a * f + b * g) + (c * (c - f) + d * (d - g)) + (f * (a + c + f) + g * (b + d + g)) + (f * f + g * g) +
      (0 - ((2 * (a * c + b * d) + 2 * (c * f + d * g) + (f * f + g * g)) + (2 * (a * f + b * g) + (c * c + d * d) + (f * f + g * g)))) + 3 * ((a * c + b * d) + (c * f + d * g))
    ensures ((c + d) * (f - g)) + (d * g - c * f) ==
      (b * f - a * g) + (d * (c - f) - c * (d - g)) + (g * (a + c + f) - f * (b + d + g)) + (g * f - f * g) +
      (0) + 3 * ((d * f - c * g))
  {
  }

  lemma {:induction false} FirstValues(e: seq<int>, a: int, b: int, c: int, d: int, f: int, g: int)
    requires e == [a, b, c, d, f, g]
    ensures ZEval6(SEVENTH, e) ==
      Z6(Z2(1 + ((a * f + b * g) + (-1 * (c * f) - d * g)), (b * c - a * d) + (b * g - a * f + (a + b) * (f - g))), Z2((-1 * (c * f) - d * g) - (b * c + a * d - (a + b) * (c + d)), ((c + d) * (f - g)) + (d * g - c * f) - (b * g - a * f + (a + b) * (f - g))), Z2(-1 * ((b * c + a * d - (a + b) * (c + d)) + (-1 * (c * f) - d * g)), ((c + d) * (f - g)) + (d * g - c * f)))
    ensures ZEval6(GAP, e) ==
      Z6(Z2(-1 * ((a * c + b * d) + (c * f + d * g)), 0), Z2((a * f + b * g) - (a * c + b * d) - 2 * (c * f + d * g), 0), Z2((a * c + b * d) + (c * f + d * g), (d * f - c * g)))
  {
  }

  lemma {:induction false} FirstValue(e: seq<int>, a: int, b: int, c: int, d: int, f: int, g: int)
    requires e == [a, b, c, d, f, g]
    ensures var z := Six(a, b, c, d, f, g);
            ZEval6(SEVENTH, e) == YAdd(YAdd(YMul(z, YTurn(true, z)), ZDefect(true, YMul(z, YConj(z)))), YThree(ZEval6(GAP, e)))
  {
    hide YMul, YTurn, YConj, ZEval6, ZEval;
    FirstValues(e, a, b, c, d, f, g);
    FirstProduct(a, b, c, d, f, g);
    FirstParts(a, b, c, d, f, g);
    NormParts(a, b, c, d, f, g);
  }

  lemma {:induction false} FiveParts(a: int, b: int, c: int, d: int, f: int, g: int)
    ensures 1 + ((a * f + b * g) - (-1 * (c * f) - d * g)) ==
      (a * (a - c + f) + b * (b - d + g)) + (c * f + d * g) + (f * (c + f) + g * (d + g)) +
      (0 - ((2 * (a * c + b * d) + 2 * (c * f + d * g) + (f * f + g * g)) + ((a * a + b * b + 2 * (c * f + d * g)) - 1))) + 3 * ((a * c + b * d) + (c * f + d * g))
    ensures (a * d - b * c) + (b * g - a * f + (a + b) * (f - g)) ==
      (b * (a - c + f) - a * (b - d + g)) + (d * f - c * g) + (g * (c + f) - f * (d + g)) +
      (0) + 3 * (0)
    ensures (b * c + a * d - (a + b) * (c + d)) ==
      (a * (c + f) + b * (d + g)) + (c * (a - c + f) + d * (b - d + g)) + (c * f + d * g) + (f * (c + f) + g * (d + g)) + (f * f + g * g) +
      ((2 * (a * f + b * g) + (c * c + d * d) + (f * f + g * g))) + 3 * (-1 * (((a * c + b * d) + (a * f + b * g)) + ((c * f + d * g) + (f * f + g * g))))
    ensures ((c + d) * (f - g)) + (d * g - c * f) + (b * g - a * f + (a + b) * (f - g)) ==
      (b * (c + f) - a * (d + g)) + (d * (a - c + f) - c * (b - d + g)) + (d * f - c * g) + (g * (c + f) - f * (d + g)) + (g * f - f * g) +
      (0) + 3 * (0)
    ensures -1 * ((b * c + a * d - (a + b) * (c + d)) + (-1 * (c * f) - d * g)) ==
      (a * f + b * g) + (c * (c + f) + d * (d + g)) + (f * (a - c + f) + g * (b - d + g)) + (f * f + g * g) +
      (0 - ((2 * (a * c + b * d) + 2 * (c * f + d * g) + (f * f + g * g)) + (2 * (a * f + b * g) + (c * c + d * d) + (f * f + g * g)))) + 3 * ((a * c + b * d) + (c * f + d * g))
    ensures -1 * (((c + d) * (f - g)) + (d * g - c * f)) ==
      (b * f - a * g) + (d * (c + f) - c * (d + g)) + (g * (a - c + f) - f * (b - d + g)) + (g * f - f * g) +
      (0) + 3 * ((c * g - d * f))
  {
  }

  lemma {:induction false} FiveValues(e: seq<int>, a: int, b: int, c: int, d: int, f: int, g: int)
    requires e == [a, b, c, d, f, g]
    ensures ZEval6(SEVENTH_FIVE, e) ==
      Z6(Z2(1 + ((a * f + b * g) - (-1 * (c * f) - d * g)), (a * d - b * c) + (b * g - a * f + (a + b) * (f - g))), Z2((b * c + a * d - (a + b) * (c + d)), ((c + d) * (f - g)) + (d * g - c * f) + (b * g - a * f + (a + b) * (f - g))), Z2(-1 * ((b * c + a * d - (a + b) * (c + d)) + (-1 * (c * f) - d * g)), -1 * (((c + d) * (f - g)) + (d * g - c * f))))
    ensures ZEval6(GAP_FIVE, e) ==
      Z6(Z2((a * c + b * d) + (c * f + d * g), 0), Z2(-1 * (((a * c + b * d) + (a * f + b * g)) + ((c * f + d * g) + (f * f + g * g))), 0), Z2((a * c + b * d) + (c * f + d * g), (c * g - d * f)))
  {
  }

  lemma {:induction false} FiveValue(e: seq<int>, a: int, b: int, c: int, d: int, f: int, g: int)
    requires e == [a, b, c, d, f, g]
    ensures var z := Six(a, b, c, d, f, g);
            ZEval6(SEVENTH_FIVE, e) == YAdd(YAdd(YMul(z, YTurn(false, z)), ZDefect(false, YMul(z, YConj(z)))), YThree(ZEval6(GAP_FIVE, e)))
  {
    hide YMul, YTurn, YConj, ZEval6, ZEval;
    FiveValues(e, a, b, c, d, f, g);
    FiveProduct(a, b, c, d, f, g);
    FiveParts(a, b, c, d, f, g);
    NormParts(a, b, c, d, f, g);
  }

  // The real parts added to the product, for D the norm less 1.
  function Defect(F: Field, first: bool, D: K3): (r: K3)
    requires Sized3(F, D)
    ensures Sized3(F, r)
  {
    if first then K3(KSub(D.c1, D.c0), KSub(D.c1, D.c2), KNeg(KAdd(D.c1, D.c2)))
    else K3(KNeg(KAdd(D.c1, D.c0)), D.c2, KNeg(KAdd(D.c1, D.c2)))
  }

  ghost function DefectPoly(first: bool, N: K6): K6
  {
    var d0, d1, d2 := PSub(N.a0.x0, [1]), N.a1.x0, N.a2.x0;
    if first then EmbedPoly(PSub(d1, d0), PSub(d1, d2), PScale(-1, PAdd(d1, d2)))
    else EmbedPoly(PScale(-1, PAdd(d1, d0)), d2, PScale(-1, PAdd(d1, d2)))
  }

  lemma {:induction false} RepDefect(F: Field, first: bool, n: K3, N: K6)
    requires Good(F) && Sized3(F, n) && Rep6(F, Embed3(F, n), N)
    ensures F.m > 0 && Sized3(F, One3(F)) && Sized3(F, Defect(F, first, Sub3(F, n, One3(F))))
    ensures Rep6(F, Embed3(F, Defect(F, first, Sub3(F, n, One3(F)))), DefectPoly(first, N))
  {
    hide Rep, KAdd, KSub, KNeg, KZero, KOne, PAdd, PSub, PScale, InK3, InK6, Embed3, EmbedPoly;
    OneIn3(F);
    RealDigits(F, n, N);
    EtaPairing.RepConstants(F);
    var d0, d1, d2 := KSub(n.c0, KOne(F)), n.c1, n.c2;
    var L0, L1, L2 := PSub(N.a0.x0, [1]), N.a1.x0, N.a2.x0;
    RepSub(F, n.c0, N.a0.x0, KOne(F), [1]);
    LessZero(F, n);
    RepSub(F, d1, L1, d0, L0);
    RepSub(F, d1, L1, d2, L2);
    RepAdd(F, d1, L1, d2, L2);
    RepAdd(F, d1, L1, d0, L0);
    EtaPairing.RepNeg(F, KAdd(d1, d2), PAdd(L1, L2));
    EtaPairing.RepNeg(F, KAdd(d1, d0), PAdd(L1, L0));
    var r, R := Defect(F, first, Sub3(F, n, One3(F))), DefectPoly(first, N);
    if first {
      RepEmbed(F, r, PSub(L1, L0), PSub(L1, L2), PScale(-1, PAdd(L1, L2)));
    } else {
      RepEmbed(F, r, PScale(-1, PAdd(L1, L0)), L2, PScale(-1, PAdd(L1, L2)));
    }
  }

  lemma RealDigits(F: Field, n: K3, N: K6)
    requires Sized3(F, n) && Rep6(F, Embed3(F, n), N)
    ensures Rep(F, n.c0, N.a0.x0) && Rep(F, n.c1, N.a1.x0) && Rep(F, n.c2, N.a2.x0) && InK3(F, n)
  {
    hide Cong;
  }

  lemma {:induction false} LessZero(F: Field, n: K3)
    requires Good(F) && InK3(F, n)
    ensures F.m > 0 && Sized3(F, n) && Sized3(F, One3(F)) && Sub3(F, n, One3(F)) == K3(KSub(n.c0, KOne(F)), n.c1, n.c2)
  {
    hide InK, KAdd, KSub, KZero, KOne;
    KUnits(F, n.c0);
    MinusZero(F, n.c1);
    MinusZero(F, n.c2);
  }

  lemma {:induction false} MinusZero(F: Field, a: Poly)
    requires Good(F) && InK(F, a)
    ensures |a| == |KZero(F)| && KSub(a, KZero(F)) == a
  {
    hide InK, KMul, KAdd, KSub, KScale, KOne, KZero;
    HoldsInField(F, Dif(Var(0), Var(1)), Var(0), Null, [a]);
  }

  lemma {:induction false} EvDefect(first: bool, N: K6, X: int)
    ensures Ev6(DefectPoly(first, N), X) == ZDefect(first, Ev6(N, X))
  {
    hide Ev, PAdd, PSub, PScale;
    var d0, d1, d2 := PSub(N.a0.x0, [1]), N.a1.x0, N.a2.x0;
    EvConst(1, X);
    EvSub(N.a0.x0, [1], X);
    EvSub(d1, d0, X);
    EvSub(d1, d2, X);
    EvAdd(d1, d2, X);
    EvAdd(d1, d0, X);
    EvScale(-1, PAdd(d1, d2), X);
    EvScale(-1, PAdd(d1, d0), X);
    EvEmbed(PSub(d1, d0), PSub(d1, d2), PScale(-1, PAdd(d1, d2)), X);
    EvEmbed(PScale(-1, PAdd(d1, d0)), d2, PScale(-1, PAdd(d1, d2)), X);
  }

  function Parts(u: K6): seq<Poly>
  {
    [u.a0.x0, u.a0.x1, u.a1.x0, u.a1.x1, u.a2.x0, u.a2.x1]
  }

  lemma PartsIn(F: Field, u: K6)
    requires InK6(F, u)
    ensures AllIn(F, Parts(u))
  {
    hide InK;
  }

  lemma ValuesOfParts(u: K6, X: int)
    ensures var z := Ev6(u, X); Values(Parts(u), X) == [z.c0.re, z.c0.im, z.c1.re, z.c1.im, z.c2.re, z.c2.im]
    ensures var z := Ev6(u, X); z == Six(z.c0.re, z.c0.im, z.c1.re, z.c1.im, z.c2.re, z.c2.im)
  {
    hide Ev;
  }

  function Seventh(first: bool): Ex6
  {
    if first then SEVENTH else SEVENTH_FIVE
  }

  function Gap(first: bool): Ex6
  {
    if first then GAP else GAP_FIVE
  }

  // The value of the nine products and sums at u.
  function Composed(F: Field, first: bool, u: K6): (r: K6)
    requires Sized6(F, u)
    ensures Sized6(F, r)
  {
    KEval6(F, Seventh(first), Parts(u))
  }

  lemma ComposedIs(F: Field, first: bool, u: K6)
    requires Sized6(F, u)
    ensures Shaped(F, Parts(u)) && Composed(F, first, u) == KEval6(F, Seventh(first), Parts(u))
  {
    hide KEval6, Seventh;
  }

  lemma {:induction false} SeventhAt(first: bool, u: K6, X: int)
    ensures var z := Ev6(u, X); var e := Values(Parts(u), X);
            ZEval6(Seventh(first), e) == YAdd(YAdd(YMul(z, YTurn(first, z)), ZDefect(first, YMul(z, YConj(z)))), YThree(ZEval6(Gap(first), e)))
  {
    hide YMul, YTurn, YConj, ZEval6, ZEval, YAdd, YThree, ZDefect, Ev6, Values, Six;
    var z := Ev6(u, X);
    ValuesOfParts(u, X);
    if first {
      FirstValue(Values(Parts(u), X), z.c0.re, z.c0.im, z.c1.re, z.c1.im, z.c2.re, z.c2.im);
    } else {
      FiveValue(Values(Parts(u), X), z.c0.re, z.c0.im, z.c1.re, z.c1.im, z.c2.re, z.c2.im);
    }
  }

  function Add6(F: Field, a: K6, b: K6): (r: K6)
    requires Sized6(F, a) && Sized6(F, b)
    ensures Sized6(F, r)
  {
    K6(Gf32mAdd(F, a.a0, b.a0), Gf32mAdd(F, a.a1, b.a1), Gf32mAdd(F, a.a2, b.a2))
  }

  lemma {:induction false} RepAdd6(F: Field, a: K6, L: K6, b: K6, N: K6)
    requires Good(F) && Rep6(F, a, L) && Rep6(F, b, N)
    ensures Sized6(F, a) && Sized6(F, b) && Rep6(F, Add6(F, a, b), TAdd(L, N)) && InK6(F, Add6(F, a, b))
  {
    hide Rep2, LAdd, Gf32mAdd, InK6;
    Rep2Sum(F, a.a0, L.a0, b.a0, N.a0);
    Rep2Sum(F, a.a1, L.a1, b.a1, N.a1);
    Rep2Sum(F, a.a2, L.a2, b.a2, N.a2);
    Rep6In(F, Add6(F, a, b), TAdd(L, N));
  }

  // The routine returns u times its turn, plus what the norm misses 1 by.
  lemma {:induction false} SeventhIs(F: Field, first: bool, u: K6)
    requires Good(F) && InK6(F, u)
    ensures Sized6(F, u) && Sized3(F, One3(F)) && Sized3(F, Norm(F, u)) && InK3(F, Norm(F, u)) && InK6(F, Turn(F, first, u))
    ensures InK6(F, Composed(F, first, u)) && Composed(F, first, u) ==
      Add6(F, Gf33mMult(F, u, Turn(F, first, u)), Embed3(F, Defect(F, first, Sub3(F, Norm(F, u), One3(F)))))
  {
    hide *;
    var e := Parts(u);
    var N := TAdd(PlainPoly(Re(u), Re(u)), PlainPoly(Im(u), Im(u)));
    PartsIn(F, u);
    EvalRep6(F, Seventh(first), e);
    Rep6Self(F, u);
    RepTurn(F, first, u, u);
    Rep6Product(F, u, u, Turn(F, first, u), TurnPoly(first, u));
    RepNorm(F, u);
    NormSized(F, u);
    ComposedIs(F, first, u);
    RepDefect(F, first, Norm(F, u), N);
    var d := Embed3(F, Defect(F, first, Sub3(F, Norm(F, u), One3(F))));
    RepAdd6(F, Gf33mMult(F, u, Turn(F, first, u)), TMul(u, TurnPoly(first, u)), d, DefectPoly(first, N));
    var L := TAdd(TMul(u, TurnPoly(first, u)), DefectPoly(first, N));
    var W := PEval6(Gap(first), e);
    forall X ensures Ev6(PEval6(Seventh(first), e), X) == YAdd(Ev6(L, X), YThree(Ev6(W, X))) {
      EvEval6(Seventh(first), e, X);
      EvEval6(Gap(first), e, X);
      SeventhAt(first, u, X);
      EvTAdd(TMul(u, TurnPoly(first, u)), DefectPoly(first, N), X);
      EvTMul(u, TurnPoly(first, u), X);
      EvTurn(first, u, X);
      EvDefect(first, N, X);
      EvTAdd(PlainPoly(Re(u), Re(u)), PlainPoly(Im(u), Im(u)), X);
      EvProducts(u, u, X);
      ConjValue(Ev6(u, X));
    }
    Rep6Three(F, KEval6(F, Seventh(first), e), PEval6(Seventh(first), e),
      Add6(F, Gf33mMult(F, u, Turn(F, first, u)), d), L, W);
  }

  // ---------------------------------------------------------------- when the norm is 1

  lemma {:induction false} SumUnchanged(F: Field, a: Poly, d: Poly)
    requires InK(F, a) && InK(F, d)
    ensures |a| == |d| == F.m && (KAdd(a, d) == a <==> d == KZero(F))
  {
    if KAdd(a, d) == a {
      forall i | 0 <= i < F.m ensures d[i] == KZero(F)[i] { assert KAdd(a, d)[i] == (a[i] + d[i]) % 3; }
    }
  }

  // d1 = d2 = -d1 only for zero.
  lemma {:induction false} BothZero(F: Field, a: Poly, b: Poly)
    requires InK(F, a) && InK(F, b)
    ensures |a| == |b| == F.m && (a == b && KNeg(KAdd(a, b)) == KZero(F) <==> a == KZero(F) && b == KZero(F))
    ensures b == KZero(F) ==> (KNeg(KAdd(a, b)) == KZero(F) <==> a == KZero(F))
  {
    if KNeg(KAdd(a, b)) == KZero(F) && (a == b || b == KZero(F)) {
      forall i | 0 <= i < F.m ensures a[i] == KZero(F)[i] {
        assert KAdd(a, b)[i] == (a[i] + b[i]) % 3;
        assert KNeg(KAdd(a, b))[i] == (-1 * KAdd(a, b)[i]) % 3;
      }
    }
  }

  lemma {:induction false} DefectIsZero(F: Field, first: bool, D: K3)
    requires Good(F) && InK3(F, D)
    ensures Sized3(F, D) && (Defect(F, first, D) == Zero3(F) <==> D == Zero3(F))
  {
    hide InK, KAdd, KSub, KNeg, KZero;
    LengthsOf(F, D, D);
    DifferenceIsZero(F, D.c1, D.c0);
    DifferenceIsZero(F, D.c1, D.c2);
    BothZero(F, D.c1, D.c2);
    BothZero(F, D.c0, D.c1);
    KCommutes(F, D.c0, D.c1);
  }

  lemma {:induction false} NormLessOne(F: Field, n: K3)
    requires Good(F) && InK3(F, n)
    ensures F.m > 0 && Sized3(F, n) && Sized3(F, One3(F)) && InK3(F, Sub3(F, n, One3(F)))
    ensures Sub3(F, n, One3(F)) == Zero3(F) <==> n == One3(F)
  {
    hide InK, KAdd, KSub, KZero, KOne;
    KUnits(F, n.c0);
    LengthsOf(F, n, n);
    DifferenceIsZero(F, n.c0, KOne(F));
    DifferenceIsZero(F, n.c1, KZero(F));
    DifferenceIsZero(F, n.c2, KZero(F));
    KCommutes(F, n.c0, KOne(F));
    KCommutes(F, n.c1, KZero(F));
    KCommutes(F, n.c2, KZero(F));
  }

  lemma {:induction false} AddsNothing(F: Field, a: K6, d: K3)
    requires Good(F) && InK6(F, a) && InK3(F, d)
    ensures Sized6(F, a) && Sized3(F, d) && (Add6(F, a, Embed3(F, d)) == a <==> d == Zero3(F))
  {
    hide InK, KAdd, KZero;
    LengthsOf(F, d, d);
    KUnits(F, a.a0.x0);
    SumUnchanged(F, a.a0.x0, d.c0);
    SumUnchanged(F, a.a1.x0, d.c1);
    SumUnchanged(F, a.a2.x0, d.c2);
    SumUnchanged(F, a.a0.x1, KZero(F));
    SumUnchanged(F, a.a1.x1, KZero(F));
    SumUnchanged(F, a.a2.x1, KZero(F));
  }

  lemma {:induction false} DefectIn(F: Field, first: bool, n: K3, N: K6)
    requires Good(F) && Sized3(F, n) && Rep6(F, Embed3(F, n), N)
    ensures Sized3(F, One3(F)) && InK3(F, Defect(F, first, Sub3(F, n, One3(F))))
  {
    hide *;
    RepDefect(F, first, n, N);
    var d := Defect(F, first, Sub3(F, n, One3(F)));
    Rep6In(F, Embed3(F, d), DefectPoly(first, N));
    EmbedIn(F, d);
  }

  // u*turn(u) is the power 3^m + 1.
  lemma {:induction false} TurnPower(F: Field, u: K6)
    requires IsTower(F) && InK6(F, u)
    ensures Sized6(F, u) && Pow(3, F.m) >= 1 && Gf33mMult(F, u, Turn(F, F.m % 6 == 1, u)) == Pow6(F, u, Pow(3, F.m) + 1)
  {
    hide *;
    TowerIsField(F);
    DegreeTurns(F, u);
    IterateIsPower(F, u, F.m);
    Pow6Unfolds(F, u, Pow(3, F.m) + 1);
  }

  // The routine computes the power exactly for the elements of norm 1.
  lemma {:induction false} SeventhIff(F: Field, u: K6)
    requires IsTower(F) && InK6(F, u)
    ensures F.m > 0 && Sized6(F, u) && Pow(3, F.m) >= 1 && InK6(F, Composed(F, F.m % 6 == 1, u))
    ensures Composed(F, F.m % 6 == 1, u) == Pow6(F, u, Pow(3, F.m) + 1) <==> Gf33mMult(F, u, Conj6(F, u)) == One6(F)
  {
    hide *;
    TowerIsField(F);
    var first := F.m % 6 == 1;
    SeventhIs(F, first, u);
    RepNorm(F, u);
    var n := Norm(F, u);
    NormSized(F, u);
    DefectIn(F, first, n, TAdd(PlainPoly(Re(u), Re(u)), PlainPoly(Im(u), Im(u))));
    NormLessOne(F, n);
    DefectIsZero(F, first, Sub3(F, n, One3(F)));
    MultCommutes(F, u, Turn(F, first, u));
    AddsNothing(F, Gf33mMult(F, u, Turn(F, first, u)), Defect(F, first, Sub3(F, n, One3(F))));
    TurnPower(F, u);
    ConjTimes(F, u);
    OneIn3(F);
    if Embed3(F, n) == Embed3(F, One3(F)) { EmbedInjective(F, n, One3(F)); }
  }

  // The expressions, operation by operation.
  lemma {:induction false} Subterms(F: Field, e: seq<Poly>)
    requires Shaped(F, e) && |e| == 6
    ensures KEval(F, M01, e) == KAdd(KMul(F, e[0], e[4]), KMul(F, e[1], e[5]))
    ensures KEval(F, A3, e) == KSub(KAdd(KMul(F, e[1], e[2]), KMul(F, e[0], e[3])), KMul(F, KAdd(e[0], e[1]), KAdd(e[2], e[3])))
    ensures KEval(F, A4, e) == KSub(KScale(-1, KMul(F, e[2], e[4])), KMul(F, e[3], e[5]))
    ensures KEval(F, A5, e) == KSub(KMul(F, e[3], e[5]), KMul(F, e[2], e[4]))
    ensures KEval(F, A6, e) == KAdd(KSub(KMul(F, e[1], e[5]), KMul(F, e[0], e[4])), KMul(F, KAdd(e[0], e[1]), KSub(e[4], e[5])))
    ensures KEval(F, M8, e) == KMul(F, KAdd(e[2], e[3]), KSub(e[4], e[5]))
  {
    hide KAdd, KSub, KMul, KScale, KOne, KZero;
  }

  lemma {:induction false} ComposedFirst(F: Field, u: K6)
    requires Sized6(F, u)
    ensures Shaped(F, Parts(u))
    ensures var e := Parts(u); var m5, m6, v5 := KMul(F, e[1], e[2]), KMul(F, e[0], e[3]), KAdd(KEval(F, M8, e), KEval(F, A5, e));
            var a3, a4, a6 := KEval(F, A3, e), KEval(F, A4, e), KEval(F, A6, e);
            Composed(F, true, u) == K6(K2(KAdd(KOne(F), KAdd(KEval(F, M01, e), a4)), KAdd(KSub(m5, m6), a6)),
              K2(KSub(a4, a3), KSub(v5, a6)), K2(KScale(-1, KAdd(a3, a4)), v5))
  {
    hide KAdd, KSub, KMul, KScale, KOne, KZero;
  }

  lemma {:induction false} ComposedFive(F: Field, u: K6)
    requires Sized6(F, u)
    ensures Shaped(F, Parts(u))
    ensures var e := Parts(u); var m5, m6, v5 := KMul(F, e[1], e[2]), KMul(F, e[0], e[3]), KAdd(KEval(F, M8, e), KEval(F, A5, e));
            var a3, a4, a6 := KEval(F, A3, e), KEval(F, A4, e), KEval(F, A6, e);
            Composed(F, false, u) == K6(K2(KAdd(KOne(F), KSub(KEval(F, M01, e), a4)), KAdd(KSub(m6, m5), a6)),
              K2(a3, KAdd(v5, a6)), K2(KScale(-1, KAdd(a3, a4)), KScale(-1, v5)))
  {
    hide KAdd, KSub, KMul, KScale, KOne, KZero;
  }

  // It does fail: 1 + s has norm 2. That is an argument of algorithm7 as a routine; algorithm8 never passes one, since what
  // algorithm6 leaves has norm 1.
  lemma {:induction false} SeventhFails(F: Field)
    requires IsTower(F)
    ensures var u := Pack(One3(F), One3(F));
            InK6(F, u) && Sized6(F, u) && Pow(3, F.m) >= 1 && Composed(F, F.m % 6 == 1, u) != Pow6(F, u, Pow(3, F.m) + 1)
  {
    hide *;
    TowerIsField(F);
    OneIn3(F);
    var o := One3(F);
    var u := Pack(o, o);
    PackedParts(o, o);
    PackedIn(F, o, o);
    PartsOf(F, u);
    NormIs(F, u);
    TwoNotOne(F);
    ConjTimes(F, u);
    SeventhIff(F, u);
    NormSized(F, u);
    if Embed3(F, Norm(F, u)) == Embed3(F, o) { EmbedInjective(F, Norm(F, u), o); }
  }

  lemma TwoNotOne(F: Field)
    requires F.m > 0 && Sized3(F, One3(F))
    ensures Add3(F, One3(F), One3(F)) != One3(F)
  {
    assert KAdd(KOne(F), KOne(F))[0] == 2;
    assert KOne(F)[0] == 1;
  }

  method Algorithm7(F: Field, u: K6) returns (c: K6)
    requires IsTower(F) && InK6(F, u)
    ensures F.m > 0 && Sized6(F, u) && InK6(F, c) && Sized6(F, c)
    ensures Pow(3, F.m) >= 1 && (c == Pow6(F, u, Pow(3, F.m) + 1) <==> Gf33mMult(F, u, Conj6(F, u)) == One6(F))
  {
    hide IsTower, InK6, KAdd, KSub, KMul, KScale, KOne, Gf33mMult, Pow6, Conj6, One6, Pow, ZEval, PEval, Shaped, KEval, KEval6, Composed;
    TowerIsField(F);
    SeventhIff(F, u);
    ComposedFirst(F, u);
    ComposedFive(F, u);
    Subterms(F, Parts(u));
    var u0, u1, u2, u3, u4, u5 := u.a0.x0, u.a0.x1, u.a1.x0, u.a1.x1, u.a2.x0, u.a2.x1;
    var a0 := KAdd(u0, u1);
    var a1 := KAdd(u2, u3);
    var a2 := KSub(u4, u5);
    var m0 := KMul(F, u0, u4);
    var m1 := KMul(F, u1, u5);
    var m2 := KMul(F, u2, u4);
    var m3 := KMul(F, u3, u5);
    var m4 := KMul(F, a0, a2);
    var m5 := KMul(F, u1, u2);
    var m6 := KMul(F, u0, u3);
    var m7 := KMul(F, a0, a1);
    var m8 := KMul(F, a1, a2);
    var a3 := KAdd(m5, m6);
    a3 := KSub(a3, m7);
    var a4 := KNeg(m2);
    a4 := KSub(a4, m3);
    var a5 := KSub(m3, m2);
    var a6 := KSub(m1, m0);
    a6 := KAdd(a6, m4);
    var v0, v1, v2, v3, v4, v5;
    v0 := KAdd(m0, m1);
    v4 := KNeg(KAdd(a3, a4));
    v5 := KAdd(m8, a5);
    if F.m % 6 == 1 {
      v0 := KAdd(KOne(F), KAdd(v0, a4));
      v1 := KAdd(KSub(m5, m6), a6);
      v2 := KSub(a4, a3);
      v3 := KSub(v5, a6);
    } else {
      v0 := KAdd(KOne(F), KSub(v0, a4));
      v1 := KAdd(KSub(m6, m5), a6);
      v2 := a3;
      v3 := KAdd(v5, a6);
      v5 := KNeg(v5);
    }
    c := K6(K2(v0, v1), K2(v2, v3), K2(v4, v5));
  }

  // ---------------------------------------------------------------- algorithm 8: the final powering

  predicate Plus(m: nat)
  {
    m % 12 == 1 || m % 12 == 11
  }

  // The last factor of the exponent: 3^m + 1 less or plus 3^((m+1)/2).
  function LastFactor(m: nat): int
  {
    if Plus(m) then Pow(3, m) + 1 - Pow(3, (m + 1) / 2) else Pow(3, m) + 1 + Pow(3, (m + 1) / 2)
  }

  // What it leaves of 3^(2m) - 3^m + 1.
  function GroupOrder(m: nat): int
  {
    if Plus(m) then Pow(3, m) + 1 + Pow(3, (m + 1) / 2) else Pow(3, m) + 1 - Pow(3, (m + 1) / 2)
  }

  function FinalExponent(m: nat): int
  {
    (Pow(3, 3 * m) - 1) * (Pow(3, m) + 1) * LastFactor(m)
  }

  lemma {:induction false} PowGrows(i: nat, j: nat)
    requires i <= j
    ensures 1 <= Pow(3, i) <= Pow(3, j)
  {
    PowerOfThree(i);
    PowerOfThree(j);
    if i < j { PowGrows(i, j - 1); }
  }

  lemma {:induction false} PowAdds(i: nat, j: nat)
    ensures Pow(3, i + j) == Pow(3, i) * Pow(3, j)
  {
    hide *;
    PowerOfThree(i);
    PowerOfThree(i + j);
    if i > 0 {
      PowAdds(i - 1, j);
      MulGroups(Pow(3, i - 1), Pow(3, j));
    } else {
      OneTimesInt(Pow(3, j));
    }
  }

  lemma MulGroups(a: int, b: int)
    ensures 3 * (a * b) == (3 * a) * b
  {
  }

  lemma OneTimesInt(a: int)
    ensures 1 * a == a
  {
  }

  lemma {:induction false} FactorsPositive(m: nat)
    requires m % 2 == 1
    ensures Pow(3, m) >= 1 && Pow(3, 3 * m) >= 1 && LastFactor(m) >= 0 && GroupOrder(m) >= 0 && FinalExponent(m) >= 0
    ensures Pow(3, (m + 1) / 2) >= 1
  {
    hide Pow;
    PowGrows((m + 1) / 2, m);
    PowGrows(0, 3 * m);
    NonNegative(Pow(3, 3 * m) - 1, Pow(3, m) + 1, LastFactor(m));
  }

  lemma NonNegative(a: int, b: int, c: int)
    requires a >= 0 && b >= 0 && c >= 0
    ensures a * b >= 0 && a * b * c >= 0
  {
  }

  // The exponent times the group order is 3^(6m) - 1.
  lemma {:induction false} FullExponent(m: nat)
    requires m % 2 == 1
    ensures FinalExponent(m) * GroupOrder(m) == Pow(3, 6 * m) - 1
  {
    hide Pow;
    var x, y, z := Pow(3, m), Pow(3, (m + 1) / 2), Pow(3, 3 * m);
    var h := (m + 1) / 2;
    PowAdds(h, h);
    assert h + h == m + 1;
    PowerOfThree(m + 1);
    PowAdds(m, m);
    PowAdds(2 * m, m);
    assert m + m == 2 * m && 2 * m + m == 3 * m && 3 * m + 3 * m == 6 * m;
    PowAdds(3 * m, 3 * m);
    ExponentFactors(x, y, z);
  }

  lemma {:induction false} ExponentFactors(x: int, y: int, z: int)
    requires y * y == 3 * x && z == x * x * x
    ensures (z - 1) * (x + 1) * (x + 1 - y) * (x + 1 + y) == z * z - 1 && (z - 1) * (x + 1) * (x + 1 + y) * (x + 1 - y) == z * z - 1
  {
    hide *;
    SquaresDiffer(x + 1, y);
    CubesSum(x);
    Grouped((z - 1), x + 1, x + 1 - y, x + 1 + y);
    SquaresDiffer(z, 1);
  }

  lemma SquaresDiffer(a: int, b: int)
    ensures (a - b) * (a + b) == a * a - b * b && (a + b) * (a - b) == a * a - b * b
  {
  }

  lemma CubesSum(x: int)
    ensures (x + 1) * ((x + 1) * (x + 1) - 3 * x) == x * x * x + 1
  {
  }

  lemma Grouped(a: int, b: int, c: int, d: int)
    ensures a * b * c * d == a * (b * (c * d)) && a * b * d * c == a * (b * (d * c))
  {
  }

  // Every power of an element of norm 1 has norm 1.
  lemma {:induction false} PowerNorm(F: Field, u: K6, n: nat)
    requires Good(F) && InK6(F, u) && (F.m > 0 && Sized6(F, u) ==> Gf33mMult(F, u, Conj6(F, u)) == One6(F))
    ensures F.m > 0 && Sized6(F, u) && Gf33mMult(F, Pow6(F, u, n), Conj6(F, Pow6(F, u, n))) == One6(F) && InK6(F, Pow6(F, u, n))
  {
    hide *;
    OneTimes(F, u);
    ConjTwice(F, u);
    Pow6In(F, u, n);
    Pow6Unfolds(F, u, n);
    if n == 0 {
      OneNorm(F);
    } else {
      PowerNorm(F, u, n - 1);
      var p := Pow6(F, u, n - 1);
      ConjTwice(F, p);
      ConjMult(F, u, p);
      Interchange(F, u, p, Conj6(F, u), Conj6(F, p));
      OneTimes(F, One6(F));
    }
  }

  lemma {:induction false} OneNorm(F: Field)
    requires Good(F)
    ensures F.m > 0 && Gf33mMult(F, One6(F), Conj6(F, One6(F))) == One6(F) && InK6(F, One6(F))
  {
    hide *;
    OneIn3(F);
    ConjOfReal(F, One3(F));
    EmbedSelf(F, One3(F));
    OneTimes(F, One6(F));
  }

  // (ab)(cd) = (ac)(bd)
  lemma {:induction false} Interchange(F: Field, a: K6, b: K6, c: K6, d: K6)
    requires Good(F) && InK6(F, a) && InK6(F, b) && InK6(F, c) && InK6(F, d)
    ensures Sized6(F, a) && Sized6(F, b) && Sized6(F, c) && Sized6(F, d)
    ensures Gf33mMult(F, Gf33mMult(F, a, b), Gf33mMult(F, c, d)) == Gf33mMult(F, Gf33mMult(F, a, c), Gf33mMult(F, b, d))
  {
    hide *;
    MultCommutes(F, a, b);
    MultCommutes(F, c, d);
    MultCommutes(F, b, c);
    MultCommutes(F, b, d);
    MultAssociates(F, a, b, Gf33mMult(F, c, d));
    MultAssociates(F, b, c, d);
    MultAssociates(F, c, b, d);
    MultAssociates(F, a, c, Gf33mMult(F, b, d));
  }

  // An element of norm 1 is not zero.
  lemma {:induction false} UnitNotZero(F: Field, u: K6)
    requires IsTower(F) && InK6(F, u) && (F.m > 0 && Sized6(F, u) ==> Gf33mMult(F, u, Conj6(F, u)) == One6(F))
    ensures F.m > 0 && u != Zero6(F)
  {
    hide *;
    TowerIsField(F);
    ConjTwice(F, u);
    MinusOneNotZero(F);
    if u == Zero6(F) { ZeroTimes6(F, Conj6(F, u)); }
  }

  lemma {:induction false} ZeroTimes6(F: Field, a: K6)
    requires Good(F) && InK6(F, a)
    ensures F.m > 0 && Sized6(F, a) && Sized6(F, Zero6(F)) && InK6(F, Zero6(F)) && Gf33mMult(F, Zero6(F), a) == Zero6(F)
  {
    hide *;
    RepZero6(F);
    Rep6Self(F, a);
    Rep6Product(F, Zero6(F), NonePoly(), a, a);
    Rep6In(F, Zero6(F), NonePoly());
    forall X ensures Ev6(TMul(NonePoly(), a), X) == Ev6(NonePoly(), X) {
      EvTMul(NonePoly(), a, X);
      EvNone(X);
      YMulCommutes(Ev6(NonePoly(), X), Ev6(a, X));
      YTimesZero(Ev6(a, X));
    }
    Rep6Equal(F, Gf33mMult(F, Zero6(F), a), TMul(NonePoly(), a), Zero6(F), NonePoly());
  }

  ghost function NonePoly(): K6
  {
    K6(K2([], []), K2([], []), K2([], []))
  }

  lemma {:induction false} RepZero6(F: Field)
    requires Good(F)
    ensures F.m > 0 && Sized6(F, Zero6(F)) && Rep6(F, Zero6(F), NonePoly())
  {
    hide Rep, KZero;
    EtaPairing.RepConstants(F);
    ZeroSums(F);
  }

  lemma EvNone(X: int)
    ensures Ev6(NonePoly(), X) == Z6(Z2(0, 0), Z2(0, 0), Z2(0, 0))
  {
    EvConst(0, X);
  }

  // v*conj(w) undoes w for w of norm 1: a difference of exponents.
  lemma {:induction false} PowerQuotient(F: Field, v: K6, i: nat, j: nat)
    requires IsTower(F) && InK6(F, v) && j <= i && (F.m > 0 && Sized6(F, v) ==> Gf33mMult(F, v, Conj6(F, v)) == One6(F))
    ensures Sized6(F, v) && Gf33mMult(F, Pow6(F, v, i), Conj6(F, Pow6(F, v, j))) == Pow6(F, v, i - j)
  {
    hide *;
    TowerIsField(F);
    PowerNorm(F, v, j);
    Pow6Sum(F, v, i - j, j);
    Pow6In(F, v, i - j);
    var p, w := Pow6(F, v, i - j), Pow6(F, v, j);
    ConjTwice(F, w);
    MultAssociates(F, p, w, Conj6(F, w));
    OneTimes(F, p);
    MultCommutes(F, p, One6(F));
  }

  lemma {:induction false} FermatTower(F: Field, u: K6)
    requires IsTower(F) && InK6(F, u) && (F.m > 0 ==> u != Zero6(F))
    ensures Sized6(F, u) && Pow(3, 6 * F.m) >= 1 && Pow6(F, u, Pow(3, 6 * F.m) - 1) == One6(F)
  {
    hide *;
    TowerIsField(F);
    var m := F.m;
    ConjTwice(F, u);
    ConjugateByCubing(F, u);
    ConjugateByCubing(F, Conj6(F, u));
    IterateSum(F, u, 3 * m, 3 * m);
    IterateIsPower(F, u, 6 * m);
    var n := Pow(3, 6 * m);
    Pow6Unfolds(F, u, n);
    Pow6In(F, u, n - 1);
    MultCommutes(F, u, Pow6(F, u, n - 1));
    OneTimes(F, u);
    Cancel6(F, Pow6(F, u, n - 1), One6(F), u);
  }

  lemma ExponentIs(m: nat)
    ensures FinalExponent(m) == (Pow(3, 3 * m) - 1) * (Pow(3, m) + 1) * LastFactor(m)
    ensures LastFactor(m) == if Plus(m) then Pow(3, m) + 1 - Pow(3, (m + 1) / 2) else Pow(3, m) + 1 + Pow(3, (m + 1) / 2)
    ensures Plus(m) <==> m % 12 == 1 || m % 12 == 11
  {
    hide Pow;
  }

  // The last product, for v of norm 1.
  function LastProduct(F: Field, v: K6): (c: K6)
    requires Sized6(F, v)
    ensures Sized6(F, c)
  {
    hide *;
    PowerOfThree(F.m);
    var w := Iterate(F, v, (F.m + 1) / 2);
    Gf33mMult(F, Pow6(F, v, Pow(3, F.m) + 1), if Plus(F.m) then Conj6(F, w) else w)
  }

  lemma LastProductIs(F: Field, v: K6)
    requires Sized6(F, v)
    ensures Pow(3, F.m) >= 1
    ensures LastProduct(F, v) == Gf33mMult(F, Pow6(F, v, Pow(3, F.m) + 1), if Plus(F.m) then Conj6(F, Iterate(F, v, (F.m + 1) / 2)) else Iterate(F, v, (F.m + 1) / 2))
  {
    hide Pow, Conj6, Iterate, Pow6, Gf33mMult, Plus;
    PowerOfThree(F.m);
  }

  lemma {:induction false} LastPower(F: Field, v: K6)
    requires IsTower(F) && InK6(F, v) && (F.m > 0 && Sized6(F, v) ==> Gf33mMult(F, v, Conj6(F, v)) == One6(F))
    ensures Sized6(F, v) && LastFactor(F.m) >= 0 && LastProduct(F, v) == Pow6(F, v, LastFactor(F.m)) && InK6(F, LastProduct(F, v))
  {
    hide *;
    TowerIsField(F);
    var m := F.m;
    FactorsPositive(m);
    ExponentIs(m);
    ConjTwice(F, v);
    LastProductIs(F, v);
    var h := (m + 1) / 2;
    IterateIsPower(F, v, h);
    PowGrows(h, m);
    Pow6In(F, v, LastFactor(m));
    if Plus(m) {
      PowerQuotient(F, v, Pow(3, m) + 1, Pow(3, h));
    } else {
      Pow6Sum(F, v, Pow(3, m) + 1, Pow(3, h));
    }
  }

  lemma {:induction false} FinalPower(F: Field, u: K6, s: K6)
    requires IsTower(F) && InK6(F, u) && InK6(F, s) && (F.m > 0 ==> u != Zero6(F))
    requires Sized6(F, u) && Sized6(F, s) && Pow(3, 3 * F.m) >= 1 && s == Pow6(F, u, Pow(3, 3 * F.m) - 1)
    requires Gf33mMult(F, s, Conj6(F, s)) == One6(F)
    ensures Pow(3, F.m) >= 1 && FinalExponent(F.m) >= 0 && GroupOrder(F.m) >= 0
    ensures var c := LastProduct(F, Pow6(F, s, Pow(3, F.m) + 1));
            InK6(F, c) && c == Pow6(F, u, FinalExponent(F.m)) && Pow6(F, c, GroupOrder(F.m)) == One6(F)
  {
    hide *;
    TowerIsField(F);
    var m := F.m;
    FactorsPositive(m);
    ExponentIs(m);
    PowerNorm(F, s, Pow(3, m) + 1);
    var v := Pow6(F, s, Pow(3, m) + 1);
    LastPower(F, v);
    Pow6Product(F, u, Pow(3, 3 * m) - 1, Pow(3, m) + 1);
    Pow6Product(F, u, (Pow(3, 3 * m) - 1) * (Pow(3, m) + 1), LastFactor(m));
    Pow6Product(F, u, FinalExponent(m), GroupOrder(m));
    FullExponent(m);
    FermatTower(F, u);
  }

  method Algorithm8(F: Field, u: K6, left: K3) returns (c: K6)
    requires IsTower(F) && InK6(F, u) && InK3(F, left) && (F.m > 0 ==> u != Zero6(F))
    ensures F.m > 0 && Sized6(F, u) && InK6(F, c) && Sized6(F, c)
    ensures FinalExponent(F.m) >= 0 && c == Pow6(F, u, FinalExponent(F.m))
    ensures GroupOrder(F.m) >= 0 && Pow6(F, c, GroupOrder(F.m)) == One6(F)
  {
    hide *;
    TowerIsField(F);
    FactorsPositive(F.m);
    var v := Algorithm6(F, u, left);
    ghost var s := v;
    UnitNotZero(F, v);
    v := Algorithm7(F, v);
    ghost var v1 := v;
    PowerNorm(F, s, Pow(3, F.m) + 1);
    var w := v;
    var i := 0;
    IterateUnfolds(F, v1, 0);
    while i < (F.m + 1) / 2
      invariant 0 <= i <= (F.m + 1) / 2
      invariant Sized6(F, w) && w == Iterate(F, v1, i)
    {
      IterateUnfolds(F, v1, i + 1);
      w := Gf33mCubic(F, w);
      i := i + 1;
    }
    IterateIsPower(F, v1, i);
    v := Algorithm7(F, v);
    if F.m % 12 == 1 || F.m % 12 == 11 {
      w := Conj6(F, w);
    }
    c := Gf33mMult(F, v, w);
    LastProductIs(F, v1);
    ExponentIs(F.m);
    FinalPower(F, u, s);
  }
}
