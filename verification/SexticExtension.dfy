// GF(3^6m) over GF(3^3m): for m prime to 6 every nonzero element has a nonzero norm and an inverse.
module SexticExtension {
  import opened Arith
  import opened Polynomials
  import opened TernaryTower
  import opened TernaryCubes
  import opened TernaryIdentities
  import opened TernaryFermat
  import opened TernaryFrobenius
  import opened CubicExtension
  import EtaPairing

  // The degree is odd and not divisible by three.
  ghost predicate IsTower(F: Field)
  {
    IsField(F) && F.m % 2 == 1 && F.m % 3 != 0
  }

  lemma TowerIsField(F: Field)
    requires IsTower(F)
    ensures IsField(F) && Good(F) && F.m % 2 == 1 && F.m % 3 != 0 && F.m > 0
  {
    hide IsField;
    IsGood(F);
  }

  function Zero6(F: Field): (r: K6)
    requires F.m > 0
    ensures Sized6(F, r)
  {
    K6(K2(KZero(F), KZero(F)), K2(KZero(F), KZero(F)), K2(KZero(F), KZero(F)))
  }

  // ---------------------------------------------------------------- real and imaginary parts

  // x + y*s for x and y in GF(3^3m).
  function Pack(x: K3, y: K3): K6
  {
    K6(K2(x.c0, y.c0), K2(x.c1, y.c1), K2(x.c2, y.c2))
  }

  function Re(a: K6): K3
  {
    K3(a.a0.x0, a.a1.x0, a.a2.x0)
  }

  function Im(a: K6): K3
  {
    K3(a.a0.x1, a.a1.x1, a.a2.x1)
  }

  lemma PartsOf(F: Field, a: K6)
    ensures Pack(Re(a), Im(a)) == a
    ensures InK6(F, a) <==> InK3(F, Re(a)) && InK3(F, Im(a))
    ensures F.m > 0 ==> (a == Zero6(F) <==> Re(a) == Zero3(F) && Im(a) == Zero3(F))
  {
    hide InK;
  }

  // The integers behind: a real and an imaginary triple.
  function RealPart(u: Z6): Z6
  {
    Z6(Z2(u.c0.re, 0), Z2(u.c1.re, 0), Z2(u.c2.re, 0))
  }

  function ImaginaryPart(u: Z6): Z6
  {
    Z6(Z2(0, u.c0.im), Z2(0, u.c1.im), Z2(0, u.c2.im))
  }

  // The imaginary part, made real.
  function Turned(u: Z6): Z6
  {
    Z6(Z2(u.c0.im, 0), Z2(u.c1.im, 0), Z2(u.c2.im, 0))
  }

  function ZPack(x: Z6, y: Z6): Z6
  {
    Z6(Z2(x.c0.re, y.c0.re), Z2(x.c1.re, y.c1.re), Z2(x.c2.re, y.c2.re))
  }

  lemma SumOfParts(u: Z6)
    ensures YAdd(RealPart(u), ImaginaryPart(u)) == u && YAdd(RealPart(u), YNeg(ImaginaryPart(u))) == YConj(u)
    ensures RealPart(Turned(u)) == Turned(u) && ImaginaryPart(u) == ZPack(Z6(Z2(0, 0), Z2(0, 0), Z2(0, 0)), Turned(u))
    ensures ZPack(RealPart(u), Turned(u)) == u
  {
  }

  lemma {:induction false} ZMixed(a: int, b: int)
    ensures ZMul(Z2(a, 0), Z2(0, b)) == Z2(0, a * b) && ZMul(Z2(0, a), Z2(0, b)) == Z2(0 - a * b, 0)
  {
    ZTimesZero(a);
    ZTimesZero(b);
  }

  // Products of real and imaginary triples.
  lemma {:induction false} MixedTriples(a: int, b: int, c: int, x: int, y: int, z: int)
    ensures YMul(Z6(Z2(a, 0), Z2(b, 0), Z2(c, 0)), Z6(Z2(0, x), Z2(0, y), Z2(0, z))) ==
      Z6(Z2(0, a * x + (b * z + c * y)), Z2(0, a * y + b * x + (b * z + c * y + c * z)), Z2(0, a * z + b * y + (c * x + c * z)))
  {
    hide ZMul;
    ZMixed(a, x);
    ZMixed(a, y);
    ZMixed(a, z);
    ZMixed(b, x);
    ZMixed(b, y);
    ZMixed(b, z);
    ZMixed(c, x);
    ZMixed(c, y);
    ZMixed(c, z);
  }

  lemma {:induction false} ImaginaryTriples(a: int, b: int, c: int, x: int, y: int, z: int)
    ensures YMul(Z6(Z2(0, a), Z2(0, b), Z2(0, c)), Z6(Z2(0, x), Z2(0, y), Z2(0, z))) ==
      YNeg(Z6(Z2(a * x + (b * z + c * y), 0), Z2(a * y + b * x + (b * z + c * y + c * z), 0), Z2(a * z + b * y + (c * x + c * z), 0)))
  {
    hide ZMul;
    ZMixed(a, x);
    ZMixed(a, y);
    ZMixed(a, z);
    ZMixed(b, x);
    ZMixed(b, y);
    ZMixed(b, z);
    ZMixed(c, x);
    ZMixed(c, y);
    ZMixed(c, z);
  }

  // t*t is minus the square of the turned t, and x*t is the imaginary x times the turned t.
  lemma {:induction false} TurnedProducts(u: Z6, v: Z6)
    ensures YMul(ImaginaryPart(u), ImaginaryPart(v)) == YNeg(YMul(Turned(u), Turned(v)))
    ensures YMul(RealPart(u), ImaginaryPart(v)) == ZPack(Z6(Z2(0, 0), Z2(0, 0), Z2(0, 0)), YMul(RealPart(u), Turned(v)))
    ensures RealPart(YMul(RealPart(u), RealPart(v))) == YMul(RealPart(u), RealPart(v))
    ensures RealPart(YMul(RealPart(u), Turned(v))) == YMul(RealPart(u), Turned(v))
    ensures RealPart(YMul(Turned(u), Turned(v))) == YMul(Turned(u), Turned(v))
  {
    hide ZMul, ZAdd, YMul, YNeg;
    ImaginaryTriples(u.c0.im, u.c1.im, u.c2.im, v.c0.im, v.c1.im, v.c2.im);
    RealProduct(u.c0.im, u.c1.im, u.c2.im, v.c0.im, v.c1.im, v.c2.im);
    MixedTriples(u.c0.re, u.c1.re, u.c2.re, v.c0.im, v.c1.im, v.c2.im);
    RealProduct(u.c0.re, u.c1.re, u.c2.re, v.c0.im, v.c1.im, v.c2.im);
    RealProduct(u.c0.re, u.c1.re, u.c2.re, v.c0.re, v.c1.re, v.c2.re);
  }

  // ---------------------------------------------------------------- the polynomials behind

  ghost function PackPoly(x: K6, y: K6): K6
  {
    K6(K2(x.a0.x0, y.a0.x0), K2(x.a1.x0, y.a1.x0), K2(x.a2.x0, y.a2.x0))
  }

  lemma {:induction false} EvPack(x: K6, y: K6, X: int)
    ensures Ev6(PackPoly(x, y), X) == ZPack(Ev6(x, X), Ev6(y, X))
  {
    hide Ev;
  }

  lemma {:induction false} RepPack(F: Field, a: K3, x: K6, b: K3, y: K6)
    requires Good(F) && Sized3(F, a) && Sized3(F, b) && Rep6(F, Embed3(F, a), x) && Rep6(F, Embed3(F, b), y)
    ensures Rep6(F, Pack(a, b), PackPoly(x, y))
  {
    hide Cong, KZero;
  }

  ghost function RePoly(a: K6): K6
  {
    EmbedPoly(a.a0.x0, a.a1.x0, a.a2.x0)
  }

  ghost function ImPoly(a: K6): K6
  {
    EmbedPoly(a.a0.x1, a.a1.x1, a.a2.x1)
  }

  lemma {:induction false} EvParts(a: K6, X: int)
    ensures Ev6(RePoly(a), X) == RealPart(Ev6(a, X)) && Ev6(ImPoly(a), X) == Turned(Ev6(a, X))
  {
    hide Ev;
    EvConst(0, X);
  }

  lemma {:induction false} EvProducts(a: K6, b: K6, X: int)
    ensures Ev6(PlainPoly(Re(a), Re(b)), X) == YMul(RealPart(Ev6(a, X)), RealPart(Ev6(b, X)))
    ensures Ev6(PlainPoly(Im(a), Im(b)), X) == YMul(Turned(Ev6(a, X)), Turned(Ev6(b, X)))
    ensures Ev6(PlainPoly(Re(a), Im(b)), X) == YMul(RealPart(Ev6(a, X)), Turned(Ev6(b, X)))
    ensures Ev6(PlainPoly(Im(a), Re(b)), X) == YMul(Turned(Ev6(a, X)), RealPart(Ev6(b, X)))
  {
    hide *;
    EvPlain(Re(a), Re(b), X);
    EvPlain(Im(a), Im(b), X);
    EvPlain(Re(a), Im(b), X);
    EvPlain(Im(a), Re(b), X);
    EvParts(a, X);
    EvParts(b, X);
    PartPolys(a);
    PartPolys(b);
  }

  lemma PartPolys(a: K6)
    ensures EmbedPoly(Re(a).c0, Re(a).c1, Re(a).c2) == RePoly(a) && EmbedPoly(Im(a).c0, Im(a).c1, Im(a).c2) == ImPoly(a)
  {
  }

  // ---------------------------------------------------------------- the norm

  // v0^2 + v1^2
  function Norm(F: Field, u: K6): (r: K3)
    requires Sized6(F, u)
    ensures Sized3(F, r)
  {
    Add3(F, Mult3(F, Re(u), Re(u)), Mult3(F, Im(u), Im(u)))
  }

  lemma {:induction false} RepSum3(F: Field, a: K3, L: K6, b: K3, N: K6)
    requires Good(F) && Sized3(F, a) && Sized3(F, b) && Rep6(F, Embed3(F, a), L) && Rep6(F, Embed3(F, b), N)
    ensures Rep6(F, Embed3(F, Add3(F, a, b)), TAdd(L, N)) && Rep6(F, Embed3(F, Sub3(F, a, b)), TSub(L, N))
  {
    hide Rep, KAdd, KSub, KZero, PAdd, PSub;
    RepAdd(F, a.c0, L.a0.x0, b.c0, N.a0.x0);
    RepAdd(F, a.c1, L.a1.x0, b.c1, N.a1.x0);
    RepAdd(F, a.c2, L.a2.x0, b.c2, N.a2.x0);
    RepSub(F, a.c0, L.a0.x0, b.c0, N.a0.x0);
    RepSub(F, a.c1, L.a1.x0, b.c1, N.a1.x0);
    RepSub(F, a.c2, L.a2.x0, b.c2, N.a2.x0);
    var z := KZero(F);
    ZeroSums(F);
    RepAdd(F, z, L.a0.x1, z, N.a0.x1);
    RepAdd(F, z, L.a1.x1, z, N.a1.x1);
    RepAdd(F, z, L.a2.x1, z, N.a2.x1);
    RepSub(F, z, L.a0.x1, z, N.a0.x1);
    RepSub(F, z, L.a1.x1, z, N.a1.x1);
    RepSub(F, z, L.a2.x1, z, N.a2.x1);
  }

  lemma {:induction false} ZeroSums(F: Field)
    requires Good(F)
    ensures KAdd(KZero(F), KZero(F)) == KZero(F) && KSub(KZero(F), KZero(F)) == KZero(F) && |KZero(F)| == F.m
  {
    EtaPairing.RepConstants(F);
    hide KAdd, KSub, KZero;
    KUnits(F, KZero(F));
  }

  ghost function TSub(L: K6, N: K6): K6
  {
    K6(LSub(L.a0, N.a0), LSub(L.a1, N.a1), LSub(L.a2, N.a2))
  }

  lemma {:induction false} EvTSub(L: K6, N: K6, X: int)
    ensures Ev6(TSub(L, N), X) == YAdd(Ev6(L, X), YNeg(Ev6(N, X)))
  {
    hide Ev2, LSub;
    EvL(L.a0, N.a0, X);
    EvL(L.a1, N.a1, X);
    EvL(L.a2, N.a2, X);
  }

  lemma {:induction false} RepProduct3(F: Field, a: K3, b: K3)
    requires Good(F) && InK3(F, a) && InK3(F, b)
    ensures Sized3(F, a) && Sized3(F, b) && Rep6(F, Embed3(F, Mult3(F, a, b)), PlainPoly(a, b)) && InK3(F, Mult3(F, a, b))
  {
    hide *;
    LengthsOf(F, a, b);
    Mult3Is(F, a, b);
    RepPlain(F, a, b);
  }

  lemma {:induction false} RepNorm(F: Field, u: K6)
    requires Good(F) && InK6(F, u)
    ensures Sized6(F, u) && Rep6(F, Embed3(F, Norm(F, u)), TAdd(PlainPoly(Re(u), Re(u)), PlainPoly(Im(u), Im(u)))) && InK3(F, Norm(F, u))
  {
    hide *;
    PartsOf(F, u);
    RepProduct3(F, Re(u), Re(u));
    RepProduct3(F, Im(u), Im(u));
    RepSum3(F, Mult3(F, Re(u), Re(u)), PlainPoly(Re(u), Re(u)), Mult3(F, Im(u), Im(u)), PlainPoly(Im(u), Im(u)));
    SizedParts(F, u);
    NormIs(F, u);
    Rep6In(F, Embed3(F, Norm(F, u)), TAdd(PlainPoly(Re(u), Re(u)), PlainPoly(Im(u), Im(u))));
    EmbedIn(F, Norm(F, u));
  }

  lemma SizedParts(F: Field, u: K6)
    ensures Sized6(F, u) <==> Sized3(F, Re(u)) && Sized3(F, Im(u))
  {
  }

  lemma NormIs(F: Field, u: K6)
    requires Sized6(F, u)
    ensures Norm(F, u) == Add3(F, Mult3(F, Re(u), Re(u)), Mult3(F, Im(u), Im(u)))
  {
    hide Mult3, Add3;
  }

  lemma EmbedIn(F: Field, a: K3)
    requires Sized3(F, a) && InK6(F, Embed3(F, a))
    ensures InK3(F, a)
  {
    hide InK;
  }

  // u times its conjugate is the norm.
  lemma {:induction false} ConjTimes(F: Field, u: K6)
    requires Good(F) && InK6(F, u)
    ensures Sized6(F, u) && InK6(F, Conj6(F, u)) && InK3(F, Norm(F, u)) && Gf33mMult(F, u, Conj6(F, u)) == Embed3(F, Norm(F, u))
  {
    hide *;
    RepNorm(F, u);
    ConjTwice(F, u);
    Rep6Self(F, u);
    RepConj(F, u, u);
    Rep6Product(F, u, u, Conj6(F, u), ConjPoly(u));
    var N := TAdd(PlainPoly(Re(u), Re(u)), PlainPoly(Im(u), Im(u)));
    forall X ensures Ev6(TMul(u, ConjPoly(u)), X) == Ev6(N, X) {
      EvTMul(u, ConjPoly(u), X);
      EvConj(u, X);
      EvTAdd(PlainPoly(Re(u), Re(u)), PlainPoly(Im(u), Im(u)), X);
      EvProducts(u, u, X);
      ConjValue(Ev6(u, X));
    }
    Rep6Equal(F, Gf33mMult(F, u, Conj6(F, u)), TMul(u, ConjPoly(u)), Embed3(F, Norm(F, u)), N);
  }

  lemma {:induction false} ConjValue(u: Z6)
    ensures YMul(u, YConj(u)) == YAdd(YMul(RealPart(u), RealPart(u)), YMul(Turned(u), Turned(u)))
  {
    hide *;
    var x, t := RealPart(u), ImaginaryPart(u);
    SumOfParts(u);
    TurnedProducts(u, u);
    DifferenceOfSquares(x, t);
    DoubleNeg(YMul(Turned(u), Turned(u)));
  }

  lemma {:induction false} DifferenceOfSquares(x: Z6, t: Z6)
    ensures YMul(YAdd(x, t), YAdd(x, YNeg(t))) == YAdd(YMul(x, x), YNeg(YMul(t, t)))
  {
    hide *;
    YAddMul(x, t, YAdd(x, YNeg(t)));
    YMulAdd(x, x, YNeg(t));
    YMulAdd(t, x, YNeg(t));
    YMulNeg(x, t);
    YMulNeg(t, t);
    YMulCommutes(t, x);
    Telescoped(YMul(x, x), YMul(x, t), YMul(t, t));
  }

  lemma {:induction false} YMulNeg(u: Z6, v: Z6)
    ensures YMul(u, YNeg(v)) == YNeg(YMul(u, v))
  {
    hide *;
    YMulAdd(u, v, YNeg(v));
    NegSum(v);
    YTimesZero(u);
    NegUnique(YMul(u, v), YMul(u, YNeg(v)));
  }

  lemma NegSum(v: Z6)
    ensures YAdd(v, YNeg(v)) == Z6(Z2(0, 0), Z2(0, 0), Z2(0, 0))
  {
  }

  lemma NegUnique(a: Z6, b: Z6)
    requires YAdd(a, b) == Z6(Z2(0, 0), Z2(0, 0), Z2(0, 0))
    ensures b == YNeg(a)
  {
  }

  lemma {:induction false} YTimesZero(u: Z6)
    ensures YMul(u, Z6(Z2(0, 0), Z2(0, 0), Z2(0, 0))) == Z6(Z2(0, 0), Z2(0, 0), Z2(0, 0))
  {
    hide ZMul, ZAdd;
    ZZero(Z2(0, 0));
  }

  lemma Telescoped(a: Z6, b: Z6, c: Z6)
    ensures YAdd(YAdd(a, YNeg(b)), YAdd(b, YNeg(c))) == YAdd(a, YNeg(c))
  {
  }

  lemma DoubleNeg(a: Z6)
    ensures YNeg(YNeg(a)) == a
  {
  }

  // ---------------------------------------------------------------- minus one is not a square of GF(3^3m)

  function Neg6(F: Field, a: K6): (r: K6)
    requires Sized6(F, a)
    ensures Sized6(F, r)
  {
    K6(K2(KNeg(a.a0.x0), KNeg(a.a0.x1)), K2(KNeg(a.a1.x0), KNeg(a.a1.x1)), K2(KNeg(a.a2.x0), KNeg(a.a2.x1)))
  }

  ghost function NegPoly(L: K6): K6
  {
    K6(K2(PScale(-1, L.a0.x0), PScale(-1, L.a0.x1)), K2(PScale(-1, L.a1.x0), PScale(-1, L.a1.x1)), K2(PScale(-1, L.a2.x0), PScale(-1, L.a2.x1)))
  }

  lemma {:induction false} RepNeg6(F: Field, a: K6, L: K6)
    requires Good(F) && Rep6(F, a, L)
    ensures Sized6(F, a) && Rep6(F, Neg6(F, a), NegPoly(L)) && InK6(F, Neg6(F, a))
  {
    hide Rep, KNeg, PScale;
    Rep6Sized(F, a, L);
    EtaPairing.RepNeg(F, a.a0.x0, L.a0.x0);
    EtaPairing.RepNeg(F, a.a0.x1, L.a0.x1);
    EtaPairing.RepNeg(F, a.a1.x0, L.a1.x0);
    EtaPairing.RepNeg(F, a.a1.x1, L.a1.x1);
    EtaPairing.RepNeg(F, a.a2.x0, L.a2.x0);
    EtaPairing.RepNeg(F, a.a2.x1, L.a2.x1);
    Rep6In(F, Neg6(F, a), NegPoly(L));
  }

  lemma Rep6Sized(F: Field, a: K6, L: K6)
    requires Good(F) && Rep6(F, a, L)
    ensures Sized6(F, a)
  {
    hide Cong;
  }

  lemma {:induction false} EvNeg6(L: K6, X: int)
    ensures Ev6(NegPoly(L), X) == YNeg(Ev6(L, X))
  {
    hide Ev, PScale;
    EvScale(-1, L.a0.x0, X);
    EvScale(-1, L.a0.x1, X);
    EvScale(-1, L.a1.x0, X);
    EvScale(-1, L.a1.x1, X);
    EvScale(-1, L.a2.x0, X);
    EvScale(-1, L.a2.x1, X);
  }

  lemma {:induction false} NegProducts(F: Field, a: K6, b: K6)
    requires Good(F) && InK6(F, a) && InK6(F, b)
    ensures Sized6(F, a) && Sized6(F, b) && InK6(F, Neg6(F, a)) && InK6(F, Neg6(F, b))
    ensures Gf33mMult(F, a, Neg6(F, b)) == Neg6(F, Gf33mMult(F, a, b)) && Gf33mMult(F, Neg6(F, a), Neg6(F, b)) == Gf33mMult(F, a, b)
  {
    hide *;
    Rep6Self(F, a);
    Rep6Self(F, b);
    RepNeg6(F, a, a);
    RepNeg6(F, b, b);
    Rep6Product(F, a, a, b, b);
    Rep6Product(F, a, a, Neg6(F, b), NegPoly(b));
    Rep6Product(F, Neg6(F, a), NegPoly(a), Neg6(F, b), NegPoly(b));
    RepNeg6(F, Gf33mMult(F, a, b), TMul(a, b));
    forall X ensures Ev6(TMul(a, NegPoly(b)), X) == Ev6(NegPoly(TMul(a, b)), X) && Ev6(TMul(NegPoly(a), NegPoly(b)), X) == Ev6(TMul(a, b), X) {
      NegProductsAt(a, b, X);
    }
    Rep6Equal(F, Gf33mMult(F, a, Neg6(F, b)), TMul(a, NegPoly(b)), Neg6(F, Gf33mMult(F, a, b)), NegPoly(TMul(a, b)));
    Rep6Equal(F, Gf33mMult(F, Neg6(F, a), Neg6(F, b)), TMul(NegPoly(a), NegPoly(b)), Gf33mMult(F, a, b), TMul(a, b));
  }

  lemma {:induction false} NegProductsAt(a: K6, b: K6, X: int)
    ensures Ev6(TMul(a, NegPoly(b)), X) == Ev6(NegPoly(TMul(a, b)), X) && Ev6(TMul(NegPoly(a), NegPoly(b)), X) == Ev6(TMul(a, b), X)
  {
    hide *;
    EvTMul(a, b, X);
    EvTMul(a, NegPoly(b), X);
    EvTMul(NegPoly(a), NegPoly(b), X);
    EvNeg6(a, X);
    EvNeg6(b, X);
    EvNeg6(TMul(a, b), X);
    var u, v := Ev6(a, X), Ev6(b, X);
    YMulNeg(u, v);
    YMulNeg(YNeg(u), v);
    YMulCommutes(YNeg(u), v);
    YMulNeg(v, u);
    YMulCommutes(u, v);
    DoubleNeg(YMul(u, v));
  }

  // An element whose square is -1 changes its sign with every cubing.
  lemma {:induction false} SignChanges(F: Field, w: K6, k: nat)
    requires Good(F) && InK6(F, w) && (F.m > 0 && Sized6(F, w) ==> Gf33mMult(F, w, w) == Neg6(F, One6(F)))
    ensures Sized6(F, w) && Iterate(F, w, k) == if k % 2 == 0 then w else Neg6(F, w)
  {
    hide *;
    OneTimes(F, w);
    IterateUnfolds(F, w, k);
    if k > 0 {
      SignChanges(F, w, k - 1);
      MinusCube(F, w);
      NegProducts(F, w, w);
      MinusCube(F, Neg6(F, w));
      Neg6Twice(F, w);
    }
  }

  lemma {:induction false} MinusCube(F: Field, w: K6)
    requires Good(F) && InK6(F, w) && (F.m > 0 && Sized6(F, w) ==> Gf33mMult(F, w, w) == Neg6(F, One6(F)))
    ensures Sized6(F, w) && Gf33mCubic(F, w) == Neg6(F, w)
  {
    hide *;
    OneTimes(F, w);
    CubicIsCube(F, w);
    NegProducts(F, w, One6(F));
    MultCommutes(F, w, One6(F));
  }

  lemma {:induction false} Neg6Twice(F: Field, a: K6)
    requires Good(F) && InK6(F, a)
    ensures Sized6(F, a) && Neg6(F, Neg6(F, a)) == a
  {
    hide InK, KNeg;
    NegTwice(F, a.a0.x0);
    NegTwice(F, a.a0.x1);
    NegTwice(F, a.a1.x0);
    NegTwice(F, a.a1.x1);
    NegTwice(F, a.a2.x0);
    NegTwice(F, a.a2.x1);
  }

  // Only zero is its own negative.
  lemma {:induction false} OwnNegative(F: Field, x: Poly)
    requires InK(F, x) && |x| == F.m && KNeg(x) == x
    ensures x == KZero(F)
  {
    forall i | 0 <= i < |x| ensures x[i] == 0 {
      assert KNeg(x)[i] == (-1 * x[i]) % 3;
    }
  }

  lemma {:induction false} OwnNegative6(F: Field, a: K6)
    requires InK6(F, a) && Sized6(F, a) && Neg6(F, a) == a
    ensures a == Zero6(F)
  {
    hide InK, KNeg, KZero;
    OwnNegative(F, a.a0.x0);
    OwnNegative(F, a.a0.x1);
    OwnNegative(F, a.a1.x0);
    OwnNegative(F, a.a1.x1);
    OwnNegative(F, a.a2.x0);
    OwnNegative(F, a.a2.x1);
  }

  lemma {:induction false} ConjOfReal(F: Field, w: K3)
    requires Good(F) && InK3(F, w)
    ensures Sized3(F, w) && Conj6(F, Embed3(F, w)) == Embed3(F, w)
  {
    NegZero(F);
    hide InK, KNeg, KZero;
  }

  lemma {:induction false} NoRootOfMinusOne(F: Field, w: K3)
    requires IsTower(F) && InK3(F, w) && Sized3(F, w)
    ensures Gf33mMult(F, Embed3(F, w), Embed3(F, w)) != Neg6(F, One6(F))
  {
    hide *;
    TowerIsField(F);
    EmbedSelf(F, w);
    var W := Embed3(F, w);
    if Gf33mMult(F, W, W) == Neg6(F, One6(F)) {
      ConjugateByCubing(F, W);
      ConjOfReal(F, w);
      OddThree(F.m);
      SignChanges(F, W, 3 * F.m);
      OwnNegative6(F, W);
      ZeroSquare(F, W);
    }
  }

  lemma OddThree(m: nat)
    requires m % 2 == 1
    ensures 3 * m % 2 == 1
  {
  }

  lemma {:induction false} ZeroSquare(F: Field, a: K6)
    requires Good(F) && F.m > 0 && a == Zero6(F)
    ensures Sized6(F, a) && Gf33mMult(F, a, a) != Neg6(F, One6(F))
  {
    hide *;
    EtaPairing.RepConstants(F);
    EtaPairing.RepIn(F, KZero(F), []);
    EtaPairing.RepIn(F, KOne(F), [1]);
    Zero6Embeds(F);
    EmbedMult(F, Zero3(F), Zero3(F));
    Zero3Times(F, Zero3(F));
    MinusOneNotZero(F);
  }

  lemma Zero6Embeds(F: Field)
    requires F.m > 0 && InK(F, KZero(F))
    ensures InK3(F, Zero3(F)) && Sized3(F, Zero3(F)) && Embed3(F, Zero3(F)) == Zero6(F)
  {
  }

  lemma MinusOneNotZero(F: Field)
    requires F.m > 0
    ensures Neg6(F, One6(F)) != Zero6(F) && One6(F) != Zero6(F)
  {
    assert KNeg(KOne(F))[0] == (-1 * 1) % 3;
    assert KZero(F)[0] == 0 && KOne(F)[0] == 1;
  }

  // ---------------------------------------------------------------- the norm of a nonzero element is not zero

  lemma {:induction false} Distributes3(F: Field, p: K3, q: K3, r: K3)
    requires Good(F) && InK3(F, p) && InK3(F, q) && InK3(F, r)
    ensures Sized3(F, p) && Sized3(F, q) && Sized3(F, r)
    ensures Mult3(F, r, Add3(F, p, q)) == Add3(F, Mult3(F, r, p), Mult3(F, r, q)) && InK3(F, Add3(F, p, q))
  {
    hide *;
    LengthsOf(F, p, q);
    LengthsOf(F, r, r);
    EmbedSelf(F, p);
    EmbedSelf(F, q);
    EmbedSelf(F, r);
    var P, Q, R := EmbedPoly(p.c0, p.c1, p.c2), EmbedPoly(q.c0, q.c1, q.c2), EmbedPoly(r.c0, r.c1, r.c2);
    RepSum3(F, p, P, q, Q);
    Rep6In(F, Embed3(F, Add3(F, p, q)), TAdd(P, Q));
    EmbedIn(F, Add3(F, p, q));
    EmbedMult(F, r, Add3(F, p, q));
    RepProduct3(F, r, p);
    RepProduct3(F, r, q);
    RepSum3(F, Mult3(F, r, p), PlainPoly(r, p), Mult3(F, r, q), PlainPoly(r, q));
    Rep6Product(F, Embed3(F, r), R, Embed3(F, Add3(F, p, q)), TAdd(P, Q));
    forall X ensures Ev6(TMul(R, TAdd(P, Q)), X) == Ev6(TAdd(PlainPoly(r, p), PlainPoly(r, q)), X) {
      EvTMul(R, TAdd(P, Q), X);
      EvTAdd(P, Q, X);
      EvTAdd(PlainPoly(r, p), PlainPoly(r, q), X);
      EvPlain(r, p, X);
      EvPlain(r, q, X);
      YMulAdd(Ev6(R, X), Ev6(P, X), Ev6(Q, X));
    }
    Rep6Equal(F, Gf33mMult(F, Embed3(F, r), Embed3(F, Add3(F, p, q))), TMul(R, TAdd(P, Q)),
      Embed3(F, Add3(F, Mult3(F, r, p), Mult3(F, r, q))), TAdd(PlainPoly(r, p), PlainPoly(r, q)));
    EmbedInjective(F, Mult3(F, r, Add3(F, p, q)), Add3(F, Mult3(F, r, p), Mult3(F, r, q)));
  }

  lemma {:induction false} Swap3(F: Field, a: K3, b: K3, c: K3, d: K3)
    requires Good(F) && InK3(F, a) && InK3(F, b) && InK3(F, c) && InK3(F, d)
    ensures Sized3(F, a) && Sized3(F, b) && Sized3(F, c) && Sized3(F, d)
    ensures Mult3(F, Mult3(F, a, b), Mult3(F, c, d)) == Mult3(F, Mult3(F, a, c), Mult3(F, b, d))
  {
    hide *;
    Mult3Commutes(F, c, d);
    Mult3Commutes(F, b, d);
    Mult3Commutes(F, b, c);
    Mult3Associates(F, a, b, Mult3(F, c, d));
    Mult3Associates(F, b, c, d);
    Mult3Associates(F, c, b, d);
    Mult3Associates(F, a, c, Mult3(F, b, d));
  }

  lemma {:induction false} OneIn3(F: Field)
    requires Good(F)
    ensures F.m > 0 && InK3(F, One3(F)) && Sized3(F, One3(F)) && Mult3(F, One3(F), One3(F)) == One3(F) && Embed3(F, One3(F)) == One6(F)
    ensures InK3(F, Zero3(F)) && One3(F) != Zero3(F)
  {
    EtaPairing.RepConstants(F);
    EtaPairing.RepIn(F, KOne(F), [1]);
    EtaPairing.RepIn(F, KZero(F), []);
    assert KOne(F)[0] != KZero(F)[0];
    hide KOne, KZero, InK, Mult3;
    KUnits(F, KOne(F));
    TimesScalar(F, One3(F), KOne(F));
  }

  lemma {:induction false} OneTimes3(F: Field, a: K3)
    requires Good(F) && InK3(F, a)
    ensures F.m > 0 && Sized3(F, a) && Sized3(F, One3(F)) && Mult3(F, a, One3(F)) == a
  {
    hide KOne, KZero, InK, Mult3, KMul;
    OneIn3(F);
    KUnits(F, a.c0);
    KUnits(F, a.c1);
    KUnits(F, a.c2);
    KCommutes(F, a.c0, KOne(F));
    KCommutes(F, a.c1, KOne(F));
    KCommutes(F, a.c2, KOne(F));
    TimesScalar(F, a, KOne(F));
  }

  // There are no zero divisors in GF(3^3m).
  lemma {:induction false} Product3Nonzero(F: Field, a: K3, b: K3)
    requires IsField(F) && F.m % 3 != 0 && InK3(F, a) && InK3(F, b) && a != Zero3(F) && b != Zero3(F)
    ensures Sized3(F, a) && Sized3(F, b) && Mult3(F, a, b) != Zero3(F)
  {
    hide *;
    IsGood(F);
    Invert3Is(F, a);
    var i := Invert3(F, a);
    Mult3Commutes(F, a, i);
    Mult3Associates(F, i, a, b);
    Zero3Times(F, i);
    OneTimes3(F, b);
    OneIn3(F);
    Mult3Commutes(F, One3(F), b);
  }

  lemma {:induction false} NormNonzero(F: Field, u: K6)
    requires IsTower(F) && InK6(F, u) && (F.m > 0 ==> u != Zero6(F))
    ensures Sized6(F, u) && InK3(F, Norm(F, u)) && Norm(F, u) != Zero3(F)
  {
    hide *;
    TowerIsField(F);
    PartsOf(F, u);
    RepNorm(F, u);
    NormIs(F, u);
    SizedParts(F, u);
    var x, y := Re(u), Im(u);
    OneIn3(F);
    if y == Zero3(F) {
      Product3Nonzero(F, x, x);
      Mult3Commutes(F, x, x);
      Zero3Times(F, y);
      AddZero3(F, Mult3(F, x, x));
    } else if Norm(F, u) == Zero3(F) {
      RatioSquared(F, x, y);
    }
  }

  lemma {:induction false} AddZero3(F: Field, a: K3)
    requires Good(F) && InK3(F, a)
    ensures F.m > 0 && Sized3(F, a) && Sized3(F, Zero3(F)) && Add3(F, a, Zero3(F)) == a
  {
    hide InK, KAdd, KZero;
    KUnits(F, a.c0);
    KUnits(F, a.c1);
    KUnits(F, a.c2);
    KCommutes(F, a.c0, KZero(F));
    KCommutes(F, a.c1, KZero(F));
    KCommutes(F, a.c2, KZero(F));
  }

  // x^2 + y^2 = 0 with y nonzero would make x/y a root of -1.
  lemma {:induction false} RatioSquared(F: Field, x: K3, y: K3)
    requires IsTower(F) && InK3(F, x) && InK3(F, y) && y != Zero3(F)
    ensures Sized3(F, x) && Sized3(F, y) && Add3(F, Mult3(F, x, x), Mult3(F, y, y)) != Zero3(F)
  {
    hide *;
    TowerIsField(F);
    LengthsOf(F, x, y);
    Invert3Is(F, y);
    var i := Invert3(F, y);
    LengthsOf(F, i, i);
    Mult3Commutes(F, x, x);
    Mult3Commutes(F, y, y);
    Mult3Commutes(F, i, i);
    Mult3Commutes(F, x, i);
    Mult3Commutes(F, y, i);
    var xx, yy, ii, w := Mult3(F, x, x), Mult3(F, y, y), Mult3(F, i, i), Mult3(F, i, x);
    Mult3Commutes(F, w, w);
    OneIn3(F);
    Distributes3(F, xx, yy, ii);
    Swap3(F, i, i, x, x);
    Swap3(F, i, i, y, y);
    Zero3Times(F, ii);
    EmbedMult(F, w, w);
    if Add3(F, xx, yy) == Zero3(F) {
      assert Add3(F, Mult3(F, w, w), One3(F)) == Zero3(F);
      MinusOneIs(F, Mult3(F, w, w));
      NoRootOfMinusOne(F, w);
    }
  }

  lemma {:induction false} MinusOneIs(F: Field, a: K3)
    requires Good(F) && InK3(F, a) && F.m > 0 && Sized3(F, a) && Sized3(F, One3(F)) && Add3(F, a, One3(F)) == Zero3(F)
    ensures Embed3(F, a) == Neg6(F, One6(F))
  {
    NegZero(F);
    EtaPairing.RepConstants(F);
    EtaPairing.RepIn(F, KOne(F), [1]);
    EtaPairing.RepIn(F, KZero(F), []);
    hide InK, KAdd, KNeg, KOne, KZero;
    SumIsZero(F, a.c0, KOne(F));
    SumIsZero(F, a.c1, KZero(F));
    SumIsZero(F, a.c2, KZero(F));
  }

  // ---------------------------------------------------------------- inverses and cancellation

  lemma {:induction false} Invertible6(F: Field, u: K6) returns (v: K6)
    requires IsTower(F) && InK6(F, u) && (F.m > 0 ==> u != Zero6(F))
    ensures F.m > 0 && InK6(F, v) && Sized6(F, u) && Sized6(F, v) && Gf33mMult(F, v, u) == One6(F)
  {
    hide *;
    TowerIsField(F);
    NormNonzero(F, u);
    ConjTimes(F, u);
    var n := Norm(F, u);
    Invert3Is(F, n);
    var i := Invert3(F, n);
    EmbedSelf(F, i);
    EmbedSelf(F, n);
    EmbedMult(F, n, i);
    OneIn3(F);
    var c := Conj6(F, u);
    MultAssociates(F, u, c, Embed3(F, i));
    v := Gf33mMult(F, c, Embed3(F, i));
    MultCommutes(F, c, Embed3(F, i));
    MultCommutes(F, u, v);
  }

  lemma {:induction false} Cancel6(F: Field, a: K6, b: K6, u: K6)
    requires IsTower(F) && InK6(F, a) && InK6(F, b) && InK6(F, u) && (F.m > 0 ==> u != Zero6(F))
    requires Sized6(F, a) && Sized6(F, b) && Sized6(F, u) ==> Gf33mMult(F, a, u) == Gf33mMult(F, b, u)
    ensures a == b
  {
    hide *;
    TowerIsField(F);
    var v := Invertible6(F, u);
    MultCommutes(F, v, u);
    OneTimes(F, a);
    OneTimes(F, b);
    MultAssociates(F, a, u, v);
    MultAssociates(F, b, u, v);
    MultCommutes(F, a, One6(F));
    MultCommutes(F, b, One6(F));
  }
}
