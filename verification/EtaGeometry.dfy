// What the loops of the eta_T pairing multiply: values of a line and of conics at the image of the second point, which
// every round triples.
module EtaGeometry {
  import opened Arith
  import opened Polynomials
  import opened TernaryTower
  import opened TernaryCubes
  import opened TernaryIdentities
  import opened TernaryFermat
  import opened TernaryFrobenius
  import opened CubicExtension
  import opened SexticExtension
  import opened TernaryPoints
  import opened EtaFinalPower
  import opened EtaPairing
  import opened EtaTPairing

  // ---------------------------------------------------------------- products of GF(3^6m) by reflection

  ghost predicate SameProducts(x: Ex6, y: Ex6, z: Ex6, w: Ex6, n: nat)
  {
    forall v: seq<int> :: |v| == n ==> YMul(ZEval6(x, v), ZEval6(y, v)) == YAdd(ZEval6(z, v), YThree(ZEval6(w, v)))
  }

  lemma {:induction false} ProductHolds(F: Field, x: Ex6, y: Ex6, z: Ex6, w: Ex6, e: seq<Poly>)
    requires Good(F) && AllIn(F, e) && SameProducts(x, y, z, w, |e|)
    ensures Shaped(F, e) && Gf33mMult(F, KEval6(F, x, e), KEval6(F, y, e)) == KEval6(F, z, e) && InK6(F, KEval6(F, z, e))
    ensures InK6(F, KEval6(F, x, e)) && InK6(F, KEval6(F, y, e))
  {
    hide ZEval6, KEval6, PEval6, YMul, YAdd, YThree, Gf33mMult, Ev6, TMul, Rep6, InK6, Values;
    EvalRep6(F, x, e);
    EvalRep6(F, y, e);
    EvalRep6(F, z, e);
    Rep6Product(F, KEval6(F, x, e), PEval6(x, e), KEval6(F, y, e), PEval6(y, e));
    forall X ensures Ev6(TMul(PEval6(x, e), PEval6(y, e)), X) == YAdd(Ev6(PEval6(z, e), X), YThree(Ev6(PEval6(w, e), X))) {
      EvTMul(PEval6(x, e), PEval6(y, e), X);
      EvEval6(x, e, X);
      EvEval6(y, e, X);
      EvEval6(z, e, X);
      EvEval6(w, e, X);
      ValuesLength(e, X);
    }
    Rep6Three(F, Gf33mMult(F, KEval6(F, x, e), KEval6(F, y, e)), TMul(PEval6(x, e), PEval6(y, e)), KEval6(F, z, e), PEval6(z, e), PEval6(w, e));
  }

  lemma ValuesLength(e: seq<Poly>, X: int)
    ensures |Values(e, X)| == |e|
  {
  }

  const Null6: Ex6 := Ex6(Null, Null, Null, Null, Null, Null)

  // ---------------------------------------------------------------- the image of a point

  // a + b*s + c*p
  function Element(F: Field, a: Poly, b: Poly, c: Poly): (r: K6)
    requires |a| == |b| == |c| == F.m > 0
    ensures Sized6(F, r)
  {
    K6(K2(a, b), K2(c, KZero(F)), K2(KZero(F), KZero(F)))
  }

  function Real(F: Field, a: Poly): (r: K6)
    requires |a| == F.m > 0
    ensures Sized6(F, r)
  {
    Element(F, a, KZero(F), KZero(F))
  }

  // psi(x, y) = (p - x, y*s)
  function PsiX(F: Field, x: Poly): (r: K6)
    requires |x| == F.m > 0
    ensures Sized6(F, r)
  {
    Element(F, KNeg(x), KZero(F), KOne(F))
  }

  function PsiY(F: Field, y: Poly): (r: K6)
    requires |y| == F.m > 0
    ensures Sized6(F, r)
  {
    Element(F, KZero(F), y, KZero(F))
  }

  function Sub6(F: Field, a: K6, b: K6): (r: K6)
    requires Sized6(F, a) && Sized6(F, b)
    ensures Sized6(F, r)
  {
    Add6(F, a, Neg6(F, b))
  }

  function Square6(F: Field, a: K6): (r: K6)
    requires Sized6(F, a)
    ensures Sized6(F, r)
  {
    Gf33mMult(F, a, a)
  }

  // x^3 - x + 1
  function Cubic6(F: Field, x: K6): (r: K6)
    requires Sized6(F, x)
    ensures Sized6(F, r)
  {
    Add6(F, Sub6(F, Gf33mMult(F, x, Square6(F, x)), x), One6(F))
  }

  // ---------------------------------------------------------------- the functions evaluated

  // The line Y + b*X - b*(a + 1).
  function LineValue(F: Field, a: Poly, b: Poly, X: K6, Y: K6): (r: K6)
    requires |a| == |b| == F.m > 0 && Sized6(F, X) && Sized6(F, Y)
    ensures Sized6(F, r)
  {
    Add6(F, Y, Gf33mMult(F, Real(F, b), Sub6(F, X, Real(F, KAdd(a, KOne(F))))))
  }

  // The function b*Y - (a + 1 - X)^2.
  function ConicValue(F: Field, a: Poly, b: Poly, X: K6, Y: K6): (r: K6)
    requires |a| == |b| == F.m > 0 && Sized6(F, X) && Sized6(F, Y)
    ensures Sized6(F, r)
  {
    Sub6(F, Gf33mMult(F, Real(F, b), Y), Square6(F, Sub6(F, Real(F, KAdd(a, KOne(F))), X)))
  }

  // ---------------------------------------------------------------- sums with vanishing parts

  lemma {:induction false} ZeroParts(F: Field, a: Poly)
    requires Good(F) && InK(F, a)
    ensures |a| == F.m > 0 && KAdd(a, KZero(F)) == a && KAdd(KZero(F), a) == a && KNeg(KZero(F)) == KZero(F) && KAdd(KZero(F), KZero(F)) == KZero(F)
    ensures InK(F, KZero(F)) && InK(F, KNeg(a)) && KAdd(a, KNeg(a)) == KZero(F) && KNeg(KNeg(a)) == a
  {
    hide InK, KMul, KAdd, KSub, KScale, KOne, KZero;
    KUnits(F, a);
    KUnits(F, KZero(F));
    EtaPairing.KClosed(F, a, a);
    HoldsInField(F, Sum(Var(0), Null), Var(0), Null, [a]);
    HoldsInField(F, Sum(Var(0), Times(-1, Var(0))), Null, Null, [a]);
    HoldsInField(F, Times(-1, Times(-1, Var(0))), Var(0), Null, [a]);
    NullIsZero(F);
  }

  lemma {:induction false} NullIsZero(F: Field)
    requires F.m > 0
    ensures KScale(0, KOne(F)) == KZero(F) && KNeg(KZero(F)) == KZero(F) && KAdd(KZero(F), KZero(F)) == KZero(F)
  {
  }

  // Sums and differences of such elements.
  lemma {:induction false} ElementsAdd(F: Field, a: Poly, b: Poly, c: Poly, x: Poly, y: Poly, z: Poly)
    requires Good(F) && InK(F, a) && InK(F, b) && InK(F, c) && InK(F, x) && InK(F, y) && InK(F, z)
    ensures |a| == |b| == |c| == |x| == |y| == |z| == F.m > 0
    ensures Add6(F, Element(F, a, b, c), Element(F, x, y, z)) == Element(F, KAdd(a, x), KAdd(b, y), KAdd(c, z))
    ensures Neg6(F, Element(F, x, y, z)) == Element(F, KNeg(x), KNeg(y), KNeg(z))
    ensures Sub6(F, Element(F, a, b, c), Element(F, x, y, z)) == Element(F, KSub(a, x), KSub(b, y), KSub(c, z))
  {
    NullIsZero(F);
    hide KAdd, KScale, KZero, KOne;
  }

  // A real factor multiplies part by part.
  lemma {:induction false} RealTimes(F: Field, r: Poly, a: Poly, b: Poly, c: Poly)
    requires Good(F) && InK(F, r) && InK(F, a) && InK(F, b) && InK(F, c)
    ensures |r| == |a| == |b| == |c| == F.m > 0
    ensures Gf33mMult(F, Real(F, r), Element(F, a, b, c)) == Element(F, KMul(F, r, a), KMul(F, r, b), KMul(F, r, c))
    ensures InK6(F, Element(F, a, b, c)) && InK6(F, Real(F, r))
  {
    hide *;
    RealTimesSame();
    KUnits(F, r);
    KUnits(F, a);
    KUnits(F, b);
    KUnits(F, c);
    FourIn(F, r, a, b, c);
    ProductHolds(F, RealEx, ElementEx, RealTimesEx, Null6, [r, a, b, c]);
    RealTimesEval(F, r, a, b, c);
  }

  const RealEx: Ex6 := Ex6(Var(0), Null, Null, Null, Null, Null)
  const ElementEx: Ex6 := Ex6(Var(1), Var(2), Var(3), Null, Null, Null)
  const RealTimesEx: Ex6 := Ex6(Prod(Var(0), Var(1)), Prod(Var(0), Var(2)), Prod(Var(0), Var(3)), Null, Null, Null)

  lemma {:induction false} RealTimesSame()
    ensures SameProducts(RealEx, ElementEx, RealTimesEx, Null6, 4)
  {
    hide YMul, YAdd, YThree;
    forall v: seq<int> | |v| == 4
      ensures YMul(ZEval6(RealEx, v), ZEval6(ElementEx, v)) == YAdd(ZEval6(RealTimesEx, v), YThree(ZEval6(Null6, v)))
    {
      RealTimesAt(v);
      RealProduct(v[0], v[1], v[2], v[3]);
    }
  }

  lemma RealTimesAt(v: seq<int>)
    requires |v| == 4
    ensures ZEval6(RealEx, v) == Z6(Z2(v[0], 0), Z2(0, 0), Z2(0, 0)) && ZEval6(ElementEx, v) == Z6(Z2(v[1], v[2]), Z2(v[3], 0), Z2(0, 0))
    ensures ZEval6(RealTimesEx, v) == Z6(Z2(v[0] * v[1], v[0] * v[2]), Z2(v[0] * v[3], 0), Z2(0, 0))
    ensures ZEval6(Null6, v) == Z6(Z2(0, 0), Z2(0, 0), Z2(0, 0))
  {
  }

  lemma {:induction false} RealProduct(r: int, a: int, b: int, c: int)
    ensures YMul(Z6(Z2(r, 0), Z2(0, 0), Z2(0, 0)), Z6(Z2(a, b), Z2(c, 0), Z2(0, 0))) ==
      YAdd(Z6(Z2(r * a, r * b), Z2(r * c, 0), Z2(0, 0)), YThree(Z6(Z2(0, 0), Z2(0, 0), Z2(0, 0))))
  {
    hide *;
    RealIsScale(Z2(r, 0), Z6(Z2(a, b), Z2(c, 0), Z2(0, 0)));
    ScaleIs(r, a, b, c);
    AddsNothing6(Z6(Z2(r * a, r * b), Z2(r * c, 0), Z2(0, 0)));
  }

  lemma AddsNothing6(u: Z6)
    ensures YAdd(u, YThree(Z6(Z2(0, 0), Z2(0, 0), Z2(0, 0)))) == u
  {
  }

  lemma {:induction false} ScaleIs(r: int, a: int, b: int, c: int)
    ensures YScale(Z2(r, 0), Z6(Z2(a, b), Z2(c, 0), Z2(0, 0))) == Z6(Z2(r * a, r * b), Z2(r * c, 0), Z2(0, 0))
  {
    hide ZMul;
    ZRealTimes(r, a, b);
    ZRealTimes(r, c, 0);
    ZRealTimes(r, 0, 0);
  }

  lemma {:induction false} RealIsScale(k: Z2, z: Z6)
    ensures YMul(Z6(k, Z2(0, 0), Z2(0, 0)), z) == YScale(k, z)
  {
    hide *;
    YMulByShifts(Z6(k, Z2(0, 0), Z2(0, 0)), z);
    ZeroScale(YShift(z));
    ZeroScale(YShift(YShift(z)));
    AddsZero(YScale(k, z));
  }

  lemma ZeroScale(z: Z6)
    ensures YScale(Z2(0, 0), z) == Z6(Z2(0, 0), Z2(0, 0), Z2(0, 0))
  {
  }

  lemma AddsZero(u: Z6)
    ensures var o := Z6(Z2(0, 0), Z2(0, 0), Z2(0, 0)); YAdd(u, YAdd(o, o)) == u
  {
    hide *;
    var o := Z6(Z2(0, 0), Z2(0, 0), Z2(0, 0));
    ZerosAdd();
    AddsZeroAt(u.c0.re, u.c0.im, u.c1.re, u.c1.im, u.c2.re, u.c2.im);
    assert u == Z6(Z2(u.c0.re, u.c0.im), Z2(u.c1.re, u.c1.im), Z2(u.c2.re, u.c2.im));
  }

  lemma ZerosAdd()
    ensures var o := Z6(Z2(0, 0), Z2(0, 0), Z2(0, 0)); YAdd(o, o) == o
  {
  }

  lemma AddsZeroAt(a: int, b: int, c: int, d: int, e: int, f: int)
    ensures var u := Z6(Z2(a, b), Z2(c, d), Z2(e, f)); YAdd(u, Z6(Z2(0, 0), Z2(0, 0), Z2(0, 0))) == u
  {
  }

  lemma ZRealTimes(r: int, a: int, b: int)
    ensures ZMul(Z2(r, 0), Z2(a, b)) == Z2(r * a, r * b)
  {
  }

  lemma FourIn(F: Field, r: Poly, a: Poly, b: Poly, c: Poly)
    requires InK(F, r) && InK(F, a) && InK(F, b) && InK(F, c)
    ensures AllIn(F, [r, a, b, c])
  {
    hide InK;
  }

  lemma {:induction false} RealTimesEval(F: Field, r: Poly, a: Poly, b: Poly, c: Poly)
    requires |r| == |a| == |b| == |c| == F.m > 0
    ensures var e := [r, a, b, c];
            Shaped(F, e) && KEval6(F, RealEx, e) == Real(F, r) && KEval6(F, ElementEx, e) == Element(F, a, b, c)
    ensures KEval6(F, RealTimesEx, [r, a, b, c]) == Element(F, KMul(F, r, a), KMul(F, r, b), KMul(F, r, c))
  {
    NullIsZero(F);
    NullEval(F, [r, a, b, c]);
    hide KMul, KZero, KScale, KOne, Null;
  }

  lemma NullEval(F: Field, e: seq<Poly>)
    requires Shaped(F, e)
    ensures KEval(F, Null, e) == KZero(F)
  {
    NullIsZero(F);
    hide KZero, KOne, KScale;
  }

  // (a + c*p)^2
  const PairEx: Ex6 := Ex6(Var(0), Null, Var(1), Null, Null, Null)
  const PairSquareEx: Ex6 := Ex6(Prod(Var(0), Var(0)), Null, Times(2, Prod(Var(0), Var(1))), Null, Prod(Var(1), Var(1)), Null)

  lemma {:induction false} PairSquareSame()
    ensures SameProducts(PairEx, PairEx, PairSquareEx, Null6, 2)
  {
    hide YMul, YAdd, YThree;
    forall v: seq<int> | |v| == 2
      ensures YMul(ZEval6(PairEx, v), ZEval6(PairEx, v)) == YAdd(ZEval6(PairSquareEx, v), YThree(ZEval6(Null6, v)))
    {
      PairSquareAt(v);
      PairSquareProduct(v[0], v[1]);
    }
  }

  lemma PairSquareAt(v: seq<int>)
    requires |v| == 2
    ensures ZEval6(PairEx, v) == Z6(Z2(v[0], 0), Z2(v[1], 0), Z2(0, 0)) && ZEval6(Null6, v) == Z6(Z2(0, 0), Z2(0, 0), Z2(0, 0))
    ensures ZEval6(PairSquareEx, v) == Z6(Z2(v[0] * v[0], 0), Z2(2 * (v[0] * v[1]), 0), Z2(v[1] * v[1], 0))
  {
  }

  lemma {:induction false} PairSquareProduct(a: int, c: int)
    ensures YMul(Z6(Z2(a, 0), Z2(c, 0), Z2(0, 0)), Z6(Z2(a, 0), Z2(c, 0), Z2(0, 0))) ==
      YAdd(Z6(Z2(a * a, 0), Z2(2 * (a * c), 0), Z2(c * c, 0)), YThree(Z6(Z2(0, 0), Z2(0, 0), Z2(0, 0))))
  {
    hide ZMul;
    ZRealTimes(a, a, 0);
    ZRealTimes(a, c, 0);
    ZRealTimes(c, a, 0);
    ZRealTimes(c, c, 0);
    ZRealTimes(a, 0, 0);
    ZRealTimes(0, a, 0);
    ZRealTimes(c, 0, 0);
    ZRealTimes(0, c, 0);
    ZRealTimes(0, 0, 0);
  }

  lemma {:induction false} PairSquare(F: Field, a: Poly, c: Poly)
    requires Good(F) && InK(F, a) && InK(F, c)
    ensures |a| == |c| == F.m > 0
    ensures Square6(F, Element(F, a, KZero(F), c)) ==
      K6(K2(KMul(F, a, a), KZero(F)), K2(KScale(2, KMul(F, a, c)), KZero(F)), K2(KMul(F, c, c), KZero(F)))
  {
    hide *;
    PairSquareSame();
    KUnits(F, a);
    KUnits(F, c);
    TwoIn(F, a, c);
    ProductHolds(F, PairEx, PairEx, PairSquareEx, Null6, [a, c]);
    PairEval(F, a, c);
    SquareIs(F, Element(F, a, KZero(F), c));
  }

  lemma SquareIs(F: Field, a: K6)
    requires Sized6(F, a)
    ensures Square6(F, a) == Gf33mMult(F, a, a)
  {
    hide Gf33mMult;
  }

  lemma TwoIn(F: Field, a: Poly, c: Poly)
    requires InK(F, a) && InK(F, c)
    ensures AllIn(F, [a, c])
  {
    hide InK;
  }

  lemma {:induction false} PairEval(F: Field, a: Poly, c: Poly)
    requires |a| == |c| == F.m > 0
    ensures Shaped(F, [a, c]) && KEval6(F, PairEx, [a, c]) == Element(F, a, KZero(F), c)
    ensures KEval6(F, PairSquareEx, [a, c]) ==
      K6(K2(KMul(F, a, a), KZero(F)), K2(KScale(2, KMul(F, a, c)), KZero(F)), K2(KMul(F, c, c), KZero(F)))
  {
    NullEval(F, [a, c]);
    hide KMul, KZero, KScale, KOne, Null;
  }

  // (y*s)^2 = -y^2
  const ImaginaryEx: Ex6 := Ex6(Null, Var(0), Null, Null, Null, Null)
  const MinusSquareEx: Ex6 := Ex6(Times(-1, Prod(Var(0), Var(0))), Null, Null, Null, Null, Null)

  lemma {:induction false} ImaginarySame()
    ensures SameProducts(ImaginaryEx, ImaginaryEx, MinusSquareEx, Null6, 1)
  {
    hide YMul, YAdd, YThree;
    forall v: seq<int> | |v| == 1
      ensures YMul(ZEval6(ImaginaryEx, v), ZEval6(ImaginaryEx, v)) == YAdd(ZEval6(MinusSquareEx, v), YThree(ZEval6(Null6, v)))
    {
      ImaginaryAt(v);
      ImaginaryProduct(v[0]);
    }
  }

  lemma ImaginaryAt(v: seq<int>)
    requires |v| == 1
    ensures ZEval6(ImaginaryEx, v) == Z6(Z2(0, v[0]), Z2(0, 0), Z2(0, 0)) && ZEval6(Null6, v) == Z6(Z2(0, 0), Z2(0, 0), Z2(0, 0))
    ensures ZEval6(MinusSquareEx, v) == Z6(Z2(-1 * (v[0] * v[0]), 0), Z2(0, 0), Z2(0, 0))
  {
  }

  lemma {:induction false} ImaginaryProduct(y: int)
    ensures YMul(Z6(Z2(0, y), Z2(0, 0), Z2(0, 0)), Z6(Z2(0, y), Z2(0, 0), Z2(0, 0))) ==
      YAdd(Z6(Z2(-1 * (y * y), 0), Z2(0, 0), Z2(0, 0)), YThree(Z6(Z2(0, 0), Z2(0, 0), Z2(0, 0))))
  {
    assert ZMul(Z2(0, y), Z2(0, y)) == Z2(-1 * (y * y), 0);
    assert ZMul(Z2(0, y), Z2(0, 0)) == Z2(0, 0);
    hide ZMul;
    ZRealTimes(0, 0, y);
    ZRealTimes(0, 0, 0);
  }

  lemma {:induction false} ImaginarySquare(F: Field, y: Poly)
    requires Good(F) && InK(F, y)
    ensures |y| == F.m > 0 && Square6(F, PsiY(F, y)) == Real(F, KNeg(KMul(F, y, y)))
  {
    hide *;
    ImaginarySame();
    KUnits(F, y);
    OneInList(F, y);
    ProductHolds(F, ImaginaryEx, ImaginaryEx, MinusSquareEx, Null6, [y]);
    ImaginaryEval(F, y);
    SquareIs(F, PsiY(F, y));
  }

  lemma OneInList(F: Field, y: Poly)
    requires InK(F, y)
    ensures AllIn(F, [y])
  {
    hide InK;
  }

  lemma {:induction false} ImaginaryEval(F: Field, y: Poly)
    requires |y| == F.m > 0
    ensures Shaped(F, [y]) && KEval6(F, ImaginaryEx, [y]) == PsiY(F, y) && KEval6(F, MinusSquareEx, [y]) == Real(F, KNeg(KMul(F, y, y)))
  {
    NullEval(F, [y]);
    hide KMul, KZero, KScale, KOne, Null;
  }

  // ---------------------------------------------------------------- the image lies on the curve

  // The cube of p - x is p + 1 - x^3.
  lemma {:induction false} PsiCube(F: Field, x: Poly)
    requires Good(F) && InK(F, x)
    ensures |x| == F.m > 0
    ensures Gf33mMult(F, PsiX(F, x), Square6(F, PsiX(F, x))) == Element(F, KSub(KOne(F), KCube(F, x)), KZero(F), KOne(F))
  {
    hide *;
    KUnits(F, x);
    EtaPairing.KClosed(F, x, x);
    EtaPairing.KClosed(F, KOne(F), KCube(F, x));
    PsiIn(F, x);
    CubicIsCube(F, PsiX(F, x));
    SquareIs(F, PsiX(F, x));
    PsiCubicIs(F, x);
    CubeOfNegative(F, x);
    CubeOfZero(F);
    CubeOfOne(F);
    EtaPairing.KClosed(F, KCube(F, x), x);
    PsiCubicSum(F, KNeg(KCube(F, x)));
    SubIs(KOne(F), KCube(F, x));
  }

  lemma SubIs(a: Poly, b: Poly)
    requires |a| == |b|
    ensures KSub(a, b) == KAdd(a, KNeg(b))
  {
  }

  lemma {:induction false} PsiIn(F: Field, x: Poly)
    requires Good(F) && InK(F, x)
    ensures |x| == F.m > 0 && InK6(F, PsiX(F, x)) && InK6(F, PsiY(F, x)) && Sized6(F, PsiX(F, x)) && Sized6(F, PsiY(F, x))
  {
    EtaPairing.KClosed(F, x, x);
    hide InK, KZero, KOne, KScale;
  }

  lemma {:induction false} PsiCubicIs(F: Field, x: Poly)
    requires |x| == F.m > 0
    ensures var u, v, w := KCube(F, KNeg(x)), KCube(F, KZero(F)), KCube(F, KOne(F));
            var a, b, c := K2(u, KNeg(v)), K2(w, KNeg(v)), K2(v, KNeg(v));
            Gf33mCubic(F, PsiX(F, x)) == K6(Gf32mAdd(F, Gf32mAdd(F, a, b), c), Gf32mSub(F, b, c), c)
  {
    hide KCube, KScale, KAdd, KZero, KOne;
  }

  lemma {:induction false} PsiCubicSum(F: Field, u: Poly)
    requires Good(F) && InK(F, u)
    ensures |u| == F.m > 0
    ensures var z, o := KZero(F), KOne(F);
            var a, b, c := K2(u, KNeg(z)), K2(o, KNeg(z)), K2(z, KNeg(z));
            K6(Gf32mAdd(F, Gf32mAdd(F, a, b), c), Gf32mSub(F, b, c), c) == Element(F, KAdd(o, u), z, o)
  {
    KUnits(F, u);
    EtaPairing.KClosed(F, u, KOne(F));
    KAddCommutes(F, u, KOne(F));
    NullIsZero(F);
    ZeroParts(F, KOne(F));
    ZeroParts(F, KAdd(KOne(F), u));
    SubIs(KOne(F), KZero(F));
    SubIs(KZero(F), KZero(F));
    hide KScale, KAdd, KZero, KOne, InK;
  }

  lemma {:induction false} CubeOfNegative(F: Field, x: Poly)
    requires Good(F) && InK(F, x)
    ensures |x| == F.m > 0 && KCube(F, KNeg(x)) == KNeg(KCube(F, x))
  {
    hide InK, KMul, KAdd, KSub, KScale, KOne, KZero, KCube;
    KUnits(F, x);
    TernaryFrobenius.CubeIs(F, x);
    TernaryFrobenius.CubeIs(F, KNeg(x));
    HoldsInField(F, Prod(Times(-1, Var(0)), Prod(Times(-1, Var(0)), Times(-1, Var(0)))), Times(-1, Prod(Var(0), Prod(Var(0), Var(0)))), Null, [x]);
  }

  lemma {:induction false} CubeOfZero(F: Field)
    requires Good(F)
    ensures F.m > 0 && KCube(F, KZero(F)) == KZero(F) && InK(F, KZero(F))
  {
    hide KMul, KOne;
    EtaPairing.RepConstants(F);
    KUnits(F, KZero(F));
  }

  lemma {:induction false} CubeOfOne(F: Field)
    requires Good(F)
    ensures F.m > 0 && KCube(F, KOne(F)) == KOne(F) && InK(F, KOne(F))
  {
    hide KMul;
    EtaPairing.RepConstants(F);
    KUnits(F, KOne(F));
  }

  // psi(Q) lies on y^2 = x^3 - x + 1 over GF(3^6m).
  lemma {:induction false} PsiOnCurve(F: Field, Q: Point)
    requires Good(F) && OnCurve(F, Q) && Q.Affine?
    ensures |Q.x| == |Q.y| == F.m > 0 && Square6(F, PsiY(F, Q.y)) == Cubic6(F, PsiX(F, Q.x))
    ensures InK6(F, PsiX(F, Q.x)) && InK6(F, PsiY(F, Q.y))
  {
    hide *;
    OnCurveParts(F, Q);
    var x, y := Q.x, Q.y;
    KUnits(F, x);
    CubicIn(F, x);
    CubicIs(F, x);
    PsiIn(F, x);
    PsiIn(F, y);
    ImaginarySquare(F, y);
    PsiCube(F, x);
    EtaPairing.KClosed(F, KOne(F), KCube(F, x));
    EtaPairing.KClosed(F, x, x);
    CubicOfPsi(F, x, KCube(F, x));
  }

  lemma OnCurveParts(F: Field, Q: Point)
    requires OnCurve(F, Q) && Q.Affine?
    ensures InK(F, Q.x) && InK(F, Q.y) && |Q.x| == |Q.y| == F.m > 0 && KMul(F, Q.y, Q.y) == Cubic(F, Q.x)
  {
    hide InK, KMul, Cubic;
  }

  // (1 - w + p) - (p - x) + 1 is minus w - x + 1.
  lemma {:induction false} CubicOfPsi(F: Field, x: Poly, w: Poly)
    requires Good(F) && InK(F, x) && InK(F, w)
    requires |x| == |w| == F.m > 0 ==> Gf33mMult(F, PsiX(F, x), Square6(F, PsiX(F, x))) == Element(F, KSub(KOne(F), w), KZero(F), KOne(F))
    ensures |x| == |w| == F.m > 0 && Cubic6(F, PsiX(F, x)) == Real(F, KNeg(KAdd(KSub(w, x), KOne(F))))
  {
    hide InK, KMul, KAdd, KSub, KScale, KOne, KZero, Gf33mMult, Add6, Neg6, Square6;
    KUnits(F, x);
    EtaPairing.KClosed(F, KOne(F), w);
    EtaPairing.KClosed(F, x, x);
    var o, z := KOne(F), KZero(F);
    var u := KSub(o, w);
    ElementsAdd(F, u, z, o, KNeg(x), z, o);
    EtaPairing.KClosed(F, u, KNeg(x));
    KUnits(F, o);
    KUnits(F, z);
    ElementsAdd(F, KSub(u, KNeg(x)), z, z, o, z, z);
    ZeroParts(F, z);
    OneIsElement(F);
    HoldsInField(F, Sum(Dif(Dif(One, Var(1)), Times(-1, Var(0))), One), Times(-1, Sum(Dif(Var(1), Var(0)), One)), One, [x, w]);
  }

  lemma OneIsElement(F: Field)
    requires F.m > 0
    ensures One6(F) == Element(F, KOne(F), KZero(F), KZero(F))
  {
    hide KOne, KZero;
  }

  // The generators of the tower.
  function S(F: Field): (r: K6)
    requires F.m > 0
    ensures Sized6(F, r)
  {
    Element(F, KZero(F), KOne(F), KZero(F))
  }

  function Rho(F: Field): (r: K6)
    requires F.m > 0
    ensures Sized6(F, r)
  {
    Element(F, KZero(F), KZero(F), KOne(F))
  }

  // s^2 = -1 and p^3 = p + 1 for the products of the tower.
  lemma {:induction false} TowerRelations(F: Field)
    requires Good(F)
    ensures F.m > 0 && Square6(F, S(F)) == Neg6(F, One6(F))
    ensures Gf33mMult(F, Rho(F), Square6(F, Rho(F))) == Add6(F, Rho(F), One6(F))
  {
    hide *;
    CubeOfOne(F);
    CubeOfZero(F);
    KUnits(F, KOne(F));
    ZeroParts(F, KOne(F));
    ZeroParts(F, KZero(F));
    ImaginarySquare(F, KOne(F));
    PsiCube(F, KZero(F));
    GeneratorsAre(F);
    OneIsElement(F);
    SubIs(KOne(F), KZero(F));
    RealIs(F, KNeg(KOne(F)));
    ElementsAdd(F, KZero(F), KZero(F), KOne(F), KOne(F), KZero(F), KZero(F));
  }

  lemma GeneratorsAre(F: Field)
    requires F.m > 0 && KNeg(KZero(F)) == KZero(F)
    ensures S(F) == PsiY(F, KOne(F)) && Rho(F) == PsiX(F, KZero(F)) && Rho(F) == Element(F, KZero(F), KZero(F), KOne(F))
  {
    hide KZero, KOne, KScale;
  }

  // psi(x, y) = (p - x, y*s)
  lemma {:induction false} PsiIs(F: Field, x: Poly, y: Poly)
    requires Good(F) && InK(F, x) && InK(F, y)
    ensures |x| == |y| == F.m > 0
    ensures PsiX(F, x) == Sub6(F, Rho(F), Real(F, x)) && PsiY(F, y) == Gf33mMult(F, Real(F, y), S(F))
  {
    hide InK, KMul, KAdd, KScale, KOne, KZero, Gf33mMult, Element, Add6, Neg6;
    var o, z := KOne(F), KZero(F);
    KUnits(F, x);
    KUnits(F, y);
    ZeroParts(F, z);
    ZeroParts(F, o);
    EtaPairing.KClosed(F, x, x);
    ZeroParts(F, KNeg(x));
    ElementsAdd(F, z, z, o, x, z, z);
    SubIs(z, x);
    SubIs(z, z);
    SubIs(o, z);
    RealTimes(F, y, z, o, z);
    KCommutes(F, y, o);
    KCommutes(F, y, z);
  }

  // ---------------------------------------------------------------- the line

  lemma {:induction false} LineIs(F: Field, a: Poly, b: Poly, x: Poly, y: Poly, c: Poly, d: Poly)
    requires Good(F) && InK(F, a) && InK(F, b) && InK(F, x) && InK(F, c) && InK(F, y) && InK(F, d)
    ensures |a| == |b| == |x| == |c| == |y| == |d| == F.m > 0
    ensures LineValue(F, a, b, Element(F, x, KZero(F), c), Element(F, d, y, KZero(F))) ==
      Element(F, KAdd(d, KMul(F, b, KSub(x, KAdd(a, KOne(F))))), y, KMul(F, b, c))
  {
    hide InK, KMul, KAdd, KSub, KScale, KOne, KZero, Gf33mMult, Add6, Neg6, Sub6, Element;
    KUnits(F, a);
    KUnits(F, d);
    EtaPairing.KClosed(F, a, KOne(F));
    var u, z := KAdd(a, KOne(F)), KZero(F);
    RealIs(F, u);
    KUnits(F, c);
    KUnits(F, b);
    EtaPairing.KClosed(F, x, u);
    ElementsAdd(F, x, z, c, u, z, z);
    ZeroParts(F, z);
    ZeroParts(F, c);
    SubZero(F, c);
    SubZero(F, z);
    RealTimes(F, b, KSub(x, u), z, c);
    EtaPairing.KClosed(F, b, KSub(x, u));
    EtaPairing.KClosed(F, b, c);
    KCommutes(F, b, z);
    ZeroParts(F, KMul(F, b, c));
    ZeroParts(F, y);
    KCommutes(F, y, z);
    ElementsAdd(F, d, y, z, KMul(F, b, KSub(x, u)), z, KMul(F, b, c));
  }

  lemma RealIs(F: Field, a: Poly)
    requires |a| == F.m > 0
    ensures Real(F, a) == Element(F, a, KZero(F), KZero(F))
  {
  }

  lemma {:induction false} SubZero(F: Field, a: Poly)
    requires Good(F) && InK(F, a)
    ensures |a| == F.m > 0 && KSub(a, KZero(F)) == a
  {
    ZeroParts(F, a);
    SubIs(a, KZero(F));
  }

  // Its value at psi(x, y): -b*(a + 1 + x) + y*s + b*p.
  lemma {:induction false} LineAtPsi(F: Field, a: Poly, b: Poly, x: Poly, y: Poly)
    requires Good(F) && InK(F, a) && InK(F, b) && InK(F, x) && InK(F, y)
    ensures |a| == |b| == |x| == |y| == F.m > 0
    ensures LineValue(F, a, b, PsiX(F, x), PsiY(F, y)) == Element(F, KNeg(KMul(F, b, KAdd(KAdd(a, KOne(F)), x))), y, b)
  {
    hide InK, KMul, KAdd, KSub, KScale, KOne, KZero, LineValue, Element;
    KUnits(F, x);
    KUnits(F, b);
    EtaPairing.KClosed(F, x, x);
    LineIs(F, a, b, KNeg(x), y, KOne(F), KZero(F));
    KCommutes(F, b, KOne(F));
    EtaPairing.KClosed(F, a, KOne(F));
    EtaPairing.KClosed(F, KNeg(x), KAdd(a, KOne(F)));
    EtaPairing.KClosed(F, b, KSub(KNeg(x), KAdd(a, KOne(F))));
    KUnits(F, KMul(F, b, KSub(KNeg(x), KAdd(a, KOne(F)))));
    HoldsInField(F, Prod(Var(1), Dif(Times(-1, Var(2)), Sum(Var(0), One))), Times(-1, Prod(Var(1), Sum(Sum(Var(0), One), Var(2)))), Null, [a, b, x]);
  }

  // Its value at a point of the base field.
  lemma {:induction false} LineAtReal(F: Field, a: Poly, b: Poly, x: Poly, y: Poly)
    requires Good(F) && InK(F, a) && InK(F, b) && InK(F, x) && InK(F, y)
    ensures |a| == |b| == |x| == |y| == F.m > 0
    ensures LineValue(F, a, b, Real(F, x), Real(F, y)) == Real(F, KAdd(y, KMul(F, b, KSub(x, KAdd(a, KOne(F))))))
  {
    hide InK, KMul, KAdd, KSub, KScale, KOne, KZero, LineValue, Element;
    var z := KZero(F);
    KUnits(F, x);
    KUnits(F, b);
    LineIs(F, a, b, x, z, z, y);
    KCommutes(F, b, z);
  }

  // The line passes through (a, b) and (a - 1, -b).
  lemma {:induction false} LineMeets(F: Field, a: Poly, b: Poly)
    requires Good(F) && InK(F, a) && InK(F, b)
    ensures |a| == |b| == F.m > 0
    ensures LineValue(F, a, b, Real(F, a), Real(F, b)) == Real(F, KZero(F))
    ensures LineValue(F, a, b, Real(F, KSub(a, KOne(F))), Real(F, KNeg(b))) == Real(F, KZero(F))
  {
    hide InK, KMul, KAdd, KSub, KScale, KOne, KZero, LineValue, Element;
    KUnits(F, a);
    EtaPairing.KClosed(F, a, KOne(F));
    EtaPairing.KClosed(F, b, b);
    LineAtReal(F, a, b, a, b);
    LineAtReal(F, a, b, KSub(a, KOne(F)), KNeg(b));
    NullIsZero(F);
    HoldsInField(F, Sum(Var(1), Prod(Var(1), Dif(Var(0), Sum(Var(0), One)))), Null, Null, [a, b]);
    HoldsInField(F, Sum(Times(-1, Var(1)), Prod(Var(1), Dif(Dif(Var(0), One), Sum(Var(0), One)))), Null, Times(-1, Var(1)), [a, b]);
  }

  // ---------------------------------------------------------------- the conic

  // Its value at psi(x, y) is what the rounds multiply by.
  lemma {:induction false} ConicAtPsi(F: Field, a: Poly, b: Poly, x: Poly, y: Poly)
    requires Good(F) && InK(F, a) && InK(F, b) && InK(F, x) && InK(F, y)
    ensures |a| == |b| == |x| == |y| == F.m > 0
    ensures ConicValue(F, a, b, PsiX(F, x), PsiY(F, y)) == Tangent(F, KAdd(KAdd(a, KOne(F)), x), KMul(F, b, y))
  {
    hide InK, KMul, KAdd, KSub, KScale, KOne, KZero, Gf33mMult, Add6, Neg6, Sub6, Element, Square6;
    var o, z := KOne(F), KZero(F);
    KUnits(F, x);
    EtaPairing.KClosed(F, a, o);
    EtaPairing.KClosed(F, x, o);
    EtaPairing.KClosed(F, o, o);
    var u := KAdd(a, o);
    EtaPairing.KClosed(F, u, x);
    var t := KAdd(u, x);
    RealIs(F, u);
    ElementsAdd(F, u, z, z, KNeg(x), z, o);
    ZeroParts(F, z);
    ZeroParts(F, o);
    SubZero(F, z);
    MinusNegative(F, u, x);
    SubIs(z, o);
    ZeroParts(F, KNeg(o));
    PairSquare(F, t, KNeg(o));
    RealTimes(F, b, z, y, z);
    EtaPairing.KClosed(F, b, y);
    KUnits(F, b);
    KCommutes(F, b, z);
    ConicDifference(F, t, KMul(F, b, y));
  }

  lemma {:induction false} MinusNegative(F: Field, u: Poly, x: Poly)
    requires Good(F) && InK(F, u) && InK(F, x)
    ensures |u| == |x| == F.m > 0 && KSub(u, KNeg(x)) == KAdd(u, x)
  {
    hide InK, KMul, KAdd, KSub, KScale, KOne, KZero;
    HoldsInField(F, Dif(Var(0), Times(-1, Var(1))), Sum(Var(0), Var(1)), Null, [u, x]);
  }

  // v*s - (t - p)^2
  lemma {:induction false} ConicDifference(F: Field, t: Poly, v: Poly)
    requires Good(F) && InK(F, t) && InK(F, v)
    ensures |t| == |v| == F.m > 0
    ensures var o, z, n := KOne(F), KZero(F), KNeg(KOne(F));
            Sub6(F, Element(F, z, v, z), K6(K2(KMul(F, t, t), z), K2(KScale(2, KMul(F, t, n)), z), K2(KMul(F, n, n), z))) == Tangent(F, t, v)
  {
    hide InK, KMul, KAdd, KSub, KScale, KOne, KZero;
    var o, z, n := KOne(F), KZero(F), KNeg(KOne(F));
    KUnits(F, t);
    EtaPairing.KClosed(F, t, o);
    EtaPairing.KClosed(F, t, t);
    ZeroParts(F, v);
    ZeroParts(F, z);
    NullIsZero(F);
    HoldsInField(F, Sum(Null, Times(-1, Prod(Var(0), Var(0)))), Prod(Var(0), Times(-1, Var(0))), Null, [t]);
    HoldsInField(F, Sum(Null, Times(-1, Times(2, Prod(Var(0), Times(-1, One))))), Times(-1, Var(0)), Var(0), [t]);
    HoldsInField(F, Sum(Null, Times(-1, Prod(Times(-1, One), Times(-1, One)))), Times(-1, One), Null, [t]);
  }

  // Its value at a point of the base field.
  function Conic(F: Field, a: Poly, b: Poly, x: Poly, y: Poly): (r: Poly)
    requires |a| == |b| == |x| == |y| == F.m > 0
    ensures |r| == F.m
  {
    var w := KSub(KAdd(a, KOne(F)), x);
    KSub(KMul(F, b, y), KMul(F, w, w))
  }

  lemma {:induction false} ConicAtReal(F: Field, a: Poly, b: Poly, x: Poly, y: Poly)
    requires Good(F) && InK(F, a) && InK(F, b) && InK(F, x) && InK(F, y)
    ensures |a| == |b| == |x| == |y| == F.m > 0
    ensures ConicValue(F, a, b, Real(F, x), Real(F, y)) == Real(F, Conic(F, a, b, x, y))
  {
    hide InK, KMul, KAdd, KSub, KScale, KOne, KZero, Gf33mMult, Add6, Neg6, Sub6, Element, Square6;
    var o, z := KOne(F), KZero(F);
    KUnits(F, x);
    KUnits(F, y);
    EtaPairing.KClosed(F, a, o);
    var u := KAdd(a, o);
    EtaPairing.KClosed(F, u, x);
    var w := KSub(u, x);
    RealIs(F, u);
    RealIs(F, x);
    RealIs(F, y);
    RealIs(F, w);
    ElementsAdd(F, u, z, z, x, z, z);
    SubZero(F, z);
    RealTimes(F, w, w, z, z);
    RealTimes(F, b, y, z, z);
    KUnits(F, w);
    KUnits(F, b);
    KCommutes(F, w, z);
    KCommutes(F, b, z);
    EtaPairing.KClosed(F, w, w);
    EtaPairing.KClosed(F, b, y);
    SquareIs(F, Real(F, w));
    ElementsAdd(F, KMul(F, b, y), z, z, KMul(F, w, w), z, z);
    RealIs(F, KSub(KMul(F, b, y), KMul(F, w, w)));
  }

  // The conic and its reflection meet the curve where x^3 = a, three times, and where x = a^3 - 1: as a divisor the
  // conic is three times the point whose cube is (a, b), and minus its triple.
  lemma {:induction false} ConicDivisor(F: Field, a: Poly, b: Poly, x: Poly, y: Poly)
    requires Good(F) && OnCurve(F, Affine(a, b)) && OnCurve(F, Affine(x, y))
    ensures |a| == |b| == |x| == |y| == F.m > 0
    ensures KMul(F, Conic(F, a, b, x, y), Conic(F, a, b, x, KNeg(y))) ==
      KMul(F, KSub(KCube(F, x), a), KSub(x, KSub(KCube(F, a), KOne(F))))
  {
    hide InK, KMul, KAdd, KSub, KScale, KOne, KZero, KCube, Cubic;
    OnCurveParts(F, Affine(a, b));
    OnCurveParts(F, Affine(x, y));
    CubicIn(F, a);
    CubicIn(F, x);
    TernaryFrobenius.CubeIs(F, a);
    TernaryFrobenius.CubeIs(F, x);
    CubicIs(F, a);
    CubicIs(F, x);
    ConicTimesReflection(F, a, b, x, y);
    ConicSquares(F, a, x);
  }

  lemma {:induction false} ConicTimesReflection(F: Field, a: Poly, b: Poly, x: Poly, y: Poly)
    requires Good(F) && InK(F, a) && InK(F, b) && InK(F, x) && InK(F, y)
    ensures |a| == |b| == |x| == |y| == F.m > 0
    ensures var w := KSub(KAdd(a, KOne(F)), x);
            KMul(F, Conic(F, a, b, x, y), Conic(F, a, b, x, KNeg(y))) ==
            KSub(KMul(F, KMul(F, w, w), KMul(F, w, w)), KMul(F, KMul(F, b, b), KMul(F, y, y)))
  {
    hide InK, KMul, KAdd, KSub, KScale, KOne, KZero;
    KUnits(F, x);
    EtaPairing.KClosed(F, a, KOne(F));
    EtaPairing.KClosed(F, KAdd(a, KOne(F)), x);
    var w := KSub(KAdd(a, KOne(F)), x);
    EtaPairing.KClosed(F, w, w);
    EtaPairing.KClosed(F, b, y);
    EtaPairing.KClosed(F, y, y);
    HoldsInField(F, Prod(Dif(Var(0), Var(1)), Dif(Times(-1, Var(0)), Var(1))), Dif(Prod(Var(1), Var(1)), Prod(Var(0), Var(0))), Null, [KMul(F, b, y), KMul(F, w, w)]);
    HoldsInField(F, Prod(Var(0), Times(-1, Var(1))), Times(-1, Prod(Var(0), Var(1))), Null, [b, y]);
    TwoByTwo(F, b, y, b, y);
  }

  // (a + 1 - x)^4 - (a^3 - a + 1)(x^3 - x + 1) = (x^3 - a)(x - a^3 + 1)
  const ConicEx: Ex :=
    Dif(Prod(Prod(Dif(Sum(Var(0), One), Var(1)), Dif(Sum(Var(0), One), Var(1))), Prod(Dif(Sum(Var(0), One), Var(1)), Dif(Sum(Var(0), One), Var(1)))),
      Prod(Sum(Dif(Prod(Var(0), Prod(Var(0), Var(0))), Var(0)), One), Sum(Dif(Prod(Var(1), Prod(Var(1), Var(1))), Var(1)), One)))
  const RootsEx: Ex :=
    Prod(Dif(Prod(Var(1), Prod(Var(1), Var(1))), Var(0)), Dif(Var(1), Dif(Prod(Var(0), Prod(Var(0), Var(0))), One)))
  const ConicRest: Ex :=
    Sum(Sum(Times(-1, Prod(Sum(Var(0), Times(2, One)), Prod(Var(1), Prod(Var(1), Var(1))))),
            Times(2, Prod(Prod(Sum(Var(0), One), Sum(Var(0), One)), Prod(Var(1), Var(1))))),
        Sum(Times(-1, Prod(Sum(Sum(Prod(Var(0), Prod(Var(0), Var(0))), Times(4, Prod(Var(0), Var(0)))), Sum(Times(4, Var(0)), One)), Var(1))),
            Sum(Prod(Var(0), Prod(Var(0), Var(0))), Sum(Times(2, Prod(Var(0), Var(0))), Times(2, Var(0))))))

  lemma {:induction false} ConicSame()
    ensures SameModThree(ConicEx, RootsEx, ConicRest, 2)
  {
    hide ZEval;
    forall e: seq<int> | |e| == 2 ensures ZEval(ConicEx, e) == ZEval(RootsEx, e) + 3 * ZEval(ConicRest, e) {
      ConicEval(e);
      ConicPoly(e[0], e[1]);
    }
  }

  lemma {:induction false} ConicEval(e: seq<int>)
    requires |e| == 2
    ensures var a, x := e[0], e[1];
            && ZEval(ConicEx, e) == (a + 1 - x) * (a + 1 - x) * ((a + 1 - x) * (a + 1 - x)) - (a * (a * a) - a + 1) * (x * (x * x) - x + 1)
            && ZEval(RootsEx, e) == (x * (x * x) - a) * (x - (a * (a * a) - 1))
            && ZEval(ConicRest, e) == -1 * ((a + 2) * (x * (x * x))) + 2 * ((a + 1) * (a + 1) * (x * x))
                 + (-1 * ((a * (a * a) + 4 * (a * a) + (4 * a + 1)) * x) + (a * (a * a) + (2 * (a * a) + 2 * a)))
  {
    hide *;
    ConicEvalLeft(e);
    ConicEvalRest(e);
  }

  lemma ConicEvalLeft(e: seq<int>)
    requires |e| == 2
    ensures var a, x := e[0], e[1];
            && ZEval(ConicEx, e) == (a + 1 - x) * (a + 1 - x) * ((a + 1 - x) * (a + 1 - x)) - (a * (a * a) - a + 1) * (x * (x * x) - x + 1)
            && ZEval(RootsEx, e) == (x * (x * x) - a) * (x - (a * (a * a) - 1))
  {
  }

  lemma ConicEvalRest(e: seq<int>)
    requires |e| == 2
    ensures var a, x := e[0], e[1];
            ZEval(ConicRest, e) == -1 * ((a + 2) * (x * (x * x))) + 2 * ((a + 1) * (a + 1) * (x * x))
              + (-1 * ((a * (a * a) + 4 * (a * a) + (4 * a + 1)) * x) + (a * (a * a) + (2 * (a * a) + 2 * a)))
  {
  }

  lemma {:induction false} ConicPoly(a: int, x: int)
    ensures (a + 1 - x) * (a + 1 - x) * ((a + 1 - x) * (a + 1 - x)) - (a * (a * a) - a + 1) * (x * (x * x) - x + 1) ==
      (x * (x * x) - a) * (x - (a * (a * a) - 1)) + 3 * (-1 * ((a + 2) * (x * (x * x))) + 2 * ((a + 1) * (a + 1) * (x * x))
        + (-1 * ((a * (a * a) + 4 * (a * a) + (4 * a + 1)) * x) + (a * (a * a) + (2 * (a * a) + 2 * a))))
  {
    var u, x2, x3, a2, a3 := a + 1, x * x, x * (x * x), a * a, a * (a * a);
    FourthPower(u, x);
    PowersOfSum(a, x, x2, x3);
    ProductOfCubics(a3, a, x3, x);
    ProductOfRoots(a3, a, x3, x);
    RestTerms(a, a2, a3, x, x2, x3);
    Swapped(x, x2, x3);
    CombineTerms((a + 1 - x) * (a + 1 - x) * ((a + 1 - x) * (a + 1 - x)), (a3 - a + 1) * (x3 - x + 1), (x3 - a) * (x - (a3 - 1)),
      (a + 2) * x3, (a + 1) * (a + 1) * x2, (a3 + 4 * a2 + (4 * a + 1)) * x, a2 * a2, a3 * x, a2 * x, a * x, x, a2 * x2, a * x2, x2, a * x3, x3, x2 * x2,
      a3 * x3, a3, a2, a);
  }

  lemma Swapped(x: int, x2: int, x3: int)
    requires x2 == x * x && x3 == x * x2
    ensures x3 * x == x2 * x2
  {
  }

  // The identity once everything is expanded.
  lemma CombineTerms(fourth: int, cubics: int, roots: int, r1: int, r2: int, r3: int, a4: int, a3x: int, a2x: int, ax: int, x: int, a2x2: int, ax2: int,
                     x2: int, ax3: int, x3: int, x4: int, a3x3: int, a3: int, a2: int, a: int)
    requires fourth == (a4 + 4 * a3 + 6 * a2 + 4 * a + 1) - 4 * (a3x + 3 * a2x + 3 * ax + x) + 6 * (a2x2 + 2 * ax2 + x2) - 4 * (ax3 + x3) + x4
    requires cubics == a3x3 - a3x + a3 - ax3 + ax - a + x3 - x + 1 && roots == x4 - a3x3 + x3 - ax + a4 - a
    requires r1 == ax3 + 2 * x3 && r2 == a2x2 + 2 * ax2 + x2 && r3 == a3x + 4 * a2x + 4 * ax + x
    ensures fourth - cubics == roots + 3 * (-1 * r1 + 2 * r2 + (-1 * r3 + (a3 + (2 * a2 + 2 * a))))
  {
  }

  lemma FourthPower(u: int, x: int)
    ensures (u - x) * (u - x) * ((u - x) * (u - x)) == u * u * (u * u) - 4 * (u * (u * u) * x) + 6 * (u * u * (x * x)) - 4 * (u * (x * (x * x))) + x * x * (x * x)
  {
    var s, t, w := u * u, u * x, x * x;
    assert (u - x) * (u - x) == s - 2 * t + w;
    SquareOfThree(s, t, w);
    assert t * t == s * w && s * t == u * s * x && t * w == u * (x * w);
  }

  lemma SquareOfThree(s: int, t: int, w: int)
    ensures (s - 2 * t + w) * (s - 2 * t + w) == s * s + 4 * (t * t) + w * w - 4 * (s * t) + 2 * (s * w) - 4 * (t * w)
  {
  }

  lemma PowersOfSum(a: int, x: int, x2: int, x3: int)
    ensures var u, a2, a3 := a + 1, a * a, a * (a * a);
            && u * u == a2 + 2 * a + 1
            && u * (u * u) * x == a3 * x + 3 * (a2 * x) + 3 * (a * x) + x
            && u * u * x2 == a2 * x2 + 2 * (a * x2) + x2 && u * x3 == a * x3 + x3
            && u * u * (u * u) == a2 * a2 + 4 * a3 + 6 * a2 + 4 * a + 1
  {
    var u, a2, a3 := a + 1, a * a, a * (a * a);
    assert u * u == a2 + 2 * a + 1;
    assert u * (a2 + 2 * a + 1) == a3 + 3 * a2 + 3 * a + 1;
    assert (a2 + 2 * a + 1) * (a2 + 2 * a + 1) == a2 * a2 + 4 * (a * a2) + 6 * a2 + 4 * a + 1;
  }

  lemma ProductOfCubics(c: int, a: int, d: int, x: int)
    ensures (c - a + 1) * (d - x + 1) == c * d - c * x + c - a * d + a * x - a + d - x + 1
  {
  }

  lemma ProductOfRoots(c: int, a: int, d: int, x: int)
    ensures (d - a) * (x - (c - 1)) == d * x - c * d + d - a * x + a * c - a
  {
  }

  lemma RestTerms(a: int, a2: int, a3: int, x: int, x2: int, x3: int)
    requires a2 == a * a && a3 == a * a2
    ensures (a + 2) * x3 == a * x3 + 2 * x3 && (a + 1) * (a + 1) * x2 == a2 * x2 + 2 * (a * x2) + x2
    ensures (a3 + 4 * a2 + (4 * a + 1)) * x == a3 * x + 4 * (a2 * x) + 4 * (a * x) + x && a * a3 == a2 * a2
  {
  }

  lemma {:induction false} ConicSquares(F: Field, a: Poly, x: Poly)
    requires Good(F) && InK(F, a) && InK(F, x)
    ensures |a| == |x| == F.m > 0
    ensures var w := KSub(KAdd(a, KOne(F)), x);
            var c, d := KMul(F, a, KMul(F, a, a)), KMul(F, x, KMul(F, x, x));
            KSub(KMul(F, KMul(F, w, w), KMul(F, w, w)), KMul(F, KAdd(KSub(c, a), KOne(F)), KAdd(KSub(d, x), KOne(F)))) ==
            KMul(F, KSub(d, a), KSub(x, KSub(c, KOne(F))))
  {
    hide InK, KMul, KAdd, KSub, KScale, KOne, KZero;
    ConicSame();
    HoldsInField(F, ConicEx, RootsEx, ConicRest, [a, x]);
  }

  // The conic vanishes at the point whose cube is (a, b) and at minus the triple of that point.
  lemma {:induction false} ConicVanishes(F: Field, u: Poly, v: Poly)
    requires Good(F) && OnCurve(F, Affine(u, v))
    ensures |u| == |v| == F.m > 0
    ensures var a, b := KCube(F, u), KCube(F, v);
            Conic(F, a, b, u, v) == KZero(F) && Conic(F, a, b, KSub(KCube(F, a), KOne(F)), KCube(F, b)) == KZero(F)
  {
    hide *;
    OnCurveParts(F, Affine(u, v));
    CubicIn(F, u);
    CubicIn(F, v);
    CubicIs(F, u);
    var a, b := KCube(F, u), KCube(F, v);
    CubicIn(F, a);
    CubicIn(F, b);
    CubeOnCurveToo(F, u, v);
    OnCurveParts(F, Affine(a, b));
    KUnits(F, a);
    CubicIs(F, a);
    TernaryFrobenius.CubeIs(F, v);
    TernaryFrobenius.CubeIs(F, b);
    ConicIs(F, a, b, u, v);
    EtaPairing.KClosed(F, KCube(F, a), KOne(F));
    ConicIs(F, a, b, KSub(KCube(F, a), KOne(F)), KCube(F, b));
    VanishesThere(F, a, u, v);
    VanishesBeyond(F, a, b, KCube(F, a));
  }

  lemma ConicIs(F: Field, a: Poly, b: Poly, x: Poly, y: Poly)
    requires |a| == |b| == |x| == |y| == F.m > 0
    ensures var w := KSub(KAdd(a, KOne(F)), x); Conic(F, a, b, x, y) == KSub(KMul(F, b, y), KMul(F, w, w))
  {
    hide KMul, KAdd, KScale, KOne;
  }

  // Cubing both coordinates stays on the curve.
  lemma {:induction false} CubeOnCurveToo(F: Field, u: Poly, v: Poly)
    requires Good(F) && OnCurve(F, Affine(u, v))
    ensures |u| == |v| == F.m > 0 && OnCurve(F, Affine(KCube(F, u), KCube(F, v)))
  {
    hide *;
    OnCurveParts(F, Affine(u, v));
    CubicIn(F, u);
    CubicIn(F, v);
    CubicIs(F, u);
    CubicIn(F, KCube(F, u));
    CubicIs(F, KCube(F, u));
    OnCurveIs(F, KCube(F, u), KCube(F, v));
    KUnits(F, v);
    TernaryFrobenius.CubeIs(F, v);
    TernaryFrobenius.CubeIs(F, KCube(F, u));
    TernaryFrobenius.CubeIs(F, u);
    EtaPairing.KClosed(F, v, v);
    CubeOfSquare(F, v);
    CubeOfCubic(F, u, KCube(F, u));
  }

  // v^3 * v^3 is the cube of v^2.
  lemma {:induction false} CubeOfSquare(F: Field, v: Poly)
    requires Good(F) && InK(F, v)
    ensures |v| == F.m > 0
    ensures KMul(F, KMul(F, v, KMul(F, v, v)), KMul(F, v, KMul(F, v, v))) == KMul(F, KMul(F, v, v), KMul(F, KMul(F, v, v), KMul(F, v, v)))
  {
    hide InK, KMul, KAdd, KSub, KScale, KOne, KZero;
    KUnits(F, v);
    EtaPairing.KClosed(F, v, v);
    var q := KMul(F, v, v);
    TwoByTwo(F, v, q, v, q);
  }

  // (c - u + 1)^3 = c^3 - c + 1 for c = u^3
  lemma {:induction false} CubeOfCubic(F: Field, u: Poly, c: Poly)
    requires Good(F) && InK(F, u) && InK(F, c) && (|u| == F.m > 0 ==> c == KMul(F, u, KMul(F, u, u)))
    ensures |u| == |c| == F.m > 0
    ensures var w := KAdd(KSub(c, u), KOne(F));
            KMul(F, w, KMul(F, w, w)) == KAdd(KSub(KMul(F, c, KMul(F, c, c)), c), KOne(F))
  {
    hide InK, KMul, KAdd, KSub, KScale, KOne, KZero;
    KUnits(F, u);
    var w := Sum(Dif(Var(1), Var(0)), One);
    var cube := Prod(Var(0), Prod(Var(0), Var(0)));
    var rest := Sum(Prod(Prod(Var(1), Var(1)), Dif(One, Var(0))), Prod(Var(1), Prod(Dif(One, Var(0)), Dif(One, Var(0)))));
    var more := Dif(Prod(Var(0), Var(0)), Var(0));
    HoldsInField(F, Prod(w, Prod(w, w)), Sum(Dif(Prod(Var(1), Prod(Var(1), Var(1))), cube), One), Sum(rest, more), [u, c]);
  }

  // b*v = (a + 1 - u)^2 for v^2 = a - u + 1 and b = v^3
  lemma {:induction false} VanishesThere(F: Field, a: Poly, u: Poly, v: Poly)
    requires Good(F) && InK(F, a) && InK(F, u) && InK(F, v)
    requires |a| == |u| == |v| == F.m > 0 ==> KMul(F, v, v) == KAdd(KSub(a, u), KOne(F))
    ensures |a| == |u| == |v| == F.m > 0
    ensures var w := KSub(KAdd(a, KOne(F)), u);
            KSub(KMul(F, KMul(F, v, KMul(F, v, v)), v), KMul(F, w, w)) == KZero(F)
  {
    hide InK, KMul, KAdd, KSub, KScale, KOne, KZero;
    KUnits(F, v);
    KUnits(F, u);
    EtaPairing.KClosed(F, v, v);
    EtaPairing.KClosed(F, v, KMul(F, v, v));
    KCommutes(F, v, KMul(F, v, v));
    KMulAssociates(F, KMul(F, v, v), v, v);
    HoldsInField(F, Sum(Dif(Var(0), Var(1)), One), Dif(Sum(Var(0), One), Var(1)), Null, [a, u]);
    var w := KMul(F, v, v);
    EtaPairing.KClosed(F, w, w);
    KUnits(F, KMul(F, w, w));
  }

  // b*b^3 = (a + 1 - (a^3 - 1))^2 for b^2 = a^3 - a + 1
  lemma {:induction false} VanishesBeyond(F: Field, a: Poly, b: Poly, c: Poly)
    requires Good(F) && InK(F, a) && InK(F, b) && InK(F, c)
    requires |a| == |b| == |c| == F.m > 0 ==> KMul(F, b, b) == KAdd(KSub(c, a), KOne(F))
    ensures |a| == |b| == |c| == F.m > 0
    ensures var w := KSub(KAdd(a, KOne(F)), KSub(c, KOne(F)));
            KSub(KMul(F, b, KMul(F, b, KMul(F, b, b))), KMul(F, w, w)) == KZero(F)
  {
    hide InK, KMul, KAdd, KSub, KScale, KOne, KZero;
    KUnits(F, a);
    KUnits(F, b);
    EtaPairing.KClosed(F, b, b);
    EtaPairing.KClosed(F, a, KOne(F));
    EtaPairing.KClosed(F, c, KOne(F));
    EtaPairing.KClosed(F, KAdd(a, KOne(F)), KSub(c, KOne(F)));
    var q, w := KMul(F, b, b), KSub(KAdd(a, KOne(F)), KSub(c, KOne(F)));
    KMulAssociates(F, b, b, q);
    HoldsInField(F, Dif(Sum(Var(0), One), Dif(Var(1), One)), Times(-1, Sum(Dif(Var(1), Var(0)), One)), One, [a, c]);
    HoldsInField(F, Prod(Times(-1, Var(0)), Times(-1, Var(0))), Prod(Var(0), Var(0)), Null, [q]);
    EtaPairing.KClosed(F, q, q);
    KUnits(F, KMul(F, q, q));
  }

  // ---------------------------------------------------------------- tripling

  // (x^9 - 1, -y^9)
  function Triple(F: Field, Q: Point): (T: Point)
    requires Q.Affine? && |Q.x| == |Q.y| == F.m > 0
    ensures T.Affine? && |T.x| == |T.y| == F.m
  {
    Affine(KSub(Ninth(F, Q.x), KOne(F)), KNeg(Ninth(F, Q.y)))
  }

  // Three times a point, by the rule for sums.
  lemma {:induction false} TripleIsSum(F: Field, Q: Point, D: Point, T: Point)
    requires IsField(F) && OnCurve(F, Q) && Q.Affine? && OnCurve(F, D) && IsSum(F, Q, Q, D) && IsSum(F, D, Q, T)
    ensures |Q.x| == |Q.y| == F.m > 0 && T == Triple(F, Q)
  {
    hide *;
    IsGood(F);
    OnCurveParts(F, Q);
    KUnits(F, Q.y);
    if Q.y == KZero(F) {
      TwoTorsion(F, Q, D, T);
    } else {
      if Q.y == KNeg(Q.y) { OwnNegative(F, Q.y); }
      var l := DoubleParts(F, Q, D);
      TripleParts(F, Q, D, T, l);
    }
  }

  // A point of order two is its own triple.
  lemma {:induction false} TwoTorsion(F: Field, Q: Point, D: Point, T: Point)
    requires Good(F) && OnCurve(F, Q) && Q.Affine? && OnCurve(F, D) && IsSum(F, Q, Q, D) && IsSum(F, D, Q, T)
    requires F.m > 0 ==> Q.y == KZero(F)
    ensures |Q.x| == |Q.y| == F.m > 0 && T == Triple(F, Q)
  {
    hide *;
    OnCurveParts(F, Q);
    NullIsZero(F);
    SumsWithInfinity(F, Q, D, T);
    KUnits(F, Q.x);
    CubicIn(F, Q.x);
    CubicIs(F, Q.x);
    CubicIn(F, KCube(F, Q.x));
    CubeOfZero(F);
    TripleIs(F, Q);
    KUnits(F, KZero(F));
    RootMoves(F, Q.x);
  }

  lemma SumsWithInfinity(F: Field, Q: Point, D: Point, T: Point)
    requires OnCurve(F, Q) && Q.Affine? && OnCurve(F, D) && IsSum(F, Q, Q, D) && IsSum(F, D, Q, T) && Q.y == KNeg(Q.y)
    ensures D == Infinity && T == Q
  {
    hide KScale, IsSlope, IsThird, KMul, Cubic;
  }

  lemma TripleIs(F: Field, Q: Point)
    requires Q.Affine? && |Q.x| == |Q.y| == F.m > 0
    ensures Triple(F, Q) == Affine(KSub(KCube(F, KCube(F, Q.x)), KOne(F)), KNeg(KCube(F, KCube(F, Q.y))))
  {
    hide KCube, KScale, KAdd, KOne;
  }

  // x^3 - x + 1 = 0 makes x^9 - 1 equal to x.
  lemma {:induction false} RootMoves(F: Field, x: Poly)
    requires Good(F) && InK(F, x) && (|x| == F.m > 0 ==> KMul(F, KZero(F), KZero(F)) == KAdd(KSub(KCube(F, x), x), KOne(F)))
    ensures |x| == F.m > 0 && KSub(KCube(F, KCube(F, x)), KOne(F)) == x
  {
    hide InK, KMul, KAdd, KSub, KScale, KOne, KZero, KCube;
    KUnits(F, x);
    CubicIn(F, x);
    KUnits(F, KZero(F));
    var c := KCube(F, x);
    CubicIn(F, c);
    TernaryFrobenius.CubeIs(F, x);
    TernaryFrobenius.CubeIs(F, c);
    TernaryFrobenius.CubeIs(F, KZero(F));
    CubeOfZero(F);
    CubeOfCubic(F, x, c);
    EtaPairing.KClosed(F, KCube(F, c), c);
    var d := KCube(F, c);
    HoldsInField(F, Dif(Var(2), One), Sum(Sum(Sum(Dif(Var(2), Var(1)), One), Sum(Dif(Var(1), Var(0)), One)), Var(0)), Times(-1, One), [x, c, d]);
    ZeroParts(F, x);
  }

  // The slope of the tangent at Q is the inverse of its ordinate.
  lemma {:induction false} DoubleParts(F: Field, Q: Point, D: Point) returns (l: Poly)
    requires IsField(F) && OnCurve(F, Q) && Q.Affine? && OnCurve(F, D) && IsSum(F, Q, Q, D) && Q.y != KNeg(Q.y)
    requires F.m > 0 ==> Q.y != KZero(F)
    ensures |Q.x| == |Q.y| == |l| == F.m > 0 && InK(F, l) && KMul(F, l, Q.y) == KOne(F) && D.Affine? && |D.x| == |D.y| == F.m
    ensures D.x == KSub(KMul(F, l, l), KAdd(Q.x, Q.x)) && D.y == KNeg(KAdd(Q.y, KMul(F, l, KSub(D.x, Q.x)))) && D.x != Q.x
  {
    hide *;
    IsGood(F);
    OnCurveParts(F, Q);
    OppositeIs(Q);
    l := SlopeOf(F, Q, Q, D);
    SlopeMeans(F, Q, Q, l, D);
    NoThreeTorsion(F, l, Q.x, Q.y);
  }

  lemma OppositeIs(Q: Point)
    requires Q.Affine?
    ensures Opposite(Q) == Affine(Q.x, KNeg(Q.y))
  {
    hide KScale;
  }

  lemma SlopeMeans(F: Field, P: Point, Q: Point, l: Poly, S: Point)
    requires P.Affine? && Q.Affine? && |P.x| == |P.y| == |Q.x| == |Q.y| == |l| == F.m > 0 && IsSlope(F, P, Q, l) && IsThird(F, P, Q, l, S)
    ensures P.x != Q.x ==> KMul(F, l, KSub(Q.x, P.x)) == KSub(Q.y, P.y)
    ensures P.x == Q.x ==> KMul(F, l, P.y) == KOne(F)
    ensures S.Affine? && |S.x| == |S.y| == F.m && S.x == KSub(KMul(F, l, l), KAdd(P.x, Q.x)) && S.y == KNeg(KAdd(P.y, KMul(F, l, KSub(S.x, P.x))))
  {
    hide KMul, KAdd, KScale, KOne;
  }

  lemma {:induction false} NoThreeTorsion(F: Field, l: Poly, x: Poly, y: Poly)
    requires IsField(F) && InK(F, l) && InK(F, x) && InK(F, y) && (|l| == |x| == |y| == F.m > 0 ==> KMul(F, l, y) == KOne(F))
    ensures |l| == |x| == |y| == F.m > 0 && KSub(KMul(F, l, l), KAdd(x, x)) != x
  {
    hide IsField, InK, KMul, KAdd, KSub, KScale, KOne, KZero;
    IsGood(F);
    KUnits(F, x);
    KUnits(F, y);
    EtaPairing.KClosed(F, l, l);
    EtaPairing.KClosed(F, x, x);
    OneNotZero(F);
    if KSub(KMul(F, l, l), KAdd(x, x)) == x {
      EtaPairing.KClosed(F, KMul(F, l, l), KAdd(x, x));
      HoldsInField(F, Prod(Var(0), Var(0)), Dif(Dif(Prod(Var(0), Var(0)), Sum(Var(1), Var(1))), Var(1)), Var(1), [l, x]);
      if l != KZero(F) { ProductNonzero(F, l, l); }
    }
  }

  // The chord from D to Q.
  lemma {:induction false} TripleSlope(F: Field, x: Poly, y: Poly, l: Poly)
    requires Good(F) && InK(F, x) && InK(F, y) && InK(F, l) && (|y| == |l| == F.m > 0 ==> KMul(F, l, y) == KOne(F))
    ensures |x| == |y| == |l| == F.m > 0
    ensures var q := KMul(F, l, l);
            var dx := KSub(q, KAdd(x, x));
            var dy := KNeg(KAdd(y, KMul(F, l, KSub(dx, x))));
            KMul(F, KSub(KCube(F, y), l), KSub(x, dx)) == KSub(y, dy)
  {
    hide *;
    KUnits(F, y);
    CubicIn(F, y);
    InverseCancels(F, y, l);
    SlopeTimes(F, x, l, KCube(F, y));
    SlopeRise(F, x, l, y);
  }

  // (u - l)(x - (l^2 - 2x)) = l^3 - u*l^2
  lemma {:induction false} SlopeTimes(F: Field, x: Poly, l: Poly, u: Poly)
    requires Good(F) && InK(F, x) && InK(F, l) && InK(F, u)
    ensures |x| == |l| == |u| == F.m > 0
    ensures KMul(F, KSub(u, l), KSub(x, KSub(KMul(F, l, l), KAdd(x, x)))) == KSub(KMul(F, l, KMul(F, l, l)), KMul(F, u, KMul(F, l, l)))
  {
    hide InK, KMul, KAdd, KSub, KScale, KOne, KZero;
    HoldsInField(F, Prod(Dif(Var(2), Var(1)), Dif(Var(0), Dif(Prod(Var(1), Var(1)), Sum(Var(0), Var(0))))),
      Dif(Prod(Var(1), Prod(Var(1), Var(1))), Prod(Var(2), Prod(Var(1), Var(1)))), Prod(Dif(Var(2), Var(1)), Var(0)), [x, l, u]);
  }

  lemma {:induction false} SlopeRise(F: Field, x: Poly, l: Poly, y: Poly)
    requires Good(F) && InK(F, x) && InK(F, l) && InK(F, y)
    ensures |x| == |l| == |y| == F.m > 0
    ensures KSub(y, KNeg(KAdd(y, KMul(F, l, KSub(KSub(KMul(F, l, l), KAdd(x, x)), x))))) == KSub(KMul(F, l, KMul(F, l, l)), y)
  {
    hide InK, KMul, KAdd, KSub, KScale, KOne, KZero;
    HoldsInField(F, Dif(Var(2), Times(-1, Sum(Var(2), Prod(Var(1), Dif(Dif(Prod(Var(1), Var(1)), Sum(Var(0), Var(0))), Var(0)))))),
      Dif(Prod(Var(1), Prod(Var(1), Var(1))), Var(2)), Dif(Var(2), Prod(Var(1), Var(0))), [x, l, y]);
  }

  // With l*y = 1: y^3*l^2 = y, y^3*l = y^2 and y^2*l = y.
  lemma {:induction false} InverseCancels(F: Field, y: Poly, l: Poly)
    requires Good(F) && InK(F, y) && InK(F, l) && (|y| == |l| == F.m > 0 ==> KMul(F, l, y) == KOne(F))
    ensures |y| == |l| == F.m > 0
    ensures var s, y3 := KMul(F, y, y), KCube(F, y);
            KMul(F, y3, KMul(F, l, l)) == y && KMul(F, y3, l) == s && KMul(F, s, l) == y
  {
    hide InK, KMul, KAdd, KSub, KScale, KOne, KZero, KCube;
    KUnits(F, y);
    TernaryFrobenius.CubeIs(F, y);
    CubicIn(F, y);
    EtaPairing.KClosed(F, y, y);
    EtaPairing.KClosed(F, l, l);
    var s, y3 := KMul(F, y, y), KCube(F, y);
    KCommutes(F, l, y);
    KMulAssociates(F, y, y, l);
    KCommutes(F, y, KOne(F));
    KMulAssociates(F, y, s, l);
    KMulAssociates(F, y3, l, l);
  }

  // With y^2 = w - x + 1 and w = x^3 its abscissa is x^9 - 1.
  lemma {:induction false} TripleAbscissa(F: Field, x: Poly, y: Poly, l: Poly)
    requires Good(F) && OnCurve(F, Affine(x, y)) && InK(F, l) && (|y| == |l| == F.m > 0 ==> KMul(F, l, y) == KOne(F))
    ensures |x| == |y| == |l| == F.m > 0
    ensures var k := KSub(KCube(F, y), l);
            var s, t := KMul(F, y, y), KSub(KMul(F, k, k), KAdd(KSub(KMul(F, l, l), KAdd(x, x)), x));
            t == KSub(KCube(F, KCube(F, x)), KOne(F)) && KSub(t, x) == KAdd(KMul(F, KCube(F, y), KCube(F, y)), s)
  {
    hide *;
    OnCurveParts(F, Affine(x, y));
    CubicIs(F, x);
    KUnits(F, y);
    CubicIn(F, x);
    CubicIn(F, y);
    TernaryFrobenius.CubeIs(F, y);
    TernaryFrobenius.CubeIs(F, x);
    TernaryFrobenius.CubeIs(F, KCube(F, x));
    InverseCancels(F, y, l);
    EtaPairing.KClosed(F, y, y);
    EtaPairing.KClosed(F, l, l);
    var s, y3, w := KMul(F, y, y), KCube(F, y), KCube(F, x);
    EtaPairing.KClosed(F, y3, y3);
    CubicIn(F, w);
    AbscissaSums(F, x, l, y3, s, KMul(F, y3, y3), w, KCube(F, w));
    CubeOfSquare(F, y);
    CubeOfCubic(F, x, w);
  }

  lemma {:induction false} AbscissaSums(F: Field, x: Poly, l: Poly, y3: Poly, s: Poly, y6: Poly, w: Poly, w3: Poly)
    requires Good(F) && InK(F, x) && InK(F, l) && InK(F, y3) && InK(F, s) && InK(F, y6) && InK(F, w) && InK(F, w3)
    requires |x| == |l| == |y3| == |s| == |y6| == |w| == |w3| == F.m > 0 ==> KMul(F, y3, l) == s && KMul(F, y3, y3) == y6
    ensures |x| == |l| == |y3| == |s| == |y6| == |w| == |w3| == F.m > 0
    ensures var k := KSub(y3, l);
            var t := KSub(KMul(F, k, k), KAdd(KSub(KMul(F, l, l), KAdd(x, x)), x));
            t == KAdd(KAdd(y6, s), x) && KSub(t, x) == KAdd(y6, s)
    ensures KAdd(KAdd(KAdd(KSub(w3, w), KOne(F)), KAdd(KSub(w, x), KOne(F))), x) == KSub(w3, KOne(F))
  {
    hide *;
    KUnits(F, w);
    AbscissaSquare(F, x, l, y3);
    AbscissaLess(F, x, y6, s);
    AbscissaPower(F, x, w, w3);
  }

  lemma {:induction false} AbscissaSquare(F: Field, x: Poly, l: Poly, y3: Poly)
    requires Good(F) && InK(F, x) && InK(F, l) && InK(F, y3)
    ensures |x| == |l| == |y3| == F.m > 0
    ensures var k := KSub(y3, l);
            KSub(KMul(F, k, k), KAdd(KSub(KMul(F, l, l), KAdd(x, x)), x)) == KAdd(KAdd(KMul(F, y3, y3), KMul(F, y3, l)), x)
  {
    hide InK, KMul, KAdd, KSub, KScale, KOne, KZero;
    HoldsInField(F, Dif(Prod(Dif(Var(2), Var(1)), Dif(Var(2), Var(1))), Sum(Dif(Prod(Var(1), Var(1)), Sum(Var(0), Var(0))), Var(0))),
      Sum(Sum(Prod(Var(2), Var(2)), Prod(Var(2), Var(1))), Var(0)), Times(-1, Prod(Var(2), Var(1))), [x, l, y3]);
  }

  lemma {:induction false} AbscissaLess(F: Field, x: Poly, y6: Poly, s: Poly)
    requires Good(F) && InK(F, x) && InK(F, y6) && InK(F, s)
    ensures |x| == |y6| == |s| == F.m > 0 && KSub(KAdd(KAdd(y6, s), x), x) == KAdd(y6, s)
  {
    hide InK, KMul, KAdd, KSub, KScale, KOne, KZero;
    HoldsInField(F, Dif(Sum(Sum(Var(1), Var(2)), Var(0)), Var(0)), Sum(Var(1), Var(2)), Null, [x, y6, s]);
  }

  lemma {:induction false} AbscissaPower(F: Field, x: Poly, w: Poly, w3: Poly)
    requires Good(F) && InK(F, x) && InK(F, w) && InK(F, w3)
    ensures |x| == |w| == |w3| == F.m > 0 && KAdd(KAdd(KAdd(KSub(w3, w), KOne(F)), KAdd(KSub(w, x), KOne(F))), x) == KSub(w3, KOne(F))
  {
    hide InK, KMul, KAdd, KSub, KScale, KOne, KZero;
    HoldsInField(F, Sum(Sum(Sum(Dif(Var(2), Var(1)), One), Sum(Dif(Var(1), Var(0)), One)), Var(0)), Dif(Var(2), One), One, [x, w, w3]);
  }

  // (y^3 - l)(y^6 + y^2) = y^9 - y
  lemma {:induction false} TripleOrdinate(F: Field, y: Poly, l: Poly)
    requires Good(F) && InK(F, y) && InK(F, l) && (|y| == |l| == F.m > 0 ==> KMul(F, l, y) == KOne(F))
    ensures |y| == |l| == F.m > 0
    ensures var s, y3 := KMul(F, y, y), KCube(F, y);
            KAdd(y, KMul(F, KSub(y3, l), KAdd(KMul(F, y3, y3), s))) == KCube(F, y3)
  {
    hide InK, KMul, KAdd, KSub, KScale, KOne, KZero, KCube;
    KUnits(F, y);
    CubicIn(F, y);
    InverseCancels(F, y, l);
    EtaPairing.KClosed(F, y, y);
    var s, y3 := KMul(F, y, y), KCube(F, y);
    CubicIn(F, y3);
    TernaryFrobenius.CubeIs(F, y3);
    EtaPairing.KClosed(F, y3, s);
    EtaPairing.KClosed(F, y3, y3);
    KMulAssociates(F, y3, y3, l);
    HoldsInField(F, Prod(Dif(Var(0), Var(1)), Sum(Prod(Var(0), Var(0)), Var(2))),
      Dif(Sum(Prod(Var(0), Prod(Var(0), Var(0))), Prod(Var(0), Var(2))), Sum(Prod(Prod(Var(0), Var(0)), Var(1)), Prod(Var(2), Var(1)))), Null, [y3, l, s]);
    HoldsInField(F, Sum(Var(0), Dif(Sum(Var(1), Var(2)), Sum(Var(2), Var(0)))), Var(1), Null, [y, KCube(F, y3), KMul(F, y3, s)]);
  }

  lemma {:induction false} TripleParts(F: Field, Q: Point, D: Point, T: Point, l: Poly)
    requires IsField(F) && OnCurve(F, Q) && Q.Affine? && OnCurve(F, D) && D.Affine? && IsSum(F, D, Q, T)
    requires |Q.x| == |Q.y| == |l| == F.m > 0 && InK(F, l) && KMul(F, l, Q.y) == KOne(F) && |D.x| == |D.y| == F.m
    requires D.x == KSub(KMul(F, l, l), KAdd(Q.x, Q.x)) && D.y == KNeg(KAdd(Q.y, KMul(F, l, KSub(D.x, Q.x)))) && D.x != Q.x
    ensures T == Triple(F, Q)
  {
    hide *;
    IsGood(F);
    OnCurveParts(F, Q);
    OnCurveParts(F, D);
    AffineIs(Q);
    OppositeIs(Q);
    CubicIn(F, Q.y);
    EtaPairing.KClosed(F, KCube(F, Q.y), l);
    var k := KSub(KCube(F, Q.y), l);
    TripleSlope(F, Q.x, Q.y, l);
    SlopeIntro(F, D, Q, k);
    var j := SlopeOf(F, D, Q, T);
    SlopeUnique(F, D, Q, j, k);
    SlopeMeans(F, D, Q, k, T);
    TripleAbscissa(F, Q.x, Q.y, l);
    SameLineOf(F, D, Q, k, T.x);
    TripleOrdinate(F, Q.y, l);
    TripleIs(F, Q);
  }

  lemma AffineIs(Q: Point)
    requires Q.Affine?
    ensures Q == Affine(Q.x, Q.y)
  {
  }

  lemma SlopeIntro(F: Field, P: Point, Q: Point, l: Poly)
    requires P.Affine? && Q.Affine? && |P.x| == |P.y| == |Q.x| == |Q.y| == |l| == F.m > 0 && P.x != Q.x
    requires KMul(F, l, KSub(Q.x, P.x)) == KSub(Q.y, P.y)
    ensures IsSlope(F, P, Q, l)
  {
    hide KMul, KAdd, KScale;
  }

  lemma {:induction false} SameLineOf(F: Field, D: Point, Q: Point, k: Poly, x: Poly)
    requires Good(F) && D.Affine? && Q.Affine? && InK(F, D.x) && InK(F, D.y) && InK(F, Q.x) && InK(F, Q.y) && InK(F, k)
    requires |D.x| == |D.y| == |Q.x| == |Q.y| == |k| == |x| == F.m > 0 && KMul(F, k, KSub(Q.x, D.x)) == KSub(Q.y, D.y)
    requires x == KSub(KMul(F, k, k), KAdd(D.x, Q.x))
    ensures KAdd(D.y, KMul(F, k, KSub(x, D.x))) == KAdd(Q.y, KMul(F, k, KSub(x, Q.x)))
  {
    hide *;
    EtaPairing.KClosed(F, k, k);
    EtaPairing.KClosed(F, D.x, Q.x);
    EtaPairing.KClosed(F, KMul(F, k, k), KAdd(D.x, Q.x));
    SameLine(F, D.x, D.y, Q.x, Q.y, k, x);
  }

  // ---------------------------------------------------------------- the loop

  // The first point with the sign of its ordinate that the group order asks for.
  function Signed(F: Field, P: Point): (r: Point)
    requires P.Affine? && |P.y| == F.m
    ensures r.Affine? && r.x == P.x && |r.y| == |P.y|
  {
    Affine(P.x, StartYp(F, P.y))
  }

  lemma {:induction false} SignedByOrder(F: Field, P: Point)
    requires P.Affine? && |P.y| == F.m
    ensures Signed(F, P) == if GroupOrder(F.m) > Pow(3, F.m) + 1 then Opposite(P) else P
  {
    hide Pow, KScale;
    PowPositive(3, (F.m + 1) / 2);
  }

  // The point at which round i evaluates: 3^i times the cubed second point.
  function Tripled(F: Field, Q: Point, i: nat): (T: Point)
    requires Q.Affine? && |Q.x| == |Q.y| == F.m > 0
    ensures T.Affine? && |T.x| == |T.y| == F.m
  {
    if i == 0 then Affine(KCube(F, Q.x), KCube(F, Q.y)) else Triple(F, Tripled(F, Q, i - 1))
  }

  // The line through P' = (x, y) and (x - 1, -y) at psi of the cubed second point, negated for two residues of m.
  function FirstLine(F: Field, P: Point, Q: Point): (r: K6)
    requires P.Affine? && Q.Affine? && |P.x| == |P.y| == |Q.x| == |Q.y| == F.m > 0
    ensures Sized6(F, r)
  {
    var T := Tripled(F, Q, 0);
    var v := LineValue(F, P.x, P.y, PsiX(F, T.x), PsiY(F, T.y));
    if F.m % 12 == 7 || F.m % 12 == 11 then Neg6(F, v) else v
  }

  function ConicAt(F: Field, P: Point, T: Point): (r: K6)
    requires P.Affine? && T.Affine? && |P.x| == |P.y| == |T.x| == |T.y| == F.m > 0
    ensures Sized6(F, r)
  {
    ConicValue(F, P.x, P.y, PsiX(F, T.x), PsiY(F, T.y))
  }

  // What both loops start with.
  lemma {:induction false} StartMeans(F: Field, P: Point, Q: Point)
    requires Good(F) && P.Affine? && Q.Affine? && InK(F, P.x) && InK(F, P.y) && InK(F, Q.x) && InK(F, Q.y)
    ensures |P.x| == |P.y| == |Q.x| == |Q.y| == F.m > 0
    ensures var s, T, P' := Start(F, P.x, P.y, Q.x, Q.y), Tripled(F, Q, 0), Signed(F, P);
            T == Affine(s.xq, s.yq) && s.R == Gf33mMult(F, FirstLine(F, P', Q), ConicAt(F, P', T))
  {
    hide *;
    KUnits(F, P.x);
    KUnits(F, Q.x);
    KUnits(F, Q.y);
    SignedParts(F, P);
    CubicIn(F, Q.x);
    CubicIn(F, Q.y);
    TripledIs(F, Q, 0);
    var a, b, x, y := P.x, Signed(F, P).y, KCube(F, Q.x), KCube(F, Q.y);
    LineAtPsi(F, a, b, x, y);
    ConicAtPsi(F, a, b, x, y);
    EtaPairing.KClosed(F, a, KOne(F));
    EtaPairing.KClosed(F, KAdd(a, KOne(F)), x);
    EtaPairing.KClosed(F, b, KAdd(KAdd(a, KOne(F)), x));
    NegatedLine(F, KMul(F, b, KAdd(KAdd(a, KOne(F)), x)), y, b);
    FirstLineIs(F, Signed(F, P), Q);
    ConicAtIs(F, Signed(F, P), Tripled(F, Q, 0));
    FirstFactorIs(F, b, KAdd(KAdd(a, KOne(F)), x), y);
    StartIs(F, P.x, P.y, Q.x, Q.y);
  }

  lemma {:induction false} SignedParts(F: Field, P: Point)
    requires Good(F) && P.Affine? && InK(F, P.x) && InK(F, P.y)
    ensures |P.x| == |P.y| == F.m > 0 && InK(F, Signed(F, P).y) && Signed(F, P).y == StartYp(F, P.y)
  {
    hide InK;
    EtaPairing.KClosed(F, P.y, P.x);
  }

  lemma TripledIs(F: Field, Q: Point, i: nat)
    requires Q.Affine? && |Q.x| == |Q.y| == F.m > 0
    ensures Tripled(F, Q, 0) == Affine(KCube(F, Q.x), KCube(F, Q.y)) && Tripled(F, Q, i + 1) == Triple(F, Tripled(F, Q, i))
  {
    hide KCube, Triple;
  }

  lemma FirstLineIs(F: Field, P: Point, Q: Point)
    requires P.Affine? && Q.Affine? && |P.x| == |P.y| == |Q.x| == |Q.y| == F.m > 0
    ensures var T := Tripled(F, Q, 0);
            var v := LineValue(F, P.x, P.y, PsiX(F, T.x), PsiY(F, T.y));
            FirstLine(F, P, Q) == if F.m % 12 == 7 || F.m % 12 == 11 then Neg6(F, v) else v
  {
    hide LineValue, Neg6, PsiX, PsiY, Tripled;
  }

  lemma ConicAtIs(F: Field, P: Point, T: Point)
    requires P.Affine? && T.Affine? && |P.x| == |P.y| == |T.x| == |T.y| == F.m > 0
    ensures ConicAt(F, P, T) == ConicValue(F, P.x, P.y, PsiX(F, T.x), PsiY(F, T.y))
  {
    hide ConicValue, PsiX, PsiY;
  }

  // The negative of -u + y*s + b*p.
  lemma {:induction false} NegatedLine(F: Field, u: Poly, y: Poly, b: Poly)
    requires Good(F) && InK(F, u) && InK(F, y) && InK(F, b)
    ensures |u| == |y| == |b| == F.m > 0
    ensures Element(F, KNeg(u), y, b) == K6(K2(KNeg(u), y), K2(b, KZero(F)), K2(KZero(F), KZero(F)))
    ensures Neg6(F, Element(F, KNeg(u), y, b)) == K6(K2(u, KNeg(y)), K2(KNeg(b), KZero(F)), K2(KZero(F), KZero(F)))
  {
    hide InK, KScale, KZero, KAdd;
    ZeroParts(F, u);
    ZeroParts(F, y);
    ZeroParts(F, b);
    EtaPairing.KClosed(F, u, u);
    ElementsAdd(F, y, y, y, KNeg(u), y, b);
  }

  function FirstFactor(F: Field, y: Poly, t: Poly, yq: Poly): (r: K6)
    requires |y| == |t| == |yq| == F.m > 0
    ensures Sized6(F, r)
  {
    if F.m % 12 == 7 || F.m % 12 == 11 then K6(K2(KMul(F, y, t), KNeg(yq)), K2(KNeg(y), KZero(F)), K2(KZero(F), KZero(F)))
    else K6(K2(KNeg(KMul(F, y, t)), yq), K2(y, KZero(F)), K2(KZero(F), KZero(F)))
  }

  lemma {:induction false} FirstFactorIs(F: Field, y: Poly, t: Poly, yq: Poly)
    requires |y| == |t| == |yq| == F.m > 0
    ensures FirstFactor(F, y, t, yq) ==
      if F.m % 12 == 7 || F.m % 12 == 11 then K6(K2(KMul(F, y, t), KNeg(yq)), K2(KNeg(y), KZero(F)), K2(KZero(F), KZero(F)))
      else K6(K2(KNeg(KMul(F, y, t)), yq), K2(y, KZero(F)), K2(KZero(F), KZero(F)))
  {
    hide KMul, KScale, KZero;
  }

  lemma {:induction false} StartIs(F: Field, xp: Poly, yp: Poly, xq0: Poly, yq0: Poly)
    requires |xp| == |yp| == |xq0| == |yq0| == F.m > 0
    ensures var y, xq, yq := StartYp(F, yp), KCube(F, xq0), KCube(F, yq0);
            var t := KAdd(KAdd(xp, KOne(F)), xq);
            Start(F, xp, yp, xq0, yq0) == State(Gf33mMult(F, FirstFactor(F, y, t, yq), Tangent(F, t, KMul(F, y, yq))), xq, yq)
  {
    hide Gf33mMult, Tangent, KMul, KCube, KAdd, KScale, KOne, KZero;
  }

  // One round triples the point and multiplies the cube by the conic there.
  lemma {:induction false} RoundMeans(F: Field, P: Point, s: State)
    requires Good(F) && P.Affine? && InK(F, P.x) && InK(F, P.y) && InField(F, s)
    ensures |P.x| == |P.y| == F.m > 0 && SizedState(F, s)
    ensures var r := Step4(F, StartXp(F, P.x), P.y, s);
            && Affine(r.xq, r.yq) == Triple(F, Affine(s.xq, s.yq)) && InField(F, r)
            && r.R == Gf33mMult(F, Gf33mCubic(F, s.R), ConicAt(F, P, Affine(r.xq, r.yq)))
  {
    hide *;
    KUnits(F, P.x);
    KUnits(F, P.y);
    EtaPairing.KClosed(F, P.x, KOne(F));
    var a := KAdd(P.x, KOne(F));
    StateSizes(F, a, P.y, s);
    EtaPairing.KClosed(F, s.xq, s.yq);
    EtaPairing.KClosed(F, s.yq, s.xq);
    EtaPairing.KClosed(F, Ninth(F, s.xq), KOne(F));
    EtaPairing.KClosed(F, Ninth(F, s.yq), KOne(F));
    StepIs(F, P.x, P.y, s);
    var x, y := KSub(Ninth(F, s.xq), KOne(F)), KNeg(Ninth(F, s.yq));
    ConicAtPsi(F, P.x, P.y, x, y);
    ConicAtIs(F, P, Affine(x, y));
    TripleMeans(F, Affine(s.xq, s.yq));
    EtaPairing.KClosed(F, a, x);
    EtaPairing.KClosed(F, P.y, y);
    RepTangent(F, KAdd(a, x), KMul(F, P.y, y));
    CubicMultiplies(F, s.R, s.R);
    CubicMultiplies(F, Gf33mCubic(F, s.R), Tangent(F, KAdd(a, x), KMul(F, P.y, y)));
    InFieldIs(F, Step4(F, StartXp(F, P.x), P.y, s));
  }

  lemma InFieldIs(F: Field, s: State)
    requires InK6(F, s.R) && InK(F, s.xq) && InK(F, s.yq)
    ensures InField(F, s)
  {
  }

  lemma TripleMeans(F: Field, Q: Point)
    requires Q.Affine? && |Q.x| == |Q.y| == F.m > 0
    ensures Triple(F, Q) == Affine(KSub(Ninth(F, Q.x), KOne(F)), KNeg(Ninth(F, Q.y)))
  {
    hide Ninth, KAdd, KScale, KOne;
  }

  lemma StepIs(F: Field, a: Poly, b: Poly, s: State)
    requires |a| == |b| == F.m > 0 && SizedState(F, s)
    ensures var x, y := KSub(Ninth(F, s.xq), KOne(F)), KNeg(Ninth(F, s.yq));
            StartXp(F, a) == KAdd(a, KOne(F)) && Step4(F, StartXp(F, a), b, s) ==
              State(Gf33mMult(F, Gf33mCubic(F, s.R), Tangent(F, KAdd(KAdd(a, KOne(F)), x), KMul(F, b, y))), x, y)
  {
    hide Gf33mMult, Gf33mCubic, Tangent, KMul, KAdd, KScale, KOne, Ninth;
  }

  function ThreeTo(k: nat): (n: nat)
    ensures n > 0 && n == Pow(3, k)
  {
    PowPositive(3, k);
    Pow(3, k)
  }

  // The conic of round i to the power 3^(n-i).
  function ConicPower(F: Field, P: Point, Q: Point, n: nat, i: nat): (r: K6)
    requires P.Affine? && Q.Affine? && |P.x| == |P.y| == |Q.x| == |Q.y| == F.m > 0 && i <= n
    ensures Sized6(F, r)
  {
    Pow6(F, ConicAt(F, P, Tripled(F, Q, i)), ThreeTo(n - i))
  }

  lemma ConicPowerIs(F: Field, P: Point, Q: Point, n: nat, i: nat)
    requires P.Affine? && Q.Affine? && |P.x| == |P.y| == |Q.x| == |Q.y| == F.m > 0 && i <= n
    ensures ConicPower(F, P, Q, n, i) == Pow6(F, ConicAt(F, P, Tripled(F, Q, i)), ThreeTo(n - i))
  {
    hide Pow6, ConicAt, Tripled, ThreeTo;
  }

  // The conics of the first j rounds, each cubed once for every later round up to n.
  function Conics(F: Field, P: Point, Q: Point, n: nat, j: nat): (r: K6)
    requires P.Affine? && Q.Affine? && |P.x| == |P.y| == |Q.x| == |Q.y| == F.m > 0 && j <= n + 1
    ensures Sized6(F, r)
  {
    if j == 0 then One6(F)
    else Gf33mMult(F, Conics(F, P, Q, n, j - 1), ConicPower(F, P, Q, n, j - 1))
  }

  lemma {:induction false} ConicsUnfold(F: Field, P: Point, Q: Point, n: nat, j: nat)
    requires P.Affine? && Q.Affine? && |P.x| == |P.y| == |Q.x| == |Q.y| == F.m > 0 && j <= n + 1
    ensures j == 0 ==> Conics(F, P, Q, n, j) == One6(F)
    ensures j > 0 ==> Conics(F, P, Q, n, j) == Gf33mMult(F, Conics(F, P, Q, n, j - 1), ConicPower(F, P, Q, n, j - 1))
  {
    hide Gf33mMult, ConicPower, One6;
  }

  lemma {:induction false} ConicIn(F: Field, P: Point, Q: Point, i: nat)
    requires Good(F) && P.Affine? && Q.Affine? && InK(F, P.x) && InK(F, P.y) && InK(F, Q.x) && InK(F, Q.y)
    ensures |P.x| == |P.y| == |Q.x| == |Q.y| == F.m > 0
    ensures InK(F, Tripled(F, Q, i).x) && InK(F, Tripled(F, Q, i).y) && InK6(F, ConicAt(F, P, Tripled(F, Q, i)))
  {
    hide *;
    KUnits(F, P.x);
    KUnits(F, Q.x);
    KUnits(F, P.y);
    KUnits(F, Q.y);
    var T := Tripled(F, Q, i);
    if i == 0 {
      TripledIs(F, Q, 0);
      CubicIn(F, Q.x);
      CubicIn(F, Q.y);
    } else {
      ConicIn(F, P, Q, i - 1);
      TripledIs(F, Q, i - 1);
      var U := Tripled(F, Q, i - 1);
      TripleMeans(F, U);
      EtaPairing.KClosed(F, U.x, U.y);
      EtaPairing.KClosed(F, U.y, U.x);
      EtaPairing.KClosed(F, Ninth(F, U.x), KOne(F));
      EtaPairing.KClosed(F, Ninth(F, U.y), KOne(F));
    }
    ConicAtIs(F, P, T);
    ConicAtPsi(F, P.x, P.y, T.x, T.y);
    EtaPairing.KClosed(F, P.x, KOne(F));
    EtaPairing.KClosed(F, KAdd(P.x, KOne(F)), T.x);
    EtaPairing.KClosed(F, P.y, T.y);
    RepTangent(F, KAdd(KAdd(P.x, KOne(F)), T.x), KMul(F, P.y, T.y));
  }

  lemma {:induction false} ConicsIn(F: Field, P: Point, Q: Point, n: nat, j: nat)
    requires Good(F) && P.Affine? && Q.Affine? && InK(F, P.x) && InK(F, P.y) && InK(F, Q.x) && InK(F, Q.y) && j <= n + 1
    ensures |P.x| == |P.y| == |Q.x| == |Q.y| == F.m > 0 && InK6(F, Conics(F, P, Q, n, j))
  {
    hide *;
    ConicIn(F, P, Q, if j == 0 then 0 else j - 1);
    ConicsUnfold(F, P, Q, n, j);
    RepOne6(F);
    if j > 0 {
      ConicsIn(F, P, Q, n, j - 1);
      var c := ConicAt(F, P, Tripled(F, Q, j - 1));
      ConicPowerIs(F, P, Q, n, j - 1);
      Pow6In(F, c, ThreeTo(n + 1 - j));
      CubicMultiplies(F, Conics(F, P, Q, n, j - 1), Pow6(F, c, ThreeTo(n + 1 - j)));
    }
  }

  // Cubing multiplies the exponent by three.
  lemma {:induction false} CubicOfPower(F: Field, a: K6, k: nat)
    requires Good(F) && InK6(F, a)
    ensures Sized6(F, a) && Gf33mCubic(F, Pow6(F, a, k)) == Pow6(F, a, 3 * k)
  {
    hide *;
    Pow6In(F, a, k);
    CubicIsCube(F, Pow6(F, a, k));
    Pow6Sum(F, a, k, k);
    Pow6Sum(F, a, k, k + k);
  }

  lemma {:induction false} ConicsCube(F: Field, P: Point, Q: Point, n: nat, j: nat)
    requires Good(F) && P.Affine? && Q.Affine? && InK(F, P.x) && InK(F, P.y) && InK(F, Q.x) && InK(F, Q.y) && j <= n + 1
    ensures |P.x| == |P.y| == |Q.x| == |Q.y| == F.m > 0
    ensures Gf33mCubic(F, Conics(F, P, Q, n, j)) == Conics(F, P, Q, n + 1, j)
  {
    hide *;
    ConicIn(F, P, Q, if j == 0 then 0 else j - 1);
    ConicsUnfold(F, P, Q, n, j);
    ConicsUnfold(F, P, Q, n + 1, j);
    if j == 0 {
      RepOne6(F);
      CubicIsCube(F, One6(F));
      OneTimes(F, One6(F));
    } else {
      ConicsCube(F, P, Q, n, j - 1);
      ConicsIn(F, P, Q, n, j - 1);
      var c := ConicAt(F, P, Tripled(F, Q, j - 1));
      ConicPowerIs(F, P, Q, n, j - 1);
      ConicPowerIs(F, P, Q, n + 1, j - 1);
      CubicOfPower(F, c, ThreeTo(n + 1 - j));
      Pow6In(F, c, ThreeTo(n + 1 - j));
      CubicMultiplies(F, Conics(F, P, Q, n, j - 1), Pow6(F, c, ThreeTo(n + 1 - j)));
      ThreeTimes(n + 1 - j);
    }
  }

  lemma ThreeTimes(k: nat)
    ensures ThreeTo(k + 1) == 3 * ThreeTo(k)
  {
  }

  // Main result: n rounds leave the first line to the power 3^n times the conic of every round, cubed once for each
  // later round; the conics are taken at psi of 3^i times the cubed second point.
  lemma {:induction false} LoopIsProduct(F: Field, P: Point, Q: Point, n: nat)
    requires Good(F) && P.Affine? && Q.Affine? && InK(F, P.x) && InK(F, P.y) && InK(F, Q.x) && InK(F, Q.y)
    ensures |P.x| == |P.y| == |Q.x| == |Q.y| == F.m > 0
    ensures var P' := Signed(F, P);
            var s := Iterate4(F, StartXp(F, P.x), StartYp(F, P.y), Start(F, P.x, P.y, Q.x, Q.y), n);
            && Affine(s.xq, s.yq) == Tripled(F, Q, n) && InField(F, s)
            && s.R == Gf33mMult(F, Pow6(F, FirstLine(F, P', Q), ThreeTo(n)), Conics(F, P', Q, n, n + 1))
  {
    hide *;
    StartMeans(F, P, Q);
    SignedParts(F, P);
    StartIn(F, P.x, P.y, Q.x, Q.y);
    var P' := Signed(F, P);
    var first := FirstLine(F, P', Q);
    FirstLineIn(F, P', Q);
    IterateIs(F, P, Q, n);
    if n == 0 {
      ConicIn(F, P', Q, 0);
      ConicsUnfold(F, P', Q, 0, 0);
      ConicsUnfold(F, P', Q, 0, 1);
      ConicPowerIs(F, P', Q, 0, 0);
      PowThreeNone();
      Pow6One(F, first);
      Pow6One(F, ConicAt(F, P', Tripled(F, Q, 0)));
      OneTimes(F, ConicAt(F, P', Tripled(F, Q, 0)));
    } else {
      LoopIsProduct(F, P, Q, n - 1);
      var s := Iterate4(F, StartXp(F, P.x), StartYp(F, P.y), Start(F, P.x, P.y, Q.x, Q.y), n - 1);
      RoundMeans(F, P', s);
      TripledIs(F, Q, n - 1);
      var f, C := Pow6(F, first, ThreeTo(n - 1)), Conics(F, P', Q, n - 1, n);
      Pow6In(F, first, ThreeTo(n - 1));
      ConicsIn(F, P', Q, n - 1, n);
      CubicMultiplies(F, f, C);
      CubicOfPower(F, first, ThreeTo(n - 1));
      ThreeTimes(n - 1);
      ConicsCube(F, P', Q, n - 1, n);
      ConicsIn(F, P', Q, n, n);
      ConicsUnfold(F, P', Q, n, n + 1);
      ConicPowerIs(F, P', Q, n, n);
      ConicIn(F, P', Q, n);
      PowThreeNone();
      var c := ConicAt(F, P', Tripled(F, Q, n));
      Pow6One(F, c);
      Pow6In(F, first, ThreeTo(n));
      MultAssociates(F, Pow6(F, first, ThreeTo(n)), Conics(F, P', Q, n, n), c);
    }
  }

  lemma PowThreeNone()
    ensures ThreeTo(0) == 1
  {
  }

  lemma {:induction false} FirstLineIn(F: Field, P: Point, Q: Point)
    requires Good(F) && P.Affine? && Q.Affine? && InK(F, P.x) && InK(F, P.y) && InK(F, Q.x) && InK(F, Q.y)
    ensures |P.x| == |P.y| == |Q.x| == |Q.y| == F.m > 0 && InK6(F, FirstLine(F, P, Q))
  {
    hide *;
    ConicIn(F, P, Q, 0);
    var T := Tripled(F, Q, 0);
    LineAtPsi(F, P.x, P.y, T.x, T.y);
    KUnits(F, P.x);
    EtaPairing.KClosed(F, P.x, KOne(F));
    EtaPairing.KClosed(F, KAdd(P.x, KOne(F)), T.x);
    var t := KAdd(KAdd(P.x, KOne(F)), T.x);
    EtaPairing.KClosed(F, P.y, t);
    EtaPairing.KClosed(F, KMul(F, P.y, t), t);
    RealTimes(F, P.x, KNeg(KMul(F, P.y, t)), T.y, P.y);
    var e := Element(F, KNeg(KMul(F, P.y, t)), T.y, P.y);
    NegProducts(F, e, e);
    FirstLineIs(F, P, Q);
  }

  lemma IterateIs(F: Field, P: Point, Q: Point, n: nat)
    requires P.Affine? && Q.Affine? && |P.x| == |P.y| == |Q.x| == |Q.y| == F.m > 0
    ensures var x, y, s := StartXp(F, P.x), StartYp(F, P.y), Start(F, P.x, P.y, Q.x, Q.y);
            Iterate4(F, x, y, s, 0) == s && (n > 0 ==> Iterate4(F, x, y, s, n) == Step4(F, x, y, Iterate4(F, x, y, s, n - 1)))
  {
    hide StartXp, StartYp, Start, Step4;
  }

  // ---------------------------------------------------------------- full circle

  // i as an element of the field.
  function Shift(F: Field, i: nat): (r: Poly)
    ensures |r| == F.m
  {
    KScale(i, KOne(F))
  }

  lemma {:induction false} ShiftStep(F: Field, i: nat)
    requires Good(F)
    ensures F.m > 0 && InK(F, Shift(F, i)) && Shift(F, 0) == KZero(F) && Shift(F, i + 1) == KAdd(Shift(F, i), KOne(F))
  {
    var o := KOne(F);
    forall k | 0 <= k < F.m ensures Shift(F, i + 1)[k] == KAdd(Shift(F, i), o)[k] {
      ModMod(i * o[k], 3);
      ModAdd(i * o[k] % 3, i * o[k], o[k], o[k], 3);
      assert (i + 1) * o[k] == i * o[k] + o[k];
    }
    assert Shift(F, 0) == KZero(F);
  }

  lemma {:induction false} CubeOfSums(F: Field, a: Poly, b: Poly)
    requires Good(F) && InK(F, a) && InK(F, b)
    ensures |a| == |b| == F.m > 0
    ensures KCube(F, KSub(a, b)) == KSub(KCube(F, a), KCube(F, b)) && KCube(F, KAdd(a, b)) == KAdd(KCube(F, a), KCube(F, b))
  {
    hide InK, KMul, KAdd, KSub, KScale, KOne, KZero, KCube;
    KUnits(F, a);
    EtaPairing.KClosed(F, a, b);
    TernaryFrobenius.CubeIs(F, a);
    TernaryFrobenius.CubeIs(F, b);
    TernaryFrobenius.CubeIs(F, KSub(a, b));
    TernaryFrobenius.CubeIs(F, KAdd(a, b));
    var ca, cb := Prod(Var(0), Prod(Var(0), Var(0))), Prod(Var(1), Prod(Var(1), Var(1)));
    var d, t := Dif(Var(0), Var(1)), Sum(Var(0), Var(1));
    HoldsInField(F, Prod(d, Prod(d, d)), Dif(ca, cb), Times(-1, Prod(Prod(Var(0), Var(1)), d)), [a, b]);
    HoldsInField(F, Prod(t, Prod(t, t)), Sum(ca, cb), Prod(Prod(Var(0), Var(1)), t), [a, b]);
  }

  // Integers are their own cubes.
  lemma {:induction false} CubeOfShift(F: Field, i: nat)
    requires Good(F)
    ensures F.m > 0 && InK(F, Shift(F, i)) && KCube(F, Shift(F, i)) == Shift(F, i)
  {
    hide *;
    ShiftStep(F, i);
    if i == 0 {
      CubeOfZero(F);
    } else {
      CubeOfShift(F, i - 1);
      ShiftStep(F, i - 1);
      CubeOfOne(F);
      CubeOfSums(F, Shift(F, i - 1), KOne(F));
    }
  }

  // 3^i times the cubed point: x to the power 3^(2i+1) less i, and y to that power with alternating sign.
  lemma {:induction false} TripledAt(F: Field, Q: Point, i: nat)
    requires Good(F) && Q.Affine? && InK(F, Q.x) && InK(F, Q.y)
    ensures |Q.x| == |Q.y| == F.m > 0
    ensures var x, y := KIterate(F, Q.x, 2 * i + 1), KIterate(F, Q.y, 2 * i + 1);
            InK(F, x) && InK(F, y) && Tripled(F, Q, i) == Affine(KSub(x, Shift(F, i)), if i % 2 == 0 then y else KNeg(y))
  {
    hide *;
    KUnits(F, Q.x);
    KUnits(F, Q.y);
    KIterateStep(F, Q.x, 0);
    KIterateStep(F, Q.y, 0);
    if i == 0 {
      TripledIs(F, Q, 0);
      ShiftStep(F, 0);
      SubZero(F, KIterate(F, Q.x, 1));
    } else {
      TripledAt(F, Q, i - 1);
      var x, y, c := KIterate(F, Q.x, 2 * i - 1), KIterate(F, Q.y, 2 * i - 1), Shift(F, i - 1);
      assert 2 * (i - 1) + 1 == 2 * i - 1;
      KIterateStep(F, Q.x, 2 * i - 1);
      KIterateStep(F, Q.y, 2 * i - 1);
      KIterateStep(F, Q.x, 2 * i);
      KIterateStep(F, Q.y, 2 * i);
      TripledIs(F, Q, i - 1);
      CubeOfShift(F, i - 1);
      CubeOfSums(F, x, c);
      CubicIn(F, x);
      CubeOfSums(F, KCube(F, x), c);
      CubicIn(F, KCube(F, x));
      CubicIn(F, y);
      CubeOfNegative(F, y);
      CubeOfNegative(F, KCube(F, y));
      TripleIs(F, Tripled(F, Q, i - 1));
      CubicIn(F, KCube(F, y));
      ZeroParts(F, KCube(F, KCube(F, y)));
      ShiftStep(F, i - 1);
      KUnits(F, x);
      LessOne(F, KCube(F, KCube(F, x)), c);
    }
  }

  lemma {:induction false} LessOne(F: Field, x: Poly, c: Poly)
    requires Good(F) && InK(F, x) && InK(F, c)
    ensures |x| == |c| == F.m && KSub(KSub(x, c), KOne(F)) == KSub(x, KAdd(c, KOne(F)))
  {
    hide InK, KMul, KAdd, KSub, KScale, KOne, KZero;
    HoldsInField(F, Dif(Dif(Var(0), Var(1)), One), Dif(Var(0), Sum(Var(1), One)), Null, [x, c]);
  }

  lemma {:induction false} KIterateStep(F: Field, a: Poly, k: nat)
    requires Good(F) && InK(F, a)
    ensures |a| == F.m > 0 && InK(F, KIterate(F, a, k)) && InK(F, KIterate(F, a, k + 1))
    ensures KIterate(F, a, 0) == a && KIterate(F, a, k + 1) == KCube(F, KIterate(F, a, k))
  {
    hide KCube;
    if k > 0 { KIterateStep(F, a, k - 1); }
    CubicIn(F, KIterate(F, a, k));
  }

  // After the (m-1)/2 rounds of the loops, m odd, the powers have come full circle: the last conic is taken at the
  // second point itself, shifted by the number of rounds and with alternating sign.
  lemma {:induction false} FullCircleAt(F: Field, Q: Point)
    requires IsField(F) && F.m % 2 == 1 && Q.Affine? && InK(F, Q.x) && InK(F, Q.y)
    ensures |Q.x| == |Q.y| == F.m > 0
    ensures var n := (F.m - 1) / 2; Tripled(F, Q, n) == Affine(KSub(Q.x, Shift(F, n)), if n % 2 == 0 then Q.y else KNeg(Q.y))
  {
    hide *;
    IsGood(F);
    var n := (F.m - 1) / 2;
    TripledAt(F, Q, n);
    assert 2 * n + 1 == F.m;
    FullCircle(F, Q.x);
    FullCircle(F, Q.y);
  }
}
