// The three ways to compute a type A pairing agree: affine, projective, and preprocessed.
module TypeAPairing {
  import opened Arith
  import opened Bits
  import opened Fp
  import opened QuadraticField
  import opened Curve
  import opened Residues
  import opened FinalPower
  import opened MillerLoop

  // The group order is 2^exp2 + sign1*2^exp1 + sign0.
  datatype Params = Params(q: nat, exp1: nat, exp2: nat, sign1: int, cofactor: nat)

  // ---------------------------------------------------------------- what is computed

  lemma {:induction false} AddProper(q: nat, P: Pt, Q: Pt)
    requires IsPrime(q) && q > 2 && Proper(q, P) && Proper(q, Q)
    ensures Proper(q, GroupAdd(q, 1, P, Q))
  {
  }

  // 2^k P
  ghost function Doubled(q: nat, P: Pt, k: nat): (R: Pt)
    requires IsPrime(q) && q > 2 && Proper(q, P)
    ensures Proper(q, R)
  {
    if k == 0 then P
    else
      var R := Doubled(q, P, k - 1);
      AddProper(q, R, R);
      GroupAdd(q, 1, R, R)
  }

  // The first n doublings start from finite points with nonzero ordinate.
  ghost predicate Doubles(q: nat, P: Pt, n: nat)
  {
    && HasI(q) && Proper(q, P) && P.Aff?
    && forall k :: 0 <= k < n ==> HasTangent(q, P, k)
  }

  ghost predicate HasTangent(q: nat, P: Pt, k: nat)
    requires IsPrime(q) && q > 2 && Proper(q, P)
  {
    Doubled(q, P, k).Aff? && Doubled(q, P, k).y != 0
  }

  lemma {:induction false} DoubledIsFinite(q: nat, P: Pt, n: nat)
    requires Doubles(q, P, n)
    ensures Doubled(q, P, n).Aff?
  {
    if n > 0 {
      assert HasTangent(q, P, n - 1);
      DoubleIsThird(q, Doubled(q, P, n - 1));
    }
  }

  ghost function TangentValue(q: nat, P: Pt, Q: Pt, k: nat): (v: Q2)
    requires Doubles(q, P, k + 1) && Q.Aff?
  {
    assert HasTangent(q, P, k);
    var V := Doubled(q, P, k);
    Eval(q, TangentAt(q, V.x, V.y), Q.x, Q.y)
  }

  lemma {:induction false} EvalIn(q: nat, l: Line, Qx: int, Qy: int)
    requires q > 0
    ensures In(q, Eval(q, l, Qx, Qy))
  {
  }

  // The Miller function of 2^n P at Q.
  ghost function Miller(q: nat, P: Pt, Q: Pt, n: nat): Q2
    requires Doubles(q, P, n) && Q.Aff?
  {
    if n == 0 then One
    else
      var f := Miller(q, P, Q, n - 1);
      QMul(q, -1, QMul(q, -1, f, f), TangentValue(q, P, Q, n - 1))
  }

  // Points on which the loop only doubles and never meets infinity.
  ghost predicate Regular(pr: Params, P: Pt, Q: Pt)
  {
    && pr.exp1 <= pr.exp2 && pr.cofactor % 2 == 0
    && Doubles(pr.q, P, pr.exp2) && Q.Aff? && Proper(pr.q, Q)
  }

  lemma RegularMeans(pr: Params, P: Pt, Q: Pt)
    requires Regular(pr, P, Q)
    ensures pr.exp1 <= pr.exp2 && pr.cofactor % 2 == 0 && Doubles(pr.q, P, pr.exp2)
    ensures Q.Aff? && Elem(pr.q, Q.x) && Elem(pr.q, Q.y) && Proper(pr.q, Q)
  {
  }

  lemma {:induction false} FewerDoubles(q: nat, P: Pt, k: nat, n: nat)
    requires Doubles(q, P, n) && k <= n
    ensures Doubles(q, P, k) && HasI(q) && IsPrime(q) && q > 2 && Proper(q, P)
    ensures k < n ==> Doubles(q, P, k + 1) && HasTangent(q, P, k)
  {
  }

  // One step of the loop.
  lemma {:induction false} MillerStep(q: nat, P: Pt, Q: Pt, k: nat)
    requires Doubles(q, P, k + 1) && Q.Aff?
    ensures Doubles(q, P, k) && HasI(q) && IsPrime(q) && q > 2 && Proper(q, P)
    ensures var V := Doubled(q, P, k);
            && V.Aff? && V.y != 0 && Proper(q, V) && Doubled(q, P, k + 1) == GroupAdd(q, 1, V, V)
            && TangentValue(q, P, Q, k) == Eval(q, TangentAt(q, V.x, V.y), Q.x, Q.y) && In(q, TangentValue(q, P, Q, k))
    ensures Miller(q, P, Q, k + 1) == QMul(q, -1, QMul(q, -1, Miller(q, P, Q, k), Miller(q, P, Q, k)), TangentValue(q, P, Q, k))
    ensures Miller(q, P, Q, 0) == One && Doubled(q, P, 0) == P
  {
    assert HasTangent(q, P, k);
    hide GroupAdd, QMul, TangentAt, Red;
    EvalIn(q, TangentAt(q, Doubled(q, P, k).x, Doubled(q, P, k).y), Q.x, Q.y);
  }

  lemma {:induction false} MillerIn(pr: Params, P: Pt, Q: Pt, n: nat)
    requires Regular(pr, P, Q) && n <= pr.exp2
    ensures Doubles(pr.q, P, n) && In(pr.q, Miller(pr.q, P, Q, n))
  {
    FewerDoubles(pr.q, P, n, pr.exp2);
    if n == 0 {
      OneIn(pr.q);
    } else {
      var f := Miller(pr.q, P, Q, n - 1);
      var t := TangentValue(pr.q, P, Q, n - 1);
      hide *;
      MillerIn(pr, P, Q, n - 1);
      MillerStep(pr.q, P, Q, n - 1);
      ProductIn(pr.q, f, f);
      ProductIn(pr.q, QMul(pr.q, -1, f, f), t);
    }
  }

  // The corner point +-2^exp1 P.
  ghost function Corner(pr: Params, P: Pt): (R: Pt)
    requires Doubles(pr.q, P, pr.exp1)
    ensures R.Aff? && Proper(pr.q, R)
  {
    DoubledIsFinite(pr.q, P, pr.exp1);
    var V := Doubled(pr.q, P, pr.exp1);
    if pr.sign1 < 0 then Aff(V.x, Neg(pr.q, V.y)) else V
  }

  ghost function ClosingLine(pr: Params, P: Pt): Line
    requires Doubles(pr.q, P, pr.exp2) && pr.exp1 <= pr.exp2
  {
    DoubledIsFinite(pr.q, P, pr.exp2);
    var V, V1 := Doubled(pr.q, P, pr.exp2), Corner(pr, P);
    ChordAt(pr.q, V.x, V.y, V1.x, V1.y)
  }

  ghost function CornerFactor(pr: Params, P: Pt, Q: Pt): Q2
    requires Regular(pr, P, Q)
  {
    MillerIn(pr, P, Q, pr.exp1);
    var f := Miller(pr.q, P, Q, pr.exp1);
    if pr.sign1 < 0 then QInv(pr.q, f) else f
  }

  // The Miller value before the final powering.
  ghost function Total(pr: Params, P: Pt, Q: Pt): Q2
    requires Regular(pr, P, Q)
  {
    QMul(pr.q, -1, QMul(pr.q, -1, Miller(pr.q, P, Q, pr.exp2), CornerFactor(pr, P, Q)),
         Eval(pr.q, ClosingLine(pr, P), Q.x, Q.y))
  }

  lemma {:induction false} TotalIn(pr: Params, P: Pt, Q: Pt)
    requires Regular(pr, P, Q)
    ensures In(pr.q, Total(pr, P, Q)) && In(pr.q, CornerFactor(pr, P, Q))
  {
    MillerIn(pr, P, Q, pr.exp1);
    MillerIn(pr, P, Q, pr.exp2);
    EvalIn(pr.q, ClosingLine(pr, P), Q.x, Q.y);
    hide QMul, Eval, ClosingLine, Miller, HasI, In;
    ProductIn(pr.q, Miller(pr.q, P, Q, pr.exp2), CornerFactor(pr, P, Q));
    ProductIn(pr.q, QMul(pr.q, -1, Miller(pr.q, P, Q, pr.exp2), CornerFactor(pr, P, Q)), Eval(pr.q, ClosingLine(pr, P), Q.x, Q.y));
  }

  ghost function Pairing(pr: Params, P: Pt, Q: Pt): Q2
    requires Regular(pr, P, Q)
  {
    TotalIn(pr, P, Q);
    Powered(pr.q, Total(pr, P, Q), pr.cofactor)
  }

  // ---------------------------------------------------------------- what the value is made of

  // The points met by the loop are points of the curve.
  lemma {:induction false} DoubledOnCurve(q: nat, P: Pt, n: nat)
    requires Doubles(q, P, n) && OnCurve(q, 1, 0, P)
    ensures Doubled(q, P, n).Aff? && Proper(q, Doubled(q, P, n)) && OnCurve(q, 1, 0, Doubled(q, P, n))
  {
    DoubledIsFinite(q, P, n);
    if n > 0 {
      FewerDoubles(q, P, n - 1, n);
      DoubledOnCurve(q, P, n - 1);
      hide OnCurve, HasI;
      GroupAddOnCurve(q, 1, 0, Doubled(q, P, n - 1), Doubled(q, P, n - 1));
    }
  }

  // The closing line joins 2^exp2 P to 2^exp1 P, reflected when sign1 is negative; it is no line at all only when these
  // points agree, and otherwise passes through minus their sum, too.
  lemma {:induction false} ClosingLineMeets(pr: Params, P: Pt)
    requires pr.exp1 <= pr.exp2 && Doubles(pr.q, P, pr.exp2) && Doubles(pr.q, P, pr.exp1) && OnCurve(pr.q, 1, 0, P)
    ensures Doubled(pr.q, P, pr.exp1).Aff? && Doubled(pr.q, P, pr.exp2).Aff?
    ensures Joined(pr.q, ClosingLine(pr, P), Doubled(pr.q, P, pr.exp2), Doubled(pr.q, P, pr.exp1), pr.sign1 < 0)
  {
    hide *;
    DoublesMeans(pr.q, P, pr.exp2);
    DoubledOnCurve(pr.q, P, pr.exp1);
    DoubledOnCurve(pr.q, P, pr.exp2);
    ClosingLineIs(pr, P);
    CornerIs(pr, P, Doubled(pr.q, P, pr.exp1));
    ChordJoined(pr.q, Doubled(pr.q, P, pr.exp2), Doubled(pr.q, P, pr.exp1), pr.sign1 < 0, Corner(pr, P));
  }

  // l passes through W, through V or its reflection, and through minus the sum of these two.
  ghost predicate Joined(q: nat, l: Line, W: Pt, V: Pt, reflected: bool)
    requires IsPrime(q) && q > 2 && W.Aff? && V.Aff? && Proper(q, W) && Proper(q, V)
  {
    var y := if reflected then 0 - V.y else V.y;
    && OnLine(q, l, W.x, W.y) && OnLine(q, l, V.x, y)
    && (W.x == V.x && Red(q, W.y) == Red(q, y) <==> l.a == 0 && l.b == 0)
    && (W.x != V.x ==> MeetsMinusSum(q, l, W, Aff(V.x, Red(q, y))))
  }

  lemma {:induction false} ChordJoined(q: nat, W: Pt, V: Pt, reflected: bool, C: Pt)
    requires IsPrime(q) && q > 2 && W.Aff? && V.Aff? && Proper(q, W) && Proper(q, V) && OnCurve(q, 1, 0, W) && OnCurve(q, 1, 0, V)
    requires C == Aff(V.x, if reflected then Neg(q, V.y) else V.y)
    ensures Joined(q, ChordAt(q, W.x, W.y, C.x, C.y), W, V, reflected)
  {
    var y, l := if reflected then 0 - V.y else V.y, ChordAt(q, W.x, W.y, C.x, C.y);
    CornerOnCurve(q, V);
    ElemReduces(q, W.y);
    ElemReduces(q, V.y);
    ModMod(y, q);
    assert C.y == Red(q, y);
    hide OnCurve, GroupAdd, IsPrime, ChordAt, OnLine;
    ChordMeets(q, 0, W, C);
    SameOrdinate(q, l, V.x, C.y, y);
    if W.x != V.x { MeetsMinusSumIs(q, l, W, C); }
  }

  lemma DoublesMeans(q: nat, P: Pt, n: nat)
    requires Doubles(q, P, n)
    ensures HasI(q) && IsPrime(q) && q > 2 && Proper(q, P) && P.Aff?
  {
  }

  ghost predicate MeetsMinusSum(q: nat, l: Line, P: Pt, Q: Pt)
    requires IsPrime(q) && q > 2 && Proper(q, P) && Proper(q, Q)
  {
    GroupAdd(q, 1, P, Q).Aff? && OnLine(q, l, GroupAdd(q, 1, P, Q).x, 0 - GroupAdd(q, 1, P, Q).y)
  }

  lemma MeetsMinusSumIs(q: nat, l: Line, P: Pt, Q: Pt)
    requires IsPrime(q) && q > 2 && Proper(q, P) && Proper(q, Q)
    requires GroupAdd(q, 1, P, Q).Aff? && OnLine(q, l, GroupAdd(q, 1, P, Q).x, 0 - GroupAdd(q, 1, P, Q).y)
    ensures MeetsMinusSum(q, l, P, Q)
  {
    hide IsPrime, GroupAdd, OnLine;
  }

  lemma {:induction false} ClosingLineIs(pr: Params, P: Pt)
    requires Doubles(pr.q, P, pr.exp2) && pr.exp1 <= pr.exp2
    ensures Doubles(pr.q, P, pr.exp1) && Doubled(pr.q, P, pr.exp2).Aff? && pr.q > 2
    ensures var W, C := Doubled(pr.q, P, pr.exp2), Corner(pr, P); ClosingLine(pr, P) == ChordAt(pr.q, W.x, W.y, C.x, C.y)
  {
    FewerDoubles(pr.q, P, pr.exp1, pr.exp2);
    DoubledIsFinite(pr.q, P, pr.exp2);
    hide Doubled, Corner, ChordAt;
  }

  lemma {:induction false} CornerIs(pr: Params, P: Pt, V: Pt)
    requires Doubles(pr.q, P, pr.exp1) && V == Doubled(pr.q, P, pr.exp1)
    ensures V.Aff? && pr.q > 0 && Corner(pr, P) == Aff(V.x, if pr.sign1 >= 0 then V.y else Neg(pr.q, V.y))
  {
    DoubledIsFinite(pr.q, P, pr.exp1);
    hide Doubled;
  }

  lemma {:induction false} CornerOnCurve(q: nat, V: Pt)
    requires q > 0 && V.Aff? && OnCurve(q, 1, 0, V)
    ensures Elem(q, Neg(q, V.y)) && OnCurve(q, 1, 0, Aff(V.x, Neg(q, V.y)))
  {
    ModMod(0 - V.y, q);
    DefectMod(q, 1, 0, V.x, Neg(q, V.y), V.x, 0 - V.y);
    OtherOrdinate(1, 0, V.x, V.y, 0);
  }

  lemma {:induction false} SameOrdinate(q: nat, l: Line, x: int, y: int, y': int)
    requires q > 0 && y % q == y' % q
    ensures OnLine(q, l, x, y) <==> OnLine(q, l, x, y')
  {
    ModMul(l.b, l.b, y, y', q);
    ModAdd(l.a * x, l.a * x, l.b * y, l.b * y', q);
    ModAdd(l.a * x + l.b * y, l.a * x + l.b * y', l.c, l.c, q);
  }

  // The product of the first n tangent values at Q to the powers e.
  ghost function Factors(q: nat, P: Pt, Q: Pt, e: nat -> nat, n: nat): Q2
    requires Doubles(q, P, n) && Q.Aff?
  {
    if n == 0 then One
    else QMul(q, -1, Factors(q, P, Q, e, n - 1), QPow(q, -1, TangentValue(q, P, Q, n - 1), e(n - 1)))
  }

  // The exponents in the Miller value of 2^n: each doubling squares what came before.
  function Squarings(n: nat): nat -> nat
  {
    (k: nat) => if k < n then ShiftUnit(n - 1 - k) else 0
  }

  function Both(e: nat -> nat, f: nat -> nat): nat -> nat
  {
    (k: nat) => e(k) + f(k)
  }

  ghost predicate SameBelow(e: nat -> nat, f: nat -> nat, n: nat)
  {
    forall k: nat :: k < n ==> e(k) == f(k)
  }

  lemma {:induction false} FactorsUnfold(q: nat, P: Pt, Q: Pt, e: nat -> nat, n: nat)
    requires Doubles(q, P, n) && Q.Aff?
    ensures q > 2 && Doubles(q, P, 0) && Factors(q, P, Q, e, 0) == One
    ensures n > 0 ==> Doubles(q, P, n - 1) && In(q, TangentValue(q, P, Q, n - 1))
    ensures n > 0 ==> Factors(q, P, Q, e, n) == QMul(q, -1, Factors(q, P, Q, e, n - 1), QPow(q, -1, TangentValue(q, P, Q, n - 1), e(n - 1)))
  {
    hide TangentValue, QPow, QMul, GroupAdd, Miller;
    if n > 0 {
      FewerDoubles(q, P, n - 1, n);
      MillerStep(q, P, Q, n - 1);
    }
  }

  lemma {:induction false} FactorsIn(q: nat, P: Pt, Q: Pt, e: nat -> nat, n: nat)
    requires Doubles(q, P, n) && Q.Aff?
    ensures q > 2 && In(q, Factors(q, P, Q, e, n))
  {
    hide *;
    FactorsUnfold(q, P, Q, e, n);
    OneIn(q);
    if n > 0 {
      FactorsIn(q, P, Q, e, n - 1);
      PowIn(q, -1, TangentValue(q, P, Q, n - 1), e(n - 1));
      ProductIn(q, Factors(q, P, Q, e, n - 1), QPow(q, -1, TangentValue(q, P, Q, n - 1), e(n - 1)));
    }
  }

  lemma {:induction false} FactorsAgree(q: nat, P: Pt, Q: Pt, e: nat -> nat, f: nat -> nat, n: nat)
    requires Doubles(q, P, n) && Q.Aff? && SameBelow(e, f, n)
    ensures Factors(q, P, Q, e, n) == Factors(q, P, Q, f, n)
  {
    hide TangentValue, QPow, QMul, Doubled;
    FactorsUnfold(q, P, Q, e, n);
    FactorsUnfold(q, P, Q, f, n);
    if n > 0 { FactorsAgree(q, P, Q, e, f, n - 1); }
  }

  // Multiplying adds the exponents.
  lemma {:induction false} FactorsTimes(q: nat, P: Pt, Q: Pt, e: nat -> nat, f: nat -> nat, n: nat)
    requires Doubles(q, P, n) && Q.Aff?
    ensures q > 2 && QMul(q, -1, Factors(q, P, Q, e, n), Factors(q, P, Q, f, n)) == Factors(q, P, Q, Both(e, f), n)
  {
    hide *;
    FactorsUnfold(q, P, Q, e, n);
    FactorsUnfold(q, P, Q, f, n);
    FactorsUnfold(q, P, Q, Both(e, f), n);
    if n == 0 {
      OneIn(q);
      MulOne(q, -1, One);
    } else {
      var t := TangentValue(q, P, Q, n - 1);
      FactorsTimes(q, P, Q, e, f, n - 1);
      FactorsIn(q, P, Q, e, n - 1);
      FactorsIn(q, P, Q, f, n - 1);
      PowIn(q, -1, t, e(n - 1));
      PowIn(q, -1, t, f(n - 1));
      QPowAdd(q, -1, t, e(n - 1), f(n - 1));
      BothIs(e, f, n - 1);
      QShuffle(q, Factors(q, P, Q, e, n - 1), QPow(q, -1, t, e(n - 1)), Factors(q, P, Q, f, n - 1), QPow(q, -1, t, f(n - 1)));
    }
  }

  lemma BothIs(e: nat -> nat, f: nat -> nat, k: nat)
    ensures Both(e, f)(k) == e(k) + f(k)
  {
  }

  // The Miller value, written out: every tangent value to the power of two of the doublings that follow it.
  lemma {:induction false} MillerIsProduct(q: nat, P: Pt, Q: Pt, n: nat)
    requires Doubles(q, P, n) && Q.Aff?
    ensures Miller(q, P, Q, n) == Factors(q, P, Q, Squarings(n), n)
  {
    hide *;
    FactorsUnfold(q, P, Q, Squarings(n), n);
    MillerStart(q, P, Q);
    if n > 0 {
      var e := Squarings(n - 1);
      MillerStep(q, P, Q, n - 1);
      MillerIsProduct(q, P, Q, n - 1);
      FactorsTimes(q, P, Q, e, e, n - 1);
      SquaringsDouble(n);
      FactorsAgree(q, P, Q, Both(e, e), Squarings(n), n - 1);
      PowOne(q, TangentValue(q, P, Q, n - 1));
    }
  }

  lemma {:induction false} SquaringsDouble(n: nat)
    requires n > 0
    ensures SameBelow(Both(Squarings(n - 1), Squarings(n - 1)), Squarings(n), n - 1) && Squarings(n)(n - 1) == 1
  {
    UnitStep(0);
    forall k: nat | k < n - 1 ensures Both(Squarings(n - 1), Squarings(n - 1))(k) == Squarings(n)(k) { UnitStep(n - 2 - k); }
  }

  lemma {:induction false} PowOne(q: nat, a: Q2)
    requires q > 1 && In(q, a)
    ensures QPow(q, -1, a, 1) == a
  {
    MulOne(q, -1, a);
    assert QPow(q, -1, a, 0) == One;
  }

  // Exponents that vanish from k on add no factors.
  lemma {:induction false} FactorsPad(q: nat, P: Pt, Q: Pt, e: nat -> nat, k: nat, n: nat)
    requires Doubles(q, P, n) && Q.Aff? && k <= n && forall i: nat :: k <= i < n ==> e(i) == 0
    ensures Doubles(q, P, k) && Factors(q, P, Q, e, n) == Factors(q, P, Q, e, k)
  {
    hide TangentValue, QMul, Doubled, Factors;
    FewerDoubles(q, P, k, n);
    FactorsUnfold(q, P, Q, e, n);
    if k < n {
      FactorsPad(q, P, Q, e, k, n - 1);
      FactorsIn(q, P, Q, e, n - 1);
      assert QPow(q, -1, TangentValue(q, P, Q, n - 1), 0) == One;
      MulOne(q, -1, Factors(q, P, Q, e, n - 1));
    }
  }

  // How often the tangent value number k enters: 2^(exp2-1-k), and 2^(exp1-1-k) more or less for k below exp1.
  function Exponent(pr: Params, k: nat): nat
  {
    if k >= pr.exp2 || pr.exp1 > pr.exp2 then 0
    else if k >= pr.exp1 then ShiftUnit(pr.exp2 - 1 - k)
    else if pr.sign1 < 0 then UnitGrows(pr.exp1 - 1 - k, pr.exp2 - 1 - k); ShiftUnit(pr.exp2 - 1 - k) - ShiftUnit(pr.exp1 - 1 - k)
    else ShiftUnit(pr.exp2 - 1 - k) + ShiftUnit(pr.exp1 - 1 - k)
  }

  function Exponents(pr: Params): nat -> nat
  {
    (k: nat) => Exponent(pr, k)
  }

  // As a divisor, with verticals left out, the tangent at V is 2(V) - (2V), and the closing line is the sum of its two
  // points, a reflected one counting negatively. Multiplicity of 2^k P in the product:
  function Multiplicity(pr: Params, k: nat): int
  {
    2 * Exponent(pr, k) - (if k > 0 then Exponent(pr, k - 1) else 0)
    + (if k == pr.exp2 then 1 else 0) + (if k == pr.exp1 then Sign1(pr) else 0)
  }

  function Sign1(pr: Params): int
  {
    if pr.sign1 < 0 then -1 else 1
  }

  // All multiples cancel but P itself, which is left 2^exp2 + 2^exp1 times, or 2^exp2 - 2^exp1 times for sign1 negative.
  lemma {:induction false} DivisorBalances(pr: Params, k: nat)
    requires pr.exp1 <= pr.exp2 && k <= pr.exp2
    ensures Multiplicity(pr, k) == if k == 0 then ShiftUnit(pr.exp2) + Sign1(pr) * ShiftUnit(pr.exp1) else 0
  {
    hide ShiftUnit;
    UnitStep(if pr.exp2 > k then pr.exp2 - 1 - k else 0);
    UnitStep(if pr.exp1 > k then pr.exp1 - 1 - k else 0);
    if pr.sign1 < 0 && k < pr.exp1 { UnitGrows(pr.exp1 - 1 - k, pr.exp2 - 1 - k); }
  }

  lemma {:induction false} ExponentsAre(pr: Params)
    requires pr.exp1 <= pr.exp2
    ensures pr.sign1 >= 0 ==> SameBelow(Both(Squarings(pr.exp2), Squarings(pr.exp1)), Exponents(pr), pr.exp2)
    ensures pr.sign1 < 0 ==> SameBelow(Both(Exponents(pr), Squarings(pr.exp1)), Squarings(pr.exp2), pr.exp2)
  {
    hide ShiftUnit;
  }

  // The value before the final powering is the product of the tangent values to these powers and of the closing value.
  lemma {:induction false} TotalIsProduct(pr: Params, P: Pt, Q: Pt)
    requires Regular(pr, P, Q) && Total(pr, P, Q) != Zero
    ensures Total(pr, P, Q) == QMul(pr.q, -1, Factors(pr.q, P, Q, Exponents(pr), pr.exp2), Eval(pr.q, ClosingLine(pr, P), Q.x, Q.y))
  {
    hide *;
    RegularMeans(pr, P, Q);
    FewerDoubles(pr.q, P, pr.exp1, pr.exp2);
    TotalIsClosing(pr, P, Q);
    CornerFactorIs(pr, P, Q);
    MillerIsProduct(pr.q, P, Q, pr.exp1);
    MillerIsProduct(pr.q, P, Q, pr.exp2);
    SquaringsEnd(pr.exp1);
    FactorsPad(pr.q, P, Q, Squarings(pr.exp1), pr.exp1, pr.exp2);
    ExponentsAre(pr);
    var A, g := Miller(pr.q, P, Q, pr.exp2), Miller(pr.q, P, Q, pr.exp1);
    MillerIn(pr, P, Q, pr.exp2);
    if pr.sign1 < 0 {
      if g == Zero { ZeroTotal(pr, P, Q); }
      FactorsTimes(pr.q, P, Q, Exponents(pr), Squarings(pr.exp1), pr.exp2);
      FactorsAgree(pr.q, P, Q, Both(Exponents(pr), Squarings(pr.exp1)), Squarings(pr.exp2), pr.exp2);
      FactorsIn(pr.q, P, Q, Exponents(pr), pr.exp2);
      DivideOut(pr.q, Factors(pr.q, P, Q, Exponents(pr), pr.exp2), g);
    } else {
      FactorsTimes(pr.q, P, Q, Squarings(pr.exp2), Squarings(pr.exp1), pr.exp2);
      FactorsAgree(pr.q, P, Q, Both(Squarings(pr.exp2), Squarings(pr.exp1)), Exponents(pr), pr.exp2);
    }
  }

  lemma SquaringsEnd(n: nat)
    ensures forall k: nat :: n <= k ==> Squarings(n)(k) == 0
  {
  }

  lemma {:induction false} DivideOut(q: nat, a: Q2, g: Q2)
    requires HasI(q) && In(q, a) && In(q, g) && g != Zero
    ensures QMul(q, -1, QMul(q, -1, a, g), QInv(q, g)) == a
  {
    hide QMul, QInv;
    MulAssociates(q, -1, a, g, QInv(q, g));
    MulCommutes(q, -1, g, QInv(q, g));
    MulOne(q, -1, a);
  }

  lemma {:induction false} ZeroTotal(pr: Params, P: Pt, Q: Pt)
    requires Regular(pr, P, Q) && Doubles(pr.q, P, pr.exp1) && Miller(pr.q, P, Q, pr.exp1) == Zero && pr.sign1 < 0
    ensures Total(pr, P, Q) == Zero
  {
    hide *;
    RegularMeans(pr, P, Q);
    CornerFactorIs(pr, P, Q);
    TotalIsClosing(pr, P, Q);
    InverseOfZero(pr.q, Miller(pr.q, P, Q, pr.exp1));
    MillerIn(pr, P, Q, pr.exp2);
    EvalIn(pr.q, ClosingLine(pr, P), Q.x, Q.y);
    FewerDoubles(pr.q, P, pr.exp2, pr.exp2);
    ZeroTimes(pr.q, Miller(pr.q, P, Q, pr.exp2));
    MulCommutes(pr.q, -1, Miller(pr.q, P, Q, pr.exp2), Zero) by { ZeroIn(pr.q); }
    ZeroTimes(pr.q, Eval(pr.q, ClosingLine(pr, P), Q.x, Q.y));
  }

  lemma ZeroIn(q: nat)
    requires q > 0
    ensures In(q, Zero)
  {
  }

  // Main result on the value: unless a line value vanishes, the pairing is the power (q-1)*cofactor of that product,
  // and with cofactor*r = q + 1 its order divides r.
  lemma {:induction false} PairingIsPower(pr: Params, P: Pt, Q: Pt)
    requires Regular(pr, P, Q) && Total(pr, P, Q) != Zero
    ensures (pr.q - 1) * pr.cofactor >= 0
    ensures Pairing(pr, P, Q) == QPow(pr.q, -1,
      QMul(pr.q, -1, Factors(pr.q, P, Q, Exponents(pr), pr.exp2), Eval(pr.q, ClosingLine(pr, P), Q.x, Q.y)), (pr.q - 1) * pr.cofactor)
    ensures forall r: nat :: pr.cofactor * r == pr.q + 1 ==> QPow(pr.q, -1, Pairing(pr, P, Q), r) == One
  {
    hide *;
    TotalIsProduct(pr, P, Q);
    PairingIs(pr, P, Q);
    HasIMeans(pr.q);
    PoweredIs(pr.q, Total(pr, P, Q), pr.cofactor);
    forall r: nat | pr.cofactor * r == pr.q + 1 ensures QPow(pr.q, -1, Pairing(pr, P, Q), r) == One {
      PoweredOrder(pr.q, Total(pr, P, Q), pr.cofactor, r);
    }
  }

  lemma HasIMeans(q: nat)
    requires HasI(q)
    ensures IsPrime(q) && q > 2
  {
  }

  // ---------------------------------------------------------------- affine coordinates

  // The loop both phases run.
  method AffineLoop(f: Element, f0: Element, V: Point, i: nat, n: nat, pr: Params, ghost P: Pt, Q: Pt)
    requires Regular(pr, P, Q) && i <= n <= pr.exp2 && f != f0
    requires f.Value() == Miller(pr.q, P, Q, i) && V.Valid(pr.q) && V.Value() == Doubled(pr.q, P, i)
    modifies f, f0, V
    ensures f.Value() == Miller(pr.q, P, Q, n) && V.Valid(pr.q) && V.Value() == Doubled(pr.q, P, n)
  {
    hide *;
    RegularMeans(pr, P, Q);
    FewerDoubles(pr.q, P, i, pr.exp2);
    for j := i to n
      invariant Doubles(pr.q, P, j)
      invariant f.Value() == Miller(pr.q, P, Q, j) && V.Valid(pr.q) && V.Value() == Doubled(pr.q, P, j)
    {
      FewerDoubles(pr.q, P, j, pr.exp2);
      MillerStep(pr.q, P, Q, j);
      MillerIn(pr, P, Q, j);
      OneElem(pr.q);
      Coordinates(V, pr.q, Doubled(pr.q, P, j));
      ValidIs(f, pr.q);
      FiSquare(f, f, pr.q);
      var l := ComputeTangent(pr.q, V.x, V.y);
      TangentIn(pr.q, V.x, V.y);
      EvalLine(f0, pr.q, l, Q.x, Q.y);
      FiMul(f, f, f0, pr.q);
      CurveDouble(V, V, pr.q, 1);
    }
  }

  lemma Coordinates(V: Point, q: nat, R: Pt)
    requires V.Value() == R && R.Aff? && V.Valid(q)
    ensures !V.inf && V.x == R.x && V.y == R.y && Elem(q, V.x) && Elem(q, V.y)
  {
  }

  lemma ValidIs(f: Element, q: nat)
    ensures f.Valid(q) <==> In(q, f.Value())
  {
  }

  lemma OneElem(q: nat)
    requires q > 1
    ensures Elem(q, 1)
  {
  }

  lemma TangentIn(q: nat, x: int, y: int)
    requires q > 0
    ensures Proportions(q, TangentAt(q, x, y))
  {
  }

  method PairingAffine(out: Element, in1: Point, in2: Point, pr: Params, left: int)
    requires Regular(pr, in1.Value(), in2.Value())
    modifies out
    ensures out.Value() == old(Pairing(pr, in1.Value(), in2.Value()))
  {
    hide *;
    ghost var P := in1.Value();
    var Q := in2.Value();
    PairingMeans(pr, P, Q);
    var V := new Point(in1.Value());
    var f := new Element(One);
    var f0 := new Element(One);
    var f1 := new Element(One);
    StartsAt(V, pr, P, Q);
    AffineLoop(f, f0, V, 0, pr.exp1, pr, P, Q);
    MillerIn(pr, P, Q, pr.exp1);
    var V1 := CornerPoint(V, pr, P);
    if pr.sign1 < 0 {
      InvertMiller(f1, f, pr, P, Q, left);
    } else {
      CopyElement(f1, f);
    }
    CornerFactorIs(pr, P, Q);
    AffineLoop(f, f0, V, pr.exp1, pr.exp2, pr, P, Q);
    CloseAffine(f, f0, f1, V, V1, pr, P, Q);
    ElementCoordinates(f, Total(pr, P, Q));
    TateExp(out, f, f0, pr.cofactor, pr.q, left);
    PairingIs(pr, P, Q);
  }

  lemma ElementCoordinates(f: Element, v: Q2)
    requires f.Value() == v
    ensures f.x == v.x && f.y == v.y
  {
  }

  lemma {:induction false} PairingMeans(pr: Params, P: Pt, Q: Pt)
    requires Regular(pr, P, Q)
    ensures HasI(pr.q) && IsPrime(pr.q) && pr.q > 2
    ensures In(pr.q, Total(pr, P, Q))
    ensures pr.exp1 <= pr.exp2 && pr.cofactor % 2 == 0 && Doubles(pr.q, P, pr.exp2) && Doubles(pr.q, P, pr.exp1) && Doubles(pr.q, P, 0)
    ensures P.Aff? && Proper(pr.q, P) && Q.Aff?
  {
    TotalIn(pr, P, Q);
    FewerDoubles(pr.q, P, pr.exp1, pr.exp2);
  }

  lemma {:induction false} StartsAt(V: Point, pr: Params, P: Pt, Q: Pt)
    requires Regular(pr, P, Q) && V.Value() == P
    ensures Doubles(pr.q, P, 0) && Miller(pr.q, P, Q, 0) == One && Doubled(pr.q, P, 0) == P && V.Valid(pr.q)
  {
    hide GroupAdd, QMul, TangentValue;
  }

  // element_neg or element_set of the current point.
  method CornerPoint(V: Point, pr: Params, ghost P: Pt) returns (V1: Point)
    requires Doubles(pr.q, P, pr.exp1) && V.Valid(pr.q) && V.Value() == Doubled(pr.q, P, pr.exp1)
    ensures fresh(V1) && V1.Valid(pr.q) && V1.Value() == Corner(pr, P)
  {
    hide Doubled, HasI, GroupAdd;
    FewerDoubles(pr.q, P, pr.exp1, pr.exp1);
    DoubledIsFinite(pr.q, P, pr.exp1);
    NegElem(pr.q, V.y);
    if pr.sign1 < 0 {
      V1 := new Point(Aff(V.x, Neg(pr.q, V.y)));
    } else {
      V1 := new Point(V.Value());
    }
  }

  lemma NegElem(q: nat, y: int)
    requires q > 0
    ensures Elem(q, Neg(q, y))
  {
  }

  method CopyElement(n: Element, a: Element)
    modifies n
    ensures n.Value() == old(a.Value())
  {
    n.x := a.x;
    n.y := a.y;
  }

  method InvertMiller(f1: Element, f: Element, pr: Params, ghost P: Pt, ghost Q: Pt, left: int)
    requires Regular(pr, P, Q) && Doubles(pr.q, P, pr.exp1) && f1 != f
    requires f.Value() == Miller(pr.q, P, Q, pr.exp1) && In(pr.q, f.Value())
    modifies f1
    ensures f1.Value() == QInv(pr.q, Miller(pr.q, P, Q, pr.exp1))
  {
    hide *;
    RegularMeans(pr, P, Q);
    FewerDoubles(pr.q, P, pr.exp1, pr.exp2);
    NormNonzero(pr.q, f.Value());
    ValidIs(f, pr.q);
    InverseOfZero(pr.q, f.Value());
    FiInvert(f1, f, pr.q, left);
    ValidIs(f1, pr.q);
    if f.Value() != Zero { InverseIsUnique(pr.q, f.Value(), f1.Value()); }
  }

  lemma InverseOfZero(q: nat, f: Q2)
    requires HasI(q) && In(q, f)
    ensures f == Zero ==> QInv(q, f) == Zero
    ensures Zero == Q2(0, 0)
  {
  }

  lemma {:induction false} CornerFactorIs(pr: Params, P: Pt, Q: Pt)
    requires Regular(pr, P, Q)
    ensures Doubles(pr.q, P, pr.exp1) && HasI(pr.q) && In(pr.q, Miller(pr.q, P, Q, pr.exp1))
    ensures CornerFactor(pr, P, Q) == if pr.sign1 < 0 then QInv(pr.q, Miller(pr.q, P, Q, pr.exp1)) else Miller(pr.q, P, Q, pr.exp1)
    ensures In(pr.q, CornerFactor(pr, P, Q))
  {
    MillerIn(pr, P, Q, pr.exp1);
    hide QMul, QInv, Miller;
  }

  // f becomes the total from f = Miller(exp2), f1 = the corner factor.
  method CloseAffine(f: Element, f0: Element, f1: Element, V: Point, V1: Point, pr: Params, ghost P: Pt, Q: Pt)
    requires Regular(pr, P, Q) && f != f0 && f != f1 && f0 != f1 && Doubles(pr.q, P, pr.exp2) && Doubles(pr.q, P, pr.exp1)
    requires f.Value() == Miller(pr.q, P, Q, pr.exp2) && f1.Value() == CornerFactor(pr, P, Q)
    requires V.Valid(pr.q) && V.Value() == Doubled(pr.q, P, pr.exp2) && V1.Valid(pr.q) && V1.Value() == Corner(pr, P)
    modifies f, f0
    ensures f.Value() == Total(pr, P, Q) && f.Valid(pr.q)
  {
    hide *;
    CornerFactorIs(pr, P, Q);
    MillerIn(pr, P, Q, pr.exp2);
    RegularMeans(pr, P, Q);
    FewerDoubles(pr.q, P, pr.exp2, pr.exp2);
    DoubledIsFinite(pr.q, P, pr.exp2);
    Coordinates(V, pr.q, Doubled(pr.q, P, pr.exp2));
    Coordinates(V1, pr.q, Corner(pr, P));
    ValidIs(f, pr.q);
    ValidIs(f1, pr.q);
    FiMul(f, f, f1, pr.q);
    var l := ComputeLine(pr.q, V.x, V.y, V1.x, V1.y);
    LineIn(pr.q, V.x, V.y, V1.x, V1.y);
    EvalLine(f0, pr.q, l, Q.x, Q.y);
    FiMul(f, f, f0, pr.q);
    TotalIs(pr, P, Q);
  }

  lemma LineIn(q: nat, x: int, y: int, x1: int, y1: int)
    requires q > 0
    ensures Proportions(q, ChordAt(q, x, y, x1, y1))
  {
  }

  lemma {:induction false} TotalIs(pr: Params, P: Pt, Q: Pt)
    requires Regular(pr, P, Q)
    ensures Doubles(pr.q, P, pr.exp2) && Doubles(pr.q, P, pr.exp1) && HasI(pr.q) && pr.q > 2 && Proper(pr.q, P)
    ensures Doubled(pr.q, P, pr.exp2).Aff?
    ensures var V, V1 := Doubled(pr.q, P, pr.exp2), Corner(pr, P);
            Total(pr, P, Q) == QMul(pr.q, -1, QMul(pr.q, -1, Miller(pr.q, P, Q, pr.exp2), CornerFactor(pr, P, Q)),
              Eval(pr.q, ChordAt(pr.q, V.x, V.y, V1.x, V1.y), Q.x, Q.y))
  {
    FewerDoubles(pr.q, P, pr.exp1, pr.exp2);
    DoubledIsFinite(pr.q, P, pr.exp2);
    hide QMul, Doubled, Miller, Corner, CornerFactor, Eval, ChordAt;
  }

  lemma {:induction false} PairingIs(pr: Params, P: Pt, Q: Pt)
    requires Regular(pr, P, Q)
    ensures HasI(pr.q) && In(pr.q, Total(pr, P, Q)) && Pairing(pr, P, Q) == Powered(pr.q, Total(pr, P, Q), pr.cofactor)
  {
    TotalIn(pr, P, Q);
    hide Powered, Total;
  }

  // ---------------------------------------------------------------- projective coordinates

  lemma {:induction false} TangentScales(q: nat, z: int, x: int, y: int, Qx: int, Qy: int)
    requires IsPrime(q) && q > 2 && Elem(q, z) && z != 0
    ensures ScaledBy(q, Weight(q, z), Eval(q, ScaleLine(q, Weight(q, z), TangentAt(q, x, y)), Qx, Qy), Eval(q, TangentAt(q, x, y), Qx, Qy))
  {
    WeightNonzero(q, z);
    EvalScales(q, Weight(q, z), TangentAt(q, x, y), Qx, Qy);
  }

  lemma {:induction false} WeightNonzero(q: nat, z: int)
    requires IsPrime(q) && Elem(q, z) && z != 0
    ensures Weight(q, z) != 0 && Elem(q, Weight(q, z))
  {
    var u := Mul(q, z, z);
    assert Weight(q, z) == Mul(q, Mul(q, u, u), u);
    hide Mul, Weight;
    ProductNonzero(q, z, z);
    ProductNonzero(q, u, u);
    ProductNonzero(q, Mul(q, u, u), u);
  }

  lemma {:induction false} EvalScales(q: nat, w: int, l: Line, Qx: int, Qy: int)
    requires q > 1 && Elem(q, w) && w != 0
    ensures ScaledBy(q, w, Eval(q, ScaleLine(q, w, l), Qx, Qy), Eval(q, l, Qx, Qy))
  {
    EvalIn(q, l, Qx, Qy);
    RealTimes(q, w, Eval(q, l, Qx, Qy));
    hide QMul;
    EvalReal(q, w, l, Qx);
    EvalImaginary(q, w, l, Qy);
  }

  lemma {:induction false} EvalReal(q: nat, w: int, l: Line, Qx: int)
    requires q > 0
    ensures Red(q, Mul(q, w, l.c) - Mul(q, w, l.a) * Qx) == Mul(q, w, Red(q, l.c - l.a * Qx))
  {
    ModMod(w * l.c, q);
    ModMod(w * l.a, q);
    ModMul(w * l.a % q, w * l.a, Qx, Qx, q);
    ModAdd(w * l.c % q, w * l.c, w * l.a % q * Qx, w * l.a * Qx, q);
    Factored(w, l.c, l.a, Qx);
    ModMod(l.c - l.a * Qx, q);
    ModMul(w, w, (l.c - l.a * Qx) % q, l.c - l.a * Qx, q);
  }

  lemma Factored(w: int, c: int, a: int, x: int)
    ensures w * c - w * a * x == w * (c - a * x)
  {
  }

  lemma {:induction false} EvalImaginary(q: nat, w: int, l: Line, Qy: int)
    requires q > 0
    ensures Red(q, Mul(q, w, l.b) * Qy) == Mul(q, w, Red(q, l.b * Qy))
  {
    ModMod(w * l.b, q);
    ModMul(w * l.b % q, w * l.b, Qy, Qy, q);
    ModMod(l.b * Qy, q);
    ModMul(w, w, l.b * Qy % q, l.b * Qy, q);
    assert w * l.b * Qy == w * (l.b * Qy);
  }

  // f is the Miller value up to a factor, V and z the doubled point.
  ghost predicate ProjState(pr: Params, P: Pt, Q: Pt, k: nat, f: Q2, l: int, V: Pt, z: int, z2: int)
  {
    && Doubles(pr.q, P, k) && Q.Aff? && V.Aff? && ScaledBy(pr.q, l, f, Miller(pr.q, P, Q, k))
    && Jacobian(pr.q, V.x, V.y, z, z2, Doubled(pr.q, P, k))
  }

  lemma {:induction false} ProjStateMeans(pr: Params, P: Pt, Q: Pt, k: nat, f: Q2, l: int, V: Pt, z: int, z2: int)
    requires ProjState(pr, P, Q, k, f, l, V, z, z2)
    ensures HasI(pr.q) && IsPrime(pr.q) && pr.q > 2 && Doubles(pr.q, P, k) && Q.Aff? && V.Aff? && Proper(pr.q, P)
    ensures Jacobian(pr.q, V.x, V.y, z, z2, Doubled(pr.q, P, k)) && Elem(pr.q, z) && z != 0
    ensures ScaledBy(pr.q, l, f, Miller(pr.q, P, Q, k)) && In(pr.q, f)
  {
    ScaledNonzero(pr.q, l, f, Miller(pr.q, P, Q, k));
  }

  lemma ProjStateIntro(pr: Params, P: Pt, Q: Pt, k: nat, f: Q2, l: int, V: Pt, z: int, z2: int)
    requires Doubles(pr.q, P, k) && Q.Aff? && V.Aff? && ScaledBy(pr.q, l, f, Miller(pr.q, P, Q, k))
    requires Jacobian(pr.q, V.x, V.y, z, z2, Doubled(pr.q, P, k))
    ensures ProjState(pr, P, Q, k, f, l, V, z, z2)
  {
  }

  lemma {:induction false} ProjFactor(pr: Params, P: Pt, Q: Pt, k: nat, f: Q2, l: int, V: Pt, z: int, z2: int, f': Q2, t: Q2)
    requires Regular(pr, P, Q) && k < pr.exp2 && Doubles(pr.q, P, k + 1) && ProjState(pr, P, Q, k, f, l, V, z, z2)
    requires Doubled(pr.q, P, k).Aff?
    requires t == Eval(pr.q, ScaleLine(pr.q, Weight(pr.q, z), TangentAt(pr.q, Doubled(pr.q, P, k).x, Doubled(pr.q, P, k).y)), Q.x, Q.y)
    requires f' == QMul(pr.q, -1, QMul(pr.q, -1, f, f), t)
    ensures ScaledBy(pr.q, Mul(pr.q, Mul(pr.q, l, l), Weight(pr.q, z)), f', Miller(pr.q, P, Q, k + 1))
  {
    hide *;
    ProjStateMeans(pr, P, Q, k, f, l, V, z, z2);
    MillerStep(pr.q, P, Q, k);
    var m, g := Doubled(pr.q, P, k), Miller(pr.q, P, Q, k);
    TangentScales(pr.q, z, m.x, m.y, Q.x, Q.y);
    ScaledProduct(pr.q, l, f, g, l, f, g);
    ScaledProduct(pr.q, Mul(pr.q, l, l), QMul(pr.q, -1, f, f), QMul(pr.q, -1, g, g), Weight(pr.q, z), t, TangentValue(pr.q, P, Q, k));
  }

  method ProjLoop(f: Element, f0: Element, V: Point, Z: int, Z2: int, i: nat, n: nat, pr: Params, ghost P: Pt, Q: Pt, ghost L: int)
    returns (z: int, z2: int, ghost l: int)
    requires Regular(pr, P, Q) && i <= n <= pr.exp2 && f != f0
    requires ProjState(pr, P, Q, i, f.Value(), L, Aff(V.x, V.y), Z, Z2)
    modifies f, f0, V
    ensures ProjState(pr, P, Q, n, f.Value(), l, Aff(V.x, V.y), z, z2) && V.inf == old(V.inf)
  {
    hide *;
    z, z2, l := Z, Z2, L;
    RegularMeans(pr, P, Q);
    for j := i to n
      invariant ProjState(pr, P, Q, j, f.Value(), l, Aff(V.x, V.y), z, z2) && V.inf == old(V.inf)
    {
      ghost var g, W := f.Value(), Aff(V.x, V.y);
      ProjStateMeans(pr, P, Q, j, g, l, W, z, z2);
      FewerDoubles(pr.q, P, j, pr.exp2);
      MillerStep(pr.q, P, Q, j);
      ValidIs(f, pr.q);
      FiSquare(f, f, pr.q);
      var line := ComputeTangentProj(pr.q, V.x, V.y, z, z2, Doubled(pr.q, P, j));
      ScaledLineIn(pr.q, Weight(pr.q, z), TangentAt(pr.q, Doubled(pr.q, P, j).x, Doubled(pr.q, P, j).y));
      EvalLine(f0, pr.q, line, Q.x, Q.y);
      ghost var t := f0.Value();
      FiMul(f, f, f0, pr.q);
      ProjFactor(pr, P, Q, j, g, l, W, z, z2, f.Value(), t);
      l := Mul(pr.q, Mul(pr.q, l, l), Weight(pr.q, z));
      V.x, V.y, z, z2 := ProjDouble(pr.q, V.x, V.y, z, z2, Doubled(pr.q, P, j));
      ProjStateIntro(pr, P, Q, j + 1, f.Value(), l, Aff(V.x, V.y), z, z2);
    }
  }

  lemma ScaledLineIn(q: nat, w: int, l: Line)
    requires q > 0
    ensures Proportions(q, ScaleLine(q, w, l))
  {
  }

  // point_to_affine
  method ToAffine(V: Point, Z: int, q: nat, ghost Z2: int, ghost R: Pt) returns (z: int, z2: int)
    requires IsPrime(q) && q > 2 && !V.inf && Jacobian(q, V.x, V.y, Z, Z2, R)
    modifies V
    ensures z == 1 && z2 == 1 && V.Valid(q) && V.Value() == R && !V.inf && Jacobian(q, V.x, V.y, 1, 1, R)
  {
    z := Inv(q, Z);
    FromJacobian(q, V.x, V.y, Z, Z2, R, z);
    hide IsPrime, Inv, Mul;
    var e0 := Square(q, z);
    V.x := Mul(q, V.x, e0);
    e0 := Mul(q, e0, z);
    V.y := Mul(q, V.y, e0);
    z := 1;
    z2 := 1;
  }

  lemma {:induction false} FromJacobian(q: nat, X: int, Y: int, z: int, z2: int, R: Pt, i: int)
    requires IsPrime(q) && Jacobian(q, X, Y, z, z2, R) && Elem(q, i) && Mul(q, z, i) == 1
    ensures Mul(q, X, Square(q, i)) == R.x && Mul(q, Y, Mul(q, Square(q, i), i)) == R.y
    ensures Jacobian(q, R.x, R.y, 1, 1, R)
  {
    OneTimes(q, R.x);
    OneTimes(q, R.y);
    OneTimes(q, 1);
    hide IsPrime, Mul;
    Shuffle(q, z, z, i, i);
    Associates(q, R.x, z2, Square(q, i));
    Shuffle(q, z2, z, Square(q, i), i);
    Associates(q, R.y, Mul(q, z2, z), Mul(q, Square(q, i), i));
  }

  lemma {:induction false} StartsProjective(V: Point, pr: Params, P: Pt, Q: Pt)
    requires Regular(pr, P, Q) && V.Value() == P
    ensures ProjState(pr, P, Q, 0, One, 1, Aff(V.x, V.y), 1, 1) && !V.inf
  {
    OneTimes(pr.q, P.x);
    OneTimes(pr.q, P.y);
    OneTimes(pr.q, 1);
    OneIn(pr.q);
    MulOne(pr.q, -1, One);
    hide GroupAdd, QMul, TangentValue, HasI;
  }

  method InvertScaled(f1: Element, f: Element, pr: Params, ghost P: Pt, ghost Q: Pt, ghost l: int, left: int) returns (ghost m: int)
    requires Regular(pr, P, Q) && Doubles(pr.q, P, pr.exp1) && f1 != f
    requires ScaledBy(pr.q, l, f.Value(), Miller(pr.q, P, Q, pr.exp1))
    modifies f1
    ensures In(pr.q, Miller(pr.q, P, Q, pr.exp1))
    ensures ScaledBy(pr.q, m, f1.Value(), QInv(pr.q, Miller(pr.q, P, Q, pr.exp1)))
  {
    hide *;
    RegularMeans(pr, P, Q);
    FewerDoubles(pr.q, P, pr.exp1, pr.exp2);
    ghost var g := Miller(pr.q, P, Q, pr.exp1);
    MillerIn(pr, P, Q, pr.exp1);
    ScaledInverse(pr.q, l, f.Value(), g);
    NormNonzero(pr.q, f.Value());
    ScaleIsElem(pr.q, l, f.Value(), g);
    ValidIs(f, pr.q);
    InverseOfZero(pr.q, f.Value());
    FiInvert(f1, f, pr.q, left);
    ValidIs(f1, pr.q);
    if f.Value() != Zero { InverseIsUnique(pr.q, f.Value(), f1.Value()); }
    m := Inv(pr.q, l);
  }

  lemma ScaleIsElem(q: nat, l: int, f: Q2, g: Q2)
    requires q > 0 && ScaledBy(q, l, f, g)
    ensures Elem(q, l) && l != 0
  {
  }

  method PairingProj(out: Element, in1: Point, in2: Point, pr: Params, left: int)
    requires Regular(pr, in1.Value(), in2.Value())
    modifies out
    ensures out.Value() == old(Pairing(pr, in1.Value(), in2.Value()))
  {
    hide *;
    ghost var P := in1.Value();
    var Q := in2.Value();
    PairingMeans(pr, P, Q);
    var V := new Point(in1.Value());
    var f := new Element(One);
    var f0 := new Element(One);
    var f1 := new Element(One);
    StartsProjective(V, pr, P, Q);
    var z, z2 := 1, 1;
    ghost var l, m := 1, 1;
    z, z2, l := ProjLoop(f, f0, V, z, z2, 0, pr.exp1, pr, P, Q, l);
    ProjStateMeans(pr, P, Q, pr.exp1, f.Value(), l, Aff(V.x, V.y), z, z2);
    z, z2 := ToAffine(V, z, pr.q, z2, Doubled(pr.q, P, pr.exp1));
    var V1 := CornerPoint(V, pr, P);
    if pr.sign1 < 0 {
      m := InvertScaled(f1, f, pr, P, Q, l, left);
    } else {
      CopyElement(f1, f);
      m := l;
    }
    CornerFactorIs(pr, P, Q);
    ProjStateIntro(pr, P, Q, pr.exp1, f.Value(), l, Aff(V.x, V.y), z, z2);
    z, z2, l := ProjLoop(f, f0, V, z, z2, pr.exp1, pr.exp2, pr, P, Q, l);
    ProjStateMeans(pr, P, Q, pr.exp2, f.Value(), l, Aff(V.x, V.y), z, z2);
    l := CloseProj(f, f0, f1, V, V1, z, z2, pr, P, Q, l, m);
    ghost var g := f.Value();
    ScaledNonzero(pr.q, l, g, Total(pr, P, Q));
    PoweredForgetsScale(pr.q, l, g, Total(pr, P, Q), pr.cofactor);
    ElementCoordinates(f, g);
    ValidIs(f, pr.q);
    TateExp(out, f, f0, pr.cofactor, pr.q, left);
    PairingIs(pr, P, Q);
  }

  method CloseProj(f: Element, f0: Element, f1: Element, V: Point, V1: Point, z: int, z2: int, pr: Params, ghost P: Pt, Q: Pt, ghost l: int, ghost m: int)
    returns (ghost w: int)
    requires Regular(pr, P, Q) && f != f0 && f != f1 && f0 != f1 && Doubles(pr.q, P, pr.exp2) && Doubles(pr.q, P, pr.exp1)
    requires ScaledBy(pr.q, l, f.Value(), Miller(pr.q, P, Q, pr.exp2)) && ScaledBy(pr.q, m, f1.Value(), CornerFactor(pr, P, Q))
    requires !V.inf && Jacobian(pr.q, V.x, V.y, z, z2, Doubled(pr.q, P, pr.exp2)) && V1.Valid(pr.q) && V1.Value() == Corner(pr, P) && V != V1
    modifies f, f0, V
    ensures ScaledBy(pr.q, w, f.Value(), Total(pr, P, Q))
  {
    hide *;
    CornerFactorIs(pr, P, Q);
    MillerIn(pr, P, Q, pr.exp2);
    RegularMeans(pr, P, Q);
    FewerDoubles(pr.q, P, pr.exp2, pr.exp2);
    DoubledIsFinite(pr.q, P, pr.exp2);
    ghost var g, g1, h, h1 := f.Value(), f1.Value(), Miller(pr.q, P, Q, pr.exp2), CornerFactor(pr, P, Q);
    ScaledNonzero(pr.q, l, g, h);
    ScaledNonzero(pr.q, m, g1, h1);
    ValidIs(f, pr.q);
    ValidIs(f1, pr.q);
    FiMul(f, f, f1, pr.q);
    ScaledProduct(pr.q, l, g, h, m, g1, h1);
    var one, one2 := ToAffine(V, z, pr.q, z2, Doubled(pr.q, P, pr.exp2));
    Coordinates(V, pr.q, Doubled(pr.q, P, pr.exp2));
    Coordinates(V1, pr.q, Corner(pr, P));
    var line := ComputeLine(pr.q, V.x, V.y, V1.x, V1.y);
    LineIn(pr.q, V.x, V.y, V1.x, V1.y);
    EvalLine(f0, pr.q, line, Q.x, Q.y);
    ghost var t, k := f0.Value(), f.Value();
    EvalIn(pr.q, line, Q.x, Q.y);
    FiMul(f, f, f0, pr.q);
    UnscaledBy(pr.q, t);
    ScaledProduct(pr.q, Mul(pr.q, l, m), k, QMul(pr.q, -1, h, h1), 1, t, t);
    TotalIs(pr, P, Q);
    w := Mul(pr.q, Mul(pr.q, l, m), 1);
  }

  lemma {:induction false} UnscaledBy(q: nat, t: Q2)
    requires q > 1 && In(q, t)
    ensures ScaledBy(q, 1, t, t)
  {
    MulOne(q, -1, t);
  }

  // ---------------------------------------------------------------- preprocessed

  // The lines stored for a first point: the tangents of the doublings, then the closing line.
  ghost predicate Prepared(coeff: seq<Line>, pr: Params, P: Pt)
  {
    && pr.exp1 <= pr.exp2 && Doubles(pr.q, P, pr.exp2) && |coeff| == pr.exp2 + 1
    && (forall k :: 0 <= k < pr.exp2 ==> TangentStored(coeff[k], pr, P, k))
    && coeff[pr.exp2] == ClosingLine(pr, P)
  }

  ghost predicate TangentStored(l: Line, pr: Params, P: Pt, k: nat)
  {
    && Doubles(pr.q, P, k) && HasTangent(pr.q, P, k)
    && l == TangentAt(pr.q, Doubled(pr.q, P, k).x, Doubled(pr.q, P, k).y)
  }

  lemma {:induction false} StoreTangent(l: Line, pr: Params, P: Pt, k: nat, n: nat)
    requires Doubles(pr.q, P, n) && k < n && Doubled(pr.q, P, k).Aff?
    requires l == TangentAt(pr.q, Doubled(pr.q, P, k).x, Doubled(pr.q, P, k).y)
    ensures TangentStored(l, pr, P, k)
  {
    assert HasTangent(pr.q, P, k);
    hide GroupAdd, TangentAt, Doubled;
  }

  method TangentsLoop(coeff: array<Line>, V: Point, i: nat, n: nat, pr: Params, ghost P: Pt)
    requires Doubles(pr.q, P, pr.exp2) && i <= n <= pr.exp2 && coeff.Length == pr.exp2 + 1
    requires V.Valid(pr.q) && V.Value() == Doubled(pr.q, P, i)
    requires forall k :: 0 <= k < i ==> TangentStored(coeff[k], pr, P, k)
    modifies coeff, V
    ensures V.Valid(pr.q) && V.Value() == Doubled(pr.q, P, n)
    ensures forall k :: 0 <= k < n ==> TangentStored(coeff[k], pr, P, k)
  {
    hide *;
    FewerDoubles(pr.q, P, i, pr.exp2);
    for j := i to n
      invariant V.Valid(pr.q) && V.Value() == Doubled(pr.q, P, j)
      invariant forall k :: 0 <= k < j ==> TangentStored(coeff[k], pr, P, k)
    {
      FewerDoubles(pr.q, P, j, pr.exp2);
      DoublingStep(pr.q, P, j);
      OneElem(pr.q);
      Coordinates(V, pr.q, Doubled(pr.q, P, j));
      coeff[j] := ComputeTangent(pr.q, V.x, V.y);
      StoreTangent(coeff[j], pr, P, j, pr.exp2);
      CurveDouble(V, V, pr.q, 1);
    }
  }

  lemma {:induction false} DoublingStep(q: nat, P: Pt, k: nat)
    requires Doubles(q, P, k + 1)
    ensures var V := Doubled(q, P, k); V.Aff? && V.y != 0 && Proper(q, V) && Doubled(q, P, k + 1) == GroupAdd(q, 1, V, V)
  {
    assert HasTangent(q, P, k);
    hide GroupAdd;
  }

  method PpInit(in1: Point, pr: Params) returns (coeff: array<Line>)
    requires pr.exp1 <= pr.exp2 && Doubles(pr.q, in1.Value(), pr.exp2)
    ensures Prepared(coeff[..], pr, in1.Value()) && fresh(coeff)
  {
    hide *;
    ghost var P := in1.Value();
    coeff := new Line[pr.exp2 + 1](_ => Line(0, 0, 0));
    var V := new Point(in1.Value());
    FewerDoubles(pr.q, P, 0, pr.exp2);
    FewerDoubles(pr.q, P, pr.exp1, pr.exp2);
    FirstPoint(V, pr.q, P);
    TangentsLoop(coeff, V, 0, pr.exp1, pr, P);
    var V1 := CornerPoint(V, pr, P);
    TangentsLoop(coeff, V, pr.exp1, pr.exp2, pr, P);
    DoubledIsFinite(pr.q, P, pr.exp2);
    FewerDoubles(pr.q, P, pr.exp2, pr.exp2);
    Coordinates(V, pr.q, Doubled(pr.q, P, pr.exp2));
    Coordinates(V1, pr.q, Corner(pr, P));
    coeff[pr.exp2] := ComputeLine(pr.q, V.x, V.y, V1.x, V1.y);
    PreparedIntro(coeff[..], pr, P);
  }

  lemma {:induction false} FirstPoint(V: Point, q: nat, P: Pt)
    requires Doubles(q, P, 0) && V.Value() == P
    ensures Doubled(q, P, 0) == P && V.Valid(q)
  {
  }

  lemma {:induction false} PreparedIntro(coeff: seq<Line>, pr: Params, P: Pt)
    requires pr.exp1 <= pr.exp2 && Doubles(pr.q, P, pr.exp2) && |coeff| == pr.exp2 + 1
    requires forall k :: 0 <= k < pr.exp2 ==> TangentStored(coeff[k], pr, P, k)
    requires Doubled(pr.q, P, pr.exp2).Aff? && Doubles(pr.q, P, pr.exp1)
    requires var V, V1 := Doubled(pr.q, P, pr.exp2), Corner(pr, P); coeff[pr.exp2] == ChordAt(pr.q, V.x, V.y, V1.x, V1.y)
    ensures Prepared(coeff, pr, P)
  {
    hide Doubled, ChordAt, Corner, TangentStored;
  }

  lemma {:induction false} PreparedMeans(coeff: seq<Line>, pr: Params, P: Pt, k: nat)
    requires Prepared(coeff, pr, P) && k <= pr.exp2
    ensures |coeff| == pr.exp2 + 1 && Doubles(pr.q, P, k) && Doubles(pr.q, P, pr.exp2) && pr.q > 2 && pr.exp1 <= pr.exp2
    ensures IsPrime(pr.q) && Proper(pr.q, P) && HasI(pr.q)
    ensures k < pr.exp2 ==> Doubles(pr.q, P, k + 1) && Doubled(pr.q, P, k).Aff?
    ensures k < pr.exp2 ==> coeff[k] == TangentAt(pr.q, Doubled(pr.q, P, k).x, Doubled(pr.q, P, k).y)
    ensures k == pr.exp2 ==> coeff[k] == ClosingLine(pr, P)
  {
    if k < pr.exp2 { assert HasTangent(pr.q, P, k) && TangentStored(coeff[k], pr, P, k); }
    hide Doubled, TangentAt, ClosingLine;
  }

  method PpLoop(f: Element, f0: Element, coeff: array<Line>, i: nat, n: nat, pr: Params, ghost P: Pt, Q: Pt)
    requires Regular(pr, P, Q) && i <= n <= pr.exp2 && f != f0 && Prepared(coeff[..], pr, P) && Doubles(pr.q, P, i)
    requires f.Value() == Miller(pr.q, P, Q, i)
    modifies f, f0
    ensures Doubles(pr.q, P, n) && f.Value() == Miller(pr.q, P, Q, n)
  {
    hide *;
    RegularMeans(pr, P, Q);
    for j := i to n
      invariant Doubles(pr.q, P, j) && f.Value() == Miller(pr.q, P, Q, j)
    {
      PreparedMeans(coeff[..], pr, P, j);
      FewerDoubles(pr.q, P, j, pr.exp2);
      MillerStep(pr.q, P, Q, j);
      MillerIn(pr, P, Q, j);
      ValidIs(f, pr.q);
      FiSquare(f, f, pr.q);
      TangentIn(pr.q, Doubled(pr.q, P, j).x, Doubled(pr.q, P, j).y);
      EvalLine(f0, pr.q, coeff[j], Q.x, Q.y);
      FiMul(f, f, f0, pr.q);
    }
  }

  // The result buffer holds the corner factor until the end.
  method PpApply(out: Element, in2: Point, coeff: array<Line>, pr: Params, ghost P: Pt, left: int)
    requires Regular(pr, P, in2.Value()) && Prepared(coeff[..], pr, P)
    modifies out
    ensures out.Value() == old(Pairing(pr, P, in2.Value()))
  {
    hide *;
    var Q := in2.Value();
    PairingMeans(pr, P, Q);
    var f := new Element(One);
    var f0 := new Element(One);
    MillerStart(pr.q, P, Q);
    PpLoop(f, f0, coeff, 0, pr.exp1, pr, P, Q);
    MillerIn(pr, P, Q, pr.exp1);
    if pr.sign1 < 0 {
      InvertMiller(out, f, pr, P, Q, left);
    } else {
      CopyElement(out, f);
    }
    CornerFactorIs(pr, P, Q);
    PpLoop(f, f0, coeff, pr.exp1, pr.exp2, pr, P, Q);
    MillerIn(pr, P, Q, pr.exp2);
    RegularMeans(pr, P, Q);
    ValidIs(f, pr.q);
    ValidIs(out, pr.q);
    FiMul(f, f, out, pr.q);
    PreparedMeans(coeff[..], pr, P, pr.exp2);
    ClosingLineIn(pr, P);
    EvalLine(f0, pr.q, coeff[pr.exp2], Q.x, Q.y);
    FiMul(f, f, f0, pr.q);
    TotalIsClosing(pr, P, Q);
    ElementCoordinates(f, Total(pr, P, Q));
    TateExp(out, f, f0, pr.cofactor, pr.q, left);
    PairingIs(pr, P, Q);
  }

  lemma {:induction false} MillerStart(q: nat, P: Pt, Q: Pt)
    requires Doubles(q, P, 0) && Q.Aff?
    ensures Miller(q, P, Q, 0) == One
  {
  }

  lemma {:induction false} ClosingLineIn(pr: Params, P: Pt)
    requires Doubles(pr.q, P, pr.exp2) && pr.exp1 <= pr.exp2
    ensures Proportions(pr.q, ClosingLine(pr, P))
  {
    hide Doubled, Corner;
  }

  lemma {:induction false} TotalIsClosing(pr: Params, P: Pt, Q: Pt)
    requires Regular(pr, P, Q)
    ensures Doubles(pr.q, P, pr.exp2) && HasI(pr.q) && Q.Aff? && pr.q > 0
    ensures Total(pr, P, Q) == QMul(pr.q, -1, QMul(pr.q, -1, Miller(pr.q, P, Q, pr.exp2), CornerFactor(pr, P, Q)),
      Eval(pr.q, ClosingLine(pr, P), Q.x, Q.y))
  {
    hide QMul, Miller, CornerFactor, Eval, ClosingLine;
  }
}
