// A nonzero polynomial below an irreducible one is a unit modulo it: Euclid's algorithm as an argument.
module PolynomialBezout {
  import opened Arith
  import opened Fp
  import opened Polynomials
  import opened PolynomialDivision

  // The inner loop of the division, as a value.
  ghost function Eliminate(p: nat, r: Poly, b: Poly, c: int, k: nat): (r': Poly)
    requires p > 0 && |b| + k <= |r| && IsReduced(p, r)
    ensures Eliminated(p, r, r', b, c, k) && IsReduced(p, r')
  {
    seq(|r|, j requires 0 <= j < |r| => if k <= j < k + |b| then Sub(p, r[j], Mul(p, c, b[j - k])) else r[j])
  }

  lemma {:induction false} DivideDownExists(p: nat, a: Poly, b: Poly) returns (q: Poly, r: Poly)
    requires IsPrime(p) && IsPoly(p, a) && IsPoly(p, b) && 0 < |b| <= |a|
    ensures |r| == |a| && IsReduced(p, r) && Divides(p, a, b, q, r) && forall j :: |b| - 1 <= j < |r| ==> r[j] == 0
  {
    hide *;
    DivStart(p, a, b);
    ZeroElem(p);
    r := a;
    var k := |a| - |b|;
    q := Zeros(k + 1);
    var binv := Inv(p, b[|b| - 1]);
    while k >= 0
      invariant -1 <= k <= |a| - |b| && DivState(p, a, b, q, r, k)
    {
      DivStateMeans(p, a, b, q, r, k);
      var qe := Mul(p, binv, r[|b| - 1 + k]);
      var r' := Eliminate(p, r, b, qe, k);
      DivStep(p, a, b, q, r, k, binv, qe, r');
      q := q[k := qe];
      r := r';
      k := k - 1;
    }
    DivStateMeans(p, a, b, q, r, k);
  }

  // The shortest list with the same coefficients.
  ghost function Shorten(f: Poly): (r: Poly)
    ensures SameCoefs(r, f) && |r| <= |f| && (r != [] ==> r[|r| - 1] != 0) && forall i :: 0 <= i < |r| ==> r[i] == f[i]
    ensures forall k :: |r| <= k < |f| ==> f[k] == 0
  {
    if f == [] then []
    else if f[|f| - 1] != 0 then f
    else
      var g := f[..|f| - 1];
      assert SameCoefs(g, f);
      Shorten(g)
  }

  lemma {:induction false} DivisionExists(p: nat, a: Poly, b: Poly) returns (q: Poly, r: Poly)
    requires IsPrime(p) && IsPoly(p, a) && IsPoly(p, b) && b != []
    ensures IsPoly(p, r) && |r| < |b| && Divides(p, a, b, q, r)
  {
    if |b| > |a| {
      StartDivision(p, a, b, 0);
      assert Zeros(0) == [];
      q, r := [], a;
    } else {
      var r0;
      q, r0 := DivideDownExists(p, a, b);
      r := Shorten(r0);
      SameRemainder(p, a, b, q, r0, r);
    }
  }

  // The state of the argument: the last two remainders are combinations of f and m, and m is one of them.
  ghost predicate Chain(p: nat, f: Poly, m: Poly, r0: Poly, r1: Poly, b0: Poly, c0: Poly, b1: Poly, c1: Poly, s: Poly, t: Poly)
  {
    && IsPoly(p, r0) && IsPoly(p, r1) && 0 < |r1| < |r0| <= |m|
    && Combo(p, r0, b0, f, c0, m) && Combo(p, r1, b1, f, c1, m) && Combo(p, m, s, r0, t, r1)
  }

  lemma {:induction false} ChainStart(p: nat, f: Poly, m: Poly)
    requires p > 1 && IsPoly(p, f) && IsPoly(p, m) && 0 < |f| < |m|
    ensures Chain(p, f, m, m, f, [], [1], [1], [], [1], [])
  {
    EuclideanStart(p, f, m);
  }

  lemma {:induction false} ChainStep(p: nat, f: Poly, m: Poly, r0: Poly, r1: Poly, b0: Poly, c0: Poly, b1: Poly, c1: Poly, s: Poly, t: Poly, q: Poly, r2: Poly)
    requires p > 0 && Chain(p, f, m, r0, r1, b0, c0, b1, c1, s, t)
    requires IsPoly(p, r2) && 0 < |r2| < |r1| && Divides(p, r0, r1, q, r2)
    ensures Chain(p, f, m, r1, r2, b1, c1, PSub(b0, PMul(b1, q)), PSub(c0, PMul(q, c1)), PAdd(PMul(s, q), t), s)
  {
    hide Combo, Divides, IsPoly, PSub, PMul;
    assert CoefCong(p, PMul(b1, q), PMul(b1, q)) && CoefCong(p, PSub(b0, PMul(b1, q)), PSub(b0, PMul(b1, q)));
    NextCombo(p, r0, b0, c0, r1, b1, c1, f, m, q, r2, PMul(b1, q), PSub(b0, PMul(b1, q)));
    NextBack(p, m, s, r0, t, r1, q, r2);
  }

  lemma ChainMeans(p: nat, f: Poly, m: Poly, r0: Poly, r1: Poly, b0: Poly, c0: Poly, b1: Poly, c1: Poly, s: Poly, t: Poly)
    requires Chain(p, f, m, r0, r1, b0, c0, b1, c1, s, t)
    ensures IsPoly(p, r0) && IsPoly(p, r1) && 0 < |r1| < |r0| <= |m| && Combo(p, r1, b1, f, c1, m) && Combo(p, m, s, r0, t, r1)
  {
  }

  // 1 = b*f + c*m, modulo p.
  lemma {:induction false} BezoutExists(p: nat, f: Poly, m: Poly) returns (b: Poly, c: Poly)
    requires Irreducible(p, m) && IsPoly(p, f) && 0 < |f| < |m|
    ensures Combo(p, [1], b, f, c, m)
  {
    hide *;
    IrreducibleMeans(p, m);
    ChainStart(p, f, m);
    var b0: Poly, c0: Poly, b1: Poly, c1: Poly, s: Poly, t: Poly := [], [1], [1], [], [1], [];
    var r0, r1 := m, f;
    var q, r2;
    while true
      invariant Chain(p, f, m, r0, r1, b0, c0, b1, c1, s, t)
      decreases |r1|
    {
      ChainMeans(p, f, m, r0, r1, b0, c0, b1, c1, s, t);
      q, r2 := DivisionExists(p, r0, r1);
      if r2 == [] { break; }
      ChainStep(p, f, m, r0, r1, b0, c0, b1, c1, s, t, q, r2);
      b0, b1 := b1, PSub(b0, PMul(b1, q));
      c0, c1 := c1, PSub(c0, PMul(q, c1));
      s, t := PAdd(PMul(s, q), t), s;
      r0, r1 := r1, r2;
    }
    LastIsConstant(p, m, s, r0, t, r1, q);
    ConstantNonzero(p, r1);
    b, c := ScaleToOne(p, r1, b1, f, c1, m);
  }

  lemma {:induction false} ScaleToOne(p: nat, r: Poly, b: Poly, f: Poly, c: Poly, m: Poly) returns (b': Poly, c': Poly)
    requires IsPrime(p) && |r| == 1 && Elem(p, r[0]) && r[0] != 0 && Combo(p, r, b, f, c, m)
    ensures Combo(p, [1], b', f, c', m)
  {
    hide *;
    ZeroElem(p);
    var i := Inv(p, r[0]);
    b', c' := PScale(i, b), PScale(i, c);
    ConstantOne(p, r, i);
    CoefCongIsCong(p, [], PScale(i, r), [1]);
    CongSym(p, [], PScale(i, r), [1]);
    ComboIntro(p, r, b, f, c, m);
    ScaledDiff(r, b, f, c, m, i);
    CongFrom(p, [], [1], [1], PScale(i, r), [i], r, PAdd(PMul(b, f), PMul(c, m)), [1], PAdd(PMul(b', f), PMul(c', m)));
    ComboIntro(p, [1], b', f, c', m);
  }

  lemma {:induction false} ScaledDiff(r: Poly, b: Poly, f: Poly, c: Poly, m: Poly, i: int)
    ensures Diff([1], [1], PScale(i, r), [i], r, PAdd(PMul(b, f), PMul(c, m)), [1], PAdd(PMul(PScale(i, b), f), PMul(PScale(i, c), m)))
  {
    hide Ev, PAdd, PMul, PScale;
    var g, h := PAdd(PMul(b, f), PMul(c, m)), PAdd(PMul(PScale(i, b), f), PMul(PScale(i, c), m));
    forall X ensures Ev([1], X) - Ev(h, X) == Ev([1], X) * (Ev([1], X) - Ev(PScale(i, r), X)) + Ev([i], X) * (Ev(r, X) - Ev(g, X)) {
      EvConst(1, X);
      EvConst(i, X);
      EvScale(i, r, X);
      EvScale(i, b, X);
      EvScale(i, c, X);
      ComboValue(b, f, c, m, X);
      ComboValue(PScale(i, b), f, PScale(i, c), m, X);
      ScaledPoly(i, Ev(r, X), Ev(b, X), Ev(f, X), Ev(c, X), Ev(m, X));
    }
  }

  lemma ScaledPoly(i: int, r: int, b: int, f: int, c: int, m: int)
    ensures 1 - (i * b * f + i * c * m) == 1 * (1 - i * r) + i * (r - (b * f + c * m))
  {
  }
}
