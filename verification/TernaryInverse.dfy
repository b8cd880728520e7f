// Inversion in GF(3^m) by a fixed number of 2m steps on words.
module TernaryInverse {
  import opened Arith
  import opened TernaryWords
  import opened TernaryElements
  import opened TernaryField
  import opened Polynomials
  import opened PolynomialDivision
  import PolynomialBezout

  // ---------------------------------------------------------------- the invariant, on polynomials

  // x^c*a*u is congruent to r modulo the trinomial.
  ghost predicate Linked(a: Poly, u: Poly, r: Poly, c: nat, m: nat, t: nat)
  {
    Cong(3, Trinomial(m, t), PShift(c, PMul(a, u)), r)
  }

  // r is x^k*f modulo 3.
  ghost predicate IsShiftOf(r: Poly, k: nat, f: Poly)
  {
    Cong(3, [], r, PShift(k, f))
  }

  // f and g generate 1.
  ghost predicate Coprime3(f: Poly, g: Poly, A: Poly, B: Poly)
  {
    Combo(3, [1], A, f, B, g)
  }

  ghost predicate ZeroMod3(f: Poly)
  {
    CoefCong(3, f, [])
  }

  lemma {:induction false} EvShifted(k: nat, a: Poly, u: Poly, X: int)
    ensures Ev(PShift(k, PMul(a, u)), X) == Pow(X, k) * (Ev(a, X) * Ev(u, X))
  {
    EvShift(k, PMul(a, u), X);
    EvMul(a, u, X);
  }

  // Multiplying both sides by x.
  lemma {:induction false} LinkTimesX(a: Poly, u: Poly, r: Poly, c: nat, m: nat, t: nat, u': Poly, r': Poly)
    requires Linked(a, u, r, c, m, t) && Cong(3, Trinomial(m, t), u', PShift(1, u)) && (forall X :: Ev(r', X) == Ev(PShift(1, r), X))
    ensures Linked(a, u', r', c, m, t)
  {
    hide Cong, PMul, Ev;
    var M := Trinomial(m, t);
    LinkTimesDiff(a, u, r, c, u', r');
    CongFrom(3, M, PShift(c, a), u', PShift(1, u), [0, 1], PShift(c, PMul(a, u)), r, PShift(c, PMul(a, u')), r');
  }

  lemma {:induction false} LinkTimesDiff(a: Poly, u: Poly, r: Poly, c: nat, u': Poly, r': Poly)
    requires forall X :: Ev(r', X) == Ev(PShift(1, r), X)
    ensures Diff(PShift(c, a), u', PShift(1, u), [0, 1], PShift(c, PMul(a, u)), r, PShift(c, PMul(a, u')), r')
  {
    hide PMul, PShift, Ev, Pow;
    forall X ensures Ev(PShift(c, PMul(a, u')), X) - Ev(r', X) ==
        Ev(PShift(c, a), X) * (Ev(u', X) - Ev(PShift(1, u), X)) + Ev([0, 1], X) * (Ev(PShift(c, PMul(a, u)), X) - Ev(r, X)) {
      assert Ev(r', X) == Ev(PShift(1, r), X);
      EvShifted(c, a, u', X);
      EvShifted(c, a, u, X);
      EvShift(c, a, X);
      EvShift(1, u, X);
      EvShift(1, r, X);
      EvX(X);
      LinkTimesPoly(X, Pow(X, c), Ev(a, X), Ev(u, X), Ev(u', X), Ev(r, X));
    }
  }

  lemma LinkTimesPoly(X: int, w: int, a: int, u: int, u': int, r: int)
    ensures w * (a * u') - X * r == w * a * (u' - X * u) + X * (w * (a * u) - r)
  {
  }

  // Subtracting q times the other pair.
  lemma {:induction false} LinkSubtract(a: Poly, v: Poly, s: Poly, u: Poly, r: Poly, q: int, c: nat, m: nat, t: nat, v': Poly, s': Poly)
    requires Linked(a, v, s, c, m, t) && Linked(a, u, r, c, m, t)
    requires CoefCong(3, v', PSub(v, PScale(q, u))) && CoefCong(3, s', PSub(s, PScale(q, r)))
    ensures Linked(a, v', s', c, m, t)
  {
    hide Cong, PMul, PSub, PScale, Ev, CoefCong;
    var M := Trinomial(m, t);
    CoefCongIsCong(3, M, v', PSub(v, PScale(q, u)));
    CoefCongIsCong(3, M, s', PSub(s, PScale(q, r)));
    LinkSubtractDiff(a, v, s, u, r, q, c, v', s');
    CongFrom4(3, M, PShift(c, a), v', PSub(v, PScale(q, u)), [1], PShift(c, PMul(a, v)), s, [-q], PShift(c, PMul(a, u)), r, [-1], s', PSub(s, PScale(q, r)),
      PShift(c, PMul(a, v')), s');
  }

  lemma {:induction false} LinkSubtractDiff(a: Poly, v: Poly, s: Poly, u: Poly, r: Poly, q: int, c: nat, v': Poly, s': Poly)
    ensures Diff4(PShift(c, a), v', PSub(v, PScale(q, u)), [1], PShift(c, PMul(a, v)), s, [-q], PShift(c, PMul(a, u)), r, [-1], s', PSub(s, PScale(q, r)),
      PShift(c, PMul(a, v')), s')
  {
    hide Ev, PMul, PShift, PSub, PScale;
    forall X {:trigger Ev(s, X)} ensures LinkSubtractHolds(a, v, s, u, r, q, c, v', s', X) { LinkSubtractAt(a, v, s, u, r, q, c, v', s', X); }
  }

  ghost predicate LinkSubtractHolds(a: Poly, v: Poly, s: Poly, u: Poly, r: Poly, q: int, c: nat, v': Poly, s': Poly, X: int)
  {
    Ev(PShift(c, PMul(a, v')), X) - Ev(s', X) ==
      Ev(PShift(c, a), X) * (Ev(v', X) - Ev(PSub(v, PScale(q, u)), X)) + Ev([1], X) * (Ev(PShift(c, PMul(a, v)), X) - Ev(s, X)) +
      Ev([-q], X) * (Ev(PShift(c, PMul(a, u)), X) - Ev(r, X)) + Ev([-1], X) * (Ev(s', X) - Ev(PSub(s, PScale(q, r)), X))
  }

  lemma {:induction false} LinkSubtractAt(a: Poly, v: Poly, s: Poly, u: Poly, r: Poly, q: int, c: nat, v': Poly, s': Poly, X: int)
    ensures LinkSubtractHolds(a, v, s, u, r, q, c, v', s', X)
  {
    hide Ev, PMul, PShift, PSub, PScale, Pow;
    EvShifted(c, a, v', X);
    EvShifted(c, a, v, X);
    EvShifted(c, a, u, X);
    EvShift(c, a, X);
    EvSub(v, PScale(q, u), X);
    EvSub(s, PScale(q, r), X);
    EvScale(q, u, X);
    EvScale(q, r, X);
    EvConst(1, X);
    EvConst(-1, X);
    EvConst(-q, X);
    LinkSubtractPoly(Pow(X, c), Ev(a, X), Ev(v, X), Ev(v', X), Ev(u, X), Ev(s, X), Ev(s', X), Ev(r, X), q);
  }

  lemma {:induction false} LinkSubtractPoly(w: int, a: int, v: int, v': int, u: int, s: int, s': int, r: int, q: int)
    ensures w * (a * v') - s' == w * a * (v' - (v - q * u)) + 1 * (w * (a * v) - s) + (0 - q) * (w * (a * u) - r) + -1 * (s' - (s - q * r))
  {
    assert w * a * (v' - (v - q * u)) == w * (a * v') - w * (a * v) + q * (w * (a * u));
  }

  // Counting one more x on the left.
  lemma {:induction false} LinkCount(a: Poly, u: Poly, r: Poly, c: nat, m: nat, t: nat, r': Poly)
    requires Linked(a, u, r, c, m, t) && forall X :: Ev(r', X) == Ev(PShift(1, r), X)
    ensures Linked(a, u, r', c + 1, m, t)
  {
    hide Cong, PMul, Ev;
    var M := Trinomial(m, t);
    CountDiff(a, u, r, c, r');
    CongSame(3, M, r, r);
    CongFrom(3, M, [0, 1], PShift(c, PMul(a, u)), r, [1], r, r, PShift(c + 1, PMul(a, u)), r');
  }

  lemma {:induction false} CountDiff(a: Poly, u: Poly, r: Poly, c: nat, r': Poly)
    requires forall X :: Ev(r', X) == Ev(PShift(1, r), X)
    ensures Diff([0, 1], PShift(c, PMul(a, u)), r, [1], r, r, PShift(c + 1, PMul(a, u)), r')
  {
    hide PMul, PShift, Ev, Pow;
    forall X ensures Ev(PShift(c + 1, PMul(a, u)), X) - Ev(r', X) ==
        Ev([0, 1], X) * (Ev(PShift(c, PMul(a, u)), X) - Ev(r, X)) + Ev([1], X) * (Ev(r, X) - Ev(r, X)) {
      assert Ev(r', X) == Ev(PShift(1, r), X);
      EvShifted(c + 1, a, u, X);
      EvShifted(c, a, u, X);
      EvShift(1, r, X);
      EvX(X);
      CountPoly(X, Pow(X, c), Ev(a, X), Ev(u, X), Ev(r, X));
    }
  }

  lemma CountPoly(X: int, w: int, a: int, u: int, r: int)
    ensures X * w * (a * u) - X * r == X * (w * (a * u) - r) + 1 * (r - r)
  {
  }

  // Dividing u by x while counting one more x.
  lemma {:induction false} LinkDivide(a: Poly, u: Poly, r: Poly, c: nat, m: nat, t: nat, u': Poly)
    requires Linked(a, u, r, c, m, t) && Cong(3, Trinomial(m, t), PShift(1, u'), u)
    ensures Linked(a, u', r, c + 1, m, t)
  {
    hide Cong, PMul, Ev;
    var M := Trinomial(m, t);
    DivideDiff(a, u, r, c, u');
    CongFrom(3, M, PShift(c, a), PShift(1, u'), u, [1], PShift(c, PMul(a, u)), r, PShift(c + 1, PMul(a, u')), r);
  }

  lemma {:induction false} DivideDiff(a: Poly, u: Poly, r: Poly, c: nat, u': Poly)
    ensures Diff(PShift(c, a), PShift(1, u'), u, [1], PShift(c, PMul(a, u)), r, PShift(c + 1, PMul(a, u')), r)
  {
    hide PMul, PShift, Ev, Pow;
    forall X ensures Ev(PShift(c + 1, PMul(a, u')), X) - Ev(r, X) ==
        Ev(PShift(c, a), X) * (Ev(PShift(1, u'), X) - Ev(u, X)) + Ev([1], X) * (Ev(PShift(c, PMul(a, u)), X) - Ev(r, X)) {
      EvShifted(c + 1, a, u', X);
      EvShifted(c, a, u, X);
      EvShift(c, a, X);
      EvShift(1, u', X);
      EvX(X);
      DividePoly(X, Pow(X, c), Ev(a, X), Ev(u, X), Ev(u', X), Ev(r, X));
    }
  }

  lemma DividePoly(X: int, w: int, a: int, u: int, u': int, r: int)
    ensures X * w * (a * u') - r == w * a * (X * u' - u) + 1 * (w * (a * u) - r)
  {
  }

  // ---------------------------------------------------------------- the shifts of S and R

  lemma {:induction false} ShiftMore(r: Poly, k: nat, f: Poly, r': Poly)
    requires IsShiftOf(r, k, f) && forall X :: Ev(r', X) == Ev(PShift(1, r), X)
    ensures IsShiftOf(r', k + 1, f)
  {
    hide Cong, Ev;
    ShiftMoreDiff(r, k, f, r');
    CongSame(3, [], r, r);
    CongFrom(3, [], [0, 1], r, PShift(k, f), [1], r, r, r', PShift(k + 1, f));
  }

  lemma {:induction false} ShiftMoreDiff(r: Poly, k: nat, f: Poly, r': Poly)
    requires forall X :: Ev(r', X) == Ev(PShift(1, r), X)
    ensures Diff([0, 1], r, PShift(k, f), [1], r, r, r', PShift(k + 1, f))
  {
    hide PShift, Ev, Pow;
    forall X ensures Ev(r', X) - Ev(PShift(k + 1, f), X) == Ev([0, 1], X) * (Ev(r, X) - Ev(PShift(k, f), X)) + Ev([1], X) * (Ev(r, X) - Ev(r, X)) {
      assert Ev(r', X) == Ev(PShift(1, r), X);
      EvShift(1, r, X);
      EvShift(k, f, X);
      EvShift(k + 1, f, X);
      EvX(X);
      ShiftMorePoly(X, Ev(r, X), Pow(X, k), Ev(f, X));
    }
  }

  lemma ShiftMorePoly(X: int, r: int, w: int, f: int)
    ensures X * r - X * w * f == X * (r - w * f) + 1 * (r - r)
  {
  }

  // S - q*R over x^c.
  function Reduced(f: Poly, g: Poly, q: int, d: nat): Poly
  {
    PSub(f, PScale(q, PShift(d, g)))
  }

  lemma {:induction false} ShiftSubtract(s: Poly, r: Poly, f: Poly, g: Poly, q: int, c: nat, d: nat, s': Poly)
    requires IsShiftOf(s, c, f) && IsShiftOf(r, c + d, g) && CoefCong(3, s', PSub(s, PScale(q, r)))
    ensures IsShiftOf(s', c, Reduced(f, g, q, d))
  {
    hide Cong, CoefCong, PSub, PScale, Ev, Reduced;
    var u := PSub(s, PScale(q, r));
    CoefCongIsCong(3, [], s', u);
    ShiftSubtractDiff(s, r, f, g, q, c, d);
    CongFrom(3, [], [1], s, PShift(c, f), [-q], r, PShift(c + d, g), u, PShift(c, Reduced(f, g, q, d)));
    CongTrans(3, [], s', u, PShift(c, Reduced(f, g, q, d)));
  }

  lemma {:induction false} ShiftSubtractDiff(s: Poly, r: Poly, f: Poly, g: Poly, q: int, c: nat, d: nat)
    ensures Diff([1], s, PShift(c, f), [-q], r, PShift(c + d, g), PSub(s, PScale(q, r)), PShift(c, Reduced(f, g, q, d)))
  {
    hide PShift, Ev, PSub, PScale, Pow, Reduced;
    var u, v := PSub(s, PScale(q, r)), PShift(c, Reduced(f, g, q, d));
    forall X ensures Ev(u, X) - Ev(v, X) == Ev([1], X) * (Ev(s, X) - Ev(PShift(c, f), X)) + Ev([-q], X) * (Ev(r, X) - Ev(PShift(c + d, g), X)) {
      EvSub(s, PScale(q, r), X);
      EvScale(q, r, X);
      EvShift(c, Reduced(f, g, q, d), X);
      EvReduced(f, g, q, d, X);
      EvShift(c, f, X);
      EvShift(c + d, g, X);
      EvConst(1, X);
      EvConst(-q, X);
      PowAdd(X, c, d);
      ShiftSubtractPoly(Ev(s, X), Ev(r, X), q, Pow(X, c), Pow(X, d), Ev(f, X), Ev(g, X));
    }
  }

  lemma {:induction false} EvReduced(f: Poly, g: Poly, q: int, d: nat, X: int)
    ensures Ev(Reduced(f, g, q, d), X) == Ev(f, X) - q * (Pow(X, d) * Ev(g, X))
  {
    EvSub(f, PScale(q, PShift(d, g)), X);
    EvScale(q, PShift(d, g), X);
    EvShift(d, g, X);
  }

  lemma ShiftSubtractPoly(s: int, r: int, q: int, w: int, v: int, f: int, g: int)
    ensures s - q * r - w * (f - q * (v * g)) == 1 * (s - w * f) + (0 - q) * (r - w * v * g)
  {
  }

  // Coprimality survives the reduction.
  lemma {:induction false} StillCoprime(f: Poly, g: Poly, A: Poly, B: Poly, q: int, d: nat)
    requires Coprime3(f, g, A, B)
    ensures Coprime3(Reduced(f, g, q, d), g, A, PAdd(B, PScale(q, PShift(d, A))))
  {
    hide Cong, PAdd, PMul, PScale, PShift, Ev, Reduced, Pow;
    var u, v := PAdd(PMul(A, f), PMul(B, g)), PAdd(PMul(A, Reduced(f, g, q, d)), PMul(PAdd(B, PScale(q, PShift(d, A))), g));
    forall X ensures Ev(u, X) == Ev(v, X) {
      ComboValue(A, f, B, g, X);
      ComboValue(A, Reduced(f, g, q, d), PAdd(B, PScale(q, PShift(d, A))), g, X);
      EvReduced(f, g, q, d, X);
      EvAdd(B, PScale(q, PShift(d, A)), X);
      EvScale(q, PShift(d, A), X);
      EvShift(d, A, X);
      StillPoly(Ev(A, X), Ev(f, X), Ev(B, X), Ev(g, X), q, Pow(X, d));
    }
    CongSame(3, [], u, v);
    CongTrans(3, [], [1], u, v);
  }

  lemma StillPoly(A: int, f: int, B: int, g: int, q: int, w: int)
    ensures A * f + B * g == A * (f - q * (w * g)) + (B + q * (w * A)) * g
  {
  }

  lemma {:induction false} CoprimeSwap(f: Poly, g: Poly, A: Poly, B: Poly)
    requires Coprime3(f, g, A, B)
    ensures Coprime3(g, f, B, A)
  {
    hide Cong, PAdd, PMul, Ev;
    var u, v := PAdd(PMul(A, f), PMul(B, g)), PAdd(PMul(B, g), PMul(A, f));
    forall X ensures Ev(u, X) == Ev(v, X) {
      ComboValue(A, f, B, g, X);
      ComboValue(B, g, A, f, X);
    }
    CongSame(3, [], u, v);
    CongTrans(3, [], [1], u, v);
  }

  // ---------------------------------------------------------------- degrees

  lemma Three()
    ensures IsPrime(3)
  {
  }

  // If f is zero, its partner is a nonzero constant.
  lemma {:induction false} PartnerOfZero(f: Poly, g: Poly, A: Poly, B: Poly) returns (n: Poly)
    requires Coprime3(f, g, A, B) && ZeroMod3(f)
    ensures CoefCong(3, g, n) && |n| == 1
  {
    Three();
    var h := PMul(B, g);
    CoefCongIsCong(3, [], f, []);
    ZeroTermDiff(f, g, A, B);
    CongSame(3, [], h, h);
    CongFrom(3, [], A, f, [], [1], h, h, PAdd(PMul(A, f), PMul(B, g)), h);
    CongTrans(3, [], [1], PAdd(PMul(A, f), PMul(B, g)), h);
    var nB := Normalise(3, B);
    n := Normalise(3, g);
    FactorCong(3, [1], B, nB, g);
    SwapFactor(nB, g, n);
    ProductOfOne(nB, n);
  }

  lemma {:induction false} ZeroTermDiff(f: Poly, g: Poly, A: Poly, B: Poly)
    ensures Diff(A, f, [], [1], PMul(B, g), PMul(B, g), PAdd(PMul(A, f), PMul(B, g)), PMul(B, g))
  {
    hide Ev, PAdd, PMul;
    var u, h := PAdd(PMul(A, f), PMul(B, g)), PMul(B, g);
    forall X ensures Ev(u, X) - Ev(h, X) == Ev(A, X) * (Ev(f, X) - Ev([], X)) + Ev([1], X) * (Ev(h, X) - Ev(h, X)) {
      ComboValue(A, f, B, g, X);
      EvMul(B, g, X);
      EvConst(1, X);
    }
  }

  lemma {:induction false} SwapFactor(b: Poly, g: Poly, n: Poly)
    requires CoefCong(3, [1], PMul(b, g)) && CoefCong(3, g, n)
    ensures CoefCong(3, [1], PMul(b, n))
  {
    hide Ev, PMul, CoefCong, Cong;
    CoefCongIsCong(3, [], [1], PMul(b, g));
    forall X ensures Ev(PMul(b, g), X) == Ev(PMul(g, b), X) {
      EvMul(b, g, X);
      EvMul(g, b, X);
      TimesCommutes(Ev(b, X), Ev(g, X));
    }
    CongSame(3, [], PMul(b, g), PMul(g, b));
    CongTrans(3, [], [1], PMul(b, g), PMul(g, b));
    FactorCong(3, [1], g, n, b);
    forall X ensures Ev(PMul(n, b), X) == Ev(PMul(b, n), X) {
      EvMul(b, n, X);
      EvMul(n, b, X);
      TimesCommutes(Ev(b, X), Ev(n, X));
    }
    CongSame(3, [], PMul(n, b), PMul(b, n));
    CoefCongIsCong(3, [], [1], PMul(n, b));
    CongTrans(3, [], [1], PMul(n, b), PMul(b, n));
    CongModP(3, [1], PMul(b, n));
  }

  lemma {:induction false} ProductOfOne(b: Poly, n: Poly)
    requires IsPoly(3, b) && IsPoly(3, n) && CoefCong(3, [1], PMul(b, n))
    ensures |n| == 1
  {
    Three();
    assert Coef([1], 0) % 3 == Coef(PMul(b, n), 0) % 3;
    if n == [] {
      ProductWithNothing(b, n);
    } else {
      ProductLength(3, [1], b, n);
    }
  }

  // The digit of x^k*n for a constant n.
  lemma {:induction false} ConstantShift(r: Poly, k: nat, g: Poly, n: Poly, i: nat)
    requires IsShiftOf(r, k, g) && CoefCong(3, g, n) && |n| == 1 && i != k
    ensures Coef(r, i) % 3 == 0
  {
    CongModP(3, r, PShift(k, g));
    assert Coef(r, i) % 3 == Coef(PShift(k, g), i) % 3;
    if i >= k { assert Coef(PShift(k, g), i) == Coef(g, i - k) && Coef(g, i - k) % 3 == Coef(n, i - k) % 3; }
  }

  // A nonzero polynomial shifted by k with nothing above m: k is at most m, and equal only for a constant.
  lemma {:induction false} ShiftFits(r: Poly, k: nat, g: Poly, m: nat)
    requires IsShiftOf(r, k, g) && !ZeroMod3(g) && forall i: nat :: i > m ==> Coef(r, i) == 0
    ensures k <= m
    ensures k == m ==> Coef(r, m) % 3 != 0 && forall i: nat :: i != m ==> Coef(r, i) % 3 == 0
  {
    CongModP(3, r, PShift(k, g));
    var n := Trim(3, g);
    assert g[..0] == [];
    if n > 0 {
      var top := k + n - 1;
      assert Coef(PShift(k, g), top) == g[n - 1];
      assert Coef(r, top) % 3 == Coef(PShift(k, g), top) % 3;
      if k == m {
        forall i: nat | i != m ensures Coef(r, i) % 3 == 0 {
          assert Coef(r, i) % 3 == Coef(PShift(k, g), i) % 3;
        }
      }
    }
  }

  // ---------------------------------------------------------------- cancelling x

  // x*(x^(m-1) + x^(t-1)) is 1 modulo the trinomial.
  function InverseOfX(m: nat, t: nat): Poly
    requires 0 < t < m
  {
    PAdd(PShift(m - 1, [1]), PShift(t - 1, [1]))
  }

  lemma {:induction false} EvTrinomial(m: nat, t: nat, X: int)
    requires 0 < t < m
    ensures Ev(Trinomial(m, t), X) == 2 + Pow(X, t) + Pow(X, m)
  {
    var f := PAdd([2], PAdd(PShift(t, [1]), PShift(m, [1])));
    assert f == Trinomial(m, t);
    EvAdd([2], PAdd(PShift(t, [1]), PShift(m, [1])), X);
    EvAdd(PShift(t, [1]), PShift(m, [1]), X);
    EvShift(t, [1], X);
    EvShift(m, [1], X);
    EvConst(1, X);
    EvConst(2, X);
  }

  lemma {:induction false} XIsUnit(m: nat, t: nat)
    requires 0 < t < m
    ensures Cong(3, Trinomial(m, t), PShift(1, InverseOfX(m, t)), [1])
  {
    hide Ev, PShift, PAdd, Pow, Trinomial;
    var M, f := Trinomial(m, t), PShift(1, InverseOfX(m, t));
    forall X ensures Ev(f, X) == Ev([1], X) + 3 * Ev([-1], X) + Ev(M, X) * Ev([1], X) {
      EvTrinomial(m, t, X);
      EvShift(1, InverseOfX(m, t), X);
      EvAdd(PShift(m - 1, [1]), PShift(t - 1, [1]), X);
      EvShift(m - 1, [1], X);
      EvShift(t - 1, [1], X);
      EvConst(1, X);
      EvConst(-1, X);
      EvX(X);
      UnitPoly(X, Pow(X, m - 1), Pow(X, t - 1));
    }
    assert Wit(3, M, f, [1], [-1], [1]);
  }

  lemma UnitPoly(X: int, u: int, v: int)
    ensures X * (u * 1 + v * 1) == 1 + 3 * -1 + (2 + X * v + X * u) * 1
  {
  }

  lemma {:induction false} CancelX(f: Poly, g: Poly, m: nat, t: nat)
    requires 0 < t < m && Cong(3, Trinomial(m, t), PShift(1, f), PShift(1, g))
    ensures Cong(3, Trinomial(m, t), f, g)
  {
    hide Ev, PShift, Trinomial, Cong, InverseOfX;
    var M, n := Trinomial(m, t), InverseOfX(m, t);
    XIsUnit(m, t);
    CancelDiff(f, g, n);
    CongFrom(3, M, n, PShift(1, f), PShift(1, g), PSub(g, f), PShift(1, n), [1], f, g);
  }

  lemma {:induction false} CancelDiff(f: Poly, g: Poly, n: Poly)
    ensures Diff(n, PShift(1, f), PShift(1, g), PSub(g, f), PShift(1, n), [1], f, g)
  {
    hide Ev, PShift, PSub;
    forall X ensures Ev(f, X) - Ev(g, X) == Ev(n, X) * (Ev(PShift(1, f), X) - Ev(PShift(1, g), X)) + Ev(PSub(g, f), X) * (Ev(PShift(1, n), X) - Ev([1], X)) {
      EvShift(1, f, X);
      EvShift(1, g, X);
      EvShift(1, n, X);
      EvSub(g, f, X);
      EvConst(1, X);
      EvX(X);
      CancelPoly(X, Ev(f, X), Ev(g, X), Ev(n, X));
    }
  }

  lemma CancelPoly(X: int, f: int, g: int, n: int)
    ensures f - g == n * (X * f - X * g) + (g - f) * (X * n - 1)
  {
  }

  lemma {:induction false} CancelPower(f: Poly, g: Poly, k: nat, m: nat, t: nat)
    requires 0 < t < m && Cong(3, Trinomial(m, t), PShift(k, f), PShift(k, g))
    ensures Cong(3, Trinomial(m, t), f, g)
  {
    if k == 0 {
      assert PShift(0, f) == f && PShift(0, g) == g;
    } else {
      assert PShift(k, f) == PShift(1, PShift(k - 1, f)) && PShift(k, g) == PShift(1, PShift(k - 1, g));
      CancelX(PShift(k - 1, f), PShift(k - 1, g), m, t);
      CancelPower(f, g, k - 1, m, t);
    }
  }

  // ---------------------------------------------------------------- the state of the loop

  // The hidden data: the element a, the numbers c and d of divisions by x and of pending ones, and the
  // polynomials f and g with S = x^c*f and R = x^(c+d)*g, which generate 1.
  datatype Hidden = Hidden(a: Poly, c: nat, d: nat, f: Poly, g: Poly, A: Poly, B: Poly)

  // Nothing above x^m.
  ghost predicate Upto(s: seq<Word>, len: nat, m: nat)
  {
    Sane(s, len) && m + 1 < 64 * len && forall i :: m < i < 64 * len ==> Digit(s, len, i) == 0
  }

  ghost predicate State(S: seq<Word>, R: seq<Word>, U: seq<Word>, V: seq<Word>, lenS: nat, len: nat, m: nat, t: nat, h: Hidden)
  {
    && 0 < t < m && Upto(S, lenS, m) && Upto(R, lenS, m) && Elt(U, len, m) && Elt(V, len, m)
    && Linked(h.a, Digits(U, len), Digits(R, lenS), h.c, m, t) && Linked(h.a, Digits(V, len), Digits(S, lenS), h.c, m, t)
    && IsShiftOf(Digits(S, lenS), h.c, h.f) && IsShiftOf(Digits(R, lenS), h.c + h.d, h.g)
    && Coprime3(h.f, h.g, h.A, h.B) && !ZeroMod3(h.g)
  }

  lemma {:induction false} StateMeans(S: seq<Word>, R: seq<Word>, U: seq<Word>, V: seq<Word>, lenS: nat, len: nat, m: nat, t: nat, h: Hidden)
    requires State(S, R, U, V, lenS, len, m, t, h)
    ensures |S| == |R| == 2 * lenS && |U| == |V| == 2 * len && Sane(S, lenS) && Sane(R, lenS) && Elt(U, len, m) && Elt(V, len, m)
    ensures m + 1 < 64 * lenS && m < 64 * len && 0 < t < m && Upto(S, lenS, m) && Upto(R, lenS, m)
    ensures Sane(U, len) && Sane(V, len)
  {
  }

  lemma {:induction false} UptoMeans(s: seq<Word>, len: nat, m: nat)
    requires Upto(s, len, m)
    ensures |s| == 2 * len && Sane(s, len) && m + 1 < 64 * len && forall i :: m < i < 64 * len ==> Digit(s, len, i) == 0
  {
  }

  // Shifting up a word sequence with nothing from x^m on.
  lemma {:induction false} ShiftedValue(s: seq<Word>, r: seq<Word>, len: nat, m: nat)
    requires Upto(s, len, m) && Digit(s, len, m) == 0 && IsUp(r, s, len)
    ensures Upto(r, len, m) && forall X :: Ev(Digits(r, len), X) == Ev(PShift(1, Digits(s, len)), X)
  {
    hide Digit, Sane, IsUp, Ev;
    UptoMeans(s, len, m);
    UpDigits(r, s, len);
    SaneLength(r, len);
    ShiftedUp(s, r, len, m);
    forall i | m < i < 64 * len ensures Digit(r, len, i) == 0 {
      assert Digit(r, len, i) == Digit(s, len, i - 1);
    }
  }

  // R := x*R, U := x*U.
  lemma {:induction false} StepShift(S: seq<Word>, R: seq<Word>, U: seq<Word>, V: seq<Word>, lenS: nat, len: nat, m: nat, t: nat, h: Hidden, R': seq<Word>, U': seq<Word>)
    requires State(S, R, U, V, lenS, len, m, t, h) && Digit(R, lenS, m) == 0 && IsUp(R', R, lenS)
    requires Elt(U', len, m) && Cong(3, Trinomial(m, t), Digits(U', len), PShift(1, Digits(U, len)))
    ensures State(S, R', U', V, lenS, len, m, t, h.(d := h.d + 1))
  {
    hide Digit, Sane, IsUp, Ev, Linked, IsShiftOf, Coprime3, ZeroMod3, Elt, Cong, Upto;
    StateMeans(S, R, U, V, lenS, len, m, t, h);
    ShiftedValue(R, R', lenS, m);
    UptoMeans(R', lenS, m);
    EltMeans(U', len, m);
    LinkTimesX(h.a, Digits(U, len), Digits(R, lenS), h.c, m, t, Digits(U', len), Digits(R', lenS));
    ShiftMore(Digits(R, lenS), h.c + h.d, h.g, Digits(R', lenS));
  }

  // s - q*r, digit by digit.
  lemma {:induction false} DifferenceCong(e: seq<Word>, s: seq<Word>, z: seq<Word>, r: seq<Word>, len: nat, q: int)
    requires Sane(s, len) && Sane(z, len) && |r| == 2 * len && IsDifference(e, s, z, len)
    requires forall i :: 0 <= i < 64 * len ==> Digit(z, len, i) == (q * Digit(r, len, i)) % 3
    ensures Sane(e, len) && CoefCong(3, Digits(e, len), PSub(Digits(s, len), PScale(q, Digits(r, len))))
    ensures forall i :: 0 <= i < 64 * len ==> Digit(e, len, i) == (Digit(s, len, i) - q * Digit(r, len, i)) % 3
  {
    hide Digit, IsDifference, Sane;
    DifferenceDigits(e, s, z, len);
    SaneLength(e, len);
    SaneLength(s, len);
    forall i | 0 <= i < 64 * len ensures Digit(e, len, i) == (Digit(s, len, i) - q * Digit(r, len, i)) % 3 {
      SubMod(Digit(s, len, i), q * Digit(r, len, i));
    }
    var f, g := Digits(e, len), PSub(Digits(s, len), PScale(q, Digits(r, len)));
    forall i: nat ensures Coef(f, i) % 3 == Coef(g, i) % 3 {
    }
  }

  lemma SubMod(a: int, b: int)
    ensures (a - b % 3) % 3 == (a - b) % 3
  {
  }

  // gf3_mult
  function Gf3Mult(a: int, b: int): (q: int)
    requires 0 <= a <= 2 && 0 <= b <= 2
    ensures 0 <= q <= 2 && q == a * b % 3
  {
    var l := [0, 1, 2, 0, 1];
    l[a * b]
  }

  lemma {:induction false} TopCancels(r: int, s: int)
    requires (r == 1 || r == 2) && 0 <= s <= 2
    ensures (s - r * s % 3 * r) % 3 == 0
  {
    if s == 0 { } else if s == 1 { } else { }
  }

  // After S := x*(S - q*R) and V := V - q*U.
  ghost predicate Middle(S: seq<Word>, R: seq<Word>, U: seq<Word>, V: seq<Word>, lenS: nat, len: nat, m: nat, t: nat, h: Hidden)
  {
    && 0 < t < m && Upto(S, lenS, m) && Upto(R, lenS, m) && Elt(U, len, m) && Elt(V, len, m)
    && Linked(h.a, Digits(U, len), Digits(R, lenS), h.c, m, t) && Linked(h.a, Digits(V, len), Digits(S, lenS), h.c + 1, m, t)
    && IsShiftOf(Digits(S, lenS), h.c + 1, h.f) && IsShiftOf(Digits(R, lenS), h.c + h.d, h.g)
    && Coprime3(h.f, h.g, h.A, h.B) && !ZeroMod3(h.g)
  }

  function ReducedHidden(h: Hidden, q: int): Hidden
  {
    h.(f := Reduced(h.f, h.g, q, h.d), B := PAdd(h.B, PScale(q, PShift(h.d, h.A))))
  }

  lemma ReducedIs(h: Hidden, q: int)
    ensures var k := ReducedHidden(h, q);
            && k.a == h.a && k.c == h.c && k.d == h.d && k.g == h.g && k.A == h.A
            && k.f == Reduced(h.f, h.g, q, h.d) && k.B == PAdd(h.B, PScale(q, PShift(h.d, h.A)))
  {
  }

  lemma {:induction false} StepReduce(S: seq<Word>, R: seq<Word>, U: seq<Word>, V: seq<Word>, lenS: nat, len: nat, m: nat, t: nat, h: Hidden, q: int,
    zs: seq<Word>, S1: seq<Word>, S2: seq<Word>, zv: seq<Word>, V': seq<Word>)
    requires State(S, R, U, V, lenS, len, m, t, h) && |R| == |S| == 2 * lenS && m < 64 * lenS && |U| == |V| == 2 * len
    requires Digit(R, lenS, m) != 0 && q == Gf3Mult(Digit(R, lenS, m), Digit(S, lenS, m))
    requires Sane(zs, lenS) && forall i :: 0 <= i < 64 * lenS ==> Digit(zs, lenS, i) == (q * Digit(R, lenS, i)) % 3
    requires IsDifference(S1, S, zs, lenS) && IsUp(S2, S1, lenS)
    requires Sane(zv, len) && forall i :: 0 <= i < 64 * len ==> Digit(zv, len, i) == (q * Digit(U, len, i)) % 3
    requires IsDifference(V', V, zv, len)
    ensures Middle(S2, R, U, V', lenS, len, m, t, ReducedHidden(h, q))
  {
    hide *;
    StateMeans(S, R, U, V, lenS, len, m, t, h);
    DifferenceCong(S1, S, zs, R, lenS, q);
    DifferenceCong(V', V, zv, U, len, q);
    SaneLength(S1, lenS);
    SaneLength(V', len);
    TopGone(S, R, S1, lenS, m, q);
    DifferenceElt(V, U, V', len, m, q);
    ShiftedValue(S1, S2, lenS, m);
    UptoMeans(S2, lenS, m);
    StateLinks(S, R, U, V, lenS, len, m, t, h);
    LinkSubtract(h.a, Digits(V, len), Digits(S, lenS), Digits(U, len), Digits(R, lenS), q, h.c, m, t, Digits(V', len), Digits(S1, lenS));
    LinkCount(h.a, Digits(V', len), Digits(S1, lenS), h.c, m, t, Digits(S2, lenS));
    ShiftSubtract(Digits(S, lenS), Digits(R, lenS), h.f, h.g, q, h.c, h.d, Digits(S1, lenS));
    ShiftMore(Digits(S1, lenS), h.c, Reduced(h.f, h.g, q, h.d), Digits(S2, lenS));
    StillCoprime(h.f, h.g, h.A, h.B, q, h.d);
    ReducedIs(h, q);
    MiddleIntro(S2, R, U, V', lenS, len, m, t, ReducedHidden(h, q));
  }

  lemma {:induction false} StateLinks(S: seq<Word>, R: seq<Word>, U: seq<Word>, V: seq<Word>, lenS: nat, len: nat, m: nat, t: nat, h: Hidden)
    requires State(S, R, U, V, lenS, len, m, t, h) && |R| == |S| == 2 * lenS && |U| == |V| == 2 * len
    ensures Linked(h.a, Digits(U, len), Digits(R, lenS), h.c, m, t) && Linked(h.a, Digits(V, len), Digits(S, lenS), h.c, m, t)
    ensures IsShiftOf(Digits(S, lenS), h.c, h.f) && IsShiftOf(Digits(R, lenS), h.c + h.d, h.g)
    ensures Coprime3(h.f, h.g, h.A, h.B) && !ZeroMod3(h.g)
  {
  }

  lemma MiddleIntro(S: seq<Word>, R: seq<Word>, U: seq<Word>, V: seq<Word>, lenS: nat, len: nat, m: nat, t: nat, h: Hidden)
    requires 0 < t < m && Upto(S, lenS, m) && Upto(R, lenS, m) && Elt(U, len, m) && Elt(V, len, m)
    requires |S| == |R| == 2 * lenS && |U| == |V| == 2 * len
    requires Linked(h.a, Digits(U, len), Digits(R, lenS), h.c, m, t) && Linked(h.a, Digits(V, len), Digits(S, lenS), h.c + 1, m, t)
    requires IsShiftOf(Digits(S, lenS), h.c + 1, h.f) && IsShiftOf(Digits(R, lenS), h.c + h.d, h.g)
    requires Coprime3(h.f, h.g, h.A, h.B) && !ZeroMod3(h.g)
    ensures Middle(S, R, U, V, lenS, len, m, t, h)
  {
  }

  lemma {:induction false} MiddleMeans(S: seq<Word>, R: seq<Word>, U: seq<Word>, V: seq<Word>, lenS: nat, len: nat, m: nat, t: nat, h: Hidden)
    requires Middle(S, R, U, V, lenS, len, m, t, h)
    ensures 0 < t < m && Upto(S, lenS, m) && Upto(R, lenS, m) && Elt(U, len, m) && Elt(V, len, m)
    ensures |S| == |R| == 2 * lenS && |U| == |V| == 2 * len && m + 1 < 64 * lenS && m < 64 * len
    ensures Linked(h.a, Digits(U, len), Digits(R, lenS), h.c, m, t) && Linked(h.a, Digits(V, len), Digits(S, lenS), h.c + 1, m, t)
    ensures IsShiftOf(Digits(S, lenS), h.c + 1, h.f) && IsShiftOf(Digits(R, lenS), h.c + h.d, h.g)
    ensures Coprime3(h.f, h.g, h.A, h.B) && !ZeroMod3(h.g)
  {
  }

  lemma {:induction false} TopGone(S: seq<Word>, R: seq<Word>, S1: seq<Word>, len: nat, m: nat, q: int)
    requires Upto(S, len, m) && Upto(R, len, m) && Sane(S1, len) && |S| == |R| == |S1| == 2 * len && m < 64 * len
    requires Digit(R, len, m) != 0 && q == Gf3Mult(Digit(R, len, m), Digit(S, len, m))
    requires forall i :: 0 <= i < 64 * len ==> Digit(S1, len, i) == (Digit(S, len, i) - q * Digit(R, len, i)) % 3
    ensures Upto(S1, len, m) && Digit(S1, len, m) == 0
  {
    hide Digit, Sane;
    TopCancels(Digit(R, len, m), Digit(S, len, m));
    forall i | m < i < 64 * len ensures Digit(S1, len, i) == 0 { TimesZero(q); }
  }

  lemma {:induction false} DifferenceElt(V: seq<Word>, U: seq<Word>, V': seq<Word>, len: nat, m: nat, q: int)
    requires Elt(V, len, m) && Elt(U, len, m) && Sane(V', len) && |V| == |U| == |V'| == 2 * len
    requires forall i :: 0 <= i < 64 * len ==> Digit(V', len, i) == (Digit(V, len, i) - q * Digit(U, len, i)) % 3
    ensures Elt(V', len, m)
  {
    hide Digit, Sane;
    forall i | m <= i < 64 * len ensures Digit(V', len, i) == 0 { TimesZero(q); }
  }

  // d = 0: S and R, U and V change places, and U is multiplied by x.
  lemma {:induction false} StepSwap(S: seq<Word>, R: seq<Word>, U: seq<Word>, V: seq<Word>, lenS: nat, len: nat, m: nat, t: nat, h: Hidden, V': seq<Word>)
    requires Middle(S, R, U, V, lenS, len, m, t, h) && h.d == 0 && h.c < m && |R| == 2 * lenS && m < 64 * lenS && |V| == 2 * len
    requires Digit(R, lenS, m) != 0
    requires Elt(V', len, m) && Cong(3, Trinomial(m, t), Digits(V', len), PShift(1, Digits(V, len)))
    ensures State(R, S, V', U, lenS, len, m, t, Hidden(h.a, h.c, 1, h.g, h.f, h.B, h.A))
  {
    hide *;
    MiddleMeans(S, R, U, V, lenS, len, m, t, h);
    EltMeans(V', len, m);
    LinkBack(h.a, Digits(V, len), Digits(S, lenS), h.c, m, t, Digits(V', len));
    CoprimeSwap(h.f, h.g, h.A, h.B);
    if ZeroMod3(h.f) {
      var n := PartnerOfZero(h.f, h.g, h.A, h.B);
      ConstantShift(Digits(R, lenS), h.c + h.d, h.g, n, m);
      DigitCoef(R, lenS, m);
    }
    StateIntro(R, S, V', U, lenS, len, m, t, Hidden(h.a, h.c, 1, h.g, h.f, h.B, h.A));
  }

  lemma DigitCoef(s: seq<Word>, len: nat, i: nat)
    requires |s| == 2 * len && i < 64 * len
    ensures Coef(Digits(s, len), i) == Digit(s, len, i) && Digit(s, len, i) % 3 == Digit(s, len, i)
  {
  }

  lemma StateIntro(S: seq<Word>, R: seq<Word>, U: seq<Word>, V: seq<Word>, lenS: nat, len: nat, m: nat, t: nat, h: Hidden)
    requires 0 < t < m && Upto(S, lenS, m) && Upto(R, lenS, m) && Elt(U, len, m) && Elt(V, len, m)
    requires |S| == |R| == 2 * lenS && |U| == |V| == 2 * len
    requires Linked(h.a, Digits(U, len), Digits(R, lenS), h.c, m, t) && Linked(h.a, Digits(V, len), Digits(S, lenS), h.c, m, t)
    requires IsShiftOf(Digits(S, lenS), h.c, h.f) && IsShiftOf(Digits(R, lenS), h.c + h.d, h.g)
    requires Coprime3(h.f, h.g, h.A, h.B) && !ZeroMod3(h.g)
    ensures State(S, R, U, V, lenS, len, m, t, h)
  {
  }

  // x^(c+1)*a*v = r and v' = x*v give x^c*a*v' = r.
  lemma {:induction false} LinkBack(a: Poly, v: Poly, r: Poly, c: nat, m: nat, t: nat, v': Poly)
    requires Linked(a, v, r, c + 1, m, t) && Cong(3, Trinomial(m, t), v', PShift(1, v))
    ensures Linked(a, v', r, c, m, t)
  {
    hide Cong, PMul, Ev;
    var M := Trinomial(m, t);
    BackDiff1(a, v, r, c, v');
    CongFrom(3, M, PShift(c, a), v', PShift(1, v), [1], PShift(c + 1, PMul(a, v)), r, PShift(c, PMul(a, v')), r);
  }

  lemma {:induction false} BackDiff1(a: Poly, v: Poly, r: Poly, c: nat, v': Poly)
    ensures Diff(PShift(c, a), v', PShift(1, v), [1], PShift(c + 1, PMul(a, v)), r, PShift(c, PMul(a, v')), r)
  {
    hide PMul, PShift, Ev, Pow;
    forall X ensures Ev(PShift(c, PMul(a, v')), X) - Ev(r, X) ==
        Ev(PShift(c, a), X) * (Ev(v', X) - Ev(PShift(1, v), X)) + Ev([1], X) * (Ev(PShift(c + 1, PMul(a, v)), X) - Ev(r, X)) {
      EvShifted(c, a, v', X);
      EvShifted(c + 1, a, v, X);
      EvShift(c, a, X);
      EvShift(1, v, X);
      EvX(X);
      BackPoly1(X, Pow(X, c), Ev(a, X), Ev(v, X), Ev(v', X), Ev(r, X));
    }
  }

  lemma BackPoly1(X: int, w: int, a: int, v: int, v': int, r: int)
    ensures w * (a * v') - r == w * a * (v' - X * v) + 1 * (X * w * (a * v) - r)
  {
  }

  // d > 0: U is made divisible by x and divided.
  lemma {:induction false} StepDivide(S: seq<Word>, R: seq<Word>, U: seq<Word>, V: seq<Word>, lenS: nat, len: nat, m: nat, t: nat, h: Hidden, U1: seq<Word>, U2: seq<Word>)
    requires Middle(S, R, U, V, lenS, len, m, t, h) && h.d > 0 && |U| == |U1| == |U2| == 2 * len && m < 64 * len
    requires Cong(3, Trinomial(m, t), Digits(U1, len), Digits(U, len)) && Sane(U1, len) && Digit(U1, len, 0) == 0
    requires forall i :: m < i < 64 * len ==> Digit(U1, len, i) == 0
    requires IsDown(U2, U1, len)
    ensures State(S, R, U2, V, lenS, len, m, t, h.(c := h.c + 1, d := h.d - 1))
  {
    hide *;
    MiddleMeans(S, R, U, V, lenS, len, m, t, h);
    DownDigits(U2, U1, len);
    DividedValue(U1, U2, len, m);
    CongSame(3, Trinomial(m, t), PShift(1, Digits(U2, len)), Digits(U1, len));
    CongTrans(3, Trinomial(m, t), PShift(1, Digits(U2, len)), Digits(U1, len), Digits(U, len));
    LinkDivide(h.a, Digits(U, len), Digits(R, lenS), h.c, m, t, Digits(U2, len));
    StateIntro(S, R, U2, V, lenS, len, m, t, h.(c := h.c + 1, d := h.d - 1));
  }

  lemma {:induction false} DividedValue(s: seq<Word>, r: seq<Word>, len: nat, m: nat)
    requires |s| == |r| == 2 * len && m < 64 * len && Sane(r, len) && Digit(s, len, 0) == 0
    requires forall i :: m < i < 64 * len ==> Digit(s, len, i) == 0
    requires forall i :: 0 <= i < 64 * len ==> Digit(r, len, i) == if i + 1 < 64 * len then Digit(s, len, i + 1) else 0
    ensures Elt(r, len, m) && forall X :: Ev(PShift(1, Digits(r, len)), X) == Ev(Digits(s, len), X)
  {
    hide Digit, Ev;
    var f, g := PShift(1, Digits(r, len)), Digits(s, len);
    forall i: nat ensures Coef(f, i) == Coef(g, i) {
    }
    forall X ensures Ev(f, X) == Ev(g, X) { SameCoefsSameValues(f, g, X); }
  }

  // ---------------------------------------------------------------- the ends of the loop

  // a*e is 1.
  ghost predicate IsInverse(e: Poly, a: Poly, m: nat, t: nat)
  {
    Cong(3, Trinomial(m, t), PMul(a, e), [1])
  }

  // A nonzero element of the field of x^m + x^t + 2.
  ghost predicate Invertible(a: seq<Word>, len: nat, m: nat, t: nat)
  {
    Elt(a, len, m) && 0 < t < m && Irreducible(3, Trinomial(m, t)) && exists i :: 0 <= i < m && Digit(a, len, i) != 0
  }

  lemma {:induction false} HiddenStart(a: seq<Word>, len: nat, m: nat, t: nat) returns (h: Hidden)
    requires Invertible(a, len, m, t)
    ensures |a| == 2 * len && h.a == Digits(a, len) && h.c == 0 && h.d == 0 && h.f == Trinomial(m, t) && h.g == Digits(a, len)
    ensures Coprime3(h.f, h.g, h.A, h.B) && !ZeroMod3(h.g)
  {
    hide *;
    InvertibleMeans(a, len, m, t);
    var f := Digits(a, len);
    var r := PolynomialBezout.Shorten(f);
    ShortEnough(a, len, m, r);
    SomeDigit(a, len, m, r);
    var b, c := PolynomialBezout.BezoutExists(3, r, Trinomial(m, t));
    SameCombo(b, r, c, Trinomial(m, t), f);
    h := Hidden(f, 0, 0, Trinomial(m, t), f, c, b);
    CoprimeIntro3(h.f, h.g, h.A, h.B);
  }

  lemma CoprimeIntro3(f: Poly, g: Poly, A: Poly, B: Poly)
    ensures Coprime3(f, g, A, B) <==> Combo(3, [1], A, f, B, g)
  {
  }

  lemma {:induction false} InvertibleMeans(a: seq<Word>, len: nat, m: nat, t: nat)
    requires Invertible(a, len, m, t)
    ensures |a| == 2 * len && Elt(a, len, m) && 0 < t < m < 64 * len && Irreducible(3, Trinomial(m, t))
    ensures exists i :: 0 <= i < m && Digit(a, len, i) != 0
  {
  }

  lemma {:induction false} SomeDigit(a: seq<Word>, len: nat, m: nat, r: Poly)
    requires |a| == 2 * len && m < 64 * len && SameCoefs(r, Digits(a, len)) && exists i :: 0 <= i < m && Digit(a, len, i) != 0
    ensures r != [] && !ZeroMod3(Digits(a, len))
  {
    hide Digit;
    var i :| 0 <= i < m && Digit(a, len, i) != 0;
    var f := Digits(a, len);
    assert Coef(r, i) == Coef(f, i) == Digit(a, len, i);
    assert Coef([], i) % 3 == 0;
  }

  lemma {:induction false} ShortEnough(a: seq<Word>, len: nat, m: nat, r: Poly)
    requires Elt(a, len, m) && SameCoefs(r, Digits(a, len)) && (r != [] ==> r[|r| - 1] != 0)
    requires |r| <= 64 * len && forall i :: 0 <= i < |r| ==> r[i] == Digits(a, len)[i]
    ensures |r| <= m && IsPoly(3, r)
  {
    hide Digit;
  }

  lemma {:induction false} SameCombo(b: Poly, r: Poly, c: Poly, M: Poly, f: Poly)
    requires Combo(3, [1], b, r, c, M) && SameCoefs(r, f)
    ensures Combo(3, [1], c, M, b, f)
  {
    hide Cong, PAdd, PMul, Ev, SameCoefs;
    var u, v := PAdd(PMul(b, r), PMul(c, M)), PAdd(PMul(c, M), PMul(b, f));
    forall X ensures Ev(u, X) == Ev(v, X) {
      ComboValue(b, r, c, M, X);
      ComboValue(c, M, b, f, X);
      SameCoefsSameValues(r, f, X);
    }
    CongSame(3, [], u, v);
    CongTrans(3, [], [1], u, v);
  }

  // A copy of an element in a longer buffer.
  ghost predicate Widened(S: seq<Word>, lenS: nat, a: seq<Word>, len: nat)
  {
    && |S| == 2 * lenS && |a| == 2 * len && len <= lenS
    && (forall k :: 0 <= k < lenS ==> S[k] == if k < len then a[k] else Zero)
    && (forall k :: lenS <= k < 2 * lenS ==> S[k] == if k - lenS < len then a[len + (k - lenS)] else Zero)
  }

  lemma {:induction false} WidenedDigits(S: seq<Word>, lenS: nat, a: seq<Word>, len: nat)
    requires Widened(S, lenS, a, len) && Sane(a, len)
    ensures Sane(S, lenS) && forall i :: 0 <= i < 64 * lenS ==> Digit(S, lenS, i) == if i < 64 * len then Digit(a, len, i) else 0
  {
    hide Trit, Clean;
    ZeroTrit(0);
    forall i | 0 <= i < lenS ensures CleanPair(S, lenS, i) {
      assert S[lenS + i] == if lenS + i - lenS < len then a[len + (lenS + i - lenS)] else Zero;
      if i < len { assert CleanPair(a, len, i); }
    }
    forall i | 0 <= i < 64 * lenS ensures Digit(S, lenS, i) == if i < 64 * len then Digit(a, len, i) else 0 {
      var j := i / 64;
      assert S[lenS + j] == if lenS + j - lenS < len then a[len + (lenS + j - lenS)] else Zero;
      ZeroTrit(i % 64);
    }
  }

  method Widen(S: array<Word>, lenS: nat, a: array<Word>, len: nat)
    requires S != a && S.Length == 2 * lenS && a.Length == 2 * len && len <= lenS
    requires forall k :: 0 <= k < 2 * lenS ==> S[k] == Zero
    modifies S
    ensures Widened(S[..], lenS, a[..], len)
  {
    ghost var s := a[..];
    for k := 0 to len
      invariant a[..] == s
      invariant forall j :: 0 <= j < k ==> S[j] == s[j]
      invariant forall j :: k <= j < 2 * lenS ==> S[j] == Zero
    {
      S[k] := a[k];
    }
    for k := lenS to lenS + len
      invariant a[..] == s
      invariant forall j :: 0 <= j < lenS ==> S[j] == if j < len then s[j] else Zero
      invariant forall j :: lenS <= j < k ==> S[j] == s[len + (j - lenS)]
      invariant forall j :: k <= j < 2 * lenS ==> S[j] == Zero
    {
      S[k] := a[len + (k - lenS)];
    }
  }

  lemma {:induction false} StateStart(S: seq<Word>, R: seq<Word>, U: seq<Word>, V: seq<Word>, a: seq<Word>, p: seq<Word>, lenS: nat, len: nat, m: nat, t: nat, h: Hidden)
    requires Invertible(a, len, m, t) && IsModulus(p, len, m, t) && m + 1 < 64 * lenS
    requires Widened(S, lenS, p, len) && Widened(R, lenS, a, len)
    requires |U| == 2 * len && Sane(U, len) && forall i :: 0 <= i < 64 * len ==> Digit(U, len, i) == if i == 0 then 1 else 0
    requires |V| == 2 * len && Sane(V, len) && forall i :: 0 <= i < 64 * len ==> Digit(V, len, i) == 0
    requires |a| == 2 * len && h.a == Digits(a, len) && h.c == 0 && h.d == 0 && h.f == Trinomial(m, t) && h.g == Digits(a, len)
    requires Coprime3(h.f, h.g, h.A, h.B) && !ZeroMod3(h.g)
    ensures State(S, R, U, V, lenS, len, m, t, h)
  {
    hide *;
    InvertibleMeans(a, len, m, t);
    EltMeans(a, len, m);
    ModulusMeans(p, len, m, t);
    WidenedDigits(S, lenS, p, len);
    WidenedDigits(R, lenS, a, len);
    WidenedLengths(S, lenS, p, len);
    WidenedLengths(R, lenS, a, len);
    StartValues(S, R, U, V, a, p, lenS, len, m, t);
    StartLinks(Digits(a, len), Digits(U, len), Digits(V, len), Digits(R, lenS), Digits(S, lenS), m, t);
    StateIntro(S, R, U, V, lenS, len, m, t, h);
  }

  lemma WidenedLengths(S: seq<Word>, lenS: nat, a: seq<Word>, len: nat)
    requires Widened(S, lenS, a, len)
    ensures |S| == 2 * lenS && |a| == 2 * len && len <= lenS
  {
  }

  lemma {:induction false} StartValues(S: seq<Word>, R: seq<Word>, U: seq<Word>, V: seq<Word>, a: seq<Word>, p: seq<Word>, lenS: nat, len: nat, m: nat, t: nat)
    requires Elt(a, len, m) && IsModulus(p, len, m, t) && m + 1 < 64 * lenS && len <= lenS
    requires Sane(S, lenS) && forall i :: 0 <= i < 64 * lenS ==> Digit(S, lenS, i) == if i < 64 * len then Digit(p, len, i) else 0
    requires Sane(R, lenS) && forall i :: 0 <= i < 64 * lenS ==> Digit(R, lenS, i) == if i < 64 * len then Digit(a, len, i) else 0
    requires |U| == 2 * len && Sane(U, len) && forall i :: 0 <= i < 64 * len ==> Digit(U, len, i) == if i == 0 then 1 else 0
    requires |V| == 2 * len && Sane(V, len) && forall i :: 0 <= i < 64 * len ==> Digit(V, len, i) == 0
    ensures Upto(S, lenS, m) && Upto(R, lenS, m) && Elt(U, len, m) && Elt(V, len, m)
    ensures SameCoefs(Digits(S, lenS), Trinomial(m, t)) && SameCoefs(Digits(R, lenS), Digits(a, len))
    ensures SameCoefs(Digits(U, len), [1]) && SameCoefs(Digits(V, len), [])
  {
    hide Digit;
  }

  lemma {:induction false} StartLinks(a: Poly, u: Poly, v: Poly, r: Poly, s: Poly, m: nat, t: nat)
    requires SameCoefs(u, [1]) && SameCoefs(v, []) && SameCoefs(r, a) && SameCoefs(s, Trinomial(m, t))
    ensures Linked(a, u, r, 0, m, t) && Linked(a, v, s, 0, m, t) && IsShiftOf(s, 0, Trinomial(m, t)) && IsShiftOf(r, 0, a)
  {
    hide Cong, PMul, SameCoefs, Trinomial;
    var M := Trinomial(m, t);
    forall X ensures Ev(PShift(0, PMul(a, u)), X) == Ev(r, X) && Ev(r, X) == Ev(PShift(0, a), X) && Ev(s, X) == Ev(PShift(0, M), X)
    {
      SameCoefsSameValues(r, a, X);
      SameCoefsSameValues(u, [1], X);
      SameCoefsSameValues(s, M, X);
      EvConst(1, X);
      EvMul(a, u, X);
      EvShift(0, PMul(a, u), X);
      EvShift(0, a, X);
      EvShift(0, M, X);
      assert Pow(X, 0) == 1;
      OneFactor(Ev(a, X), Ev(M, X));
    }
    CongSame(3, M, PShift(0, PMul(a, u)), r);
    CongSame(3, [], r, PShift(0, a));
    CongSame(3, [], s, PShift(0, M));
    forall X ensures Ev(PShift(0, PMul(a, v)), X) == Ev(s, X) + Ev(M, X) * Ev([-1], X) {
      SameCoefsSameValues(v, [], X);
      SameCoefsSameValues(s, M, X);
      EvConst(-1, X);
      EvMul(a, v, X);
      EvShift(0, PMul(a, v), X);
      ZeroFactor3(Ev(a, X), Ev(M, X), Pow(X, 0));
    }
    MultipleVanishes(3, M, [-1], PShift(0, PMul(a, v)), s);
  }

  lemma OneFactor(a: int, m: int)
    ensures 1 * (a * 1) == a && 1 * a == a && 1 * m == m
  {
  }

  lemma ZeroFactor3(a: int, m: int, w: int)
    ensures w * (a * 0) == m + m * -1
  {
  }

  // After 2m steps R is a single digit at x^m and nothing is pending.
  lemma {:induction false} StateEnd(S: seq<Word>, R: seq<Word>, U: seq<Word>, V: seq<Word>, lenS: nat, len: nat, m: nat, t: nat, h: Hidden)
    requires State(S, R, U, V, lenS, len, m, t, h) && h.d + 2 * h.c == 2 * m && |R| == 2 * lenS && m < 64 * lenS && |U| == 2 * len
    ensures Digit(R, lenS, m) != 0 && h.d == 0 && h.c == m
    ensures Cong(3, Trinomial(m, t), PMul(h.a, Digits(U, len)), [Digit(R, lenS, m)])
  {
    hide *;
    StateMeans(S, R, U, V, lenS, len, m, t, h);
    StateLinks(S, R, U, V, lenS, len, m, t, h);
    UptoMeans(R, lenS, m);
    var r := Digits(R, lenS);
    AboveZero(R, lenS, m);
    ShiftFits(r, h.c + h.d, h.g, m);
    DigitCoef(R, lenS, m);
    var k := Digit(R, lenS, m);
    OnlyTop(R, lenS, m, k);
    LinkEnd(h.a, Digits(U, len), r, m, t, k);
  }

  lemma {:induction false} AboveZero(R: seq<Word>, len: nat, m: nat)
    requires |R| == 2 * len && forall i :: m < i < 64 * len ==> Digit(R, len, i) == 0
    ensures forall i: nat :: i > m ==> Coef(Digits(R, len), i) == 0
  {
    hide Digit;
  }

  lemma {:induction false} OnlyTop(R: seq<Word>, len: nat, m: nat, k: int)
    requires |R| == 2 * len && m < 64 * len && k == Digit(R, len, m)
    requires forall i: nat :: i != m ==> Coef(Digits(R, len), i) % 3 == 0
    ensures SameCoefs(Digits(R, len), PShift(m, [k]))
  {
    hide Digit;
    var f, g := Digits(R, len), PShift(m, [k]);
    forall i: nat ensures Coef(f, i) == Coef(g, i) {
      if i != m && i < 64 * len { assert Coef(f, i) % 3 == 0 && 0 <= f[i] <= 2; }
    }
  }

  lemma {:induction false} LinkEnd(a: Poly, u: Poly, r: Poly, m: nat, t: nat, k: int)
    requires 0 < t < m && Linked(a, u, r, m, m, t) && SameCoefs(r, PShift(m, [k]))
    ensures Cong(3, Trinomial(m, t), PMul(a, u), [k])
  {
    hide Cong, PMul, Ev, SameCoefs;
    forall X ensures Ev(r, X) == Ev(PShift(m, [k]), X) { SameCoefsSameValues(r, PShift(m, [k]), X); }
    CongSame(3, Trinomial(m, t), r, PShift(m, [k]));
    CongTrans(3, Trinomial(m, t), PShift(m, PMul(a, u)), r, PShift(m, [k]));
    CancelPower(PMul(a, u), [k], m, m, t);
  }

  // The sign is corrected when the digit is 2.
  lemma {:induction false} CorrectSign(a: Poly, u: Poly, u': Poly, k: int, m: nat, t: nat)
    requires (k == 1 || k == 2) && Cong(3, Trinomial(m, t), PMul(a, u), [k])
    requires if k == 2 then CoefCong(3, u', PScale(-1, u)) else u' == u
    ensures IsInverse(u', a, m, t)
  {
    hide Cong, PMul, Ev, CoefCong, PScale;
    var M := Trinomial(m, t);
    if k == 2 {
      CoefCongIsCong(3, M, u', PScale(-1, u));
      assert Coef([-2], 0) == -2 && Coef([1], 0) == 1;
      MinusTwo(M);
      SignDiff(a, u, u');
      CongFrom4(3, M, a, u', PScale(-1, u), [-1], PMul(a, u), [2], [1], [-2], [1], [0], u, u, PMul(a, u'), [1]) by { CongSame(3, M, u, u); }
    }
  }

  lemma {:induction false} MinusTwo(M: Poly)
    ensures Cong(3, M, [-2], [1])
  {
    hide Cong;
    forall i: nat ensures Coef([-2], i) % 3 == Coef([1], i) % 3 {
    }
    CoefCongIsCong(3, M, [-2], [1]);
  }

  lemma {:induction false} SignDiff(a: Poly, u: Poly, u': Poly)
    ensures Diff4(a, u', PScale(-1, u), [-1], PMul(a, u), [2], [1], [-2], [1], [0], u, u, PMul(a, u'), [1])
  {
    hide Ev, PMul, PScale;
    forall X {:trigger Ev(a, X)} ensures SignHolds(a, u, u', X) { SignAt(a, u, u', X); }
  }

  ghost predicate SignHolds(a: Poly, u: Poly, u': Poly, X: int)
  {
    Ev(PMul(a, u'), X) - Ev([1], X) == Ev(a, X) * (Ev(u', X) - Ev(PScale(-1, u), X)) + Ev([-1], X) * (Ev(PMul(a, u), X) - Ev([2], X)) +
      Ev([1], X) * (Ev([-2], X) - Ev([1], X)) + Ev([0], X) * (Ev(u, X) - Ev(u, X))
  }

  lemma {:induction false} SignAt(a: Poly, u: Poly, u': Poly, X: int)
    ensures SignHolds(a, u, u', X)
  {
    hide Ev, PMul, PScale;
    EvMul(a, u', X);
    EvMul(a, u, X);
    EvScale(-1, u, X);
    EvConst(1, X);
    EvConst(-1, X);
    EvConst(2, X);
    EvConst(-2, X);
    EvConst(0, X);
    SignPoly(Ev(a, X), Ev(u, X), Ev(u', X));
  }

  lemma SignPoly(a: int, u: int, u': int)
    ensures a * u' - 1 == a * (u' - -1 * u) + -1 * (a * u - 2) + 1 * (-2 - 1) + 0 * (u - u)
  {
  }

  // Making U divisible by x.
  method ClearLowest(U: array<Word>, p: array<Word>, len: nat, m: nat, t: nat)
    requires U != p && U.Length == 2 * len && p.Length == 2 * len && Elt(U[..], len, m) && IsModulus(p[..], len, m, t)
    modifies U
    ensures Sane(U[..], len) && Digit(U[..], len, 0) == 0 && m < 64 * len && forall i :: m < i < 64 * len ==> Digit(U[..], len, i) == 0
    ensures Cong(3, Trinomial(m, t), Digits(U[..], len), old(Digits(U[..], len)))
  {
    hide *;
    ghost var s := U[..];
    EltMeans(s, len, m);
    ModulusMeans(p[..], len, m, t);
    var x := Digit(U[..], len, 0);
    DigitRange(s, len, 0);
    if x == 1 {
      Gf3mAdd(U, U, p, len);
    } else if x == 2 {
      Gf3mSub(U, U, p, len);
    }
    RemoveDigit(s, U[..], p[..], len, if x == 1 then 2 else if x == 2 then 1 else 0, 0, m, t);
    LowestGone(s, U[..], p[..], len, m, t, x);
  }

  lemma {:induction false} LowestGone(s: seq<Word>, e: seq<Word>, p: seq<Word>, len: nat, m: nat, t: nat, x: int)
    requires Elt(s, len, m) && IsModulus(p, len, m, t) && |e| == 2 * len && x == Digit(s, len, 0)
    requires forall i :: 0 <= i < 64 * len ==> Digit(e, len, i) == (Digit(s, len, i) - (if x == 1 then 2 else if x == 2 then 1 else 0) * Digit(p, len, i)) % 3
    ensures Digit(e, len, 0) == 0 && forall i :: m < i < 64 * len ==> Digit(e, len, i) == 0
  {
    hide Digit;
    assert Digit(p, len, 0) == Coef(Trinomial(m, t), 0) == 2;
    forall i | m < i < 64 * len ensures Digit(e, len, i) == 0 {
      assert Digit(p, len, i) == Coef(Trinomial(m, t), i) == 0;
      TimesZero(if x == 1 then 2 else if x == 2 then 1 else 0);
    }
  }

  // S := x*(S - q*R), V := V - q*U.
  method Eliminate(S: array<Word>, R: array<Word>, U: array<Word>, V: array<Word>, z: array<Word>, t2: array<Word>,
    lenS: nat, len: nat, m: nat, t: nat, q: int, ghost h: Hidden)
    requires S.Length == 2 * lenS && R.Length == 2 * lenS && z.Length == 2 * lenS && U.Length == 2 * len && V.Length == 2 * len && t2.Length == 2 * len
    requires S != R && S != z && R != z && S != U && R != U && z != U && V != S && V != R && V != z && V != U && t2 != S && t2 != R && t2 != z && t2 != U && t2 != V
    requires State(S[..], R[..], U[..], V[..], lenS, len, m, t, h) && m < 64 * lenS
    requires Digit(R[..], lenS, m) != 0 && q == Gf3Mult(Digit(R[..], lenS, m), Digit(S[..], lenS, m))
    modifies S, V, z, t2
    ensures R[..] == old(R[..]) && U[..] == old(U[..])
    ensures Middle(S[..], R[..], U[..], V[..], lenS, len, m, t, ReducedHidden(h, q))
  {
    hide *;
    ghost var s, r, u, v := S[..], R[..], U[..], V[..];
    StateMeans(s, r, u, v, lenS, len, m, t, h);
    Gf3mF1(z, q, R, lenS);
    ghost var zs := z[..];
    Gf3mSub(S, S, z, lenS);
    ghost var s1 := S[..];
    Gf3mShiftUp(S, lenS);
    Gf3mF1(t2, q, U, len);
    ghost var zv := t2[..];
    Gf3mSub(V, V, t2, len);
    assert R[..] == r && U[..] == u;
    StepReduce(s, r, u, v, lenS, len, m, t, h, q, zs, s1, S[..], zv, V[..]);
  }

  // One step of the loop, up to renaming.
  method Round(S: array<Word>, R: array<Word>, U: array<Word>, V: array<Word>, z: array<Word>, t2: array<Word>, p: array<Word>,
    lenS: nat, len: nat, m: nat, t: nat, d: nat, ghost h: Hidden)
    returns (swap: bool, d': nat, ghost h': Hidden)
    requires S.Length == 2 * lenS && R.Length == 2 * lenS && z.Length == 2 * lenS && U.Length == 2 * len && V.Length == 2 * len && t2.Length == 2 * len
    requires S != R && S != z && R != z && S != U && R != U && z != U && V != S && V != R && V != z && V != U && t2 != S && t2 != R && t2 != z && t2 != U && t2 != V
    requires p.Length == 2 * len && p != S && p != R && p != U && p != V && p != z && p != t2 && IsModulus(p[..], len, m, t)
    requires State(S[..], R[..], U[..], V[..], lenS, len, m, t, h) && d == h.d && h.d + 2 * h.c < 2 * m
    modifies S, R, U, V, z, t2
    ensures d' == h'.d && h'.a == h.a && h'.d + 2 * h'.c == h.d + 2 * h.c + 1
    ensures if swap then State(R[..], S[..], V[..], U[..], lenS, len, m, t, h') else State(S[..], R[..], U[..], V[..], lenS, len, m, t, h')
  {
    hide *;
    ghost var s, r, u, v := S[..], R[..], U[..], V[..];
    StateMeans(s, r, u, v, lenS, len, m, t, h);
    var r_m := Digit(R[..], lenS, m);
    var s_m := Digit(S[..], lenS, m);
    DigitRange(r, lenS, m);
    DigitRange(s, lenS, m);
    swap := false;
    if r_m == 0 {
      Gf3mShiftUp(R, lenS);
      Gf3mF2(U, p, len, m, t);
      assert S[..] == s && V[..] == v;
      h' := h.(d := h.d + 1);
      StepShift(s, r, u, v, lenS, len, m, t, h, R[..], U[..]);
      d' := d + 1;
    } else {
      var q := Gf3Mult(r_m, s_m);
      Eliminate(S, R, U, V, z, t2, lenS, len, m, t, q, h);
      ghost var k := ReducedHidden(h, q);
      ghost var s2, v1 := S[..], V[..];
      ReducedIs(h, q);
      MiddleMeans(s2, r, u, v1, lenS, len, m, t, k);
      if d == 0 {
        swap := true;
        Gf3mF2(V, p, len, m, t);
        assert S[..] == s2 && R[..] == r && U[..] == u;
        StepSwap(s2, r, u, v1, lenS, len, m, t, k, V[..]);
        h' := Hidden(k.a, k.c, 1, k.g, k.f, k.B, k.A);
        d' := d + 1;
      } else {
        ClearLowest(U, p, len, m, t);
        ghost var u1 := U[..];
        Gf3mShiftDown(U, len);
        assert S[..] == s2 && R[..] == r && V[..] == v1;
        StepDivide(s2, r, u, v1, lenS, len, m, t, k, u1, U[..]);
        h' := k.(c := k.c + 1, d := k.d - 1);
        d' := d - 1;
      }
    }
  }

  // The fixed 2m steps; the result is left in U up to the sign r_m.
  method Rounds(S0: array<Word>, R0: array<Word>, U0: array<Word>, V0: array<Word>, z: array<Word>, t2: array<Word>, p: array<Word>,
    lenS: nat, len: nat, m: nat, t: nat, ghost h0: Hidden)
    returns (U: array<Word>, r_m: int)
    requires S0.Length == 2 * lenS && R0.Length == 2 * lenS && z.Length == 2 * lenS && U0.Length == 2 * len && V0.Length == 2 * len && t2.Length == 2 * len
    requires S0 != R0 && S0 != z && R0 != z && S0 != U0 && R0 != U0 && z != U0 && V0 != S0 && V0 != R0 && V0 != z && V0 != U0
    requires t2 != S0 && t2 != R0 && t2 != z && t2 != U0 && t2 != V0
    requires p.Length == 2 * len && p != S0 && p != R0 && p != U0 && p != V0 && p != z && p != t2 && IsModulus(p[..], len, m, t)
    requires State(S0[..], R0[..], U0[..], V0[..], lenS, len, m, t, h0) && h0.c == 0 && h0.d == 0
    modifies S0, R0, U0, V0, z, t2
    ensures (U == U0 || U == V0) && Elt(U[..], len, m) && U.Length == 2 * len && (r_m == 1 || r_m == 2)
    ensures Cong(3, Trinomial(m, t), PMul(h0.a, Digits(U[..], len)), [r_m])
  {
    hide *;
    ghost var P := p[..];
    var S, R, V;
    S, R, U, V := S0, R0, U0, V0;
    var d := 0;
    ghost var h := h0;
    for i := 0 to 2 * m
      invariant (S == S0 && R == R0) || (S == R0 && R == S0)
      invariant (U == U0 && V == V0) || (U == V0 && V == U0)
      invariant p[..] == P && d == h.d && h.a == h0.a && h.d + 2 * h.c == i
      invariant State(S[..], R[..], U[..], V[..], lenS, len, m, t, h)
    {
      var swap;
      swap, d, h := Round(S, R, U, V, z, t2, p, lenS, len, m, t, d, h);
      if swap {
        S, R := R, S;
        U, V := V, U;
      }
    }
    StateMeans(S[..], R[..], U[..], V[..], lenS, len, m, t, h);
    StateEnd(S[..], R[..], U[..], V[..], lenS, len, m, t, h);
    r_m := Digit(R[..], lenS, m);
    DigitRange(R[..], lenS, m);
  }

  method Gf3mInvert(e: array<Word>, a: array<Word>, p: array<Word>, len: nat, m: nat, t: nat)
    requires e.Length == 2 * len && a.Length == 2 * len && p.Length == 2 * len
    requires Invertible(a[..], len, m, t) && IsModulus(p[..], len, m, t) && len == (m + 64) / 64
    modifies e
    ensures Elt(e[..], len, m) && IsInverse(Digits(e[..], len), old(Digits(a[..], len)), m, t)
  {
    hide *;
    ghost var P, al := p[..], a[..];
    InvertibleMeans(al, len, m, t);
    ModulusMeans(P, len, m, t);
    var lenS := (3 * m + 64 - 1) / 64;
    assert len <= lenS && m + 1 < 64 * lenS;
    var S := new Word[2 * lenS](_ => Zero);
    var R := new Word[2 * lenS](_ => Zero);
    var z := new Word[2 * lenS](_ => Zero);
    Widen(S, lenS, p, len);
    Widen(R, lenS, a, len);
    var U := new Word[2 * len](_ => Zero);
    var V := new Word[2 * len](_ => Zero);
    var t2 := new Word[2 * len](_ => Zero);
    ZeroDigits(U[..], len);
    ZeroDigits(V[..], len);
    Gf3mSet(U, len, 0, 1);
    ghost var h := HiddenStart(al, len, m, t);
    StateStart(S[..], R[..], U[..], V[..], al, P, lenS, len, m, t, h);
    var r_m;
    U, r_m := Rounds(S, R, U, V, z, t2, p, lenS, len, m, t, h);
    ghost var u := U[..];
    if r_m == 2 {
      Gf3mNeg(U, U, len);
      NegatedElt(u, U[..], len, m);
    }
    CorrectSign(Digits(al, len), Digits(u, len), Digits(U[..], len), r_m, m, t);
    CopyWords(e, U);
  }

  lemma {:induction false} NegatedElt(u: seq<Word>, r: seq<Word>, len: nat, m: nat)
    requires Elt(u, len, m) && IsSwapped(r, u, len)
    ensures |r| == |u| == 2 * len && Elt(r, len, m) && CoefCong(3, Digits(r, len), PScale(-1, Digits(u, len)))
  {
    hide Digit;
    SwapDigits(r, u, len);
    forall i: nat ensures Coef(Digits(r, len), i) % 3 == Coef(PScale(-1, Digits(u, len)), i) % 3 {
    }
  }
}
