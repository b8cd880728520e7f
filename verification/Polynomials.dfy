// Integer polynomials as coefficient lists, lowest first, and congruence modulo a prime and a polynomial.
// Identities are proved on values at every integer, which determine the coefficients.
module Polynomials {
  import opened Arith

  type Poly = seq<int>

  function Ev(f: Poly, X: int): int
  {
    if f == [] then 0 else f[0] + X * Ev(f[1..], X)
  }

  function Coef(f: Poly, i: nat): int
  {
    if i < |f| then f[i] else 0
  }

  // ---------------------------------------------------------------- operations

  function Max(a: nat, b: nat): nat
  {
    if a < b then b else a
  }

  function PAdd(f: Poly, g: Poly): (r: Poly)
    ensures |r| == Max(|f|, |g|) && forall i :: 0 <= i < |r| ==> r[i] == Coef(f, i) + Coef(g, i)
  {
    seq(Max(|f|, |g|), i requires 0 <= i => Coef(f, i) + Coef(g, i))
  }

  function PScale(c: int, f: Poly): (r: Poly)
    ensures |r| == |f| && forall i :: 0 <= i < |r| ==> r[i] == c * f[i]
  {
    seq(|f|, i requires 0 <= i < |f| => c * f[i])
  }

  function PSub(f: Poly, g: Poly): Poly
  {
    PAdd(f, PScale(-1, g))
  }

  function Zeros(k: nat): (r: Poly)
    ensures |r| == k && forall i :: 0 <= i < k ==> r[i] == 0
  {
    seq(k, _ => 0)
  }

  // x^k times f
  function PShift(k: nat, f: Poly): Poly
  {
    Zeros(k) + f
  }

  function PMul(f: Poly, g: Poly): Poly
  {
    if f == [] then [] else PAdd(PScale(f[0], g), PShift(1, PMul(f[1..], g)))
  }

  lemma {:induction false} EvAdd(f: Poly, g: Poly, X: int)
    ensures Ev(PAdd(f, g), X) == Ev(f, X) + Ev(g, X)
  {
    if f == [] && g == [] {
    } else {
      var f', g' := if f == [] then [] else f[1..], if g == [] then [] else g[1..];
      EvAdd(f', g', X);
      assert PAdd(f, g)[1..] == PAdd(f', g');
      EvUnfold(f, X);
      EvUnfold(g, X);
      EvUnfold(PAdd(f, g), X);
      Distribute(X, Ev(f', X), Ev(g', X));
    }
  }

  lemma EvUnfold(f: Poly, X: int)
    ensures Ev(f, X) == Coef(f, 0) + X * Ev(if f == [] then [] else f[1..], X)
  {
  }

  lemma Distribute(a: int, b: int, c: int)
    ensures a * (b + c) == a * b + a * c
  {
  }

  lemma {:induction false} EvScale(c: int, f: Poly, X: int)
    ensures Ev(PScale(c, f), X) == c * Ev(f, X)
  {
    if f != [] {
      EvScale(c, f[1..], X);
      assert PScale(c, f)[1..] == PScale(c, f[1..]);
      ScaleStep(c, f[0], X, Ev(f[1..], X));
    }
  }

  lemma ScaleStep(c: int, a: int, X: int, e: int)
    ensures c * (a + X * e) == c * a + X * (c * e)
  {
  }

  lemma {:induction false} EvSub(f: Poly, g: Poly, X: int)
    ensures Ev(PSub(f, g), X) == Ev(f, X) - Ev(g, X)
  {
    EvScale(-1, g, X);
    EvAdd(f, PScale(-1, g), X);
  }

  lemma {:induction false} EvShift(k: nat, f: Poly, X: int)
    ensures Ev(PShift(k, f), X) == Pow(X, k) * Ev(f, X)
  {
    if k == 0 {
      assert PShift(0, f) == f;
    } else {
      EvShift(k - 1, f, X);
      assert PShift(k, f)[1..] == PShift(k - 1, f);
      EvUnfold(PShift(k, f), X);
      Associate(X, Pow(X, k - 1), Ev(f, X));
    }
  }

  lemma Associate(a: int, b: int, c: int)
    ensures a * (b * c) == (a * b) * c
  {
  }

  lemma {:induction false} EvMul(f: Poly, g: Poly, X: int)
    ensures Ev(PMul(f, g), X) == Ev(f, X) * Ev(g, X)
  {
    if f != [] {
      var t := PMul(f[1..], g);
      EvMul(f[1..], g, X);
      EvAdd(PScale(f[0], g), PShift(1, t), X);
      EvScale(f[0], g, X);
      EvShift(1, t, X);
      assert Pow(X, 1) == X * Pow(X, 0);
      MulStep(f[0], X, Ev(f[1..], X), Ev(g, X));
    }
  }

  lemma MulStep(a: int, X: int, e: int, g: int)
    ensures (a + X * e) * g == a * g + X * (e * g)
  {
  }

  // The constant polynomial and the monomial.
  lemma {:induction false} EvConst(c: int, X: int)
    ensures Ev([c], X) == c && Ev([], X) == 0
  {
    assert Ev([c], X) == c + X * Ev([], X);
  }

  // ---------------------------------------------------------------- values determine coefficients

  lemma {:induction false} Identity(e: Poly)
    requires forall X :: X != 0 ==> Ev(e, X) == 0
    ensures forall i :: 0 <= i < |e| ==> e[i] == 0
  {
    if e != [] {
      var c := e[0];
      var Y := (if c < 0 then -c else c) + 1;
      assert Ev(e, Y) == 0;
      SmallMultiple(c, Y, Ev(e[1..], Y));
      forall X | X != 0 ensures Ev(e[1..], X) == 0 {
        assert Ev(e, X) == 0;
        NoZeroDivisor(X, Ev(e[1..], X));
      }
      Identity(e[1..]);
    }
  }

  lemma SmallMultiple(c: int, Y: int, k: int)
    requires c + Y * k == 0 && Y > c && Y > -c
    ensures c == 0
  {
    if k >= 1 { MulLe(1, k, Y); }
    if k <= -1 { MulLe(k, -1, Y); }
  }

  lemma NoZeroDivisor(a: int, b: int)
    requires a != 0 && a * b == 0
    ensures b == 0
  {
  }

  lemma {:induction false} SameValues(f: Poly, g: Poly)
    requires forall X :: Ev(f, X) == Ev(g, X)
    ensures forall i: nat :: Coef(f, i) == Coef(g, i)
  {
    var e := PSub(f, g);
    forall X | X != 0 ensures Ev(e, X) == 0 { EvSub(f, g, X); }
    Identity(e);
    forall i: nat ensures Coef(f, i) == Coef(g, i) {
      if i < |e| { assert e[i] == 0; }
    }
  }

  // ---------------------------------------------------------------- congruence modulo p and M

  ghost predicate Wit(p: int, M: Poly, f: Poly, g: Poly, h: Poly, k: Poly)
  {
    forall X :: Ev(f, X) == Ev(g, X) + p * Ev(h, X) + Ev(M, X) * Ev(k, X)
  }

  // f - g is p*h + M*k for some h and k.
  ghost predicate Cong(p: int, M: Poly, f: Poly, g: Poly)
  {
    exists h, k :: Wit(p, M, f, g, h, k)
  }

  lemma {:induction false} CongSame(p: int, M: Poly, f: Poly, g: Poly)
    requires forall X :: Ev(f, X) == Ev(g, X)
    ensures Cong(p, M, f, g)
  {
    forall X ensures Ev(f, X) == Ev(g, X) + p * Ev([], X) + Ev(M, X) * Ev([], X) {
      EvConst(0, X);
      assert Ev(M, X) * 0 == 0;
    }
    assert Wit(p, M, f, g, [], []);
  }

  lemma {:induction false} CongSym(p: int, M: Poly, f: Poly, g: Poly)
    requires Cong(p, M, f, g)
    ensures Cong(p, M, g, f)
  {
    var h, k :| Wit(p, M, f, g, h, k);
    var h', k' := PScale(-1, h), PScale(-1, k);
    forall X ensures Ev(g, X) == Ev(f, X) + p * Ev(h', X) + Ev(M, X) * Ev(k', X) {
      assert Ev(f, X) == Ev(g, X) + p * Ev(h, X) + Ev(M, X) * Ev(k, X);
      EvScale(-1, h, X);
      EvScale(-1, k, X);
      Negate(p, Ev(h, X), Ev(M, X), Ev(k, X));
    }
    assert Wit(p, M, g, f, h', k');
  }

  lemma Negate(p: int, h: int, m: int, k: int)
    ensures p * (-1 * h) + m * (-1 * k) == 0 - (p * h + m * k)
  {
  }

  // Congruences combine: f1 = g1 and f2 = g2 give a*f1 + b*f2 = a*g1 + b*g2, on values.
  lemma {:induction false} CongCombine(p: int, M: Poly, a: Poly, f1: Poly, g1: Poly, b: Poly, f2: Poly, g2: Poly, f: Poly, g: Poly)
    requires Cong(p, M, f1, g1) && Cong(p, M, f2, g2)
    requires forall X :: Ev(f, X) == Ev(a, X) * Ev(f1, X) + Ev(b, X) * Ev(f2, X)
    requires forall X :: Ev(g, X) == Ev(a, X) * Ev(g1, X) + Ev(b, X) * Ev(g2, X)
    ensures Cong(p, M, f, g)
  {
    var h1, k1 :| Wit(p, M, f1, g1, h1, k1);
    var h2, k2 :| Wit(p, M, f2, g2, h2, k2);
    var h, k := PAdd(PMul(a, h1), PMul(b, h2)), PAdd(PMul(a, k1), PMul(b, k2));
    forall X ensures Ev(f, X) == Ev(g, X) + p * Ev(h, X) + Ev(M, X) * Ev(k, X) {
      hide *;
      CombineAt(p, M, a, f1, g1, b, f2, g2, f, g, h1, k1, h2, k2, X);
    }
    assert Wit(p, M, f, g, h, k);
  }

  lemma {:induction false} CombineAt(p: int, M: Poly, a: Poly, f1: Poly, g1: Poly, b: Poly, f2: Poly, g2: Poly, f: Poly, g: Poly,
    h1: Poly, k1: Poly, h2: Poly, k2: Poly, X: int)
    requires Wit(p, M, f1, g1, h1, k1) && Wit(p, M, f2, g2, h2, k2)
    requires Ev(f, X) == Ev(a, X) * Ev(f1, X) + Ev(b, X) * Ev(f2, X)
    requires Ev(g, X) == Ev(a, X) * Ev(g1, X) + Ev(b, X) * Ev(g2, X)
    ensures Ev(f, X) == Ev(g, X) + p * Ev(PAdd(PMul(a, h1), PMul(b, h2)), X) + Ev(M, X) * Ev(PAdd(PMul(a, k1), PMul(b, k2)), X)
  {
    hide Ev, PAdd, PMul;
    EvAdd(PMul(a, h1), PMul(b, h2), X);
    EvMul(a, h1, X);
    EvMul(b, h2, X);
    EvAdd(PMul(a, k1), PMul(b, k2), X);
    EvMul(a, k1, X);
    EvMul(b, k2, X);
    CombinePoly(p, Ev(M, X), Ev(a, X), Ev(g1, X), Ev(h1, X), Ev(k1, X));
    CombinePoly(p, Ev(M, X), Ev(b, X), Ev(g2, X), Ev(h2, X), Ev(k2, X));
    Distribute(p, Ev(a, X) * Ev(h1, X), Ev(b, X) * Ev(h2, X));
    Distribute(Ev(M, X), Ev(a, X) * Ev(k1, X), Ev(b, X) * Ev(k2, X));
  }

  lemma CombinePoly(p: int, m: int, a: int, g: int, h: int, k: int)
    ensures a * (g + p * h + m * k) == a * g + p * (a * h) + m * (a * k)
  {
  }

  lemma {:induction false} CongTrans(p: int, M: Poly, f: Poly, g: Poly, h: Poly)
    requires Cong(p, M, f, g) && Cong(p, M, g, h)
    ensures Cong(p, M, f, h)
  {
    // f = f + g - g and g + h - g
    var u, v := PAdd(f, g), PAdd(g, h);
    forall X ensures Ev(u, X) == Ev([1], X) * Ev(f, X) + Ev([1], X) * Ev(g, X) { EvAdd(f, g, X); EvConst(1, X); }
    forall X ensures Ev(v, X) == Ev([1], X) * Ev(g, X) + Ev([1], X) * Ev(h, X) { EvAdd(g, h, X); EvConst(1, X); }
    CongCombine(p, M, [1], f, g, [1], g, h, u, v);
    CongSame(p, M, g, g);
    forall X ensures Ev(f, X) == Ev([1], X) * Ev(u, X) + Ev([-1], X) * Ev(g, X) { EvAdd(f, g, X); EvConst(1, X); EvConst(-1, X); }
    forall X ensures Ev(h, X) == Ev([1], X) * Ev(v, X) + Ev([-1], X) * Ev(g, X) { EvAdd(g, h, X); EvConst(1, X); EvConst(-1, X); }
    CongCombine(p, M, [1], u, v, [-1], g, g, f, h);
  }

  // f - g is a combination of the differences f1 - g1 and f2 - g2, on values.
  ghost predicate Diff(a1: Poly, f1: Poly, g1: Poly, a2: Poly, f2: Poly, g2: Poly, f: Poly, g: Poly)
  {
    forall X :: Ev(f, X) - Ev(g, X) == Ev(a1, X) * (Ev(f1, X) - Ev(g1, X)) + Ev(a2, X) * (Ev(f2, X) - Ev(g2, X))
  }

  // Such a combination of congruences is a congruence.
  lemma {:induction false} CongFrom(p: int, M: Poly, a1: Poly, f1: Poly, g1: Poly, a2: Poly, f2: Poly, g2: Poly, f: Poly, g: Poly)
    requires Cong(p, M, f1, g1) && Cong(p, M, f2, g2) && Diff(a1, f1, g1, a2, f2, g2, f, g)
    ensures Cong(p, M, f, g)
  {
    var h1, k1 :| Wit(p, M, f1, g1, h1, k1);
    var h2, k2 :| Wit(p, M, f2, g2, h2, k2);
    var h, k := PAdd(PMul(a1, h1), PMul(a2, h2)), PAdd(PMul(a1, k1), PMul(a2, k2));
    forall X ensures Ev(f, X) == Ev(g, X) + p * Ev(h, X) + Ev(M, X) * Ev(k, X) {
      FromAt(p, M, a1, f1, g1, a2, f2, g2, f, g, h1, k1, h2, k2, X);
    }
    assert Wit(p, M, f, g, h, k);
  }

  lemma {:induction false} FromAt(p: int, M: Poly, a: Poly, f1: Poly, g1: Poly, b: Poly, f2: Poly, g2: Poly, f: Poly, g: Poly,
    h1: Poly, k1: Poly, h2: Poly, k2: Poly, X: int)
    requires Wit(p, M, f1, g1, h1, k1) && Wit(p, M, f2, g2, h2, k2)
    requires Ev(f, X) - Ev(g, X) == Ev(a, X) * (Ev(f1, X) - Ev(g1, X)) + Ev(b, X) * (Ev(f2, X) - Ev(g2, X))
    ensures Ev(f, X) == Ev(g, X) + p * Ev(PAdd(PMul(a, h1), PMul(b, h2)), X) + Ev(M, X) * Ev(PAdd(PMul(a, k1), PMul(b, k2)), X)
  {
    hide Ev, PAdd, PMul;
    EvAdd(PMul(a, h1), PMul(b, h2), X);
    EvMul(a, h1, X);
    EvMul(b, h2, X);
    EvAdd(PMul(a, k1), PMul(b, k2), X);
    EvMul(a, k1, X);
    EvMul(b, k2, X);
    FromPoly(p, Ev(M, X), Ev(a, X), Ev(h1, X), Ev(k1, X));
    FromPoly(p, Ev(M, X), Ev(b, X), Ev(h2, X), Ev(k2, X));
    Distribute(p, Ev(a, X) * Ev(h1, X), Ev(b, X) * Ev(h2, X));
    Distribute(Ev(M, X), Ev(a, X) * Ev(k1, X), Ev(b, X) * Ev(k2, X));
  }

  lemma FromPoly(p: int, m: int, a: int, h: int, k: int)
    ensures a * (p * h + m * k) == p * (a * h) + m * (a * k)
  {
  }

  // The same with four congruences.
  ghost predicate Diff4(a1: Poly, f1: Poly, g1: Poly, a2: Poly, f2: Poly, g2: Poly, a3: Poly, f3: Poly, g3: Poly, a4: Poly, f4: Poly, g4: Poly,
    f: Poly, g: Poly)
  {
    forall X ::
      Ev(f, X) - Ev(g, X) == Ev(a1, X) * (Ev(f1, X) - Ev(g1, X)) + Ev(a2, X) * (Ev(f2, X) - Ev(g2, X)) +
        Ev(a3, X) * (Ev(f3, X) - Ev(g3, X)) + Ev(a4, X) * (Ev(f4, X) - Ev(g4, X))
  }

  lemma {:induction false} CongFrom4(p: int, M: Poly, a1: Poly, f1: Poly, g1: Poly, a2: Poly, f2: Poly, g2: Poly,
    a3: Poly, f3: Poly, g3: Poly, a4: Poly, f4: Poly, g4: Poly, f: Poly, g: Poly)
    requires Cong(p, M, f1, g1) && Cong(p, M, f2, g2) && Cong(p, M, f3, g3) && Cong(p, M, f4, g4)
    requires Diff4(a1, f1, g1, a2, f2, g2, a3, f3, g3, a4, f4, g4, f, g)
    ensures Cong(p, M, f, g)
  {
    hide *;
    var u := PAdd(PMul(a1, PSub(f1, g1)), PMul(a2, PSub(f2, g2)));
    var v := PAdd(PMul(a3, PSub(f3, g3)), PMul(a4, PSub(f4, g4)));
    CombinationValues(a1, f1, g1, a2, f2, g2);
    CombinationValues(a3, f3, g3, a4, f4, g4);
    SplitDiff(a1, f1, g1, a2, f2, g2, a3, f3, g3, a4, f4, g4, f, g);
    CongFrom(p, M, a1, f1, g1, a2, f2, g2, u, []);
    CongFrom(p, M, a3, f3, g3, a4, f4, g4, v, []);
    CongFrom(p, M, [1], u, [], [1], v, [], f, g);
  }

  lemma {:induction false} SplitDiff(a1: Poly, f1: Poly, g1: Poly, a2: Poly, f2: Poly, g2: Poly,
    a3: Poly, f3: Poly, g3: Poly, a4: Poly, f4: Poly, g4: Poly, f: Poly, g: Poly)
    requires Diff4(a1, f1, g1, a2, f2, g2, a3, f3, g3, a4, f4, g4, f, g)
    ensures Diff([1], PAdd(PMul(a1, PSub(f1, g1)), PMul(a2, PSub(f2, g2))), [], [1], PAdd(PMul(a3, PSub(f3, g3)), PMul(a4, PSub(f4, g4))), [], f, g)
  {
    hide Ev, PAdd, PMul, PSub;
    var u := PAdd(PMul(a1, PSub(f1, g1)), PMul(a2, PSub(f2, g2)));
    var v := PAdd(PMul(a3, PSub(f3, g3)), PMul(a4, PSub(f4, g4)));
    forall X ensures Ev(f, X) - Ev(g, X) == Ev([1], X) * (Ev(u, X) - Ev([], X)) + Ev([1], X) * (Ev(v, X) - Ev([], X)) {
      EvConst(1, X);
      CombinationValue(a1, f1, g1, a2, f2, g2, X);
      CombinationValue(a3, f3, g3, a4, f4, g4, X);
    }
  }

  lemma {:induction false} EvZero()
    ensures forall X :: Ev([], X) == 0 && Ev([1], X) == 1
  {
    forall X ensures Ev([], X) == 0 && Ev([1], X) == 1 { EvConst(1, X); }
  }

  lemma {:induction false} CombinationValues(a1: Poly, f1: Poly, g1: Poly, a2: Poly, f2: Poly, g2: Poly)
    ensures Diff(a1, f1, g1, a2, f2, g2, PAdd(PMul(a1, PSub(f1, g1)), PMul(a2, PSub(f2, g2))), [])
  {
    hide Ev, PAdd, PMul, PSub;
    var u := PAdd(PMul(a1, PSub(f1, g1)), PMul(a2, PSub(f2, g2)));
    forall X ensures Ev(u, X) - Ev([], X) == Ev(a1, X) * (Ev(f1, X) - Ev(g1, X)) + Ev(a2, X) * (Ev(f2, X) - Ev(g2, X)) {
      EvConst(0, X);
      CombinationValue(a1, f1, g1, a2, f2, g2, X);
    }
  }

  lemma {:induction false} CombinationValue(a1: Poly, f1: Poly, g1: Poly, a2: Poly, f2: Poly, g2: Poly, X: int)
    ensures Ev(PAdd(PMul(a1, PSub(f1, g1)), PMul(a2, PSub(f2, g2))), X) ==
      Ev(a1, X) * (Ev(f1, X) - Ev(g1, X)) + Ev(a2, X) * (Ev(f2, X) - Ev(g2, X))
  {
    hide Ev, PAdd, PMul, PSub;
    EvAdd(PMul(a1, PSub(f1, g1)), PMul(a2, PSub(f2, g2)), X);
    EvMul(a1, PSub(f1, g1), X);
    EvMul(a2, PSub(f2, g2), X);
    EvSub(f1, g1, X);
    EvSub(f2, g2, X);
  }

  // ---------------------------------------------------------------- congruence modulo p alone

  // Coefficients agree modulo p.
  ghost predicate CoefCong(p: int, f: Poly, g: Poly)
    requires p > 0
  {
    forall i: nat :: Coef(f, i) % p == Coef(g, i) % p
  }

  function Quotients(p: int, f: Poly): (r: Poly)
    requires p > 0
    ensures |r| == |f| && forall i :: 0 <= i < |f| ==> r[i] == f[i] / p
  {
    seq(|f|, i requires 0 <= i < |f| => f[i] / p)
  }

  lemma {:induction false} CoefCongIsCong(p: int, M: Poly, f: Poly, g: Poly)
    requires p > 0 && CoefCong(p, f, g)
    ensures Cong(p, M, f, g)
  {
    var e := PSub(f, g);
    var h := Quotients(p, e);
    forall i | 0 <= i < |e| ensures e[i] == p * h[i] {
      assert Coef(f, i) % p == Coef(g, i) % p;
      var k := ModElim(Coef(f, i), Coef(g, i), p);
      DivModUnique(e[i], p, k, 0);
    }
    assert e == PScale(p, h);
    forall X ensures Ev(f, X) == Ev(g, X) + p * Ev(h, X) + Ev(M, X) * Ev([], X) {
      EvSub(f, g, X);
      EvScale(p, h, X);
      EvConst(0, X);
      assert Ev(M, X) * 0 == 0;
    }
    assert Wit(p, M, f, g, h, []);
  }

  lemma {:induction false} WitIsCoefCong(p: int, f: Poly, g: Poly, h: Poly)
    requires p > 0 && forall X :: Ev(f, X) == Ev(g, X) + p * Ev(h, X)
    ensures CoefCong(p, f, g)
  {
    var u := PAdd(g, PScale(p, h));
    forall X ensures Ev(f, X) == Ev(u, X) {
      EvAdd(g, PScale(p, h), X);
      EvScale(p, h, X);
    }
    SameValues(f, u);
    forall i: nat ensures Coef(f, i) % p == Coef(g, i) % p {
      assert Coef(f, i) == Coef(u, i) == Coef(g, i) + p * Coef(h, i);
      ModIntro(Coef(f, i), Coef(g, i), Coef(h, i), p);
    }
  }

  lemma {:induction false} CongModP(p: int, f: Poly, g: Poly)
    requires p > 0 && Cong(p, [], f, g)
    ensures CoefCong(p, f, g)
  {
    var h, k :| Wit(p, [], f, g, h, k);
    forall X ensures Ev(f, X) == Ev(g, X) + p * Ev(h, X) {
      EvConst(0, X);
      assert Ev(f, X) == Ev(g, X) + p * Ev(h, X) + Ev([], X) * Ev(k, X);
    }
    WitIsCoefCong(p, f, g, h);
  }

  // Modulo p implies modulo p and M.
  lemma {:induction false} CongWeaken(p: int, M: Poly, f: Poly, g: Poly)
    requires p > 0 && Cong(p, [], f, g)
    ensures Cong(p, M, f, g)
  {
    CongModP(p, f, g);
    CoefCongIsCong(p, M, f, g);
  }

  // A multiple of M vanishes.
  lemma {:induction false} MultipleVanishes(p: int, M: Poly, k: Poly, f: Poly, g: Poly)
    requires forall X :: Ev(f, X) == Ev(g, X) + Ev(M, X) * Ev(k, X)
    ensures Cong(p, M, f, g)
  {
    forall X ensures Ev(f, X) == Ev(g, X) + p * Ev([], X) + Ev(M, X) * Ev(k, X) { EvConst(0, X); }
    assert Wit(p, M, f, g, [], k);
  }

  // ---------------------------------------------------------------- leading coefficients

  lemma {:induction false} TopOfProduct(f: Poly, g: Poly)
    requires f != [] && g != []
    ensures |PMul(f, g)| == |f| + |g| - 1 && PMul(f, g)[|f| + |g| - 2] == f[|f| - 1] * g[|g| - 1]
  {
    if |f| == 1 {
      assert PMul(f[1..], g) == [];
      assert PShift(1, []) == [0];
    } else {
      TopOfProduct(f[1..], g);
      var t := PMul(f[1..], g);
      assert PShift(1, t)[|f| + |g| - 2] == t[|f| + |g| - 3];
    }
  }

  // The highest coefficient that is not a multiple of p; none means f is zero modulo p.
  lemma {:induction false} Trim(p: int, f: Poly) returns (n: nat)
    requires p > 0
    ensures n <= |f| && (n > 0 ==> f[n - 1] % p != 0) && CoefCong(p, f, f[..n])
  {
    n := |f|;
    assert f[..n] == f;
    while n > 0 && f[n - 1] % p == 0
      invariant n <= |f| && CoefCong(p, f, f[..n])
    {
      n := n - 1;
      forall i: nat ensures Coef(f, i) % p == Coef(f[..n], i) % p {
        assert Coef(f, i) % p == Coef(f[..n + 1], i) % p;
        ModSmall(0, p);
      }
    }
  }

  // Remainders are unique: below the degree of M, congruence modulo p and M is congruence modulo p.
  lemma {:induction false} RemainderUnique(p: int, M: Poly, f: Poly, g: Poly)
    requires IsPrime(p) && M != [] && M[|M| - 1] % p != 0 && |f| < |M| && |g| < |M| && Cong(p, M, f, g)
    ensures CoefCong(p, f, g)
  {
    var h, k :| Wit(p, M, f, g, h, k);
    var n := Trim(p, k);
    var k' := k[..n];
    var d := PSub(f, g);
    MultipleIsSmall(p, M, f, g, h, k, k');
    if n > 0 {
      TopOfProduct(M, k');
      var i := |M| + n - 2;
      assert Coef(d, i) % p == Coef(PMul(M, k'), i) % p;
      assert Coef(d, i) == 0;
      ModSmall(0, p);
      PrimeDivides(M[|M| - 1], k'[n - 1], p);
    } else {
      assert PMul(M, k') == Zeros(|PMul(M, k')|) by { ProductWithEmpty(M); }
      forall i: nat ensures Coef(f, i) % p == Coef(g, i) % p {
        assert Coef(d, i) % p == Coef(PMul(M, k'), i) % p;
        assert Coef(d, i) == Coef(f, i) - Coef(g, i);
        ModSmall(0, p);
        ModAdd(Coef(d, i), 0, Coef(g, i), Coef(g, i), p);
      }
    }
  }

  lemma {:induction false} ProductWithEmpty(M: Poly)
    ensures PMul(M, []) == Zeros(|PMul(M, [])|)
  {
    if M != [] {
      ProductWithEmpty(M[1..]);
      assert PMul(M, []) == PAdd(PScale(M[0], []), PShift(1, PMul(M[1..], [])));
    }
  }

  lemma {:induction false} MultipleIsSmall(p: int, M: Poly, f: Poly, g: Poly, h: Poly, k: Poly, k': Poly)
    requires p > 0 && Wit(p, M, f, g, h, k) && CoefCong(p, k, k')
    ensures CoefCong(p, PSub(f, g), PMul(M, k'))
  {
    CoefCongIsCong(p, [], k, k');
    CongSame(p, [], M, M);
    var mk, mk' := PMul(M, k), PMul(M, k');
    forall X ensures Ev(mk, X) == Ev(M, X) * Ev(k, X) + Ev([], X) * Ev(M, X) { EvMul(M, k, X); EvConst(0, X); }
    forall X ensures Ev(mk', X) == Ev(M, X) * Ev(k', X) + Ev([], X) * Ev(M, X) { EvMul(M, k', X); EvConst(0, X); }
    CongCombine(p, [], M, k, k', [], M, M, mk, mk');
    forall X ensures Ev(PSub(f, g), X) == Ev(mk, X) + p * Ev(h, X) {
      assert Ev(f, X) == Ev(g, X) + p * Ev(h, X) + Ev(M, X) * Ev(k, X);
      EvSub(f, g, X);
      EvMul(M, k, X);
    }
    WitIsCoefCong(p, PSub(f, g), mk, h);
    CoefCongIsCong(p, [], PSub(f, g), mk);
    CongTrans(p, [], PSub(f, g), mk, mk');
    CongModP(p, PSub(f, g), mk');
  }

  // Two lists of residues of the same length agree once their coefficients do modulo p.
  lemma {:induction false} ReducedEqual(p: int, f: Poly, g: Poly)
    requires p > 0 && |f| == |g| && CoefCong(p, f, g)
    requires forall i :: 0 <= i < |f| ==> 0 <= f[i] < p && 0 <= g[i] < p
    ensures f == g
  {
    forall i | 0 <= i < |f| ensures f[i] == g[i] {
      assert Coef(f, i) % p == Coef(g, i) % p;
      ModSmall(f[i], p);
      ModSmall(g[i], p);
    }
  }
}
