// Products in the quotient ring: schoolbook, Karatsuba for degrees 3 and 6, and squarings.
module PolynomialProducts {
  import opened Arith
  import opened Fp
  import opened Polynomials
  import opened PolynomialDivision
  import opened PolynomialRing

  // ---------------------------------------------------------------- folding back the high coefficients

  // low plus the coefficients high[i..] of x^(n+i), ... is the product.
  ghost predicate Folded(F: Ring, low: Poly, high: Poly, i: nat, a: Poly, b: Poly)
    requires i <= |high|
  {
    Elt(F.p, F.n, low) && Cong(F.p, F.poly, PAdd(low, PShift(F.n + i, high[i..])), PMul(a, b))
  }

  lemma {:induction false} FoldStart(F: Ring, full: Poly, a: Poly, b: Poly)
    requires Valid(F) && |full| >= F.n && IsReduced(F.p, full) && CoefCong(F.p, full, PMul(a, b))
    ensures Folded(F, full[..F.n], full[F.n..], 0, a, b)
  {
    PrimeAboveOne(F.p);
    hide IsPrime, Cong, PMul;
    CoefCongIsCong(F.p, F.poly, full, PMul(a, b));
    var low, high := full[..F.n], full[F.n..];
    assert high[0..] == high;
    assert SameCoefs(full, PAdd(low, PShift(F.n, high)));
    forall X ensures Ev(PAdd(low, PShift(F.n, high)), X) == Ev(full, X) { SameCoefsSameValues(full, PAdd(low, PShift(F.n, high)), X); }
    CongSame(F.p, F.poly, PAdd(low, PShift(F.n, high)), full);
    CongTrans(F.p, F.poly, PAdd(low, PShift(F.n, high)), full, PMul(a, b));
  }

  // Adding high[i] times the reduced x^(n+i).
  lemma {:induction false} FoldStep(F: Ring, low: Poly, high: Poly, i: nat, low': Poly, a: Poly, b: Poly)
    requires Valid(F) && i < |high| && i < F.n && Folded(F, low, high, i, a, b) && |low'| == F.n
    requires forall j :: 0 <= j < F.n ==> low'[j] == Add(F.p, low[j], Mul(F.p, F.xpwr[i][j], high[i]))
    ensures Folded(F, low', high, i + 1, a, b)
  {
    PrimeAboveOne(F.p);
    var w, c, m := F.xpwr[i], high[i], Monomial(F.n + i);
    assert IsXPower(F.p, F.n, F.poly, i, w);
    hide IsPrime, Cong, PMul, Monomial;
    var t := PAdd(low, PScale(c, w));
    forall k: nat ensures Coef(low', k) % F.p == Coef(t, k) % F.p {
      if k < F.n { NextCoef(F.p, low[k], w[k], c); }
    }
    CoefCongIsCong(F.p, F.poly, low', t);
    FoldDiff(F.n, i, low, low', high, w);
    CongFrom(F.p, F.poly, [1], low', t, [c], w, m, PAdd(low', PShift(F.n + i + 1, high[i + 1..])), PAdd(low, PShift(F.n + i, high[i..])));
    CongTrans(F.p, F.poly, PAdd(low', PShift(F.n + i + 1, high[i + 1..])), PAdd(low, PShift(F.n + i, high[i..])), PMul(a, b));
  }

  lemma {:induction false} FoldDiff(n: nat, i: nat, low: Poly, low': Poly, high: Poly, w: Poly)
    requires i < |high|
    ensures Diff([1], low', PAdd(low, PScale(high[i], w)), [high[i]], w, Monomial(n + i),
      PAdd(low', PShift(n + i + 1, high[i + 1..])), PAdd(low, PShift(n + i, high[i..])))
  {
    var c, t := high[i], PAdd(low, PScale(high[i], w));
    var u, v := PAdd(low', PShift(n + i + 1, high[i + 1..])), PAdd(low, PShift(n + i, high[i..]));
    assert high[i..] == [c] + high[i + 1..];
    forall X ensures Ev(u, X) - Ev(v, X) == Ev([1], X) * (Ev(low', X) - Ev(t, X)) + Ev([c], X) * (Ev(w, X) - Ev(Monomial(n + i), X)) {
      hide PAdd, PShift, PScale, Ev, Monomial;
      EvConst(1, X);
      EvConst(c, X);
      EvAdd(low, PScale(c, w), X);
      EvScale(c, w, X);
      EvAdd(low', PShift(n + i + 1, high[i + 1..]), X);
      EvAdd(low, PShift(n + i, high[i..]), X);
      EvShift(n + i + 1, high[i + 1..], X);
      EvShift(n + i, high[i..], X);
      EvCons(c, high[i + 1..], X);
      EvMonomial(n + i, X);
      PowUnfolds(X, n + i);
      FoldPoly(X, Ev(low, X), Ev(low', X), c, Ev(w, X), Pow(X, n + i), Ev(high[i + 1..], X));
    }
  }

  lemma {:induction false} EvCons(c: int, f: Poly, X: int)
    ensures Ev([c] + f, X) == c + X * Ev(f, X)
  {
    assert ([c] + f)[1..] == f;
  }

  lemma FoldPoly(X: int, low: int, low': int, c: int, w: int, m: int, rest: int)
    ensures low' + X * m * rest - (low + m * (c + X * rest)) == 1 * (low' - (low + c * w)) + c * (w - m)
  {
  }

  lemma {:induction false} FoldEnd(F: Ring, low: Poly, high: Poly, a: Poly, b: Poly)
    requires Valid(F) && Folded(F, low, high, |high|, a, b)
    ensures IsProduct(F, a, b, low)
  {
    var n := |high|;
    var t := PAdd(low, PShift(F.n + n, high[n..]));
    assert SameCoefs(low, t);
    forall X ensures Ev(low, X) == Ev(t, X) { SameCoefsSameValues(low, t, X); }
    hide IsPrime, Cong, PMul;
    CongSame(F.p, F.poly, low, t);
    CongTrans(F.p, F.poly, low, t, PMul(a, b));
  }

  // polymod_const_mul followed by an addition: prod += c * xpwr[i].
  method AddMultiple(F: Ring, prod: array<int>, c: int, i: nat)
    requires Valid(F) && prod.Length == F.n && i < F.n
    modifies prod
    ensures forall j :: 0 <= j < F.n ==> prod[j] == Add(F.p, old(prod[j]), Mul(F.p, F.xpwr[i][j], c))
  {
    PrimeAboveOne(F.p);
    ghost var before := prod[..];
    var w := F.xpwr[i];
    assert IsXPower(F.p, F.n, F.poly, i, w);
    var p0 := new int[F.n];
    for j := 0 to F.n
      invariant prod[..] == before
      invariant forall k :: 0 <= k < j ==> p0[k] == Mul(F.p, w[k], c)
    {
      p0[j] := Mul(F.p, w[j], c);
    }
    for j := 0 to F.n
      invariant forall k :: 0 <= k < F.n ==> p0[k] == Mul(F.p, w[k], c)
      invariant forall k :: 0 <= k < F.n ==> prod[k] == if k < j then Add(F.p, before[k], Mul(F.p, w[k], c)) else before[k]
    {
      prod[j] := Add(F.p, prod[j], p0[j]);
    }
  }

  // Folds all high coefficients into prod.
  method FoldAll(F: Ring, prod: array<int>, high: array<int>, ghost a: Poly, ghost b: Poly)
    requires Valid(F) && prod.Length == F.n && high.Length <= F.n && prod != high
    requires Folded(F, prod[..], high[..], 0, a, b)
    modifies prod
    ensures IsProduct(F, a, b, prod[..])
  {
    ghost var h := high[..];
    for i := 0 to high.Length
      invariant high[..] == h && Folded(F, prod[..], h, i, a, b)
    {
      ghost var low := prod[..];
      AddMultiple(F, prod, high[i], i);
      hide *;
      FoldStep(F, low, h, i, prod[..], a, b);
    }
    FoldEnd(F, prod[..], h, a, b);
  }

  // ---------------------------------------------------------------- schoolbook

  // W holds the rows before i and the first j terms of row i.
  ghost predicate Accumulated(p: nat, W: Poly, a: Poly, b: Poly, i: nat, j: nat)
    requires i < |a| && j <= |b|
  {
    Cong(p, [], W, PAdd(PMul(a[..i], b), PShift(i, PScale(a[i], b[..j]))))
  }

  lemma {:induction false} TermAdded(p: nat, W: Poly, W': Poly, a: Poly, b: Poly, i: nat, j: nat)
    requires p > 0 && i < |a| && j < |b| && i + j < |W| && Accumulated(p, W, a, b, i, j)
    requires W' == W[i + j := Add(p, W[i + j], Mul(p, a[i], b[j]))]
    ensures Accumulated(p, W', a, b, i, j + 1)
  {
    hide Cong, PMul;
    var U := W[i + j := W[i + j] + a[i] * b[j]];
    forall k: nat ensures Coef(W', k) % p == Coef(U, k) % p {
      if k == i + j { NextCoef(p, W[k], b[j], a[i]); assert a[i] * b[j] == b[j] * a[i]; }
    }
    CoefCongIsCong(p, [], W', U);
    var g, g' := PAdd(PMul(a[..i], b), PShift(i, PScale(a[i], b[..j]))), PAdd(PMul(a[..i], b), PShift(i, PScale(a[i], b[..j + 1])));
    TermDiff(W, U, a, b, i, j);
    CongFrom(p, [], [1], W, g, [1], W, W, U, g') by { CongSame(p, [], W, W); }
    CongTrans(p, [], W', U, g');
  }

  lemma {:induction false} TermDiff(W: Poly, U: Poly, a: Poly, b: Poly, i: nat, j: nat)
    requires i < |a| && j < |b| && i + j < |W| && U == W[i + j := W[i + j] + a[i] * b[j]]
    ensures Diff([1], W, PAdd(PMul(a[..i], b), PShift(i, PScale(a[i], b[..j]))), [1], W, W, U, PAdd(PMul(a[..i], b), PShift(i, PScale(a[i], b[..j + 1]))))
  {
    var s, t := PScale(a[i], b[..j]), PScale(a[i], b[..j + 1]);
    var m := PMul(a[..i], b);
    var g, g' := PAdd(m, PShift(i, s)), PAdd(m, PShift(i, t));
    assert t == s + [a[i] * b[j]];
    forall X ensures Ev(U, X) - Ev(g', X) == Ev([1], X) * (Ev(W, X) - Ev(g, X)) + Ev([1], X) * (Ev(W, X) - Ev(W, X)) {
      hide PAdd, PMul, PShift, PScale, Ev;
      EvConst(1, X);
      EvUpdate(W, i + j, W[i + j] + a[i] * b[j], X);
      EvAdd(m, PShift(i, s), X);
      EvAdd(m, PShift(i, t), X);
      EvShift(i, s, X);
      EvShift(i, t, X);
      EvSnoc(s, a[i] * b[j], X);
      PowAdd(X, i, j);
      TermPoly(Ev(W, X), Ev(m, X), Pow(X, i), Pow(X, j), Ev(s, X), a[i] * b[j], W[i + j]);
    }
  }

  lemma TermPoly(W: int, m: int, u: int, v: int, s: int, c: int, w: int)
    ensures W + (w + c - w) * (u * v) - (m + u * (s + c * v)) == 1 * (W - (m + u * s)) + 1 * (W - W)
  {
  }

  lemma {:induction false} RowDone(p: nat, W: Poly, a: Poly, b: Poly, i: nat)
    requires p > 0 && i < |a| && Accumulated(p, W, a, b, i, |b|)
    ensures Cong(p, [], W, PMul(a[..i + 1], b))
    ensures i + 1 < |a| ==> Accumulated(p, W, a, b, i + 1, 0)
  {
    hide Cong, PMul;
    var t := PScale(a[i], b[..|b|]);
    var g, r := PAdd(PMul(a[..i], b), PShift(i, t)), PMul(a[..i + 1], b);
    assert b[..|b|] == b && a[..i + 1] == a[..i] + [a[i]];
    forall X ensures Ev(g, X) == Ev(r, X) {
      hide PAdd, PMul, PShift, PScale, Ev;
      EvAdd(PMul(a[..i], b), PShift(i, t), X);
      EvMul(a[..i], b, X);
      EvMul(a[..i + 1], b, X);
      EvSnoc(a[..i], a[i], X);
      EvShift(i, t, X);
      EvScale(a[i], b, X);
      RowPoly(Ev(a[..i], X), Ev(b, X), a[i], Pow(X, i));
    }
    CongSame(p, [], g, r);
    CongTrans(p, [], W, g, r);
    if i + 1 < |a| { RowStart(p, W, a, b, i + 1); }
  }

  lemma RowPoly(a: int, b: int, c: int, w: int)
    ensures a * b + w * (c * b) == (a + c * w) * b
  {
  }

  lemma {:induction false} RowStart(p: nat, W: Poly, a: Poly, b: Poly, i: nat)
    requires p > 0 && i < |a| && Cong(p, [], W, PMul(a[..i], b))
    ensures Accumulated(p, W, a, b, i, 0)
  {
    hide Cong;
    var g := PAdd(PMul(a[..i], b), PShift(i, PScale(a[i], b[..0])));
    forall X ensures Ev(PMul(a[..i], b), X) == Ev(g, X) {
      EvAdd(PMul(a[..i], b), PShift(i, PScale(a[i], b[..0])), X);
      EvShift(i, PScale(a[i], b[..0]), X);
      assert PScale(a[i], b[..0]) == [];
    }
    CongSame(p, [], PMul(a[..i], b), g);
    CongTrans(p, [], W, PMul(a[..i], b), g);
  }

  lemma {:induction false} AccumulateStart(p: nat, a: Poly, b: Poly, k: nat)
    requires p > 0 && a != []
    ensures Accumulated(p, Zeros(k), a, b, 0, 0)
  {
    forall X ensures Ev(Zeros(k), X) == Ev(PMul(a[..0], b), X) { ZerosVanish(Zeros(k), X); EvConst(0, X); }
    CongSame(p, [], Zeros(k), PMul(a[..0], b));
    RowStart(p, Zeros(k), a, b, 0);
  }

  // The full product in two arrays: below x^n, and from x^n on.
  method MultiplyOut(F: Ring, dst: array<int>, high: array<int>, s1: Poly, s2: Poly)
    requires Valid(F) && Elt(F.p, F.n, s1) && Elt(F.p, F.n, s2) && dst.Length == F.n && high.Length == F.n - 1 && dst != high
    requires dst[..] == Zeros(F.n) && high[..] == Zeros(F.n - 1)
    modifies dst, high
    ensures IsReduced(F.p, dst[..]) && IsReduced(F.p, high[..]) && CoefCong(F.p, dst[..] + high[..], PMul(s1, s2))
  {
    hide *;
    var n := F.n;
    ValidMeans(F);
    EltMeans(F.p, n, s1);
    EltMeans(F.p, n, s2);
    AccumulateStart(F.p, s1, s2, n + (n - 1));
    assert Zeros(n) + Zeros(n - 1) == Zeros(n + (n - 1));
    ZerosReduced(F.p, n);
    ZerosReduced(F.p, n - 1);
    for i := 0 to n
      invariant IsReduced(F.p, dst[..]) && IsReduced(F.p, high[..])
      invariant i < n ==> Accumulated(F.p, dst[..] + high[..], s1, s2, i, 0)
      invariant i > 0 ==> Cong(F.p, [], dst[..] + high[..], PMul(s1[..i], s2))
    {
      var ni := n - i;
      for j := 0 to ni
        invariant IsReduced(F.p, dst[..]) && IsReduced(F.p, high[..])
        invariant Accumulated(F.p, dst[..] + high[..], s1, s2, i, j)
      {
        ghost var W := dst[..] + high[..];
        var c0 := Mul(F.p, s1[i], s2[j]);
        dst[i + j] := Add(F.p, dst[i + j], c0);
        assert dst[..] + high[..] == W[i + j := Add(F.p, W[i + j], c0)];
        AddElem(F.p, W[i + j], c0, W[..n], i + j);
        TermAdded(F.p, W, dst[..] + high[..], s1, s2, i, j);
      }
      for j := ni to n
        invariant IsReduced(F.p, dst[..]) && IsReduced(F.p, high[..])
        invariant Accumulated(F.p, dst[..] + high[..], s1, s2, i, j)
      {
        ghost var W := dst[..] + high[..];
        var c0 := Mul(F.p, s1[i], s2[j]);
        high[j - ni] := Add(F.p, high[j - ni], c0);
        assert dst[..] + high[..] == W[i + j := Add(F.p, W[i + j], c0)];
        AddElem(F.p, W[i + j], c0, W[n..], j - ni);
        TermAdded(F.p, W, dst[..] + high[..], s1, s2, i, j);
      }
      RowDone(F.p, dst[..] + high[..], s1, s2, i);
    }
    assert s1[..n] == s1;
    CongModP(F.p, dst[..] + high[..], PMul(s1, s2));
  }

  lemma ValidMeans(F: Ring)
    requires Valid(F)
    ensures F.n >= 1 && F.p > 1 && IsPrime(F.p) && |F.xpwr| == F.n && |F.poly| == F.n + 1
  {
  }

  lemma ZerosReduced(p: nat, n: nat)
    requires p > 0
    ensures IsReduced(p, Zeros(n))
  {
  }

  lemma AddElem(p: nat, a: int, b: int, s: Poly, k: nat)
    requires p > 0 && IsReduced(p, s) && k < |s|
    ensures IsReduced(p, s[k := Add(p, a, b)])
  {
  }

  lemma EltMeans(p: nat, n: nat, s: Poly)
    requires Elt(p, n, s)
    ensures |s| == n && IsReduced(p, s)
  {
  }

  // General multiplication; the result may be one of the operands.
  method PolymodMul(F: Ring, res: array<int>, e: array<int>, f: array<int>)
    requires Valid(F) && res.Length == F.n && Elt(F.p, F.n, e[..]) && Elt(F.p, F.n, f[..])
    modifies res
    ensures IsProduct(F, old(e[..]), old(f[..]), res[..])
  {
    hide *;
    ValidMeans(F);
    var n := F.n;
    ghost var a, b := e[..], f[..];
    var high := new int[n - 1](_ => 0);
    var prod := new int[n](_ => 0);
    assert high[..] == Zeros(n - 1) && prod[..] == Zeros(n);
    MultiplyOut(F, prod, high, e[..], f[..]);
    ReducedConcat(F.p, prod[..], high[..]);
    FoldBegin(F, prod[..], high[..], a, b);
    FoldAll(F, prod, high, a, b);
    CopyTo(res, prod);
  }

  lemma ReducedConcat(p: nat, s: Poly, t: Poly)
    requires IsReduced(p, s) && IsReduced(p, t)
    ensures IsReduced(p, s + t)
  {
  }

  lemma {:induction false} FoldBegin(F: Ring, low: Poly, high: Poly, a: Poly, b: Poly)
    requires Valid(F) && |low| == F.n && IsReduced(F.p, low + high) && CoefCong(F.p, low + high, PMul(a, b))
    ensures Folded(F, low, high, 0, a, b)
  {
    hide *;
    FoldStart(F, low + high, a, b);
    assert (low + high)[..F.n] == low && (low + high)[F.n..] == high;
  }

  method CopyTo(res: array<int>, prod: array<int>)
    requires res.Length == prod.Length
    modifies res
    ensures res[..] == old(prod[..])
  {
    ghost var before := prod[..];
    if res == prod {
      return;
    }
    for i := 0 to prod.Length
      invariant prod[..] == before && forall k :: 0 <= k < i ==> res[k] == before[k]
    {
      res[i] := prod[i];
    }
  }

  // ---------------------------------------------------------------- Karatsuba for three coefficients

  lemma {:induction false} ThreeByThree(a: Poly, b: Poly)
    requires |a| == 3 && |b| == 3
    ensures PMul(a, b) == [a[0] * b[0], a[0] * b[1] + a[1] * b[0], a[0] * b[2] + a[1] * b[1] + a[2] * b[0], a[1] * b[2] + a[2] * b[1], a[2] * b[2]]
  {
    var t2 := PMul(a[2..], b);
    assert a[2..][1..] == [] && a[1..][1..] == a[2..];
    assert PMul([], b) == [] && PShift(1, []) == [0];
    assert t2 == [a[2] * b[0], a[2] * b[1], a[2] * b[2]];
    var t1 := PMul(a[1..], b);
    assert t1 == [a[1] * b[0], a[1] * b[1] + a[2] * b[0], a[1] * b[2] + a[2] * b[1], a[2] * b[2]];
  }

  // The five coefficients that Karatsuba's sums and differences give are those of the product.
  lemma {:induction false} KaratsubaCoefs(p: nat, a: Poly, b: Poly)
    requires p > 1 && |a| == 3 && |b| == 3 && IsReduced(p, a) && IsReduced(p, b)
    ensures KaratsubaHolds(p, a, b)
  {
    RepElem(p, a[0]);
    RepElem(p, a[1]);
    RepElem(p, a[2]);
    RepElem(p, b[0]);
    RepElem(p, b[1]);
    RepElem(p, b[2]);
    Represent(p);
    KaratsubaPoly3(a[0], a[1], a[2], b[0], b[1], b[2]);
    hide Red, Add, Sub, Mul, Elem, Plus, Minus, Times, Rep;
  }

  ghost predicate KaratsubaHolds(p: nat, a: Poly, b: Poly)
    requires p > 0 && |a| == 3 && |b| == 3
  {
    var c01, c02, c12 := Mul(p, Add(p, a[0], a[1]), Add(p, b[0], b[1])), Mul(p, Add(p, a[0], a[2]), Add(p, b[0], b[2])), Mul(p, Add(p, a[1], a[2]), Add(p, b[1], b[2]));
    var d0, d1, c4 := Mul(p, a[0], b[0]), Mul(p, a[1], b[1]), Mul(p, a[2], b[2]);
    && d0 == Red(p, a[0] * b[0]) && c4 == Red(p, a[2] * b[2])
    && Sub(p, c12, Add(p, d1, c4)) == Red(p, a[1] * b[2] + a[2] * b[1])
    && Add(p, d1, Sub(p, c02, Add(p, c4, d0))) == Red(p, a[0] * b[2] + a[1] * b[1] + a[2] * b[0])
    && Sub(p, Sub(p, c01, d0), d1) == Red(p, a[0] * b[1] + a[1] * b[0])
  }

  lemma KaratsubaPoly3(a0: int, a1: int, a2: int, b0: int, b1: int, b2: int)
    ensures Times(a0, b0) == a0 * b0 && Times(a2, b2) == a2 * b2
    ensures Minus(Times(Plus(a1, a2), Plus(b1, b2)), Plus(Times(a1, b1), Times(a2, b2))) == a1 * b2 + a2 * b1
    ensures Plus(Times(a1, b1), Minus(Times(Plus(a0, a2), Plus(b0, b2)), Plus(Times(a2, b2), Times(a0, b0)))) == a0 * b2 + a1 * b1 + a2 * b0
    ensures Minus(Minus(Times(Plus(a0, a1), Plus(b0, b1)), Times(a0, b0)), Times(a1, b1)) == a0 * b1 + a1 * b0
  {
  }

  lemma {:induction false} KaratsubaCong(p: nat, a: Poly, b: Poly, d: Poly)
    requires p > 1 && |a| == 3 && |b| == 3 && |d| == 5
    requires d[0] == Red(p, a[0] * b[0]) && d[1] == Red(p, a[0] * b[1] + a[1] * b[0])
    requires d[2] == Red(p, a[0] * b[2] + a[1] * b[1] + a[2] * b[0]) && d[3] == Red(p, a[1] * b[2] + a[2] * b[1]) && d[4] == Red(p, a[2] * b[2])
    ensures CoefCong(p, d, PMul(a, b)) && IsReduced(p, d)
  {
    ThreeByThree(a, b);
    forall i: nat ensures Coef(d, i) % p == Coef(PMul(a, b), i) % p {
      if i < 5 { ModMod(PMul(a, b)[i], p); }
    }
  }

  // kar_poly_2: the lower three coefficients go to dst, which may be an operand read from its start.
  method KarPoly2(p: nat, dst: array<int>, s1: array<int>, o1: nat, s2: array<int>, o2: nat) returns (c3: int, c4: int)
    requires p > 1 && dst.Length >= 3 && o1 + 3 <= s1.Length && o2 + 3 <= s2.Length
    requires (dst == s1 ==> o1 == 0) && (dst == s2 ==> o2 == 0)
    requires IsReduced(p, s1[o1..o1 + 3]) && IsReduced(p, s2[o2..o2 + 3])
    modifies dst
    ensures dst[3..] == old(dst[3..]) && IsReduced(p, dst[..3] + [c3, c4])
    ensures CoefCong(p, dst[..3] + [c3, c4], old(PMul(s1[o1..o1 + 3], s2[o2..o2 + 3])))
  {
    hide Mul, Add, Sub, Red, PMul, Elem, CoefCong, IsReduced;
    ghost var a, b := s1[o1..o1 + 3], s2[o2..o2 + 3];
    KaratsubaCoefs(p, a, b);
    c3 := Add(p, s1[o1], s1[o1 + 1]);
    c4 := Add(p, s2[o2], s2[o2 + 1]);
    var c01 := Mul(p, c3, c4);
    c3 := Add(p, s1[o1], s1[o1 + 2]);
    c4 := Add(p, s2[o2], s2[o2 + 2]);
    var c02 := Mul(p, c3, c4);
    c3 := Add(p, s1[o1 + 1], s1[o1 + 2]);
    c4 := Add(p, s2[o2 + 1], s2[o2 + 2]);
    var c12 := Mul(p, c3, c4);
    dst[1] := Mul(p, s1[o1 + 1], s2[o2 + 1]);
    dst[0] := Mul(p, s1[o1], s2[o2]);
    c4 := Mul(p, s1[o1 + 2], s2[o2 + 2]);
    c3 := Add(p, dst[1], c4);
    c3 := Sub(p, c12, c3);
    dst[2] := Add(p, c4, dst[0]);
    c02 := Sub(p, c02, dst[2]);
    dst[2] := Add(p, dst[1], c02);
    c01 := Sub(p, c01, dst[0]);
    dst[1] := Sub(p, c01, dst[1]);
    KaratsubaCong(p, a, b, dst[..3] + [c3, c4]);
  }

  // One more high coefficient folded in.
  method FoldOne(F: Ring, res: array<int>, c: int, i: nat, ghost high: Poly, ghost a: Poly, ghost b: Poly)
    requires Valid(F) && res.Length == F.n && i < F.n && i < |high| && high[i] == c && Folded(F, res[..], high, i, a, b)
    modifies res
    ensures Folded(F, res[..], high, i + 1, a, b)
  {
    hide *;
    ValidMeans(F);
    ghost var low := res[..];
    AddMultiple(F, res, c, i);
    FoldStep(F, low, high, i, res[..], a, b);
  }

  // Multiplication for degree 3; the result may be one of the operands.
  method PolymodMulDegree3(F: Ring, res: array<int>, e: array<int>, f: array<int>)
    requires Valid(F) && F.n == 3 && res.Length == 3 && Elt(F.p, 3, e[..]) && Elt(F.p, 3, f[..])
    modifies res
    ensures IsProduct(F, old(e[..]), old(f[..]), res[..])
  {
    hide *;
    ValidMeans(F);
    EltMeans(F.p, 3, e[..]);
    EltMeans(F.p, 3, f[..]);
    ghost var a, b := e[..], f[..];
    assert e[..] == e[0..0 + 3] && f[..] == f[0..0 + 3];
    var c3, c4 := KarPoly2(F.p, res, e, 0, f, 0);
    ghost var high := [c3, c4];
    assert res[..3] == res[..] && high == [c3, c4];
    FoldBegin(F, res[..], high, a, b);
    FoldOne(F, res, c3, 0, high, a, b);
    FoldOne(F, res, c4, 1, high, a, b);
    FoldEnd(F, res[..], high, a, b);
  }

  // ---------------------------------------------------------------- degree 6 by two halves

  // The product of the halves' sums, without the outer products, is the middle.
  ghost predicate Middle(p: nat, a: Poly, b: Poly, U: Poly, V: Poly, S0: Poly, S1: Poly, S2: Poly)
    requires p > 0 && |a| == 6 && |b| == 6
  {
    && CoefCong(p, U, PAdd(a[..3], a[3..])) && CoefCong(p, V, PAdd(b[..3], b[3..]))
    && CoefCong(p, S0, PMul(a[..3], b[..3])) && CoefCong(p, S1, PMul(a[3..], b[3..])) && CoefCong(p, S2, PMul(U, V))
  }

  function Combined(S0: Poly, S1: Poly, S2: Poly): Poly
  {
    PAdd(PAdd(S0, PShift(3, PSub(PSub(S2, S0), S1))), PShift(6, S1))
  }

  lemma {:induction false} CombinedIsProduct(p: nat, a: Poly, b: Poly, U: Poly, V: Poly, S0: Poly, S1: Poly, S2: Poly)
    requires p > 0 && |a| == 6 && |b| == 6 && Middle(p, a, b, U, V, S0, S1, S2)
    ensures CoefCong(p, Combined(S0, S1, S2), PMul(a, b))
  {
    hide PAdd, PMul, CoefCong, Cong, Combined;
    var sa, sb := PAdd(a[..3], a[3..]), PAdd(b[..3], b[3..]);
    CoefCongIsCong(p, [], U, sa);
    CoefCongIsCong(p, [], V, sb);
    CoefCongIsCong(p, [], S0, PMul(a[..3], b[..3]));
    CoefCongIsCong(p, [], S1, PMul(a[3..], b[3..]));
    CoefCongIsCong(p, [], S2, PMul(U, V));
    ProductDiff(U, sa, V, sb);
    CongFrom(p, [], V, U, sa, sa, V, sb, PMul(U, V), PMul(sa, sb));
    CombinedDiff(a, b, U, V, S0, S1, S2);
    CongFrom4(p, [], [1, 0, 0, -1], S0, PMul(a[..3], b[..3]), [0, 0, 0, 1], S2, PMul(U, V), [0, 0, 0, -1, 0, 0, 1], S1, PMul(a[3..], b[3..]),
      [0, 0, 0, 1], PMul(U, V), PMul(sa, sb), Combined(S0, S1, S2), PMul(a, b));
    CongModP(p, Combined(S0, S1, S2), PMul(a, b));
  }

  lemma {:induction false} ProductDiff(U: Poly, U': Poly, V: Poly, V': Poly)
    ensures Diff(V, U, U', U', V, V', PMul(U, V), PMul(U', V'))
  {
    forall X ensures Ev(PMul(U, V), X) - Ev(PMul(U', V'), X) == Ev(V, X) * (Ev(U, X) - Ev(U', X)) + Ev(U', X) * (Ev(V, X) - Ev(V', X)) {
      hide Ev, PMul;
      EvMul(U, V, X);
      EvMul(U', V', X);
      ProductDiffPoly(Ev(U, X), Ev(U', X), Ev(V, X), Ev(V', X));
    }
  }

  lemma ProductDiffPoly(u: int, u': int, v: int, v': int)
    ensures u * v - u' * v' == v * (u - u') + u' * (v - v')
  {
  }

  lemma {:induction false} EvMultipliers(X: int)
    ensures Ev([1, 0, 0, -1], X) == 1 - Pow(X, 3) && Ev([0, 0, 0, 1], X) == Pow(X, 3) && Ev([0, 0, 0, -1, 0, 0, 1], X) == Pow(X, 6) - Pow(X, 3)
  {
    EvShift(3, [1], X);
    EvShift(6, [1], X);
    EvConst(1, X);
    EvConst(-1, X);
    assert [0, 0, 0, 1] == PShift(3, [1]);
    assert [1, 0, 0, -1] == PSub([1], PShift(3, [1]));
    EvSub([1], PShift(3, [1]), X);
    assert [0, 0, 0, -1, 0, 0, 1] == PSub(PShift(6, [1]), PShift(3, [1]));
    EvSub(PShift(6, [1]), PShift(3, [1]), X);
  }

  lemma {:induction false} EvHalves(a: Poly, X: int)
    requires |a| == 6
    ensures Ev(a, X) == Ev(a[..3], X) + Pow(X, 3) * Ev(a[3..], X)
  {
    var t := PAdd(a[..3], PShift(3, a[3..]));
    assert a == t;
    EvAdd(a[..3], PShift(3, a[3..]), X);
    EvShift(3, a[3..], X);
  }

  lemma {:induction false} EvCombined(S0: Poly, S1: Poly, S2: Poly, X: int)
    ensures Ev(Combined(S0, S1, S2), X) == Ev(S0, X) + Pow(X, 3) * (Ev(S2, X) - Ev(S0, X) - Ev(S1, X)) + Pow(X, 6) * Ev(S1, X)
  {
    hide Ev, PAdd, PSub, PShift, Pow;
    var m := PSub(PSub(S2, S0), S1);
    EvAdd(PAdd(S0, PShift(3, m)), PShift(6, S1), X);
    EvAdd(S0, PShift(3, m), X);
    EvShift(3, m, X);
    EvShift(6, S1, X);
    EvSub(PSub(S2, S0), S1, X);
    EvSub(S2, S0, X);
  }

  lemma {:induction false} CombinedDiff(a: Poly, b: Poly, U: Poly, V: Poly, S0: Poly, S1: Poly, S2: Poly)
    requires |a| == 6 && |b| == 6
    ensures Diff4([1, 0, 0, -1], S0, PMul(a[..3], b[..3]), [0, 0, 0, 1], S2, PMul(U, V), [0, 0, 0, -1, 0, 0, 1], S1, PMul(a[3..], b[3..]),
      [0, 0, 0, 1], PMul(U, V), PMul(PAdd(a[..3], a[3..]), PAdd(b[..3], b[3..])), Combined(S0, S1, S2), PMul(a, b))
  {
    hide Ev, PAdd, PMul, Combined;
    forall X {:trigger Ev(S0, X)} ensures CombinedHolds(a, b, U, V, S0, S1, S2, X) { CombinedAt(a, b, U, V, S0, S1, S2, X); }
  }

  ghost predicate CombinedHolds(a: Poly, b: Poly, U: Poly, V: Poly, S0: Poly, S1: Poly, S2: Poly, X: int)
    requires |a| == 6 && |b| == 6
  {
    var sab := PMul(PAdd(a[..3], a[3..]), PAdd(b[..3], b[3..]));
    Ev(Combined(S0, S1, S2), X) - Ev(PMul(a, b), X) ==
      Ev([1, 0, 0, -1], X) * (Ev(S0, X) - Ev(PMul(a[..3], b[..3]), X)) + Ev([0, 0, 0, 1], X) * (Ev(S2, X) - Ev(PMul(U, V), X)) +
      Ev([0, 0, 0, -1, 0, 0, 1], X) * (Ev(S1, X) - Ev(PMul(a[3..], b[3..]), X)) + Ev([0, 0, 0, 1], X) * (Ev(PMul(U, V), X) - Ev(sab, X))
  }

  lemma {:induction false} CombinedAt(a: Poly, b: Poly, U: Poly, V: Poly, S0: Poly, S1: Poly, S2: Poly, X: int)
    requires |a| == 6 && |b| == 6
    ensures CombinedHolds(a, b, U, V, S0, S1, S2, X)
  {
    hide Ev, PAdd, PMul, Combined, Pow;
    EvMultipliers(X);
    EvCombined(S0, S1, S2, X);
    EvMul(a, b, X);
    EvHalves(a, X);
    EvHalves(b, X);
    EvMul(a[..3], b[..3], X);
    EvMul(a[3..], b[3..], X);
    EvMul(PAdd(a[..3], a[3..]), PAdd(b[..3], b[3..]), X);
    EvAdd(a[..3], a[3..], X);
    EvAdd(b[..3], b[3..], X);
    PowAdd(X, 3, 3);
    CombinedPoly(Pow(X, 3), Ev(S0, X), Ev(S1, X), Ev(S2, X), Ev(a[..3], X), Ev(a[3..], X), Ev(b[..3], X), Ev(b[3..], X), Ev(PMul(U, V), X));
  }

  lemma {:induction false} CombinedPoly(w: int, s0: int, s1: int, s2: int, a0: int, a1: int, b0: int, b1: int, uv: int)
    ensures s0 + w * (s2 - s0 - s1) + w * w * s1 - (a0 + w * a1) * (b0 + w * b1) ==
      (1 - w) * (s0 - a0 * b0) + w * (s2 - uv) + (w * w - w) * (s1 - a1 * b1) + w * (uv - (a0 + a1) * (b0 + b1))
  {
    HalvesProduct(w, a0, a1, b0, b1);
  }

  lemma HalvesProduct(w: int, a0: int, a1: int, b0: int, b1: int)
    ensures (a0 + w * a1) * (b0 + w * b1) == a0 * b0 + w * ((a0 + a1) * (b0 + b1) - a0 * b0 - a1 * b1) + w * w * (a1 * b1)
  {
  }

  // The eleven coefficients the routine computes.
  ghost predicate SixWritten(p: nat, W: Poly, S0: Poly, S1: Poly, S2: Poly)
    requires p > 0
  {
    && |W| == 11 && |S0| == 5 && |S1| == 5 && |S2| == 5
    && W[0] == S0[0] && W[1] == S0[1] && W[2] == S0[2]
    && W[3] == Add(p, Sub(p, Sub(p, S0[3], S0[0]), S1[0]), S2[0])
    && W[4] == Add(p, Sub(p, Sub(p, S0[4], S0[1]), S1[1]), S2[1])
    && W[5] == Sub(p, Sub(p, S2[2], S0[2]), S1[2])
    && W[6] == Add(p, Sub(p, Sub(p, S2[3], S0[3]), S1[3]), S1[0])
    && W[7] == Add(p, Sub(p, Sub(p, S2[4], S0[4]), S1[4]), S1[1])
    && W[8] == S1[2] && W[9] == S1[3] && W[10] == S1[4]
  }

  lemma {:induction false} SixCong(p: nat, W: Poly, S0: Poly, S1: Poly, S2: Poly)
    requires p > 0 && SixWritten(p, W, S0, S1, S2) && IsReduced(p, S0) && IsReduced(p, S1)
    ensures CoefCong(p, W, Combined(S0, S1, S2)) && IsReduced(p, W)
  {
    MiddleCoef(p, S0[3], S0[0], S1[0], S2[0]);
    MiddleCoef(p, S0[4], S0[1], S1[1], S2[1]);
    MiddleCoef(p, S2[3], S0[3], S1[3], S1[0]);
    MiddleCoef(p, S2[4], S0[4], S1[4], S1[1]);
    MiddleCoef(p, S2[2], S0[2], S1[2], 0);
    var C := Combined(S0, S1, S2);
    CombinedCoefs(S0, S1, S2);
    hide Add, Sub, Combined;
    forall i: nat ensures Coef(W, i) % p == Coef(C, i) % p {
    }
  }

  lemma {:induction false} MiddleCoef(p: nat, a: int, b: int, c: int, d: int)
    requires p > 0
    ensures Add(p, Sub(p, Sub(p, a, b), c), d) % p == (a - b - c + d) % p && Sub(p, Sub(p, a, b), c) % p == (a - b - c) % p
    ensures Elem(p, Add(p, Sub(p, Sub(p, a, b), c), d)) && Elem(p, Sub(p, Sub(p, a, b), c))
  {
    ModMod(a - b, p);
    ModAdd((a - b) % p, a - b, c, c, p);
    ModMod((a - b) % p - c, p);
    ModMod(a - b - c, p);
    ModAdd(((a - b) % p - c) % p, a - b - c, d, d, p);
    ModMod(((a - b) % p - c) % p + d, p);
  }

  lemma {:induction false} CombinedCoefs(S0: Poly, S1: Poly, S2: Poly)
    requires |S0| == 5 && |S1| == 5 && |S2| == 5
    ensures Combined(S0, S1, S2) == [S0[0], S0[1], S0[2], S0[3] - S0[0] - S1[0] + S2[0], S0[4] - S0[1] - S1[1] + S2[1], S2[2] - S0[2] - S1[2],
      S2[3] - S0[3] - S1[3] + S1[0], S2[4] - S0[4] - S1[4] + S1[1], S1[2], S1[3], S1[4]]
  {
    hide PAdd, PShift, PSub, Combined;
    var m := [S2[0] - S0[0] - S1[0], S2[1] - S0[1] - S1[1], S2[2] - S0[2] - S1[2], S2[3] - S0[3] - S1[3], S2[4] - S0[4] - S1[4]];
    DifferenceOfFive(S0, S1, S2);
    ShiftedSum(S0, m);
    ShiftedSum6([S0[0], S0[1], S0[2], S0[3] + m[0], S0[4] + m[1], m[2], m[3], m[4]], S1);
    CombinedIs(S0, S1, S2);
  }

  lemma CombinedIs(S0: Poly, S1: Poly, S2: Poly)
    ensures Combined(S0, S1, S2) == PAdd(PAdd(S0, PShift(3, PSub(PSub(S2, S0), S1))), PShift(6, S1))
  {
  }

  lemma DifferenceOfFive(S0: Poly, S1: Poly, S2: Poly)
    requires |S0| == 5 && |S1| == 5 && |S2| == 5
    ensures PSub(PSub(S2, S0), S1) ==
      [S2[0] - S0[0] - S1[0], S2[1] - S0[1] - S1[1], S2[2] - S0[2] - S1[2], S2[3] - S0[3] - S1[3], S2[4] - S0[4] - S1[4]]
  {
  }

  lemma ShiftedSum(S: Poly, m: Poly)
    requires |S| == 5 && |m| == 5
    ensures PAdd(S, PShift(3, m)) == [S[0], S[1], S[2], S[3] + m[0], S[4] + m[1], m[2], m[3], m[4]]
  {
    var t := PShift(3, m);
    assert t[3] == m[0] && t[4] == m[1] && t[5] == m[2] && t[6] == m[3] && t[7] == m[4];
  }

  lemma ShiftedSum6(T: Poly, S: Poly)
    requires |T| == 8 && |S| == 5
    ensures PAdd(T, PShift(6, S)) == [T[0], T[1], T[2], T[3], T[4], T[5], T[6] + S[0], T[7] + S[1], S[2], S[3], S[4]]
  {
    var t := PShift(6, S);
    assert t[6] == S[0] && t[7] == S[1] && t[8] == S[2] && t[9] == S[3] && t[10] == S[4];
  }

  // The sums of the two halves.
  method AddHalves(p: nat, s: array<int>, a: array<int>)
    requires p > 0 && s.Length == 6 && a.Length == 6 && s != a
    modifies s
    ensures IsReduced(p, s[0..0 + 3]) && CoefCong(p, s[0..0 + 3], PAdd(a[..3], a[3..]))
  {
    s[0] := Add(p, a[0], a[3]);
    s[1] := Add(p, a[1], a[4]);
    s[2] := Add(p, a[2], a[5]);
    ModMod(a[0] + a[3], p);
    ModMod(a[1] + a[4], p);
    ModMod(a[2] + a[5], p);
    ghost var t := PAdd(a[..3], a[3..]);
    assert t == [a[0] + a[3], a[1] + a[4], a[2] + a[5]];
    assert s[0..0 + 3] == [Add(p, a[0], a[3]), Add(p, a[1], a[4]), Add(p, a[2], a[5])];
  }

  // Multiplication for degree 6; the result may be one of the operands.
  method PolymodMulDegree6(F: Ring, res: array<int>, e: array<int>, f: array<int>)
    requires Valid(F) && F.n == 6 && res.Length == 6 && Elt(F.p, 6, e[..]) && Elt(F.p, 6, f[..])
    modifies res
    ensures IsProduct(F, old(e[..]), old(f[..]), res[..])
  {
    hide *;
    ValidMeans(F);
    EltMeans(F.p, 6, e[..]);
    EltMeans(F.p, 6, f[..]);
    ghost var a, b := e[..], f[..];
    var s0, s1, s2 := ThreeProducts(F.p, e, f);
    var h0, h1 := CombineHalves(F.p, res, s0, s1, s2, a, b);
    ghost var high := [h0, h1, s1[2], s1[3], s1[4]];
    FoldBegin(F, res[..], high, a, b);
    FoldOne(F, res, h0, 0, high, a, b);
    FoldOne(F, res, h1, 1, high, a, b);
    FoldOne(F, res, s1[2], 2, high, a, b);
    FoldOne(F, res, s1[3], 3, high, a, b);
    FoldOne(F, res, s1[4], 4, high, a, b);
    FoldEnd(F, res[..], high, a, b);
  }

  // The products of the lower halves, of the upper halves, and of the halves' sums.
  ghost predicate HalvesMultiplied(p: nat, a: Poly, b: Poly, S0: Poly, S1: Poly, S2: Poly)
    requires p > 0 && |a| == 6 && |b| == 6
  {
    && |S0| == 5 && |S1| == 5 && |S2| == 5 && IsReduced(p, S0) && IsReduced(p, S1)
    && CoefCong(p, Combined(S0, S1, S2), PMul(a, b))
  }

  method ThreeProducts(p: nat, e: array<int>, f: array<int>) returns (s0: array<int>, s1: array<int>, s2: array<int>)
    requires p > 1 && e.Length == 6 && f.Length == 6 && IsReduced(p, e[..]) && IsReduced(p, f[..])
    ensures fresh(s0) && fresh(s1) && fresh(s2) && s0 != s1 && s0 != s2 && s1 != s2 && s0.Length == 6 && s1.Length == 6 && s2.Length == 6
    ensures HalvesMultiplied(p, e[..], f[..], s0[..5], s1[..5], s2[..5])
  {
    hide *;
    ghost var a, b := e[..], f[..];
    HalvesReduced(p, a);
    HalvesReduced(p, b);
    assert e[0..0 + 3] == a[..3] && e[3..3 + 3] == a[3..] && f[0..0 + 3] == b[..3] && f[3..3 + 3] == b[3..];
    assert e[..3] == a[..3] && e[3..] == a[3..] && f[..3] == b[..3] && f[3..] == b[3..];
    s0, s1, s2 := new int[6], new int[6], new int[6];
    AddHalves(p, s0, e);
    AddHalves(p, s1, f);
    ghost var U, V := s0[0..0 + 3], s1[0..0 + 3];
    s2[3], s2[4] := KarPoly2(p, s2, s0, 0, s1, 0);
    s0[3], s0[4] := KarPoly2(p, s0, e, 0, f, 0);
    s1[3], s1[4] := KarPoly2(p, s1, e, 3, f, 3);
    assert s0[..5] == s0[..3] + [s0[3], s0[4]] && s1[..5] == s1[..3] + [s1[3], s1[4]] && s2[..5] == s2[..3] + [s2[3], s2[4]];
    MiddleIs(p, a, b, U, V, s0[..5], s1[..5], s2[..5]);
    CombinedIsProduct(p, a, b, U, V, s0[..5], s1[..5], s2[..5]);
    HalvesAre(p, a, b, s0[..5], s1[..5], s2[..5]);
  }

  lemma HalvesAre(p: nat, a: Poly, b: Poly, S0: Poly, S1: Poly, S2: Poly)
    requires p > 0 && |a| == 6 && |b| == 6
    ensures HalvesMultiplied(p, a, b, S0, S1, S2) <==>
      (|S0| == 5 && |S1| == 5 && |S2| == 5 && IsReduced(p, S0) && IsReduced(p, S1) && CoefCong(p, Combined(S0, S1, S2), PMul(a, b)))
  {
  }

  // Assembles the six lower coefficients and those of x^6 and x^7; the ones of x^8, x^9, x^10 stay in s1.
  method CombineHalves(p: nat, res: array<int>, s0: array<int>, s1: array<int>, s2: array<int>, ghost a: Poly, ghost b: Poly)
    returns (h0: int, h1: int)
    requires p > 0 && |a| == 6 && |b| == 6 && res.Length == 6 && s0.Length == 6 && s1.Length == 6 && s2.Length == 6
    requires res != s0 && res != s1 && res != s2 && s0 != s1 && s0 != s2
    requires HalvesMultiplied(p, a, b, s0[..5], s1[..5], s2[..5])
    modifies res, s0
    ensures IsReduced(p, res[..] + [h0, h1, s1[2], s1[3], s1[4]]) && CoefCong(p, res[..] + [h0, h1, s1[2], s1[3], s1[4]], PMul(a, b))
  {
    hide *;
    ghost var S0, S1, S2 := s0[..5], s1[..5], s2[..5];
    HalvesAre(p, a, b, S0, S1, S2);
    res[0] := s0[0];
    res[1] := s0[1];
    res[2] := s0[2];
    res[3] := Sub(p, s0[3], s0[0]);
    res[3] := Sub(p, res[3], s1[0]);
    res[3] := Add(p, res[3], s2[0]);
    res[4] := Sub(p, s0[4], s0[1]);
    res[4] := Sub(p, res[4], s1[1]);
    res[4] := Add(p, res[4], s2[1]);
    res[5] := Sub(p, s2[2], s0[2]);
    res[5] := Sub(p, res[5], s1[2]);
    s0[0] := Sub(p, s2[3], s0[3]);
    s0[0] := Sub(p, s0[0], s1[3]);
    s0[0] := Add(p, s0[0], s1[0]);
    s0[1] := Sub(p, s2[4], s0[4]);
    s0[1] := Sub(p, s0[1], s1[4]);
    s0[1] := Add(p, s0[1], s1[1]);
    h0, h1 := s0[0], s0[1];
    ghost var W := res[..] + [h0, h1, s1[2], s1[3], s1[4]];
    SixIs(p, W, S0, S1, S2);
    SixCong(p, W, S0, S1, S2);
    ChainCong(p, W, Combined(S0, S1, S2), PMul(a, b));
  }

  lemma HalvesReduced(p: nat, a: Poly)
    requires |a| == 6 && IsReduced(p, a)
    ensures IsReduced(p, a[..3]) && IsReduced(p, a[3..])
  {
  }

  lemma MiddleIs(p: nat, a: Poly, b: Poly, U: Poly, V: Poly, S0: Poly, S1: Poly, S2: Poly)
    requires p > 0 && |a| == 6 && |b| == 6
    requires CoefCong(p, U, PAdd(a[..3], a[3..])) && CoefCong(p, V, PAdd(b[..3], b[3..]))
    requires CoefCong(p, S0, PMul(a[..3], b[..3])) && CoefCong(p, S1, PMul(a[3..], b[3..])) && CoefCong(p, S2, PMul(U, V))
    ensures Middle(p, a, b, U, V, S0, S1, S2)
  {
  }

  lemma SixIs(p: nat, W: Poly, S0: Poly, S1: Poly, S2: Poly)
    requires p > 0 && |W| == 11 && |S0| == 5 && |S1| == 5 && |S2| == 5
    requires W[0] == S0[0] && W[1] == S0[1] && W[2] == S0[2]
    requires W[3] == Add(p, Sub(p, Sub(p, S0[3], S0[0]), S1[0]), S2[0])
    requires W[4] == Add(p, Sub(p, Sub(p, S0[4], S0[1]), S1[1]), S2[1])
    requires W[5] == Sub(p, Sub(p, S2[2], S0[2]), S1[2])
    requires W[6] == Add(p, Sub(p, Sub(p, S2[3], S0[3]), S1[3]), S1[0])
    requires W[7] == Add(p, Sub(p, Sub(p, S2[4], S0[4]), S1[4]), S1[1])
    requires W[8] == S1[2] && W[9] == S1[3] && W[10] == S1[4]
    ensures SixWritten(p, W, S0, S1, S2)
  {
  }

  lemma {:induction false} ChainCong(p: nat, f: Poly, g: Poly, h: Poly)
    requires p > 0 && CoefCong(p, f, g) && CoefCong(p, g, h)
    ensures CoefCong(p, f, h)
  {
    forall i: nat ensures Coef(f, i) % p == Coef(h, i) % p { assert Coef(f, i) % p == Coef(g, i) % p; }
  }

  // ---------------------------------------------------------------- squares

  // The squares and cross terms of the coefficients before i are in W.
  ghost predicate SquareRows(p: nat, W: Poly, s: Poly, i: nat)
    requires i <= |s|
  {
    Cong(p, [], PAdd(W, PShift(2 * i, PMul(s[i..], s[i..]))), PMul(s, s))
  }

  // In row i the square and the cross terms with the coefficients before j are too.
  ghost predicate SquareRow(p: nat, W: Poly, s: Poly, i: nat, j: nat)
    requires i < |s| && j <= |s|
  {
    Cong(p, [], PAdd(W, SquareRest(s, i, j)), PMul(s, s))
  }

  function SquareRest(s: Poly, i: nat, j: nat): Poly
    requires i < |s| && j <= |s|
  {
    PAdd(PShift(i + j, PScale(2 * s[i], s[j..])), PShift(2 * i + 2, PMul(s[i + 1..], s[i + 1..])))
  }

  lemma {:induction false} EvRest(s: Poly, i: nat, j: nat, X: int)
    requires i < |s| && j <= |s|
    ensures Ev(SquareRest(s, i, j), X) == Pow(X, i + j) * (2 * s[i] * Ev(s[j..], X)) + Pow(X, 2 * i + 2) * (Ev(s[i + 1..], X) * Ev(s[i + 1..], X))
  {
    hide Ev, PAdd, PShift, PScale, PMul, Pow;
    var u, v := PShift(i + j, PScale(2 * s[i], s[j..])), PShift(2 * i + 2, PMul(s[i + 1..], s[i + 1..]));
    EvAdd(u, v, X);
    EvShift(i + j, PScale(2 * s[i], s[j..]), X);
    EvScale(2 * s[i], s[j..], X);
    EvShift(2 * i + 2, PMul(s[i + 1..], s[i + 1..]), X);
    EvMul(s[i + 1..], s[i + 1..], X);
  }

  // W' is W with c added at k, modulo p.
  ghost predicate AddedAt(p: nat, W: Poly, W': Poly, k: nat, c: int)
    requires p > 0
  {
    k < |W| && |W'| == |W| && W'[k] % p == (W[k] + c) % p && forall i :: 0 <= i < |W| && i != k ==> W'[i] == W[i]
  }

  // R is R' and the term c*x^k.
  ghost predicate HasTerm(R: Poly, R': Poly, k: nat, c: int)
  {
    forall X :: Ev(R, X) == Ev(R', X) + c * Pow(X, k)
  }

  // Moving a term from the rest into W.
  lemma {:induction false} MoveToW(p: nat, W: Poly, W': Poly, k: nat, c: int, R: Poly, R': Poly, t: Poly)
    requires p > 0 && AddedAt(p, W, W', k, c) && Cong(p, [], PAdd(W, R), t)
    requires HasTerm(R, R', k, c)
    ensures Cong(p, [], PAdd(W', R'), t)
  {
    hide Cong;
    var U := W[k := W[k] + c];
    forall i: nat ensures Coef(W', i) % p == Coef(U, i) % p { }
    CoefCongIsCong(p, [], W', U);
    MoveDiff(W, W', U, k, c, R, R');
    CongSame(p, [], W, W);
    CongFrom(p, [], [1], W', U, [1], W, W, PAdd(W', R'), PAdd(W, R));
    CongTrans(p, [], PAdd(W', R'), PAdd(W, R), t);
  }

  lemma {:induction false} MoveDiff(W: Poly, W': Poly, U: Poly, k: nat, c: int, R: Poly, R': Poly)
    requires k < |W| && U == W[k := W[k] + c] && HasTerm(R, R', k, c)
    ensures Diff([1], W', U, [1], W, W, PAdd(W', R'), PAdd(W, R))
  {
    forall X ensures Ev(PAdd(W', R'), X) - Ev(PAdd(W, R), X) == Ev([1], X) * (Ev(W', X) - Ev(U, X)) + Ev([1], X) * (Ev(W, X) - Ev(W, X)) {
      assert Ev(R, X) == Ev(R', X) + c * Pow(X, k);
      hide Ev, PAdd, Pow;
      EvConst(1, X);
      EvAdd(W', R', X);
      EvAdd(W, R, X);
      EvUpdate(W, k, W[k] + c, X);
    }
  }

  lemma {:induction false} DiagonalAdded(p: nat, W: Poly, W': Poly, s: Poly, i: nat)
    requires p > 0 && i < |s| && SquareRows(p, W, s, i) && AddedAt(p, W, W', 2 * i, s[i] * s[i])
    ensures SquareRow(p, W', s, i, i + 1)
  {
    hide *;
    DiagonalTerm(s, i);
    SquareRowsIs(p, W, s, i);
    MoveToW(p, W, W', 2 * i, s[i] * s[i], PShift(2 * i, PMul(s[i..], s[i..])), SquareRest(s, i, i + 1), PMul(s, s));
    SquareRowIs(p, W', s, i, i + 1);
  }

  lemma {:induction false} DiagonalTerm(s: Poly, i: nat)
    requires i < |s|
    ensures HasTerm(PShift(2 * i, PMul(s[i..], s[i..])), SquareRest(s, i, i + 1), 2 * i, s[i] * s[i])
  {
    hide Ev, PShift, PMul, SquareRest, Pow;
    var R := PShift(2 * i, PMul(s[i..], s[i..]));
    forall X ensures Ev(R, X) == Ev(SquareRest(s, i, i + 1), X) + s[i] * s[i] * Pow(X, 2 * i) {
      EvRest(s, i, i + 1, X);
      EvShift(2 * i, PMul(s[i..], s[i..]), X);
      EvMul(s[i..], s[i..], X);
      assert s[i..] == [s[i]] + s[i + 1..];
      EvCons(s[i], s[i + 1..], X);
      PowUnfolds(X, 2 * i);
      PowUnfolds(X, 2 * i + 1);
      assert i + (i + 1) == 2 * i + 1;
      DiagonalPoly(X, Pow(X, 2 * i), s[i], Ev(s[i + 1..], X));
    }
  }

  lemma DiagonalPoly(X: int, w: int, c: int, t: int)
    ensures w * ((c + X * t) * (c + X * t)) == X * w * (2 * c * t) + X * (X * w) * (t * t) + c * c * w
  {
  }

  lemma SquareRowsIs(p: nat, W: Poly, s: Poly, i: nat)
    requires i <= |s|
    ensures SquareRows(p, W, s, i) <==> Cong(p, [], PAdd(W, PShift(2 * i, PMul(s[i..], s[i..]))), PMul(s, s))
  {
  }

  lemma SquareRowIs(p: nat, W: Poly, s: Poly, i: nat, j: nat)
    requires i < |s| && j <= |s|
    ensures SquareRow(p, W, s, i, j) <==> Cong(p, [], PAdd(W, SquareRest(s, i, j)), PMul(s, s))
  {
  }

  lemma {:induction false} CrossAdded(p: nat, W: Poly, W': Poly, s: Poly, i: nat, j: nat)
    requires p > 0 && i < j < |s| && SquareRow(p, W, s, i, j) && AddedAt(p, W, W', i + j, 2 * s[i] * s[j])
    ensures SquareRow(p, W', s, i, j + 1)
  {
    hide *;
    CrossTerm(s, i, j);
    SquareRowIs(p, W, s, i, j);
    MoveToW(p, W, W', i + j, 2 * s[i] * s[j], SquareRest(s, i, j), SquareRest(s, i, j + 1), PMul(s, s));
    SquareRowIs(p, W', s, i, j + 1);
  }

  lemma {:induction false} CrossTerm(s: Poly, i: nat, j: nat)
    requires i < j < |s|
    ensures HasTerm(SquareRest(s, i, j), SquareRest(s, i, j + 1), i + j, 2 * s[i] * s[j])
  {
    hide Ev, SquareRest, Pow;
    forall X ensures Ev(SquareRest(s, i, j), X) == Ev(SquareRest(s, i, j + 1), X) + 2 * s[i] * s[j] * Pow(X, i + j) {
      EvRest(s, i, j, X);
      EvRest(s, i, j + 1, X);
      assert s[j..] == [s[j]] + s[j + 1..];
      EvCons(s[j], s[j + 1..], X);
      PowUnfolds(X, i + j);
      CrossPoly(X, Pow(X, i + j), 2 * s[i], s[j], Ev(s[j + 1..], X));
    }
  }

  lemma CrossPoly(X: int, w: int, c: int, d: int, t: int)
    ensures w * (c * (d + X * t)) == X * w * (c * t) + c * d * w
  {
  }

  lemma {:induction false} SquareRowDone(p: nat, W: Poly, s: Poly, i: nat)
    requires p > 0 && i < |s| && SquareRow(p, W, s, i, |s|)
    ensures SquareRows(p, W, s, i + 1)
  {
    hide *;
    SquareRowsIs(p, W, s, i + 1);
    SquareRowIs(p, W, s, i, |s|);
    var u, v := PAdd(W, PShift(2 * (i + 1), PMul(s[i + 1..], s[i + 1..]))), PAdd(W, SquareRest(s, i, |s|));
    forall X ensures Ev(u, X) == Ev(v, X) { RowEnd(W, s, i, X); }
    CongSame(p, [], u, v);
    CongTrans(p, [], u, v, PMul(s, s));
  }

  lemma {:induction false} RowEnd(W: Poly, s: Poly, i: nat, X: int)
    requires i < |s|
    ensures Ev(PAdd(W, PShift(2 * (i + 1), PMul(s[i + 1..], s[i + 1..]))), X) == Ev(PAdd(W, SquareRest(s, i, |s|)), X)
  {
    hide Ev, PAdd, PShift, PMul, SquareRest, Pow;
    EvRest(s, i, |s|, X);
    assert s[|s|..] == [] && 2 * (i + 1) == 2 * i + 2;
    EvConst(0, X);
    EvAdd(W, PShift(2 * i + 2, PMul(s[i + 1..], s[i + 1..])), X);
    EvAdd(W, SquareRest(s, i, |s|), X);
    EvShift(2 * i + 2, PMul(s[i + 1..], s[i + 1..]), X);
    EvMul(s[i + 1..], s[i + 1..], X);
    NoTerm(Pow(X, i + |s|), 2 * s[i]);
  }

  lemma NoTerm(w: int, c: int)
    ensures w * (c * 0) == 0
  {
  }

  lemma {:induction false} SquareStart(p: nat, s: Poly, k: nat)
    requires p > 0
    ensures SquareRows(p, Zeros(k), s, 0)
  {
    assert s[0..] == s;
    var u := PAdd(Zeros(k), PShift(0, PMul(s, s)));
    forall X ensures Ev(u, X) == Ev(PMul(s, s), X) {
      EvAdd(Zeros(k), PShift(0, PMul(s, s)), X);
      ZerosVanish(Zeros(k), X);
      assert PShift(0, PMul(s, s)) == PMul(s, s);
    }
    CongSame(p, [], u, PMul(s, s));
  }

  lemma {:induction false} SquareEnd(p: nat, W: Poly, s: Poly)
    requires p > 0 && SquareRows(p, W, s, |s|)
    ensures CoefCong(p, W, PMul(s, s))
  {
    assert s[|s|..] == [];
    var u := PAdd(W, PShift(2 * |s|, PMul(s[|s|..], s[|s|..])));
    forall X ensures Ev(W, X) == Ev(u, X) {
      EvAdd(W, PShift(2 * |s|, []), X);
      ZerosVanish(PShift(2 * |s|, []), X);
    }
    hide Cong;
    CongSame(p, [], W, u);
    CongTrans(p, [], W, u, PMul(s, s));
    CongModP(p, W, PMul(s, s));
  }

  lemma {:induction false} TermOf(p: nat, W: Poly, k: nat, a: int, b: int)
    requires p > 0 && k < |W|
    ensures AddedAt(p, W, W[k := Add(p, W[k], Mul(p, a, b))], k, a * b)
    ensures AddedAt(p, W, W[k := Add(p, W[k], Add(p, Mul(p, a, b), Mul(p, a, b)))], k, 2 * a * b)
  {
    hide AddedAt, Add, Mul;
    AddedOnce(p, W, k, a * b);
    MulIs(p, a, b);
    DoubledIs(p, a * b);
    AddedOnce(p, W, k, a * b + a * b);
    assert 2 * a * b == a * b + a * b;
  }

  lemma MulIs(p: nat, a: int, b: int)
    requires p > 0
    ensures Mul(p, a, b) == a * b % p
  {
  }

  lemma DoubledIs(p: nat, c: int)
    requires p > 0
    ensures Add(p, c % p, c % p) == (c + c) % p
  {
    ModMod(c, p);
    ModAdd(c % p, c, c % p, c, p);
  }

  lemma AddedOnce(p: nat, W: Poly, k: nat, c: int)
    requires p > 0 && k < |W|
    ensures AddedAt(p, W, W[k := Add(p, W[k], c % p)], k, c)
  {
    ModMod(c, p);
    ModAdd(W[k], W[k], c % p, c, p);
    ModMod(W[k] + c % p, p);
  }

  // Adds c0 to coefficient k of the product held in two arrays.
  method AddAt(p: nat, dst: array<int>, high: array<int>, k: nat, c0: int)
    requires p > 0 && dst != high && k < dst.Length + high.Length && IsReduced(p, dst[..] + high[..])
    modifies dst, high
    ensures dst[..] + high[..] == old((dst[..] + high[..])[k := Add(p, (dst[..] + high[..])[k], c0)]) && IsReduced(p, dst[..] + high[..])
  {
    var n := dst.Length;
    ghost var W := dst[..] + high[..];
    if k < n {
      dst[k] := Add(p, dst[k], c0);
    } else {
      high[k - n] := Add(p, high[k - n], c0);
    }
    assert dst[..] + high[..] == W[k := Add(p, W[k], c0)];
  }

  method SquareOut(F: Ring, dst: array<int>, high: array<int>, src: Poly)
    requires Valid(F) && Elt(F.p, F.n, src) && dst.Length == F.n && high.Length == F.n - 1 && dst != high
    requires dst[..] == Zeros(F.n) && high[..] == Zeros(F.n - 1)
    modifies dst, high
    ensures IsReduced(F.p, dst[..] + high[..]) && CoefCong(F.p, dst[..] + high[..], PMul(src, src))
  {
    hide *;
    var n := F.n;
    ValidMeans(F);
    EltMeans(F.p, n, src);
    SquareStart(F.p, src, n + (n - 1));
    assert Zeros(n) + Zeros(n - 1) == Zeros(n + (n - 1));
    ZerosReduced(F.p, n + (n - 1));
    for i := 0 to n
      invariant IsReduced(F.p, dst[..] + high[..]) && SquareRows(F.p, dst[..] + high[..], src, i)
    {
      ghost var W := dst[..] + high[..];
      var c0 := Mul(F.p, src[i], src[i]);
      TermOf(F.p, W, 2 * i, src[i], src[i]);
      AddAt(F.p, dst, high, 2 * i, c0);
      DiagonalAdded(F.p, W, dst[..] + high[..], src, i);
      for j := i + 1 to n
        invariant IsReduced(F.p, dst[..] + high[..]) && SquareRow(F.p, dst[..] + high[..], src, i, j)
      {
        W := dst[..] + high[..];
        c0 := Mul(F.p, src[i], src[j]);
        c0 := Add(F.p, c0, c0);
        TermOf(F.p, W, i + j, src[i], src[j]);
        AddAt(F.p, dst, high, i + j, c0);
        CrossAdded(F.p, W, dst[..] + high[..], src, i, j);
      }
      SquareRowDone(F.p, dst[..] + high[..], src, i);
    }
    SquareEnd(F.p, dst[..] + high[..], src);
  }

  // General squaring.
  method PolymodSquare(F: Ring, res: array<int>, e: array<int>)
    requires Valid(F) && res.Length == F.n && Elt(F.p, F.n, e[..])
    modifies res
    ensures IsProduct(F, old(e[..]), old(e[..]), res[..])
  {
    hide *;
    ValidMeans(F);
    var n := F.n;
    ghost var a := e[..];
    var high := new int[n - 1](_ => 0);
    var prod := new int[n](_ => 0);
    assert high[..] == Zeros(n - 1) && prod[..] == Zeros(n);
    SquareOut(F, prod, high, e[..]);
    FoldBegin(F, prod[..], high[..], a, a);
    FoldAll(F, prod, high, a, a);
    CopyTo(res, prod);
  }

  lemma {:induction false} SquareCoefs(p: nat, a: Poly)
    requires p > 1 && |a| == 3 && IsReduced(p, a)
    ensures Mul(p, a[0], a[0]) == Red(p, a[0] * a[0]) && Mul(p, a[2], a[2]) == Red(p, a[2] * a[2])
    ensures Add(p, Mul(p, a[0], a[1]), Mul(p, a[0], a[1])) == Red(p, a[0] * a[1] + a[1] * a[0])
    ensures Add(p, Mul(p, a[1], a[1]), Add(p, Mul(p, a[0], a[2]), Mul(p, a[0], a[2]))) == Red(p, a[0] * a[2] + a[1] * a[1] + a[2] * a[0])
    ensures Add(p, Mul(p, a[1], a[2]), Mul(p, a[1], a[2])) == Red(p, a[1] * a[2] + a[2] * a[1])
  {
    DoubleProduct(p, a[0], a[1]);
    DoubleProduct(p, a[1], a[2]);
    DoubleProduct(p, a[0], a[2]);
    ModMod(a[1] * a[1], p);
    ModMod(a[0] * a[2] + a[2] * a[0], p);
    ModAdd(a[1] * a[1] % p, a[1] * a[1], (a[0] * a[2] + a[2] * a[0]) % p, a[0] * a[2] + a[2] * a[0], p);
  }

  lemma {:induction false} DoubleProduct(p: nat, a: int, b: int)
    requires p > 0
    ensures Add(p, Mul(p, a, b), Mul(p, a, b)) == Red(p, a * b + b * a)
  {
    ModMod(a * b, p);
    ModAdd(a * b % p, a * b, a * b % p, a * b, p);
    assert a * b == b * a;
  }

  // The two high terms may be folded in either order.
  lemma {:induction false} FoldTwo(F: Ring, low: Poly, c0: int, c2: int, low': Poly, a: Poly, b: Poly)
    requires Valid(F) && F.n == 3 && Folded(F, low, [c2, c0], 0, a, b) && |low'| == 3
    requires |F.xpwr[0]| == 3 && |F.xpwr[1]| == 3
    requires forall j :: 0 <= j < 3 ==> low'[j] == Add(F.p, Add(F.p, low[j], Mul(F.p, F.xpwr[1][j], c0)), Mul(F.p, F.xpwr[0][j], c2))
    ensures IsProduct(F, a, b, low')
  {
    assert IsXPower(F.p, F.n, F.poly, 0, F.xpwr[0]) && IsXPower(F.p, F.n, F.poly, 1, F.xpwr[1]);
    PrimeAboveOne(F.p);
    hide IsPrime, Folded, IsProduct, Mul, Add;
    var mid := seq(3, j requires 0 <= j < 3 => Add(F.p, low[j], Mul(F.p, F.xpwr[0][j], c2)));
    forall j | 0 <= j < 3 ensures low'[j] == Add(F.p, mid[j], Mul(F.p, F.xpwr[1][j], c0)) {
      AddSwap(F.p, low[j], Mul(F.p, F.xpwr[1][j], c0), Mul(F.p, F.xpwr[0][j], c2));
    }
    FoldStep(F, low, [c2, c0], 0, mid, a, b);
    FoldStep(F, mid, [c2, c0], 1, low', a, b);
    FoldEnd(F, low', [c2, c0], a, b);
  }

  lemma {:induction false} AddSwap(p: nat, a: int, b: int, c: int)
    requires p > 0
    ensures Add(p, Add(p, a, b), c) == Add(p, Add(p, a, c), b)
  {
    ModMod(a + b, p);
    ModMod(a + c, p);
    ModAdd((a + b) % p, a + b, c, c, p);
    ModAdd((a + c) % p, a + c, b, b, p);
  }

  // Squaring for degree 3; the result may be the operand.
  method PolymodSquareDegree3(F: Ring, res: array<int>, e: array<int>)
    requires Valid(F) && F.n == 3 && res.Length == 3 && Elt(F.p, 3, e[..])
    modifies res
    ensures IsProduct(F, old(e[..]), old(e[..]), res[..])
  {
    hide *;
    ValidMeans(F);
    EltMeans(F.p, 3, e[..]);
    var p := F.p;
    ghost var a := e[..];
    SquareCoefs(p, a);
    var c3 := Mul(p, e[0], e[1]);
    var c1 := Mul(p, e[0], e[2]);
    var d0 := Mul(p, e[0], e[0]);
    res[0] := d0;
    var c2 := Mul(p, e[1], e[2]);
    var c0 := Mul(p, e[2], e[2]);
    res[2] := Mul(p, e[1], e[1]);
    res[1] := Add(p, c3, c3);
    c1 := Add(p, c1, c1);
    res[2] := Add(p, res[2], c1);
    ghost var low := res[..];
    ghost var c22 := Add(p, c2, c2);
    KaratsubaCong(p, a, a, low + [c22, c0]);
    FoldBegin(F, low, [c22, c0], a, a);
    PowersHaveThree(F);
    AddMultiple(F, res, c0, 1);
    c2 := Add(p, c2, c2);
    AddMultiple(F, res, c2, 0);
    FoldTwo(F, low, c0, c2, res[..], a, a);
  }

  lemma PowersHaveThree(F: Ring)
    requires Valid(F) && F.n == 3
    ensures |F.xpwr[0]| == 3 && |F.xpwr[1]| == 3
  {
    assert IsXPower(F.p, F.n, F.poly, 0, F.xpwr[0]) && IsXPower(F.p, F.n, F.poly, 1, F.xpwr[1]);
  }
}
