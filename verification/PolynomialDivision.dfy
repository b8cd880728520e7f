// Polynomials over F_p that grow and shrink: product, difference, long division and inversion by Euclid's algorithm.
module PolynomialDivision {
  import opened Arith
  import opened Fp
  import opened Polynomials

  predicate IsReduced(p: nat, f: Poly)
  {
    forall i :: 0 <= i < |f| ==> Elem(p, f[i])
  }

  // The last coefficient is the leading one; the empty list is zero.
  predicate IsPoly(p: nat, f: Poly)
  {
    IsReduced(p, f) && (f != [] ==> f[|f| - 1] != 0)
  }

  // ---------------------------------------------------------------- leading zeros

  ghost predicate SameCoefs(f: Poly, g: Poly)
  {
    forall i: nat :: Coef(f, i) == Coef(g, i)
  }

  lemma {:induction false} ZerosVanish(f: Poly, X: int)
    requires forall i :: 0 <= i < |f| ==> f[i] == 0
    ensures Ev(f, X) == 0
  {
    if f != [] { ZerosVanish(f[1..], X); }
  }

  lemma {:induction false} SameCoefsSameValues(f: Poly, g: Poly, X: int)
    requires SameCoefs(f, g)
    ensures Ev(f, X) == Ev(g, X)
  {
    var e := PSub(f, g);
    forall i | 0 <= i < |e| ensures e[i] == 0 { assert Coef(f, i) == Coef(g, i); }
    ZerosVanish(e, X);
    EvSub(f, g, X);
  }

  // poly_remove_leading_zeroes
  method Strip(p: nat, f: Poly) returns (r: Poly)
    requires IsReduced(p, f)
    ensures IsPoly(p, r) && |r| <= |f| && SameCoefs(r, f)
    ensures f != [] && f[|f| - 1] != 0 ==> r == f
    ensures r == f[..|r|] && (r != [] ==> f[|r| - 1] != 0)
  {
    var n := |f| - 1;
    r := f;
    while n >= 0 && r[n] == 0
      invariant -1 <= n < |f| && |r| == n + 1 && r == f[..n + 1]
      invariant forall i :: n < i < |f| ==> f[i] == 0
    {
      r := r[..n];
      n := n - 1;
    }
  }

  // ---------------------------------------------------------------- product and difference

  // The first n terms of the i-th convolution sum.
  function Sum(f: Poly, g: Poly, i: nat, n: nat): int
    requires n <= i + 1
  {
    if n == 0 then 0 else Sum(f, g, i, n - 1) + Coef(f, n - 1) * Coef(g, i - (n - 1))
  }

  lemma {:induction false} SumTail(f: Poly, g: Poly, i: nat, n: nat)
    requires f != [] && 1 <= n <= i + 1
    ensures Sum(f, g, i, n) == f[0] * Coef(g, i) + if i == 0 then 0 else Sum(f[1..], g, i - 1, n - 1)
  {
    if n > 1 { SumTail(f, g, i, n - 1); }
  }

  lemma {:induction false} SumOfEmpty(g: Poly, i: nat, n: nat)
    requires n <= i + 1
    ensures Sum([], g, i, n) == 0
  {
    if n > 0 { SumOfEmpty(g, i, n - 1); }
  }

  lemma {:induction false} CoefOfProduct(f: Poly, g: Poly, i: nat)
    ensures Coef(PMul(f, g), i) == Sum(f, g, i, i + 1)
  {
    if f == [] {
      SumOfEmpty(g, i, i + 1);
    } else {
      SumTail(f, g, i, i + 1);
      var t := PMul(f[1..], g);
      assert PMul(f, g) == PAdd(PScale(f[0], g), PShift(1, t));
      assert Coef(PScale(f[0], g), i) == f[0] * Coef(g, i);
      if i > 0 { CoefOfProduct(f[1..], g, i - 1); }
      assert Coef(PShift(1, t), i) == if i == 0 then 0 else Coef(t, i - 1);
    }
  }

  lemma {:induction false} AccumulateTerm(p: nat, x: int, s: int, a: int, b: int)
    requires p > 0 && x == s % p
    ensures Add(p, x, Mul(p, a, b)) == (s + a * b) % p
  {
    ModMod(s, p);
    ModMod(a * b, p);
    ModAdd(x, s, a * b % p, a * b, p);
  }

  lemma {:induction false} ProductIsCong(p: nat, f: Poly, g: Poly, prod: Poly)
    requires p > 0 && f != [] && g != [] && |prod| == |f| + |g| - 1
    requires forall i :: 0 <= i < |prod| ==> prod[i] == Sum(f, g, i, i + 1) % p
    ensures CoefCong(p, prod, PMul(f, g))
  {
    TopOfProduct(f, g);
    forall i: nat ensures Coef(prod, i) % p == Coef(PMul(f, g), i) % p {
      CoefOfProduct(f, g, i);
      if i < |prod| { ModMod(Sum(f, g, i, i + 1), p); }
    }
  }

  // One coefficient of the product.
  method MulCoefficient(p: nat, f: Poly, g: Poly, i: nat) returns (x: int)
    requires p > 1 && IsReduced(p, f) && IsReduced(p, g)
    ensures x == Sum(f, g, i, i + 1) % p && Elem(p, x)
  {
    hide Elem, Add, Mul, IsReduced, Sum;
    x := 0;
    EmptySum(p, f, g, i);
    for j := 0 to i + 1
      invariant x == Sum(f, g, i, j) % p && Elem(p, x)
    {
      SumGrows(p, f, g, i, j);
      AddIsElem(p);
      if j < |f| && i - j < |g| {
        AccumulateTerm(p, x, Sum(f, g, i, j), f[j], g[i - j]);
        var e0 := Mul(p, f[j], g[i - j]);
        x := Add(p, x, e0);
      }
    }
  }

  lemma AddIsElem(p: nat)
    requires p > 1
    ensures forall a, b {:trigger Add(p, a, b)} :: Elem(p, Add(p, a, b))
  {
  }

  lemma EmptySum(p: nat, f: Poly, g: Poly, i: nat)
    requires p > 1
    ensures 0 == Sum(f, g, i, 0) % p && Elem(p, 0)
  {
    ModSmall(0, p);
  }

  lemma {:induction false} SumGrows(p: nat, f: Poly, g: Poly, i: nat, j: nat)
    requires p > 1 && j <= i && IsReduced(p, f) && IsReduced(p, g)
    ensures if j < |f| && i - j < |g| then Sum(f, g, i, j + 1) == Sum(f, g, i, j) + f[j] * g[i - j] else Sum(f, g, i, j + 1) == Sum(f, g, i, j)
    ensures j < |f| && i - j < |g| ==> Elem(p, f[j]) && Elem(p, g[i - j])
  {
    if !(j < |f| && i - j < |g|) { NoProduct(Coef(f, j), Coef(g, i - j)); }
  }

  lemma NoProduct(a: int, b: int)
    requires a == 0 || b == 0
    ensures a * b == 0
  {
  }

  method PolyMul(p: nat, f: Poly, g: Poly) returns (r: Poly)
    requires IsPrime(p) && IsPoly(p, f) && IsPoly(p, g)
    ensures IsPoly(p, r) && CoefCong(p, r, PMul(f, g))
    ensures |r| == if f == [] || g == [] then 0 else |f| + |g| - 1
  {
    if f == [] || g == [] {
      ProductWithNothing(f, g);
      return [];
    }
    hide IsPrime, Sum, Elem, PMul, CoefCong;
    ZeroElem(p);
    var n := |f| + |g| - 1;
    var prod: Poly := [];
    for i := 0 to n
      invariant |prod| == i && IsReduced(p, prod)
      invariant forall k :: 0 <= k < i ==> prod[k] == Sum(f, g, k, k + 1) % p
    {
      var x := MulCoefficient(p, f, g, i);
      prod := prod + [x];
    }
    ProductIsCong(p, f, g, prod);
    TopNonzero(p, f, g, prod);
    r := Strip(p, prod);
  }

  lemma ZeroElem(p: nat)
    requires IsPrime(p)
    ensures p > 1 && 0 % p == 0 && Elem(p, 0)
  {
    ModSmall(0, p);
  }

  lemma {:induction false} ProductWithNothing(f: Poly, g: Poly)
    requires f == [] || g == []
    ensures forall i: nat :: Coef(PMul(f, g), i) == Coef([], i)
  {
    if f != [] { ProductWithEmpty(f); }
  }

  lemma {:induction false} TopNonzero(p: nat, f: Poly, g: Poly, prod: Poly)
    requires IsPrime(p) && IsPoly(p, f) && IsPoly(p, g) && f != [] && g != [] && |prod| == |f| + |g| - 1
    requires CoefCong(p, prod, PMul(f, g)) && IsReduced(p, prod)
    ensures prod[|prod| - 1] != 0
  {
    TopOfProduct(f, g);
    var a, b := f[|f| - 1], g[|g| - 1];
    ProductNonzero(p, a, b);
    assert Coef(prod, |prod| - 1) % p == Coef(PMul(f, g), |prod| - 1) % p;
    hide IsPrime, PMul;
    ModSmall(0, p);
  }

  method PolySub(p: nat, f: Poly, g: Poly) returns (r: Poly)
    requires p > 0 && IsPoly(p, f) && IsPoly(p, g)
    ensures IsPoly(p, r) && CoefCong(p, r, PSub(f, g))
    ensures |f| < |g| ==> |r| == |g|
  {
    hide IsPoly, CoefCong, PSub, SameCoefs;
    PolyIsReduced(p, f);
    PolyIsReduced(p, g);
    var n, n1, big := |f|, |g|, g;
    if n > n1 {
      big := f;
      n := n1;
      n1 := |f|;
    }
    var diff: Poly := [];
    for i := 0 to n
      invariant |diff| == i && forall k :: 0 <= k < i ==> diff[k] == (Coef(f, k) - Coef(g, k)) % p
    {
      diff := diff + [Sub(p, f[i], g[i])];
    }
    for i := n to n1
      invariant |diff| == i && forall k :: 0 <= k < i ==> diff[k] == (Coef(f, k) - Coef(g, k)) % p
    {
      if big == f {
        DifferenceEnds(p, f, g, i);
        diff := diff + [big[i]];
      } else {
        diff := diff + [Neg(p, big[i])];
      }
    }
    DifferenceIsCong(p, f, g, diff);
    if |f| < |g| { LastOfDifference(p, f, g); }
    r := Strip(p, diff);
    StrippedCong(p, r, diff, PSub(f, g));
  }

  lemma StrippedCong(p: nat, r: Poly, f: Poly, g: Poly)
    requires p > 0 && SameCoefs(r, f) && CoefCong(p, f, g)
    ensures CoefCong(p, r, g)
  {
  }

  lemma PolyIsReduced(p: nat, f: Poly)
    requires IsPoly(p, f)
    ensures IsReduced(p, f)
  {
  }

  lemma {:induction false} DifferenceEnds(p: nat, f: Poly, g: Poly, i: nat)
    requires p > 0 && IsPoly(p, f) && |g| <= i < |f|
    ensures f[i] == (Coef(f, i) - Coef(g, i)) % p
  {
    ModSmall(f[i], p);
  }

  lemma {:induction false} LastOfDifference(p: nat, f: Poly, g: Poly)
    requires p > 0 && IsPoly(p, g) && |f| < |g|
    ensures (Coef(f, |g| - 1) - Coef(g, |g| - 1)) % p != 0
  {
    var a := g[|g| - 1];
    ModIntro(0 - a, p - a, -1, p);
    ModSmall(p - a, p);
  }

  lemma {:induction false} DifferenceIsCong(p: nat, f: Poly, g: Poly, diff: Poly)
    requires p > 0 && |diff| == Max(|f|, |g|)
    requires forall k :: 0 <= k < |diff| ==> diff[k] == (Coef(f, k) - Coef(g, k)) % p
    ensures CoefCong(p, diff, PSub(f, g)) && IsReduced(p, diff)
  {
    forall i: nat ensures Coef(diff, i) % p == Coef(PSub(f, g), i) % p {
      if i < |diff| { ModMod(Coef(f, i) - Coef(g, i), p); }
    }
  }

  // ---------------------------------------------------------------- long division

  // a = q*b + r, modulo p.
  ghost predicate Divides(p: nat, a: Poly, b: Poly, q: Poly, r: Poly)
  {
    Cong(p, [], a, PAdd(PMul(q, b), r))
  }

  // Subtracting c*x^k*b from r and adding c*x^k to q keeps q*b + r.
  lemma {:induction false} MoveTerm(p: nat, a: Poly, b: Poly, q: Poly, r: Poly, c: int, k: nat, q': Poly, r': Poly)
    requires p > 0 && Divides(p, a, b, q, r)
    requires k < |q| && q[k] == 0 && q' == q[k := c]
    requires CoefCong(p, r', PSub(r, PScale(c, PShift(k, b))))
    ensures Divides(p, a, b, q', r')
  {
    var s := PSub(r, PScale(c, PShift(k, b)));
    var u, v, w := PAdd(PMul(q, b), r), PAdd(PMul(q', b), s), PAdd(PMul(q', b), r');
    forall X ensures Ev(u, X) == Ev(v, X) { hide *; MovedValue(b, q, r, c, k, q', s, X); }
    CongSame(p, [], u, v);
    CoefCongIsCong(p, [], r', s);
    CongSym(p, [], r', s);
    CongSame(p, [], PMul(q', b), PMul(q', b));
    forall X ensures Ev(v, X) == Ev([1], X) * Ev(PMul(q', b), X) + Ev([1], X) * Ev(s, X) { EvAdd(PMul(q', b), s, X); EvConst(1, X); }
    forall X ensures Ev(w, X) == Ev([1], X) * Ev(PMul(q', b), X) + Ev([1], X) * Ev(r', X) { EvAdd(PMul(q', b), r', X); EvConst(1, X); }
    CongCombine(p, [], [1], PMul(q', b), PMul(q', b), [1], s, r', v, w);
    CongTrans(p, [], a, u, v);
    CongTrans(p, [], a, v, w);
  }

  lemma {:induction false} EvUpdate(q: Poly, k: nat, c: int, X: int)
    requires k < |q|
    ensures Ev(q[k := c], X) == Ev(q, X) + (c - q[k]) * Pow(X, k)
  {
    if k == 0 {
      assert q[0 := c][1..] == q[1..];
    } else {
      EvUpdate(q[1..], k - 1, c, X);
      assert q[k := c][1..] == q[1..][k - 1 := c];
      UpdateStep(X, Ev(q[1..], X), c - q[k], Pow(X, k - 1));
    }
  }

  lemma UpdateStep(X: int, e: int, d: int, w: int)
    ensures X * (e + d * w) == X * e + d * (X * w)
  {
  }

  lemma {:induction false} MovedValue(b: Poly, q: Poly, r: Poly, c: int, k: nat, q': Poly, s: Poly, X: int)
    requires k < |q| && q[k] == 0 && q' == q[k := c] && s == PSub(r, PScale(c, PShift(k, b)))
    ensures Ev(PAdd(PMul(q, b), r), X) == Ev(PAdd(PMul(q', b), s), X)
  {
    hide Ev, PAdd, PMul, PSub, PScale, PShift, Pow;
    EvAdd(PMul(q, b), r, X);
    EvAdd(PMul(q', b), s, X);
    EvMul(q, b, X);
    EvMul(q', b, X);
    EvUpdate(q, k, c, X);
    EvSub(r, PScale(c, PShift(k, b)), X);
    EvScale(c, PShift(k, b), X);
    EvShift(k, b, X);
    MovePoly(Ev(q, X), Ev(b, X), c, Pow(X, k));
  }

  lemma MovePoly(q: int, b: int, c: int, w: int)
    ensures (q + (c - 0) * w) * b == q * b + c * (w * b)
  {
  }

  // What the inner loop does to the remainder.
  ghost predicate Eliminated(p: nat, r: Poly, r': Poly, b: Poly, c: int, k: nat)
    requires p > 0
  {
    |r'| == |r| && |b| + k <= |r|
    && (forall j :: 0 <= j < |r| ==> r'[j] == if k <= j < k + |b| then Sub(p, r[j], Mul(p, c, b[j - k])) else r[j])
  }

  lemma {:induction false} EliminatedIsCong(p: nat, r: Poly, r': Poly, b: Poly, c: int, k: nat)
    requires p > 0 && Eliminated(p, r, r', b, c, k)
    ensures CoefCong(p, r', PSub(r, PScale(c, PShift(k, b))))
  {
    var t := PScale(c, PShift(k, b));
    forall i: nat ensures Coef(r', i) % p == Coef(PSub(r, t), i) % p {
      if k <= i < k + |b| {
        assert t[i] == c * b[i - k];
        ModMod(c * b[i - k], p);
        ModAdd(r[i], r[i], c * b[i - k] % p, c * b[i - k], p);
        ModMod(r[i] - c * b[i - k] % p, p);
      } else {
        assert Coef(t, i) == 0;
      }
    }
  }

  // With c the quotient of leading coefficients, the top coefficient vanishes.
  lemma {:induction false} TopVanishes(p: nat, top: int, lead: int, binv: int)
    requires p > 1 && Elem(p, top) && Mul(p, lead, binv) == 1
    ensures Sub(p, top, Mul(p, Mul(p, binv, top), lead)) == 0
  {
    ModMod(binv * top, p);
    ModMul(binv * top % p, binv * top, lead, lead, p);
    ModSmall(1, p);
    ModMul(lead * binv, 1, top, top, p);
    Rotate(binv, top, lead);
    ModSmall(top, p);
    ModSmall(0, p);
  }

  lemma Rotate(a: int, b: int, c: int)
    ensures a * b * c == c * a * b
  {
  }

  lemma {:induction false} StartDivision(p: nat, a: Poly, b: Poly, n: nat)
    ensures Divides(p, a, b, Zeros(n), a)
  {
    forall X ensures Ev(a, X) == Ev(PAdd(PMul(Zeros(n), b), a), X) {
      EvAdd(PMul(Zeros(n), b), a, X);
      EvMul(Zeros(n), b, X);
      ZerosVanish(Zeros(n), X);
      assert 0 * Ev(b, X) == 0;
    }
    CongSame(p, [], a, PAdd(PMul(Zeros(n), b), a));
  }

  lemma {:induction false} SameRemainder(p: nat, a: Poly, b: Poly, q: Poly, r: Poly, r': Poly)
    requires Divides(p, a, b, q, r) && SameCoefs(r', r)
    ensures Divides(p, a, b, q, r')
  {
    forall X ensures Ev(PAdd(PMul(q, b), r), X) == Ev(PAdd(PMul(q, b), r'), X) {
      SameCoefsSameValues(r', r, X);
      EvAdd(PMul(q, b), r, X);
      EvAdd(PMul(q, b), r', X);
    }
    CongSame(p, [], PAdd(PMul(q, b), r), PAdd(PMul(q, b), r'));
    CongTrans(p, [], a, PAdd(PMul(q, b), r), PAdd(PMul(q, b), r'));
  }

  // Dividing by zero ends the program.
  method PolyDiv(p: nat, a: Poly, b: Poly) returns (died: bool, quot: Poly, rem: Poly)
    requires IsPrime(p) && IsPoly(p, a) && IsPoly(p, b)
    ensures died <==> b == []
    ensures !died ==> IsPoly(p, quot) && IsPoly(p, rem) && |rem| < |b| && Divides(p, a, b, quot, rem)
    ensures !died ==> |quot| == if |b| > |a| then 0 else |a| - |b| + 1
  {
    if b == [] {
      return true, [], [];
    }
    var n := |b| - 1;
    var m := |a| - 1;
    if n > m {
      StartDivision(p, a, b, 0);
      assert Zeros(0) == [];
      return false, [], a;
    }
    var q, r := DivideDown(p, a, b);
    died := false;
    quot := q;
    rem := Strip(p, r);
    SameRemainder(p, a, b, q, r, rem);
  }

  // State of the division before the quotient coefficient k is computed.
  ghost predicate DivState(p: nat, a: Poly, b: Poly, q: Poly, r: Poly, k: int)
  {
    && 0 < |b| <= |a| && -1 <= k <= |a| - |b| && |q| == |a| - |b| + 1 && |r| == |a| && IsReduced(p, q) && IsReduced(p, r)
    && (forall j :: 0 <= j <= k ==> q[j] == 0)
    && (forall j :: |b| - 1 + k < j < |r| ==> r[j] == 0)
    && (if k == |a| - |b| then r == a else q[|a| - |b|] != 0)
    && Divides(p, a, b, q, r)
  }

  lemma {:induction false} DivStart(p: nat, a: Poly, b: Poly)
    requires IsPrime(p) && IsPoly(p, a) && IsPoly(p, b) && 0 < |b| <= |a|
    ensures DivState(p, a, b, Zeros(|a| - |b| + 1), a, |a| - |b|)
    ensures Elem(p, b[|b| - 1]) && b[|b| - 1] != 0
  {
    ZeroElem(p);
    StartDivision(p, a, b, |a| - |b| + 1);
    hide IsPrime, Divides;
  }

  lemma {:induction false} DivStep(p: nat, a: Poly, b: Poly, q: Poly, r: Poly, k: nat, binv: int, qe: int, r': Poly)
    requires IsPrime(p) && IsPoly(p, a) && IsPoly(p, b) && DivState(p, a, b, q, r, k)
    requires Elem(p, binv) && binv != 0 && Mul(p, b[|b| - 1], binv) == 1 && qe == Mul(p, binv, r[|b| - 1 + k])
    requires Eliminated(p, r, r', b, qe, k) && IsReduced(p, r')
    ensures DivState(p, a, b, q[k := qe], r', k - 1)
  {
    var m := |b| - 1 + k;
    hide IsPrime, Divides, Mul, Sub;
    EliminatedIsCong(p, r, r', b, qe, k);
    MoveTerm(p, a, b, q, r, qe, k, q[k := qe], r');
    MulElem(p, binv, r[m]);
    ZeroElem(p);
    TopVanishes(p, r[m], b[|b| - 1], binv);
    assert r'[m] == Sub(p, r[m], Mul(p, qe, b[|b| - 1]));
    if k == |a| - |b| { ProductNonzero(p, binv, a[m]); }
  }

  lemma DivStateMeans(p: nat, a: Poly, b: Poly, q: Poly, r: Poly, k: int)
    requires DivState(p, a, b, q, r, k)
    ensures 0 < |b| <= |a| && |q| == |a| - |b| + 1 && |r| == |a| && IsReduced(p, r)
    ensures k == -1 ==> IsPoly(p, q) && Divides(p, a, b, q, r) && forall j :: |b| - 1 <= j < |r| ==> r[j] == 0
  {
  }

  method DivideDown(p: nat, a: Poly, b: Poly) returns (q: Poly, r: Poly)
    requires IsPrime(p) && IsPoly(p, a) && IsPoly(p, b) && 0 < |b| <= |a|
    ensures IsPoly(p, q) && |q| == |a| - |b| + 1 && |r| == |a| && IsReduced(p, r) && Divides(p, a, b, q, r)
    ensures forall j :: |b| - 1 <= j < |r| ==> r[j] == 0
  {
    hide *;
    DivStart(p, a, b);
    ZeroElem(p);
    var n := |b| - 1;
    var m := |a| - 1;
    r := a;
    var k := m - n;
    q := Zeros(k + 1);
    var binv := Inv(p, b[n]);
    while k >= 0
      invariant -1 <= k <= |a| - |b| && m == n + k && DivState(p, a, b, q, r, k)
    {
      DivStateMeans(p, a, b, q, r, k);
      var qe := Mul(p, binv, r[m]);
      var r' := EliminateTop(p, r, b, qe, k);
      DivStep(p, a, b, q, r, k, binv, qe, r');
      q := q[k := qe];
      r := r';
      k := k - 1;
      m := m - 1;
    }
    DivStateMeans(p, a, b, q, r, k);
  }

  // The inner loop of the division.
  method EliminateTop(p: nat, r0: Poly, b: Poly, qe: int, k: nat) returns (r: Poly)
    requires p > 0 && IsReduced(p, r0) && |b| + k <= |r0|
    ensures Eliminated(p, r0, r, b, qe, k) && IsReduced(p, r)
  {
    r := r0;
    for i := 0 to |b|
      invariant |r| == |r0| && IsReduced(p, r)
      invariant forall j :: 0 <= j < |r| ==> r[j] == if k <= j < k + i then Sub(p, r0[j], Mul(p, qe, b[j - k])) else r0[j]
    {
      var e0 := Mul(p, qe, b[i]);
      r := r[i + k := Sub(p, r[i + k], e0)];
    }
  }

  // ---------------------------------------------------------------- inversion

  // x = s*u + t*v, modulo p.
  ghost predicate Combo(p: nat, x: Poly, s: Poly, u: Poly, t: Poly, v: Poly)
  {
    Cong(p, [], x, PAdd(PMul(s, u), PMul(t, v)))
  }

  lemma {:induction false} ComboValue(s: Poly, u: Poly, t: Poly, v: Poly, X: int)
    ensures Ev(PAdd(PMul(s, u), PMul(t, v)), X) == Ev(s, X) * Ev(u, X) + Ev(t, X) * Ev(v, X)
  {
    EvAdd(PMul(s, u), PMul(t, v), X);
    EvMul(s, u, X);
    EvMul(t, v, X);
  }

  lemma {:induction false} DivisionValue(q: Poly, b: Poly, r: Poly, X: int)
    ensures Ev(PAdd(PMul(q, b), r), X) == Ev(q, X) * Ev(b, X) + Ev(r, X)
  {
    EvAdd(PMul(q, b), r, X);
    EvMul(q, b, X);
  }

  // The remainder is a combination again.
  lemma {:induction false} NextCombo(p: nat, r0: Poly, b0: Poly, c0: Poly, r1: Poly, b1: Poly, c1: Poly, f: Poly, m: Poly,
    q: Poly, r2: Poly, bq: Poly, b2: Poly)
    requires p > 0 && Combo(p, r0, b0, f, c0, m) && Combo(p, r1, b1, f, c1, m) && Divides(p, r0, r1, q, r2)
    requires CoefCong(p, bq, PMul(b1, q)) && CoefCong(p, b2, PSub(b0, bq))
    ensures Combo(p, r2, b2, f, PSub(c0, PMul(q, c1)), m)
  {
    var c2 := PSub(c0, PMul(q, c1));
    var b := PSub(b0, PMul(b1, q));
    var g0, g1, d := PAdd(PMul(b0, f), PMul(c0, m)), PAdd(PMul(b1, f), PMul(c1, m)), PAdd(PMul(q, r1), r2);
    var g2 := PAdd(PMul(b2, f), PMul(c2, m));
    hide *;
    NextFactor(p, b0, b1, q, bq, b2);
    NextComboDiff(r0, b0, c0, r1, b1, c1, f, m, q, r2, b2);
    ComboIntro(p, r0, b0, f, c0, m);
    ComboIntro(p, r1, b1, f, c1, m);
    DividesIs(p, r0, r1, q, r2);
    CongFrom4(p, [], [-1], r0, d, [1], r0, g0, PScale(-1, q), r1, g1, PScale(-1, f), b2, b, r2, g2);
    ComboIntro(p, r2, b2, f, c2, m);
  }

  lemma DividesIs(p: nat, a: Poly, b: Poly, q: Poly, r: Poly)
    ensures Divides(p, a, b, q, r) <==> Cong(p, [], a, PAdd(PMul(q, b), r))
  {
  }

  lemma ComboIntro(p: nat, x: Poly, s: Poly, u: Poly, t: Poly, v: Poly)
    ensures Combo(p, x, s, u, t, v) <==> Cong(p, [], x, PAdd(PMul(s, u), PMul(t, v)))
  {
  }

  lemma {:induction false} NextFactor(p: nat, b0: Poly, b1: Poly, q: Poly, bq: Poly, b2: Poly)
    requires p > 0 && CoefCong(p, bq, PMul(b1, q)) && CoefCong(p, b2, PSub(b0, bq))
    ensures Cong(p, [], b2, PSub(b0, PMul(b1, q)))
  {
    hide Ev, PSub, PMul, Cong, CoefCong;
    CoefCongIsCong(p, [], bq, PMul(b1, q));
    CoefCongIsCong(p, [], b2, PSub(b0, bq));
    var t := PSub(b0, PMul(b1, q));
    forall X ensures Ev(b2, X) - Ev(t, X) == Ev([1], X) * (Ev(b2, X) - Ev(PSub(b0, bq), X)) + Ev([-1], X) * (Ev(bq, X) - Ev(PMul(b1, q), X)) {
      EvSub(b0, PMul(b1, q), X);
      EvSub(b0, bq, X);
      EvConst(-1, X);
      EvConst(1, X);
    }
    CongFrom(p, [], [1], b2, PSub(b0, bq), [-1], bq, PMul(b1, q), b2, t);
  }

  lemma {:induction false} NextComboDiff(r0: Poly, b0: Poly, c0: Poly, r1: Poly, b1: Poly, c1: Poly, f: Poly, m: Poly, q: Poly, r2: Poly, b2: Poly)
    ensures Diff4([-1], r0, PAdd(PMul(q, r1), r2), [1], r0, PAdd(PMul(b0, f), PMul(c0, m)), PScale(-1, q), r1, PAdd(PMul(b1, f), PMul(c1, m)),
      PScale(-1, f), b2, PSub(b0, PMul(b1, q)), r2, PAdd(PMul(b2, f), PMul(PSub(c0, PMul(q, c1)), m)))
  {
    hide Ev, PAdd, PMul, PSub, PScale;
    forall X {:trigger Ev(r2, X)} ensures NextComboHolds(r0, b0, c0, r1, b1, c1, f, m, q, r2, b2, X) {
      NextComboAt(r0, b0, c0, r1, b1, c1, f, m, q, r2, b2, X);
    }
  }

  ghost predicate NextComboHolds(r0: Poly, b0: Poly, c0: Poly, r1: Poly, b1: Poly, c1: Poly, f: Poly, m: Poly, q: Poly, r2: Poly, b2: Poly, X: int)
  {
    var c2 := PSub(c0, PMul(q, c1));
    var b := PSub(b0, PMul(b1, q));
    var g0, g1, d := PAdd(PMul(b0, f), PMul(c0, m)), PAdd(PMul(b1, f), PMul(c1, m)), PAdd(PMul(q, r1), r2);
    var g2 := PAdd(PMul(b2, f), PMul(c2, m));
    Ev(r2, X) - Ev(g2, X) == Ev([-1], X) * (Ev(r0, X) - Ev(d, X)) + Ev([1], X) * (Ev(r0, X) - Ev(g0, X)) +
      Ev(PScale(-1, q), X) * (Ev(r1, X) - Ev(g1, X)) + Ev(PScale(-1, f), X) * (Ev(b2, X) - Ev(b, X))
  }

  lemma {:induction false} NextComboAt(r0: Poly, b0: Poly, c0: Poly, r1: Poly, b1: Poly, c1: Poly, f: Poly, m: Poly, q: Poly, r2: Poly, b2: Poly, X: int)
    ensures NextComboHolds(r0, b0, c0, r1, b1, c1, f, m, q, r2, b2, X)
  {
    hide Ev, PAdd, PMul, PSub, PScale;
    var c2 := PSub(c0, PMul(q, c1));
    EvConst(-1, X);
    EvConst(1, X);
    EvScale(-1, q, X);
    EvScale(-1, f, X);
    EvSub(c0, PMul(q, c1), X);
    EvMul(q, c1, X);
    EvSub(b0, PMul(b1, q), X);
    EvMul(b1, q, X);
    ComboValue(b0, f, c0, m, X);
    ComboValue(b1, f, c1, m, X);
    ComboValue(b2, f, c2, m, X);
    DivisionValue(q, r1, r2, X);
    NextPoly(Ev(r0, X), Ev(r1, X), Ev(r2, X), Ev(b0, X), Ev(b1, X), Ev(b2, X), Ev(c0, X), Ev(c1, X), Ev(f, X), Ev(m, X), Ev(q, X));
  }

  lemma {:induction false} NextPoly(r0: int, r1: int, r2: int, b0: int, b1: int, b2: int, c0: int, c1: int, f: int, m: int, q: int)
    ensures r2 - (b2 * f + (c0 - q * c1) * m) == -1 * (r0 - (q * r1 + r2)) + 1 * (r0 - (b0 * f + c0 * m))
      + -1 * q * (r1 - (b1 * f + c1 * m)) + -1 * f * (b2 - (b0 - b1 * q))
  {
    assert (c0 - q * c1) * m == c0 * m - q * (c1 * m);
    assert -1 * q * (r1 - (b1 * f + c1 * m)) == -(q * r1) + q * (b1 * f) + q * (c1 * m);
    assert -1 * f * (b2 - (b0 - b1 * q)) == -(b2 * f) + b0 * f - q * (b1 * f);
  }

  // m stays a combination of the last two remainders.
  lemma {:induction false} NextBack(p: nat, m: Poly, s: Poly, r0: Poly, t: Poly, r1: Poly, q: Poly, r2: Poly)
    requires p > 0 && Combo(p, m, s, r0, t, r1) && Divides(p, r0, r1, q, r2)
    ensures Combo(p, m, PAdd(PMul(s, q), t), r1, s, r2)
  {
    hide *;
    var u := PAdd(PMul(s, q), t);
    ComboIntro(p, m, s, r0, t, r1);
    DividesIs(p, r0, r1, q, r2);
    BackDiff(m, s, r0, t, r1, q, r2);
    CongFrom(p, [], [1], m, PAdd(PMul(s, r0), PMul(t, r1)), s, r0, PAdd(PMul(q, r1), r2), m, PAdd(PMul(u, r1), PMul(s, r2)));
    ComboIntro(p, m, u, r1, s, r2);
  }

  lemma {:induction false} BackDiff(m: Poly, s: Poly, r0: Poly, t: Poly, r1: Poly, q: Poly, r2: Poly)
    ensures Diff([1], m, PAdd(PMul(s, r0), PMul(t, r1)), s, r0, PAdd(PMul(q, r1), r2), m, PAdd(PMul(PAdd(PMul(s, q), t), r1), PMul(s, r2)))
  {
    hide Ev, PAdd, PMul;
    var u := PAdd(PMul(s, q), t);
    var g, g', d := PAdd(PMul(s, r0), PMul(t, r1)), PAdd(PMul(u, r1), PMul(s, r2)), PAdd(PMul(q, r1), r2);
    forall X ensures Ev(m, X) - Ev(g', X) == Ev([1], X) * (Ev(m, X) - Ev(g, X)) + Ev(s, X) * (Ev(r0, X) - Ev(d, X)) {
      EvConst(1, X);
      DivisionValue(s, q, t, X);
      DivisionValue(q, r1, r2, X);
      ComboValue(s, r0, t, r1, X);
      ComboValue(u, r1, s, r2, X);
      BackPoly(Ev(m, X), Ev(s, X), Ev(r0, X), Ev(t, X), Ev(r1, X), Ev(q, X), Ev(r2, X));
    }
  }

  lemma BackPoly(m: int, s: int, r0: int, t: int, r1: int, q: int, r2: int)
    ensures m - ((s * q + t) * r1 + s * r2) == 1 * (m - (s * r0 + t * r1)) + s * (r0 - (q * r1 + r2))
  {
  }

  // No factorisation into factors of positive degree.
  ghost predicate Irreducible(p: nat, m: Poly)
  {
    && IsPrime(p) && IsPoly(p, m) && |m| >= 2
    && forall a, b | IsPoly(p, a) && IsPoly(p, b) && CoefCong(p, m, PMul(a, b)) :: |a| == 1 || |b| == 1
  }

  // The normal form modulo p of an integer polynomial.
  lemma {:induction false} Normalise(p: nat, f: Poly) returns (r: Poly)
    requires p > 0
    ensures IsPoly(p, r) && CoefCong(p, f, r)
  {
    var g := seq(|f|, i requires 0 <= i < |f| => f[i] % p);
    var n := Trim(p, f);
    r := g[..n];
    forall i: nat ensures Coef(f, i) % p == Coef(r, i) % p {
      assert Coef(f, i) % p == Coef(f[..n], i) % p;
      if i < n { ModMod(f[i], p); }
    }
  }

  lemma {:induction false} FactorCong(p: nat, m: Poly, w: Poly, w': Poly, r: Poly)
    requires p > 0 && Cong(p, [], m, PMul(w, r)) && CoefCong(p, w, w')
    ensures CoefCong(p, m, PMul(w', r))
  {
    CoefCongIsCong(p, [], w, w');
    EvZero();
    forall X ensures Ev(m, X) - Ev(PMul(w', r), X) == Ev([1], X) * (Ev(m, X) - Ev(PMul(w, r), X)) + Ev(r, X) * (Ev(w, X) - Ev(w', X)) {
      EvMul(w, r, X);
      EvMul(w', r, X);
      FactorPoly(Ev(m, X), Ev(w, X), Ev(w', X), Ev(r, X));
    }
    CongFrom(p, [], [1], m, PMul(w, r), r, w, w', m, PMul(w', r));
    CongModP(p, m, PMul(w', r));
  }

  lemma FactorPoly(m: int, w: int, v: int, r: int)
    ensures m - v * r == 1 * (m - w * r) + r * (w - v)
  {
  }

  lemma {:induction false} ProductLength(p: nat, m: Poly, a: Poly, b: Poly)
    requires IsPrime(p) && IsPoly(p, m) && IsPoly(p, a) && IsPoly(p, b) && b != [] && m != [] && CoefCong(p, m, PMul(a, b))
    ensures a != [] && |m| == |a| + |b| - 1
  {
    ModSmall(0, p);
    var top := |m| - 1;
    ModSmall(m[top], p);
    assert Coef(m, top) % p == Coef(PMul(a, b), top) % p;
    if a != [] {
      TopOfProduct(a, b);
      var i := |a| + |b| - 2;
      ProductNonzero(p, a[|a| - 1], b[|b| - 1]);
      assert Coef(m, i) % p == Coef(PMul(a, b), i) % p;
    }
  }

  // The last nonzero remainder divides an irreducible modulus, hence is a constant.
  lemma {:induction false} LastIsConstant(p: nat, m: Poly, s: Poly, r0: Poly, t: Poly, r1: Poly, q: Poly)
    requires Irreducible(p, m) && IsPoly(p, r1) && 0 < |r1| < |m|
    requires Combo(p, m, s, r0, t, r1) && Divides(p, r0, r1, q, [])
    ensures |r1| == 1
  {
    NextBack(p, m, s, r0, t, r1, q, []);
    var w := PAdd(PMul(s, q), t);
    var g := PAdd(PMul(w, r1), PMul(s, []));
    forall X ensures Ev(g, X) == Ev(PMul(w, r1), X) {
      ComboValue(w, r1, s, [], X);
      EvMul(w, r1, X);
      EvConst(0, X);
      assert Ev(s, X) * 0 == 0;
    }
    CongSame(p, [], g, PMul(w, r1));
    CongTrans(p, [], m, g, PMul(w, r1));
    var w' := Normalise(p, w);
    FactorCong(p, m, w, w', r1);
    ProductLength(p, m, w', r1);
  }

  // poly_const_mul
  method PolyConstMul(p: nat, a: int, f: Poly) returns (r: Poly)
    requires p > 0 && IsPoly(p, f)
    ensures IsPoly(p, r) && |r| <= |f| && CoefCong(p, r, PScale(a, f))
  {
    var t := seq(|f|, i requires 0 <= i < |f| => Mul(p, a, f[i]));
    forall i: nat ensures Coef(t, i) % p == Coef(PScale(a, f), i) % p {
      if i < |f| { ModMod(a * f[i], p); }
    }
    r := Strip(p, t);
  }

  // The state of Euclid's algorithm on m and f, with the hidden cofactors.
  ghost predicate Euclidean(p: nat, f: Poly, m: Poly, r0: Poly, r1: Poly, b0: Poly, b1: Poly, c0: Poly, c1: Poly, s: Poly, t: Poly)
  {
    && IsPoly(p, r0) && IsPoly(p, r1) && IsPoly(p, b0) && IsPoly(p, b1)
    && 0 < |r1| < |r0| <= |m| && |b0| < |b1| && |b1| + |r0| == |m| + 1
    && Combo(p, r0, b0, f, c0, m) && Combo(p, r1, b1, f, c1, m) && Combo(p, m, s, r0, t, r1)
  }

  lemma {:induction false} EuclideanStart(p: nat, f: Poly, m: Poly)
    requires p > 1 && IsPoly(p, f) && IsPoly(p, m) && 0 < |f| < |m|
    ensures Euclidean(p, f, m, m, f, [], [1], [1], [], [1], [])
  {
    var u, v, w := PAdd(PMul([], f), PMul([1], m)), PAdd(PMul([1], f), PMul([], m)), PAdd(PMul([1], m), PMul([], f));
    forall X ensures Ev(m, X) == Ev(u, X) && Ev(f, X) == Ev(v, X) && Ev(m, X) == Ev(w, X) {
      EvConst(1, X);
      ComboValue([], f, [1], m, X);
      ComboValue([1], f, [], m, X);
      ComboValue([1], m, [], f, X);
      assert 0 * Ev(f, X) == 0 && 0 * Ev(m, X) == 0;
    }
    CongSame(p, [], m, u);
    CongSame(p, [], f, v);
    CongSame(p, [], m, w);
  }

  lemma {:induction false} EuclideanStep(p: nat, f: Poly, m: Poly, r0: Poly, r1: Poly, b0: Poly, b1: Poly, c0: Poly, c1: Poly, s: Poly, t: Poly,
    q: Poly, r2: Poly, bq: Poly, b2: Poly)
    requires p > 0 && Euclidean(p, f, m, r0, r1, b0, b1, c0, c1, s, t) && r2 != []
    requires IsPoly(p, r2) && |r2| < |r1| && Divides(p, r0, r1, q, r2) && |q| == |r0| - |r1| + 1
    requires CoefCong(p, bq, PMul(b1, q)) && |bq| == |b1| + |q| - 1
    requires IsPoly(p, b2) && CoefCong(p, b2, PSub(b0, bq)) && (|b0| < |bq| ==> |b2| == |bq|)
    ensures Euclidean(p, f, m, r1, r2, b1, b2, c1, PSub(c0, PMul(q, c1)), PAdd(PMul(s, q), t), s)
  {
    hide Combo, Divides, IsPoly, PSub, PMul, CoefCong;
    NextCombo(p, r0, b0, c0, r1, b1, c1, f, m, q, r2, bq, b2);
    NextBack(p, m, s, r0, t, r1, q, r2);
  }

  // res*f is 1 modulo p and m.
  ghost predicate IsInverseMod(p: nat, m: Poly, f: Poly, res: Poly)
  {
    Cong(p, m, PMul(res, f), [1])
  }

  lemma {:induction false} InverseFound(p: nat, f: Poly, m: Poly, r1: Poly, b1: Poly, c1: Poly, inv: int, res: Poly)
    requires p > 1 && Combo(p, r1, b1, f, c1, m) && |r1| == 1 && Mul(p, r1[0], inv) == 1 && CoefCong(p, res, PScale(inv, b1))
    ensures IsInverseMod(p, m, f, res)
  {
    hide *;
    var g, u := PAdd(PMul(b1, f), PMul(c1, m)), PScale(inv, r1);
    var v := PSub(g, PMul(b1, f));
    ComboIntro(p, r1, b1, f, c1, m);
    CoefCongIsCong(p, [], res, PScale(inv, b1));
    ConstantOne(p, r1, inv);
    CoefCongIsCong(p, [], u, [1]);
    CongWeaken(p, m, u, [1]);
    CongWeaken(p, m, res, PScale(inv, b1));
    CongWeaken(p, m, r1, g);
    ModulusPart(p, b1, f, c1, m);
    InverseDiff(f, m, r1, b1, c1, inv, res);
    CongFrom4(p, m, f, res, PScale(inv, b1), [-inv], r1, g, [1], u, [1], [-inv], v, [], PMul(res, f), [1]);
    InverseIntro(p, m, f, res);
  }

  lemma {:induction false} ConstantOne(p: nat, r: Poly, inv: int)
    requires p > 1 && |r| == 1 && Mul(p, r[0], inv) == 1
    ensures CoefCong(p, PScale(inv, r), [1])
  {
    ModSmall(1, p);
    assert PScale(inv, r) == [inv * r[0]] && inv * r[0] == r[0] * inv;
  }

  lemma {:induction false} ModulusPart(p: nat, b: Poly, f: Poly, c: Poly, m: Poly)
    ensures Cong(p, m, PSub(PAdd(PMul(b, f), PMul(c, m)), PMul(b, f)), [])
  {
    hide Ev, PAdd, PMul, PSub, Cong;
    var g := PAdd(PMul(b, f), PMul(c, m));
    var v := PSub(g, PMul(b, f));
    forall X ensures Ev(v, X) == Ev([], X) + Ev(m, X) * Ev(c, X) {
      EvConst(0, X);
      EvSub(g, PMul(b, f), X);
      ComboValue(b, f, c, m, X);
      EvMul(b, f, X);
      TimesCommutes(Ev(c, X), Ev(m, X));
    }
    MultipleVanishes(p, m, c, v, []);
  }

  lemma TimesCommutes(a: int, b: int)
    ensures a * b == b * a
  {
  }

  lemma InverseIntro(p: nat, m: Poly, f: Poly, res: Poly)
    ensures IsInverseMod(p, m, f, res) <==> Cong(p, m, PMul(res, f), [1])
  {
  }

  lemma {:induction false} InverseDiff(f: Poly, m: Poly, r1: Poly, b1: Poly, c1: Poly, inv: int, res: Poly)
    ensures Diff4(f, res, PScale(inv, b1), [-inv], r1, PAdd(PMul(b1, f), PMul(c1, m)), [1], PScale(inv, r1), [1],
      [-inv], PSub(PAdd(PMul(b1, f), PMul(c1, m)), PMul(b1, f)), [], PMul(res, f), [1])
  {
    hide Ev, PAdd, PMul, PSub, PScale;
    forall X {:trigger Ev(f, X)} ensures InverseHolds(f, m, r1, b1, c1, inv, res, X) { InverseAt(f, m, r1, b1, c1, inv, res, X); }
  }

  ghost predicate InverseHolds(f: Poly, m: Poly, r1: Poly, b1: Poly, c1: Poly, inv: int, res: Poly, X: int)
  {
    var g, u := PAdd(PMul(b1, f), PMul(c1, m)), PScale(inv, r1);
    var v := PSub(g, PMul(b1, f));
    Ev(PMul(res, f), X) - Ev([1], X) == Ev(f, X) * (Ev(res, X) - Ev(PScale(inv, b1), X)) + Ev([-inv], X) * (Ev(r1, X) - Ev(g, X)) +
      Ev([1], X) * (Ev(u, X) - Ev([1], X)) + Ev([-inv], X) * (Ev(v, X) - Ev([], X))
  }

  lemma {:induction false} InverseAt(f: Poly, m: Poly, r1: Poly, b1: Poly, c1: Poly, inv: int, res: Poly, X: int)
    ensures InverseHolds(f, m, r1, b1, c1, inv, res, X)
  {
    hide Ev, PAdd, PMul, PSub, PScale;
    var g := PAdd(PMul(b1, f), PMul(c1, m));
    EvMul(res, f, X);
    EvConst(1, X);
    EvConst(-inv, X);
    EvScale(inv, b1, X);
    EvScale(inv, r1, X);
    EvSub(g, PMul(b1, f), X);
    EvMul(b1, f, X);
    InversePoly(Ev(res, X), Ev(f, X), inv, Ev(b1, X), Ev(r1, X), Ev(g, X));
  }

  lemma InversePoly(res: int, f: int, i: int, b: int, r: int, g: int)
    ensures res * f - 1 == f * (res - i * b) + (0 - i) * (r - g) + 1 * (i * r - 1) + (0 - i) * (g - b * f - 0)
  {
  }

  // A true inverse of lower degree, for a nonzero polynomial below an irreducible modulus.
  method PolyInvert(p: nat, f: Poly, m: Poly) returns (res: Poly)
    requires Irreducible(p, m) && IsPoly(p, f) && 0 < |f| < |m|
    ensures IsPoly(p, res) && |res| < |m| && IsInverseMod(p, m, f, res)
  {
    hide *;
    IrreducibleMeans(p, m);
    EuclideanStart(p, f, m);
    var b0: Poly, b1: Poly, r0, r1 := [], [1], m, f;
    ghost var c0: Poly, c1: Poly, s: Poly, t: Poly := [1], [], [1], [];
    var died, q, r2;
    while true
      invariant Euclidean(p, f, m, r0, r1, b0, b1, c0, c1, s, t)
      decreases |r1|
    {
      EuclideanMeans(p, f, m, r0, r1, b0, b1, c0, c1, s, t);
      died, q, r2 := PolyDiv(p, r0, r1);
      if r2 == [] { break; }
      var b2 := PolyMul(p, b1, q);
      ghost var bq := b2;
      b2 := PolySub(p, b0, b2);
      EuclideanStep(p, f, m, r0, r1, b0, b1, c0, c1, s, t, q, r2, bq, b2);
      b0 := b1;
      b1 := b2;
      r0 := r1;
      r1 := r2;
      c0, c1, s, t := c1, PSub(c0, PMul(q, c1)), PAdd(PMul(s, q), t), s;
    }
    LastIsConstant(p, m, s, r0, t, r1, q);
    ConstantNonzero(p, r1);
    var inv := Inv(p, r1[0]);
    res := PolyConstMul(p, inv, b1);
    InverseFound(p, f, m, r1, b1, c1, inv, res);
  }

  lemma IrreducibleMeans(p: nat, m: Poly)
    requires Irreducible(p, m)
    ensures IsPrime(p) && p > 1 && IsPoly(p, m) && |m| >= 2
  {
  }

  lemma EuclideanMeans(p: nat, f: Poly, m: Poly, r0: Poly, r1: Poly, b0: Poly, b1: Poly, c0: Poly, c1: Poly, s: Poly, t: Poly)
    requires Euclidean(p, f, m, r0, r1, b0, b1, c0, c1, s, t)
    ensures IsPoly(p, r0) && IsPoly(p, r1) && IsPoly(p, b0) && IsPoly(p, b1)
    ensures 0 < |r1| < |r0| <= |m| && |b0| < |b1| && |b1| + |r0| == |m| + 1
    ensures Combo(p, r1, b1, f, c1, m) && Combo(p, m, s, r0, t, r1)
  {
  }

  lemma ConstantNonzero(p: nat, r: Poly)
    requires IsPoly(p, r) && |r| == 1
    ensures Elem(p, r[0]) && r[0] != 0
  {
  }
}
