// Polynomials modulo a monic polynomial of degree n over F_p: arrays of n residues, updated in place.
module PolynomialRing {
  import opened Arith
  import opened Fp
  import opened Polynomials
  import opened PolynomialDivision

  // n is the degree of poly; xpwr holds x^n, x^(n+1), ... reduced.
  datatype Ring = Ring(p: nat, n: nat, poly: Poly, xpwr: seq<Poly>)

  ghost predicate IsModulus(p: nat, n: nat, poly: Poly)
  {
    IsPrime(p) && n >= 1 && |poly| == n + 1 && IsReduced(p, poly) && poly[n] == 1
  }

  ghost predicate Elt(p: nat, n: nat, s: Poly)
  {
    |s| == n && IsReduced(p, s)
  }

  function Monomial(k: nat): Poly
  {
    PShift(k, [1])
  }

  ghost predicate IsXPower(p: nat, n: nat, poly: Poly, i: nat, w: Poly)
  {
    Elt(p, n, w) && Cong(p, poly, w, Monomial(n + i))
  }

  ghost predicate Valid(F: Ring)
  {
    IsModulus(F.p, F.n, F.poly) && |F.xpwr| == F.n && forall i :: 0 <= i < F.n ==> IsXPower(F.p, F.n, F.poly, i, F.xpwr[i])
  }

  // c is a*b reduced.
  ghost predicate IsProduct(F: Ring, a: Poly, b: Poly, c: Poly)
  {
    Elt(F.p, F.n, c) && Cong(F.p, F.poly, c, PMul(a, b))
  }

  lemma {:induction false} ProductUnique(F: Ring, a: Poly, b: Poly, c: Poly, d: Poly)
    requires Valid(F) && IsProduct(F, a, b, c) && IsProduct(F, a, b, d)
    ensures c == d
  {
    hide Cong, PMul, IsPrime;
    CongSym(F.p, F.poly, d, PMul(a, b));
    CongTrans(F.p, F.poly, c, PMul(a, b), d);
    ModSmall(1, F.p) by { PrimeAboveOne(F.p); }
    PrimeAboveOne(F.p);
    RemainderUnique(F.p, F.poly, c, d);
    ReducedEqual(F.p, c, d);
  }

  lemma PrimeAboveOne(p: nat)
    requires IsPrime(p)
    ensures p > 1
  {
  }

  ghost function Padded(r: Poly, n: nat): (s: Poly)
    requires |r| <= n
    ensures |s| == n
  {
    r + Zeros(n - |r|)
  }

  // The reduced product is the remainder that long division of the full product leaves.
  lemma {:induction false} ProductIsRemainder(F: Ring, a: Poly, b: Poly, c: Poly, full: Poly, q: Poly, r: Poly)
    requires Valid(F) && IsProduct(F, a, b, c)
    requires CoefCong(F.p, full, PMul(a, b)) && Divides(F.p, full, F.poly, q, r) && IsPoly(F.p, r) && |r| <= F.n
    ensures c == Padded(r, F.n)
  {
    var s := Padded(r, F.n);
    var g := PAdd(PMul(q, F.poly), r);
    assert SameCoefs(s, r);
    forall X ensures Ev(g, X) == Ev(s, X) + Ev(F.poly, X) * Ev(q, X) {
      DivisionValue(q, F.poly, r, X);
      SameCoefsSameValues(s, r, X);
      TimesCommutes(Ev(F.poly, X), Ev(q, X));
    }
    PrimeAboveOne(F.p);
    assert Elt(F.p, F.n, s);
    hide Ev, PMul, PAdd, Cong, CoefCong, IsPrime, Padded, SameCoefs;
    MultipleVanishes(F.p, F.poly, q, g, s);
    CongWeaken(F.p, F.poly, full, g) by { DividesIs(F.p, full, F.poly, q, r); }
    CoefCongIsCong(F.p, F.poly, full, PMul(a, b));
    CongSym(F.p, F.poly, g, s);
    CongSym(F.p, F.poly, full, g);
    CongTrans(F.p, F.poly, s, g, full);
    CongTrans(F.p, F.poly, s, full, PMul(a, b));
    ProductUnique(F, a, b, c, s);
  }

  // ---------------------------------------------------------------- powers of x

  lemma {:induction false} EvMonomial(k: nat, X: int)
    ensures Ev(Monomial(k), X) == Pow(X, k)
  {
    EvShift(k, [1], X);
    EvConst(1, X);
  }

  lemma {:induction false} EvSnoc(f: Poly, c: int, X: int)
    ensures Ev(f + [c], X) == Ev(f, X) + c * Pow(X, |f|)
  {
    if f == [] {
      EvConst(c, X);
      assert [] + [c] == [c];
    } else {
      EvSnoc(f[1..], c, X);
      assert (f + [c])[1..] == f[1..] + [c];
      UpdateStep(X, Ev(f[1..], X), c, Pow(X, |f| - 1));
    }
  }

  // x^n is minus the lower part of a monic modulus.
  lemma {:induction false} FirstPower(p: nat, n: nat, poly: Poly, w: Poly)
    requires IsModulus(p, n, poly) && |w| == n && forall j :: 0 <= j < n ==> w[j] == Neg(p, poly[j])
    ensures IsXPower(p, n, poly, 0, w)
  {
    var low := poly[..n];
    PrimeAboveOne(p);
    hide IsPrime;
    var t := PScale(-1, low);
    forall i: nat ensures Coef(w, i) % p == Coef(t, i) % p {
      if i < n { ModMod(0 - poly[i], p); }
    }
    CoefCongIsCong(p, poly, w, t);
    assert poly == low + [1];
    forall X ensures Ev(t, X) == Ev(Monomial(n), X) + Ev(poly, X) * Ev([-1], X) {
      EvSnoc(low, 1, X);
      EvMonomial(n, X);
      EvScale(-1, low, X);
      EvConst(-1, X);
    }
    MultipleVanishes(p, poly, [-1], t, Monomial(n));
    CongTrans(p, poly, w, t, Monomial(n));
  }

  // The next power: shift, and replace the coefficient that falls out.
  lemma {:induction false} NextPower(p: nat, n: nat, poly: Poly, i: nat, first: Poly, c: Poly, w: Poly)
    requires IsModulus(p, n, poly) && IsXPower(p, n, poly, 0, first) && IsXPower(p, n, poly, i, c) && |w| == n
    requires forall j :: 0 <= j < n ==> w[j] == Add(p, if j == 0 then 0 else c[j - 1], Mul(p, first[j], c[n - 1]))
    ensures IsXPower(p, n, poly, i + 1, w)
  {
    hide IsPrime, Cong;
    PrimeAboveOne(p);
    var top := c[n - 1];
    var shifted := PShift(1, c[..n - 1]);
    var t := PAdd(shifted, PScale(top, first));
    forall k: nat ensures Coef(w, k) % p == Coef(t, k) % p {
      if k < n { NextCoef(p, if k == 0 then 0 else c[k - 1], first[k], top); }
    }
    CoefCongIsCong(p, poly, w, t);
    ShiftDiff(n, i, first, c);
    CongFrom(p, poly, [top], first, Monomial(n), Monomial(1), c, Monomial(n + i), t, Monomial(n + i + 1));
    CongTrans(p, poly, w, t, Monomial(n + i + 1));
  }

  lemma {:induction false} NextCoef(p: nat, a: int, b: int, c: int)
    requires p > 0
    ensures Add(p, a, Mul(p, b, c)) % p == (a + c * b) % p
  {
    ModMod(b * c, p);
    ModAdd(a, a, b * c % p, b * c, p);
    ModMod(a + b * c % p, p);
    assert b * c == c * b;
  }

  lemma {:induction false} ShiftDiff(n: nat, i: nat, first: Poly, c: Poly)
    requires n >= 1 && |c| == n
    ensures Diff([c[n - 1]], first, Monomial(n), Monomial(1), c, Monomial(n + i),
      PAdd(PShift(1, c[..n - 1]), PScale(c[n - 1], first)), Monomial(n + i + 1))
  {
    var top, low := c[n - 1], c[..n - 1];
    var t := PAdd(PShift(1, low), PScale(top, first));
    assert c == low + [top];
    hide PAdd, PShift, PScale, Ev, Monomial;
    forall X ensures Ev(t, X) - Ev(Monomial(n + i + 1), X) ==
        Ev([top], X) * (Ev(first, X) - Ev(Monomial(n), X)) + Ev(Monomial(1), X) * (Ev(c, X) - Ev(Monomial(n + i), X)) {
      EvSnoc(low, top, X);
      EvAdd(PShift(1, low), PScale(top, first), X);
      EvShift(1, low, X);
      EvScale(top, first, X);
      EvConst(top, X);
      EvMonomial(n, X);
      EvMonomial(1, X);
      EvMonomial(n + i, X);
      EvMonomial(n + i + 1, X);
      PowUnfolds(X, n - 1);
      PowUnfolds(X, n + i);
      ShiftPoly(X, Ev(low, X), top, Ev(first, X), Pow(X, n - 1), Pow(X, n + i));
    }
  }

  lemma PowUnfolds(X: int, k: nat)
    ensures Pow(X, k + 1) == X * Pow(X, k) && Pow(X, 1) == X
  {
    assert Pow(X, 1) == X * Pow(X, 0);
  }

  lemma ShiftPoly(X: int, low: int, top: int, first: int, w: int, v: int)
    ensures X * low + top * first - X * v == top * (first - X * w) + X * (low + top * w - v)
  {
  }

  // The table of x^n, ..., x^(2n-1) modulo a monic polynomial.
  method ComputeXPowers(p: nat, n: nat, poly: Poly) returns (xpwr: seq<Poly>)
    requires IsModulus(p, n, poly)
    ensures Valid(Ring(p, n, poly, xpwr))
  {
    hide IsPrime, Cong, Monomial;
    PrimeAboveOne(p);
    var pwrn: Poly := poly[..n];
    for i := 0 to n
      invariant |pwrn| == n
      invariant forall j :: 0 <= j < n ==> pwrn[j] == if j < i then Neg(p, poly[j]) else poly[j]
    {
      pwrn := pwrn[i := Neg(p, pwrn[i])];
    }
    FirstPower(p, n, poly, pwrn);
    xpwr := [pwrn];
    for i := 1 to n
      invariant |xpwr| == i && xpwr[0] == pwrn
      invariant forall k :: 0 <= k < i ==> IsXPower(p, n, poly, k, xpwr[k])
    {
      var coeff := xpwr[i - 1];
      var coeff1: Poly := [0];
      for j := 1 to n
        invariant |coeff1| == j && forall k :: 0 <= k < j ==> coeff1[k] == if k == 0 then 0 else coeff[k - 1]
      {
        coeff1 := coeff1 + [coeff[j - 1]];
      }
      ghost var shifted := coeff1;
      var p0 := seq(n, j requires 0 <= j < n => Mul(p, pwrn[j], coeff[n - 1]));
      for j := 0 to n
        invariant |coeff1| == n
        invariant forall k :: 0 <= k < n ==> coeff1[k] == if k < j then Add(p, shifted[k], p0[k]) else shifted[k]
      {
        coeff1 := coeff1[j := Add(p, coeff1[j], p0[j])];
      }
      NextPower(p, n, poly, i - 1, pwrn, coeff, coeff1);
      xpwr := xpwr + [coeff1];
    }
  }

  // ---------------------------------------------------------------- inversion

  // poly_to_polymod_truncate
  method Truncate(r: array<int>, f: Poly)
    modifies r
    ensures forall i :: 0 <= i < r.Length ==> r[i] == Coef(f, i)
  {
    var n := |f|;
    if n > r.Length { n := r.Length; }
    for i := 0 to n
      invariant forall k :: 0 <= k < i ==> r[k] == f[k]
    {
      r[i] := f[i];
    }
    for i := n to r.Length
      invariant forall k :: 0 <= k < i ==> r[k] == Coef(f, k)
    {
      r[i] := 0;
    }
  }

  lemma {:induction false} SameProducts(p: nat, m: Poly, a: Poly, b: Poly, a': Poly, b': Poly)
    requires IsInverseMod(p, m, b, a) && SameCoefs(a', a) && SameCoefs(b', b)
    ensures IsInverseMod(p, m, b', a')
  {
    forall X ensures Ev(PMul(a', b'), X) == Ev(PMul(a, b), X) {
      EvMul(a', b', X);
      EvMul(a, b, X);
      SameCoefsSameValues(a', a, X);
      SameCoefsSameValues(b', b, X);
    }
    hide Cong, PMul;
    CongSame(p, m, PMul(a', b'), PMul(a, b));
    CongTrans(p, m, PMul(a', b'), PMul(a, b), [1]);
  }

  // A true inverse for every nonzero element modulo an irreducible polynomial; nothing is lost by truncating.
  method PolymodInvert(F: Ring, r: array<int>, e: array<int>)
    requires Valid(F) && Irreducible(F.p, F.poly) && r.Length == F.n && Elt(F.p, F.n, e[..])
    requires exists i :: 0 <= i < F.n && e[i] != 0
    modifies r
    ensures Elt(F.p, F.n, r[..]) && IsInverseMod(F.p, F.poly, old(e[..]), r[..])
  {
    ghost var a := e[..];
    PrimeAboveOne(F.p);
    hide IsPrime, Irreducible, IsInverseMod;
    var f := Strip(F.p, e[..]);
    SomethingLeft(a, f);
    var r1 := PolyInvert(F.p, f, F.poly);
    Truncate(r, r1);
    assert SameCoefs(r[..], r1);
    SameProducts(F.p, F.poly, r1, f, r[..], a);
  }

  lemma {:induction false} SomethingLeft(a: Poly, f: Poly)
    requires SameCoefs(f, a) && exists i :: 0 <= i < |a| && a[i] != 0
    ensures f != []
  {
    var i :| 0 <= i < |a| && a[i] != 0;
    assert Coef(f, i) == Coef(a, i);
  }
}
