// GF(3^2m) = GF(3^m)[s]/(s^2 + 1) and GF(3^6m) = GF(3^2m)[p]/(p^3 - p - 1): products, cubes, and cubing as a
// ring homomorphism. Elements of GF(3^m) are their m digits.
module TernaryTower {
  import opened Arith
  import opened Polynomials
  import opened PolynomialDivision
  import opened TernaryField
  import TernaryElements
  import TernaryWords

  // ---------------------------------------------------------------- the base field

  datatype Field = Field(m: nat, t: nat)

  ghost predicate Good(F: Field)
  {
    0 < F.t < F.m
  }

  ghost function Modulus(F: Field): Poly
  {
    Trinomial(F.m, F.t)
  }

  ghost predicate InK(F: Field, a: Poly)
  {
    |a| == F.m && forall i :: 0 <= i < |a| ==> 0 <= a[i] <= 2
  }

  // v is the reduced form of the polynomial L.
  ghost predicate Rep(F: Field, v: Poly, L: Poly)
  {
    InK(F, v) && Cong(3, Modulus(F), v, L)
  }

  function KAdd(a: Poly, b: Poly): (r: Poly)
    requires |a| == |b|
    ensures |r| == |a|
  {
    seq(|a|, i requires 0 <= i < |a| => (a[i] + b[i]) % 3)
  }

  function KScale(n: int, a: Poly): (r: Poly)
    ensures |r| == |a|
  {
    seq(|a|, i requires 0 <= i < |a| => (n * a[i]) % 3)
  }

  function KSub(a: Poly, b: Poly): (r: Poly)
    requires |a| == |b|
    ensures |r| == |a|
  {
    KAdd(a, KScale(-1, b))
  }

  function KNeg(a: Poly): (r: Poly)
    ensures |r| == |a|
  {
    KScale(-1, a)
  }

  function KZero(F: Field): Poly
  {
    Zeros(F.m)
  }

  function KOne(F: Field): (r: Poly)
    ensures |r| == F.m
  {
    seq(F.m, i => if i == 0 then 1 else 0)
  }

  function KMulX(F: Field, a: Poly): (r: Poly)
    requires |a| == F.m > 0
    ensures |r| == F.m
  {
    seq(F.m, i requires 0 <= i < F.m =>
      ((if i == 0 then 0 else a[i - 1]) - a[F.m - 1] * (if i == 0 then 2 else if i == F.t then 1 else 0)) % 3)
  }

  // Digit by digit, as the words are multiplied.
  function KMul(F: Field, a: Poly, b: Poly): (r: Poly)
    requires |a| == F.m > 0
    ensures |r| == F.m
    decreases |b|
  {
    if b == [] then Zeros(F.m) else KAdd(KScale(b[0], a), KMul(F, KMulX(F, a), b[1..]))
  }

  function KCube(F: Field, a: Poly): (r: Poly)
    requires |a| == F.m > 0
    ensures |r| == F.m
  {
    KMul(F, a, KMul(F, a, a))
  }

  lemma {:induction false} RepEqual(F: Field, v: Poly, L: Poly, w: Poly, N: Poly)
    requires Good(F) && Rep(F, v, L) && Rep(F, w, N) && forall X :: Ev(L, X) == Ev(N, X)
    ensures v == w
  {
    CongSame(3, Modulus(F), L, N);
    RepCong(F, v, L, w, N);
  }

  lemma {:induction false} RepCong(F: Field, v: Poly, L: Poly, w: Poly, N: Poly)
    requires Good(F) && Rep(F, v, L) && Rep(F, w, N) && Cong(3, Modulus(F), L, N)
    ensures v == w
  {
    hide Cong, Ev;
    CongSym(3, Modulus(F), w, N);
    CongTrans(3, Modulus(F), v, L, N);
    CongTrans(3, Modulus(F), v, N, w);
    RemainderUnique(3, Modulus(F), v, w);
    ReducedEqual(3, v, w);
  }

  lemma {:induction false} RepSelf(F: Field, v: Poly)
    requires InK(F, v)
    ensures Rep(F, v, v)
  {
    CongSame(3, Modulus(F), v, v);
  }

  lemma {:induction false} RepAdd(F: Field, a: Poly, L: Poly, b: Poly, N: Poly)
    requires Rep(F, a, L) && Rep(F, b, N)
    ensures Rep(F, KAdd(a, b), PAdd(L, N))
  {
    hide Cong, Ev;
    var M := Modulus(F);
    forall i: nat ensures Coef(KAdd(a, b), i) % 3 == Coef(PAdd(a, b), i) % 3 { }
    CoefCongIsCong(3, M, KAdd(a, b), PAdd(a, b));
    AddDiff(a, L, b, N);
    CongFrom(3, M, [1], a, L, [1], b, N, PAdd(a, b), PAdd(L, N));
    CongTrans(3, M, KAdd(a, b), PAdd(a, b), PAdd(L, N));
  }

  lemma {:induction false} AddDiff(a: Poly, L: Poly, b: Poly, N: Poly)
    ensures Diff([1], a, L, [1], b, N, PAdd(a, b), PAdd(L, N))
  {
    hide Ev, PAdd;
    forall X ensures Ev(PAdd(a, b), X) - Ev(PAdd(L, N), X) == Ev([1], X) * (Ev(a, X) - Ev(L, X)) + Ev([1], X) * (Ev(b, X) - Ev(N, X)) {
      EvAdd(a, b, X);
      EvAdd(L, N, X);
      EvConst(1, X);
    }
  }

  lemma {:induction false} RepScale(F: Field, n: int, a: Poly, L: Poly)
    requires Rep(F, a, L)
    ensures Rep(F, KScale(n, a), PScale(n, L))
  {
    hide Cong, Ev;
    var M := Modulus(F);
    forall i: nat ensures Coef(KScale(n, a), i) % 3 == Coef(PScale(n, a), i) % 3 { }
    CoefCongIsCong(3, M, KScale(n, a), PScale(n, a));
    ScaleDiff(n, a, L);
    CongSame(3, M, a, a);
    CongFrom(3, M, [n], a, L, [1], a, a, PScale(n, a), PScale(n, L));
    CongTrans(3, M, KScale(n, a), PScale(n, a), PScale(n, L));
  }

  lemma {:induction false} ScaleDiff(n: int, a: Poly, L: Poly)
    ensures Diff([n], a, L, [1], a, a, PScale(n, a), PScale(n, L))
  {
    hide Ev, PScale;
    forall X ensures Ev(PScale(n, a), X) - Ev(PScale(n, L), X) == Ev([n], X) * (Ev(a, X) - Ev(L, X)) + Ev([1], X) * (Ev(a, X) - Ev(a, X)) {
      EvScale(n, a, X);
      EvScale(n, L, X);
      EvConst(n, X);
      EvConst(1, X);
      Distribute(n, Ev(a, X), 0 - Ev(L, X));
      assert n * (0 - Ev(L, X)) == 0 - n * Ev(L, X);
    }
  }

  lemma {:induction false} RepSub(F: Field, a: Poly, L: Poly, b: Poly, N: Poly)
    requires Rep(F, a, L) && Rep(F, b, N)
    ensures Rep(F, KSub(a, b), PSub(L, N))
  {
    hide Cong;
    RepScale(F, -1, b, N);
    RepAdd(F, a, L, KScale(-1, b), PScale(-1, N));
  }

  lemma {:induction false} MulXRep(F: Field, a: Poly)
    requires Good(F) && InK(F, a)
    ensures InK(F, KMulX(F, a)) && Cong(3, Modulus(F), KMulX(F, a), PShift(1, a))
  {
    hide Cong;
    var d, e, M, v := PShift(1, a), KMulX(F, a), Modulus(F), a[F.m - 1];
    assert PShift(0, M) == M;
    forall i: nat ensures Coef(e, i) % 3 == Coef(PSub(d, PScale(v, M)), i) % 3 {
      if i <= F.m { MulXCoef(F, a, i); }
    }
    SubtractMultiple(d, e, M, v, 0, F.m, F.t);
  }

  lemma {:induction false} MulXCoef(F: Field, a: Poly, i: nat)
    requires Good(F) && |a| == F.m && i <= F.m
    ensures Coef(KMulX(F, a), i) % 3 == Coef(PSub(PShift(1, a), PScale(a[F.m - 1], Modulus(F))), i) % 3
  {
    var M, v := Modulus(F), a[F.m - 1];
    var prev := if i == 0 then 0 else a[i - 1];
    DifferenceAt(PShift(1, a), M, v, i);
    assert Coef(PShift(1, a), i) == prev;
    if i < F.m {
      assert Coef(KMulX(F, a), i) == (prev - v * M[i]) % 3;
      hide *;
      ModMod(prev - v * M[i], 3);
    } else {
      TimesOneIs(v);
    }
  }

  lemma DifferenceAt(d: Poly, M: Poly, v: int, i: nat)
    requires i < |M|
    ensures Coef(PSub(d, PScale(v, M)), i) == Coef(d, i) - v * M[i]
  {
  }

  lemma TimesOneIs(v: int)
    ensures v * 1 == v
  {
  }

  lemma {:induction false} KMulRep(F: Field, a: Poly, b: Poly)
    requires Good(F) && InK(F, a)
    ensures InK(F, KMul(F, a, b)) && Cong(3, Modulus(F), KMul(F, a, b), PMul(a, b))
    decreases |b|
  {
    var M := Modulus(F);
    if b == [] {
      forall X ensures Ev(Zeros(F.m), X) == Ev(PMul(a, b), X) {
        ZerosVanish(Zeros(F.m), X);
        EvMul(a, b, X);
        assert Ev(a, X) * 0 == 0;
      }
      CongSame(3, M, Zeros(F.m), PMul(a, b));
    } else {
      hide Cong, Ev, PMul;
      var x, c := KMulX(F, a), b[1..];
      MulXRep(F, a);
      KMulRep(F, x, c);
      RepSelf(F, a);
      RepScale(F, b[0], a, a);
      RepSelf(F, KMul(F, x, c));
      RepAdd(F, KScale(b[0], a), PScale(b[0], a), KMul(F, x, c), KMul(F, x, c));
      var u := PAdd(PScale(b[0], a), KMul(F, x, c));
      KMulDiff(a, b, x, KMul(F, x, c));
      CongFrom(3, M, [1], KMul(F, x, c), PMul(x, c), c, x, PShift(1, a), u, PMul(a, b));
      CongTrans(3, M, KMul(F, a, b), u, PMul(a, b));
    }
  }

  lemma {:induction false} KMulDiff(a: Poly, b: Poly, x: Poly, w: Poly)
    requires b != []
    ensures Diff([1], w, PMul(x, b[1..]), b[1..], x, PShift(1, a), PAdd(PScale(b[0], a), w), PMul(a, b))
  {
    hide Ev, PMul, PAdd, PScale, PShift;
    var c, u := b[1..], PAdd(PScale(b[0], a), w);
    forall X ensures Ev(u, X) - Ev(PMul(a, b), X) == Ev([1], X) * (Ev(w, X) - Ev(PMul(x, c), X)) + Ev(c, X) * (Ev(x, X) - Ev(PShift(1, a), X)) {
      EvAdd(PScale(b[0], a), w, X);
      EvScale(b[0], a, X);
      EvMul(a, b, X);
      EvMul(x, c, X);
      EvShift(1, a, X);
      EvConst(1, X);
      EvUnfold(b, X);
      PowOne(X);
      KMulPoly(X, Ev(a, X), b[0], Ev(c, X), Ev(x, X), Ev(w, X));
    }
  }

  lemma PowOne(X: int)
    ensures Pow(X, 1) == X
  {
    assert Pow(X, 1) == X * Pow(X, 0);
  }

  lemma KMulPoly(X: int, a: int, b0: int, c: int, x: int, w: int)
    ensures b0 * a + w - a * (b0 + X * c) == 1 * (w - x * c) + c * (x - X * a)
  {
  }

  lemma {:induction false} RepMul(F: Field, a: Poly, L: Poly, b: Poly, N: Poly)
    requires Good(F) && Rep(F, a, L) && Rep(F, b, N)
    ensures Rep(F, KMul(F, a, b), PMul(L, N))
  {
    hide Cong, Ev, PMul;
    var M := Modulus(F);
    KMulRep(F, a, b);
    MulDiff(a, L, b, N);
    CongFrom(3, M, b, a, L, L, b, N, PMul(a, b), PMul(L, N));
    CongTrans(3, M, KMul(F, a, b), PMul(a, b), PMul(L, N));
  }

  lemma {:induction false} MulDiff(a: Poly, L: Poly, b: Poly, N: Poly)
    ensures Diff(b, a, L, L, b, N, PMul(a, b), PMul(L, N))
  {
    hide Ev, PMul;
    forall X ensures Ev(PMul(a, b), X) - Ev(PMul(L, N), X) == Ev(b, X) * (Ev(a, X) - Ev(L, X)) + Ev(L, X) * (Ev(b, X) - Ev(N, X)) {
      EvMul(a, b, X);
      EvMul(L, N, X);
      MulDiffPoly(Ev(a, X), Ev(L, X), Ev(b, X), Ev(N, X));
    }
  }

  lemma MulDiffPoly(a: int, l: int, b: int, n: int)
    ensures a * b - l * n == b * (a - l) + l * (b - n)
  {
  }

  // The cube is the value at x^3.
  lemma {:induction false} RepCube(F: Field, a: Poly, L: Poly)
    requires Good(F) && Rep(F, a, L)
    ensures Rep(F, KCube(F, a), Spread(L))
  {
    hide Cong, Ev, PMul, Spread;
    var M := Modulus(F);
    RepMul(F, a, L, a, L);
    RepMul(F, a, L, KMul(F, a, a), PMul(L, L));
    CubeIsSpread(L);
    CongWeaken(3, M, PMul(L, PMul(L, L)), Spread(L));
    CongTrans(3, M, KCube(F, a), PMul(L, PMul(L, L)), Spread(L));
  }

  lemma {:induction false} EvSpreadIs(L: Poly, X: int)
    ensures Ev(Spread(L), X) == Ev(L, X * X * X)
  {
    if L != [] {
      EvSpreadIs(L[1..], X);
      EvSpread(L, X);
      CubeThree(X);
    }
  }

  // ---------------------------------------------------------------- the words behind the digits

  // The field element that words denote.
  ghost function Denoted(s: seq<TernaryWords.Word>, len: nat, m: nat): Poly
    requires |s| == 2 * len && m <= 64 * len
  {
    TernaryElements.Digits(s, len)[..m]
  }

  lemma {:induction false} DenotedRep(F: Field, s: seq<TernaryWords.Word>, len: nat, L: Poly)
    requires Good(F) && Elt(s, len, F.m) && Cong(3, Modulus(F), TernaryElements.Digits(s, len), L)
    ensures Rep(F, Denoted(s, len, F.m), L)
  {
    hide Cong, Ev, TernaryElements.Digit;
    var f := TernaryElements.Digits(s, len);
    var d := Denoted(s, len, F.m);
    assert SameCoefs(d, f);
    forall X ensures Ev(d, X) == Ev(f, X) { SameCoefsSameValues(d, f, X); }
    CongSame(3, Modulus(F), d, f);
    CongTrans(3, Modulus(F), d, f, L);
  }

  // The word product denotes the product, the word cube the cube.
  lemma {:induction false} WordsMultiply(F: Field, e: seq<TernaryWords.Word>, a: seq<TernaryWords.Word>, b: seq<TernaryWords.Word>, len: nat)
    requires Good(F) && Elt(e, len, F.m) && Elt(a, len, F.m) && Elt(b, len, F.m)
    requires IsProduct(TernaryElements.Digits(e, len), TernaryElements.Digits(a, len), TernaryElements.Digits(b, len), F.m, F.t)
    ensures Denoted(e, len, F.m) == KMul(F, Denoted(a, len, F.m), Denoted(b, len, F.m))
  {
    hide Cong, Ev, TernaryElements.Digit, TernaryElements.Digits, Denoted, KMul, PMul, Trinomial;
    var A, B := TernaryElements.Digits(a, len), TernaryElements.Digits(b, len);
    CongSame(3, Modulus(F), A, A);
    CongSame(3, Modulus(F), B, B);
    DenotedRep(F, a, len, A);
    DenotedRep(F, b, len, B);
    DenotedRep(F, e, len, PMul(A, B));
    RepMul(F, Denoted(a, len, F.m), A, Denoted(b, len, F.m), B);
    RepEqual(F, Denoted(e, len, F.m), PMul(A, B), KMul(F, Denoted(a, len, F.m), Denoted(b, len, F.m)), PMul(A, B));
  }

  lemma {:induction false} WordsCube(F: Field, e: seq<TernaryWords.Word>, a: seq<TernaryWords.Word>, len: nat)
    requires Good(F) && Elt(e, len, F.m) && Elt(a, len, F.m)
    requires IsCube(TernaryElements.Digits(e, len), TernaryElements.Digits(a, len), F.m, F.t)
    ensures Denoted(e, len, F.m) == KCube(F, Denoted(a, len, F.m))
  {
    hide Cong, Ev, TernaryElements.Digit, TernaryElements.Digits, Denoted, KMul, PMul, Trinomial, Spread;
    var A := TernaryElements.Digits(a, len);
    CongSame(3, Modulus(F), A, A);
    DenotedRep(F, a, len, A);
    CubeIsSpread(A);
    CongWeaken(3, Modulus(F), PMul(A, PMul(A, A)), Spread(A));
    CongTrans(3, Modulus(F), TernaryElements.Digits(e, len), PMul(A, PMul(A, A)), Spread(A));
    DenotedRep(F, e, len, Spread(A));
    RepCube(F, Denoted(a, len, F.m), A);
    RepEqual(F, Denoted(e, len, F.m), Spread(A), KCube(F, Denoted(a, len, F.m)), Spread(A));
  }

  // ---------------------------------------------------------------- integers with s^2 = -1

  datatype Z2 = Z2(re: int, im: int)

  function ZAdd(u: Z2, v: Z2): Z2 { Z2(u.re + v.re, u.im + v.im) }
  function ZSub(u: Z2, v: Z2): Z2 { Z2(u.re - v.re, u.im - v.im) }
  function ZMul(u: Z2, v: Z2): Z2 { Z2(u.re * v.re - u.im * v.im, u.re * v.im + u.im * v.re) }
  function ZConj(u: Z2): Z2 { Z2(u.re, 0 - u.im) }

  lemma ZMulAssociates(u: Z2, v: Z2, w: Z2)
    ensures ZMul(ZMul(u, v), w) == ZMul(u, ZMul(v, w))
  {
    ZReal(u.re, u.im, v.re, v.im, w.re, w.im);
    ZImaginary(u.re, u.im, v.re, v.im, w.re, w.im);
  }

  lemma ZReal(a: int, b: int, c: int, d: int, e: int, f: int)
    ensures (a * c - b * d) * e - (a * d + b * c) * f == a * (c * e - d * f) - b * (c * f + d * e)
  {
  }

  lemma ZImaginary(a: int, b: int, c: int, d: int, e: int, f: int)
    ensures (a * c - b * d) * f + (a * d + b * c) * e == a * (c * f + d * e) + b * (c * e - d * f)
  {
  }

  lemma ZMulCommutes(u: Z2, v: Z2)
    ensures ZMul(u, v) == ZMul(v, u)
  {
  }

  lemma {:induction false} ZDistributes(u: Z2, v: Z2, w: Z2)
    ensures ZMul(u, ZAdd(v, w)) == ZAdd(ZMul(u, v), ZMul(u, w)) && ZMul(ZAdd(v, w), u) == ZAdd(ZMul(v, u), ZMul(w, u))
    ensures ZMul(u, ZSub(v, w)) == ZSub(ZMul(u, v), ZMul(u, w)) && ZMul(ZSub(v, w), u) == ZSub(ZMul(v, u), ZMul(w, u))
  {
    hide *;
    ZLeftSum(u, v, w);
    ZRightSum(u, v, w);
    ZLeftDifference(u, v, w);
    ZRightDifference(u, v, w);
  }

  lemma ZLeftSum(u: Z2, v: Z2, w: Z2)
    ensures ZMul(u, ZAdd(v, w)) == ZAdd(ZMul(u, v), ZMul(u, w))
  {
  }

  lemma ZRightSum(u: Z2, v: Z2, w: Z2)
    ensures ZMul(ZAdd(v, w), u) == ZAdd(ZMul(v, u), ZMul(w, u))
  {
  }

  lemma ZLeftDifference(u: Z2, v: Z2, w: Z2)
    ensures ZMul(u, ZSub(v, w)) == ZSub(ZMul(u, v), ZMul(u, w))
  {
  }

  lemma ZRightDifference(u: Z2, v: Z2, w: Z2)
    ensures ZMul(ZSub(v, w), u) == ZSub(ZMul(v, u), ZMul(w, u))
  {
  }

  lemma ZConjMul(u: Z2, v: Z2)
    ensures ZConj(ZMul(u, v)) == ZMul(ZConj(u), ZConj(v))
  {
  }

  // Karatsuba for pairs.
  lemma ZKaratsuba(a: int, b: int, c: int, d: int)
    ensures (b + a) * (d + c) - b * d - a * c == a * d + b * c
  {
  }

  // ---------------------------------------------------------------- GF(3^2m)

  datatype K2 = K2(x0: Poly, x1: Poly)

  ghost predicate InK2(F: Field, a: K2)
  {
    InK(F, a.x0) && InK(F, a.x1)
  }

  predicate Sized2(F: Field, a: K2)
  {
    |a.x0| == F.m > 0 && |a.x1| == F.m
  }

  ghost function Ev2(L: K2, X: int): Z2
  {
    Z2(Ev(L.x0, X), Ev(L.x1, X))
  }

  // a represents the pair of polynomials L.
  ghost predicate Rep2(F: Field, a: K2, L: K2)
  {
    Rep(F, a.x0, L.x0) && Rep(F, a.x1, L.x1)
  }

  function Gf32mAdd(F: Field, a: K2, b: K2): (c: K2)
    requires Sized2(F, a) && Sized2(F, b)
    ensures Sized2(F, c)
  {
    K2(KAdd(a.x0, b.x0), KAdd(a.x1, b.x1))
  }

  function Gf32mSub(F: Field, a: K2, b: K2): (c: K2)
    requires Sized2(F, a) && Sized2(F, b)
    ensures Sized2(F, c)
  {
    K2(KSub(a.x0, b.x0), KSub(a.x1, b.x1))
  }

  // Karatsuba multiplication with s^2 = -1.
  function Gf32mMult(F: Field, a: K2, b: K2): (e: K2)
    requires Sized2(F, a) && Sized2(F, b)
    ensures Sized2(F, e)
  {
    var a0b0 := KMul(F, a.x0, b.x0);
    var a1b1 := KMul(F, a.x1, b.x1);
    var t0 := KAdd(a.x1, a.x0);
    var t1 := KAdd(b.x1, b.x0);
    var c1 := KMul(F, t0, t1);
    K2(KSub(a0b0, a1b1), KSub(KSub(c1, a1b1), a0b0))
  }

  function Gf32mCubic(F: Field, a: K2): (e: K2)
    requires Sized2(F, a)
    ensures Sized2(F, e)
  {
    var c0 := KCube(F, a.x0);
    var c1 := KCube(F, a.x1);
    K2(c0, KNeg(c1))
  }

  // The same on pairs of polynomials.
  ghost function LAdd(L: K2, N: K2): K2 { K2(PAdd(L.x0, N.x0), PAdd(L.x1, N.x1)) }
  ghost function LSub(L: K2, N: K2): K2 { K2(PSub(L.x0, N.x0), PSub(L.x1, N.x1)) }
  ghost function LMul(L: K2, N: K2): K2
  {
    K2(PSub(PMul(L.x0, N.x0), PMul(L.x1, N.x1)), PAdd(PMul(L.x0, N.x1), PMul(L.x1, N.x0)))
  }
  ghost function LCube(L: K2): K2 { K2(Spread(L.x0), PScale(-1, Spread(L.x1))) }

  lemma {:induction false} EvL(L: K2, N: K2, X: int)
    ensures Ev2(LAdd(L, N), X) == ZAdd(Ev2(L, X), Ev2(N, X)) && Ev2(LSub(L, N), X) == ZSub(Ev2(L, X), Ev2(N, X))
    ensures Ev2(LMul(L, N), X) == ZMul(Ev2(L, X), Ev2(N, X))
  {
    hide Ev, PAdd, PSub, PMul;
    EvAdd(L.x0, N.x0, X);
    EvAdd(L.x1, N.x1, X);
    EvSub(L.x0, N.x0, X);
    EvSub(L.x1, N.x1, X);
    EvSub(PMul(L.x0, N.x0), PMul(L.x1, N.x1), X);
    EvAdd(PMul(L.x0, N.x1), PMul(L.x1, N.x0), X);
    EvMul(L.x0, N.x0, X);
    EvMul(L.x1, N.x1, X);
    EvMul(L.x0, N.x1, X);
    EvMul(L.x1, N.x0, X);
  }

  lemma {:induction false} EvLCube(L: K2, X: int)
    ensures Ev2(LCube(L), X) == ZConj(Ev2(L, X * X * X))
  {
    hide Ev, Spread, PScale;
    EvSpreadIs(L.x0, X);
    EvSpreadIs(L.x1, X);
    EvScale(-1, Spread(L.x1), X);
  }

  lemma {:induction false} Rep2Equal(F: Field, a: K2, L: K2, b: K2, N: K2)
    requires Good(F) && Rep2(F, a, L) && Rep2(F, b, N) && forall X :: Ev2(L, X) == Ev2(N, X)
    ensures a == b
  {
    hide Ev, Cong;
    forall X ensures Ev(L.x0, X) == Ev(N.x0, X) && Ev(L.x1, X) == Ev(N.x1, X) { assert Ev2(L, X) == Ev2(N, X); }
    RepEqual(F, a.x0, L.x0, b.x0, N.x0);
    RepEqual(F, a.x1, L.x1, b.x1, N.x1);
  }

  lemma {:induction false} RepChange(F: Field, a: Poly, L: Poly, N: Poly)
    requires Rep(F, a, L) && forall X :: Ev(L, X) == Ev(N, X)
    ensures Rep(F, a, N)
  {
    hide Cong;
    CongSame(3, Modulus(F), L, N);
    CongTrans(3, Modulus(F), a, L, N);
  }

  lemma {:induction false} Rep2Change(F: Field, a: K2, L: K2, N: K2)
    requires Rep2(F, a, L) && forall X :: Ev2(L, X) == Ev2(N, X)
    ensures Rep2(F, a, N)
  {
    hide Ev, Cong, Rep;
    forall X ensures Ev(L.x0, X) == Ev(N.x0, X) && Ev(L.x1, X) == Ev(N.x1, X) { assert Ev2(L, X) == Ev2(N, X); }
    RepChange(F, a.x0, L.x0, N.x0);
    RepChange(F, a.x1, L.x1, N.x1);
  }

  lemma {:induction false} Rep2Sum(F: Field, a: K2, L: K2, b: K2, N: K2)
    requires Good(F) && Rep2(F, a, L) && Rep2(F, b, N)
    ensures Sized2(F, a) && Sized2(F, b) && Rep2(F, Gf32mAdd(F, a, b), LAdd(L, N)) && Rep2(F, Gf32mSub(F, a, b), LSub(L, N))
  {
    RepAdd(F, a.x0, L.x0, b.x0, N.x0);
    RepAdd(F, a.x1, L.x1, b.x1, N.x1);
    RepSub(F, a.x0, L.x0, b.x0, N.x0);
    RepSub(F, a.x1, L.x1, b.x1, N.x1);
    hide Cong, KAdd, KSub, PAdd, PSub;
  }

  // The Karatsuba product represents the product.
  lemma {:induction false} Rep2Product(F: Field, a: K2, L: K2, b: K2, N: K2)
    requires Good(F) && Rep2(F, a, L) && Rep2(F, b, N)
    ensures Sized2(F, a) && Sized2(F, b) && Rep2(F, Gf32mMult(F, a, b), LMul(L, N))
  {
    hide Cong, KAdd, KSub, KMul, PAdd, PSub, PMul, Ev;
    var p0, p1 := PMul(L.x0, N.x0), PMul(L.x1, N.x1);
    RepMul(F, a.x0, L.x0, b.x0, N.x0);
    RepMul(F, a.x1, L.x1, b.x1, N.x1);
    RepAdd(F, a.x1, L.x1, a.x0, L.x0);
    RepAdd(F, b.x1, N.x1, b.x0, N.x0);
    RepMul(F, KAdd(a.x1, a.x0), PAdd(L.x1, L.x0), KAdd(b.x1, b.x0), PAdd(N.x1, N.x0));
    var q := PMul(PAdd(L.x1, L.x0), PAdd(N.x1, N.x0));
    RepSub(F, KMul(F, a.x0, b.x0), p0, KMul(F, a.x1, b.x1), p1);
    RepSub(F, KMul(F, KAdd(a.x1, a.x0), KAdd(b.x1, b.x0)), q, KMul(F, a.x1, b.x1), p1);
    RepSub(F, KSub(KMul(F, KAdd(a.x1, a.x0), KAdd(b.x1, b.x0)), KMul(F, a.x1, b.x1)), PSub(q, p1), KMul(F, a.x0, b.x0), p0);
    forall X ensures Ev(PSub(PSub(q, p1), p0), X) == Ev(LMul(L, N).x1, X) {
      EvSub(PSub(q, p1), p0, X);
      EvSub(q, p1, X);
      EvMul(PAdd(L.x1, L.x0), PAdd(N.x1, N.x0), X);
      EvAdd(L.x1, L.x0, X);
      EvAdd(N.x1, N.x0, X);
      EvMul(L.x0, N.x0, X);
      EvMul(L.x1, N.x1, X);
      EvAdd(PMul(L.x0, N.x1), PMul(L.x1, N.x0), X);
      EvMul(L.x0, N.x1, X);
      EvMul(L.x1, N.x0, X);
      ZKaratsuba(Ev(L.x0, X), Ev(L.x1, X), Ev(N.x0, X), Ev(N.x1, X));
    }
    RepChange(F, Gf32mMult(F, a, b).x1, PSub(PSub(q, p1), p0), LMul(L, N).x1);
  }

  lemma {:induction false} Rep2Cubic(F: Field, a: K2, L: K2)
    requires Good(F) && Rep2(F, a, L)
    ensures Sized2(F, a) && Rep2(F, Gf32mCubic(F, a), LCube(L))
  {
    hide Cong, KCube, KScale, Spread, PScale;
    RepCube(F, a.x0, L.x0);
    RepCube(F, a.x1, L.x1);
    RepScale(F, -1, KCube(F, a.x1), Spread(L.x1));
  }

  // ---------------------------------------------------------------- GF(3^6m)

  datatype K6 = K6(a0: K2, a1: K2, a2: K2)

  predicate Sized6(F: Field, a: K6)
  {
    Sized2(F, a.a0) && Sized2(F, a.a1) && Sized2(F, a.a2)
  }

  ghost predicate InK6(F: Field, a: K6)
  {
    InK2(F, a.a0) && InK2(F, a.a1) && InK2(F, a.a2)
  }

  ghost predicate Rep6(F: Field, a: K6, L: K6)
  {
    Rep2(F, a.a0, L.a0) && Rep2(F, a.a1, L.a1) && Rep2(F, a.a2, L.a2)
  }

  // Multiplication with p^3 = p + 1 by six products of the field below.
  function Gf33mMult(F: Field, a: K6, b: K6): (e: K6)
    requires Sized6(F, a) && Sized6(F, b)
    ensures Sized6(F, e)
  {
    var a0b0 := Gf32mMult(F, a.a0, b.a0);
    var a1b1 := Gf32mMult(F, a.a1, b.a1);
    var a2b2 := Gf32mMult(F, a.a2, b.a2);
    var d1 := Gf32mSub(F, Gf32mSub(F, Gf32mMult(F, Gf32mAdd(F, a.a1, a.a0), Gf32mAdd(F, b.a1, b.a0)), a1b1), a0b0);
    var d2 := Gf32mSub(F, Gf32mSub(F, Gf32mAdd(F, Gf32mMult(F, Gf32mAdd(F, a.a2, a.a0), Gf32mAdd(F, b.a2, b.a0)), a1b1), a2b2), a0b0);
    var d3 := Gf32mSub(F, Gf32mSub(F, Gf32mMult(F, Gf32mAdd(F, a.a2, a.a1), Gf32mAdd(F, b.a2, b.a1)), a2b2), a1b1);
    K6(Gf32mAdd(F, a0b0, d3), Gf32mAdd(F, Gf32mAdd(F, d1, d3), a2b2), Gf32mAdd(F, d2, a2b2))
  }

  function Gf33mCubic(F: Field, a: K6): (e: K6)
    requires Sized6(F, a)
    ensures Sized6(F, e)
  {
    var a03 := Gf32mCubic(F, a.a0);
    var a13 := Gf32mCubic(F, a.a1);
    var a23 := Gf32mCubic(F, a.a2);
    K6(Gf32mAdd(F, Gf32mAdd(F, a03, a13), a23), Gf32mSub(F, a13, a23), a23)
  }

  // Triples of integers with s, and p^3 = p + 1.
  datatype Z6 = Z6(c0: Z2, c1: Z2, c2: Z2)

  function YMul(u: Z6, v: Z6): Z6
  {
    Z6(ZAdd(ZMul(u.c0, v.c0), ZAdd(ZMul(u.c1, v.c2), ZMul(u.c2, v.c1))),
       ZAdd(ZAdd(ZMul(u.c0, v.c1), ZMul(u.c1, v.c0)), ZAdd(ZAdd(ZMul(u.c1, v.c2), ZMul(u.c2, v.c1)), ZMul(u.c2, v.c2))),
       ZAdd(ZAdd(ZMul(u.c0, v.c2), ZMul(u.c1, v.c1)), ZAdd(ZMul(u.c2, v.c0), ZMul(u.c2, v.c2))))
  }

  function YAdd(u: Z6, v: Z6): Z6 { Z6(ZAdd(u.c0, v.c0), ZAdd(u.c1, v.c1), ZAdd(u.c2, v.c2)) }
  function YScale(k: Z2, u: Z6): Z6 { Z6(ZMul(k, u.c0), ZMul(k, u.c1), ZMul(k, u.c2)) }
  // p times u
  function YShift(u: Z6): Z6 { Z6(u.c2, ZAdd(u.c0, u.c2), u.c1) }

  lemma {:induction false} YMulByShifts(u: Z6, v: Z6)
    ensures YMul(u, v) == YAdd(YScale(u.c0, v), YAdd(YScale(u.c1, YShift(v)), YScale(u.c2, YShift(YShift(v)))))
  {
    ZDistributes(u.c1, v.c0, v.c2);
    ZDistributes(u.c2, v.c2, v.c1);
    ZDistributes(u.c2, v.c0, v.c2);
    hide ZMul;
  }

  lemma {:induction false} YScaleMul(k: Z2, u: Z6, v: Z6)
    ensures YMul(YScale(k, u), v) == YScale(k, YMul(u, v))
  {
    hide ZMul;
    ZMulAssociates(k, u.c0, v.c0);
    ZMulAssociates(k, u.c0, v.c1);
    ZMulAssociates(k, u.c0, v.c2);
    ZMulAssociates(k, u.c1, v.c0);
    ZMulAssociates(k, u.c1, v.c1);
    ZMulAssociates(k, u.c1, v.c2);
    ZMulAssociates(k, u.c2, v.c0);
    ZMulAssociates(k, u.c2, v.c1);
    ZMulAssociates(k, u.c2, v.c2);
    ZDistributes(k, ZMul(u.c1, v.c2), ZMul(u.c2, v.c1));
    ZDistributes(k, ZMul(u.c0, v.c0), ZAdd(ZMul(u.c1, v.c2), ZMul(u.c2, v.c1)));
    ZDistributes(k, ZMul(u.c0, v.c1), ZMul(u.c1, v.c0));
    ZDistributes(k, ZAdd(ZMul(u.c1, v.c2), ZMul(u.c2, v.c1)), ZMul(u.c2, v.c2));
    ZDistributes(k, ZAdd(ZMul(u.c0, v.c1), ZMul(u.c1, v.c0)), ZAdd(ZAdd(ZMul(u.c1, v.c2), ZMul(u.c2, v.c1)), ZMul(u.c2, v.c2)));
    ZDistributes(k, ZMul(u.c0, v.c2), ZMul(u.c1, v.c1));
    ZDistributes(k, ZMul(u.c2, v.c0), ZMul(u.c2, v.c2));
    ZDistributes(k, ZAdd(ZMul(u.c0, v.c2), ZMul(u.c1, v.c1)), ZAdd(ZMul(u.c2, v.c0), ZMul(u.c2, v.c2)));
  }

  lemma {:induction false} YShiftMul(u: Z6, v: Z6)
    ensures YMul(YShift(u), v) == YShift(YMul(u, v))
  {
    hide ZMul;
    ZDistributes(v.c0, u.c0, u.c2);
    ZDistributes(v.c1, u.c0, u.c2);
    ZDistributes(v.c2, u.c0, u.c2);
  }

  lemma {:induction false} YAddMul(u: Z6, u': Z6, v: Z6)
    ensures YMul(YAdd(u, u'), v) == YAdd(YMul(u, v), YMul(u', v))
  {
    hide ZMul;
    ZDistributes(v.c0, u.c0, u'.c0);
    ZDistributes(v.c0, u.c1, u'.c1);
    ZDistributes(v.c0, u.c2, u'.c2);
    ZDistributes(v.c1, u.c0, u'.c0);
    ZDistributes(v.c1, u.c1, u'.c1);
    ZDistributes(v.c1, u.c2, u'.c2);
    ZDistributes(v.c2, u.c0, u'.c0);
    ZDistributes(v.c2, u.c1, u'.c1);
    ZDistributes(v.c2, u.c2, u'.c2);
  }

  lemma {:induction false} YMulAssociates(u: Z6, v: Z6, w: Z6)
    ensures YMul(YMul(u, v), w) == YMul(u, YMul(v, w))
  {
    hide *;
    var s, ss := YShift(v), YShift(YShift(v));
    YMulByShifts(u, v);
    YMulByShifts(u, YMul(v, w));
    YAddMul(YScale(u.c0, v), YAdd(YScale(u.c1, s), YScale(u.c2, ss)), w);
    YAddMul(YScale(u.c1, s), YScale(u.c2, ss), w);
    YScaleMul(u.c0, v, w);
    YScaleMul(u.c1, s, w);
    YScaleMul(u.c2, ss, w);
    YShiftMul(v, w);
    YShiftMul(s, w);
  }

  // ---------------------------------------------------------------- the product of GF(3^6m)

  ghost function Ev6(L: K6, X: int): Z6
  {
    Z6(Ev2(L.a0, X), Ev2(L.a1, X), Ev2(L.a2, X))
  }

  // The product of triples of polynomials.
  ghost function TMul(L: K6, N: K6): K6
  {
    K6(LAdd(LMul(L.a0, N.a0), LAdd(LMul(L.a1, N.a2), LMul(L.a2, N.a1))),
       LAdd(LAdd(LMul(L.a0, N.a1), LMul(L.a1, N.a0)), LAdd(LAdd(LMul(L.a1, N.a2), LMul(L.a2, N.a1)), LMul(L.a2, N.a2))),
       LAdd(LAdd(LMul(L.a0, N.a2), LMul(L.a1, N.a1)), LAdd(LMul(L.a2, N.a0), LMul(L.a2, N.a2))))
  }

  lemma {:induction false} EvTMul(L: K6, N: K6, X: int)
    ensures Ev6(TMul(L, N), X) == YMul(Ev6(L, X), Ev6(N, X))
  {
    hide Ev2, LAdd, LMul, ZAdd, ZMul;
    var a, b, c, d, e, f, g, h, i := LMul(L.a0, N.a0), LMul(L.a1, N.a2), LMul(L.a2, N.a1), LMul(L.a0, N.a1), LMul(L.a1, N.a0), LMul(L.a2, N.a2), LMul(L.a0, N.a2), LMul(L.a1, N.a1), LMul(L.a2, N.a0);
    EvL(L.a0, N.a0, X);
    EvL(L.a1, N.a2, X);
    EvL(L.a2, N.a1, X);
    EvL(L.a0, N.a1, X);
    EvL(L.a1, N.a0, X);
    EvL(L.a2, N.a2, X);
    EvL(L.a0, N.a2, X);
    EvL(L.a1, N.a1, X);
    EvL(L.a2, N.a0, X);
    EvL(b, c, X);
    EvL(a, LAdd(b, c), X);
    EvL(d, e, X);
    EvL(LAdd(b, c), f, X);
    EvL(LAdd(d, e), LAdd(LAdd(b, c), f), X);
    EvL(g, h, X);
    EvL(i, f, X);
    EvL(LAdd(g, h), LAdd(i, f), X);
  }

  // (u + v)(u' + v') - v*v' - u*u'
  lemma {:induction false} ZMiddle(u: Z2, v: Z2, u': Z2, v': Z2)
    ensures ZSub(ZSub(ZMul(ZAdd(v, u), ZAdd(v', u')), ZMul(v, v')), ZMul(u, u')) == ZAdd(ZMul(u, v'), ZMul(v, u'))
  {
    hide ZMul;
    ZDistributes(ZAdd(v, u), v', u');
    ZDistributes(v', v, u);
    ZDistributes(u', v, u);
  }

  ghost function Cross(L: K2, L': K2, N: K2, N': K2): K2
  {
    LSub(LSub(LMul(LAdd(L', L), LAdd(N', N)), LMul(L', N')), LMul(L, N))
  }

  lemma {:induction false} EvCross(L: K2, L': K2, N: K2, N': K2, X: int)
    ensures Ev2(Cross(L, L', N, N'), X) == ZAdd(ZMul(Ev2(L, X), Ev2(N', X)), ZMul(Ev2(L', X), Ev2(N, X)))
  {
    hide Ev2, LAdd, LSub, LMul, ZAdd, ZSub, ZMul;
    EvL(L', L, X);
    EvL(N', N, X);
    EvL(LAdd(L', L), LAdd(N', N), X);
    EvL(L', N', X);
    EvL(L, N, X);
    EvL(LMul(LAdd(L', L), LAdd(N', N)), LMul(L', N'), X);
    EvL(LSub(LMul(LAdd(L', L), LAdd(N', N)), LMul(L', N')), LMul(L, N), X);
    ZMiddle(Ev2(L, X), Ev2(L', X), Ev2(N, X), Ev2(N', X));
  }

  function CrossTerm(F: Field, a: K2, a': K2, b: K2, b': K2): (c: K2)
    requires Sized2(F, a) && Sized2(F, a') && Sized2(F, b) && Sized2(F, b')
    ensures Sized2(F, c)
  {
    Gf32mSub(F, Gf32mSub(F, Gf32mMult(F, Gf32mAdd(F, a', a), Gf32mAdd(F, b', b)), Gf32mMult(F, a', b')), Gf32mMult(F, a, b))
  }

  lemma {:induction false} Rep2Cross(F: Field, a: K2, L: K2, a': K2, L': K2, b: K2, N: K2, b': K2, N': K2)
    requires Good(F) && Rep2(F, a, L) && Rep2(F, a', L') && Rep2(F, b, N) && Rep2(F, b', N')
    ensures Sized2(F, a) && Sized2(F, a') && Sized2(F, b) && Sized2(F, b') && Rep2(F, CrossTerm(F, a, a', b, b'), Cross(L, L', N, N'))
  {
    hide Rep2, Gf32mAdd, Gf32mSub, Gf32mMult, LAdd, LSub, LMul;
    Rep2Sum(F, a', L', a, L);
    Rep2Sum(F, b', N', b, N);
    Rep2Product(F, Gf32mAdd(F, a', a), LAdd(L', L), Gf32mAdd(F, b', b), LAdd(N', N));
    Rep2Product(F, a', L', b', N');
    Rep2Product(F, a, L, b, N);
    Rep2Sum(F, Gf32mMult(F, Gf32mAdd(F, a', a), Gf32mAdd(F, b', b)), LMul(LAdd(L', L), LAdd(N', N)), Gf32mMult(F, a', b'), LMul(L', N'));
    Rep2Sum(F, Gf32mSub(F, Gf32mMult(F, Gf32mAdd(F, a', a), Gf32mAdd(F, b', b)), Gf32mMult(F, a', b')), LSub(LMul(LAdd(L', L), LAdd(N', N)), LMul(L', N')),
      Gf32mMult(F, a, b), LMul(L, N));
  }

  // (u + v)(u' + v') + m - v*v' - u*u', the middle product with the square in between.
  ghost function CrossPlus(L: K2, L': K2, N: K2, N': K2, M: K2): K2
  {
    LSub(LSub(LAdd(LMul(LAdd(L', L), LAdd(N', N)), M), LMul(L', N')), LMul(L, N))
  }

  lemma {:induction false} EvCrossPlus(L: K2, L': K2, N: K2, N': K2, M: K2, X: int)
    ensures Ev2(CrossPlus(L, L', N, N', M), X) == ZAdd(ZAdd(ZMul(Ev2(L, X), Ev2(N', X)), ZMul(Ev2(L', X), Ev2(N, X))), Ev2(M, X))
  {
    hide Ev2, LAdd, LSub, LMul, ZMul;
    var q := LMul(LAdd(L', L), LAdd(N', N));
    EvL(L', L, X);
    EvL(N', N, X);
    EvL(LAdd(L', L), LAdd(N', N), X);
    EvL(L', N', X);
    EvL(L, N, X);
    EvL(q, M, X);
    EvL(LAdd(q, M), LMul(L', N'), X);
    EvL(LSub(LAdd(q, M), LMul(L', N')), LMul(L, N), X);
    ZMiddle(Ev2(L, X), Ev2(L', X), Ev2(N, X), Ev2(N', X));
  }

  function CrossPlusTerm(F: Field, a: K2, a': K2, b: K2, b': K2, m: K2): (c: K2)
    requires Sized2(F, a) && Sized2(F, a') && Sized2(F, b) && Sized2(F, b') && Sized2(F, m)
    ensures Sized2(F, c)
  {
    Gf32mSub(F, Gf32mSub(F, Gf32mAdd(F, Gf32mMult(F, Gf32mAdd(F, a', a), Gf32mAdd(F, b', b)), m), Gf32mMult(F, a', b')), Gf32mMult(F, a, b))
  }

  lemma {:induction false} Rep2CrossPlus(F: Field, a: K2, L: K2, a': K2, L': K2, b: K2, N: K2, b': K2, N': K2, m: K2, M: K2)
    requires Good(F) && Rep2(F, a, L) && Rep2(F, a', L') && Rep2(F, b, N) && Rep2(F, b', N') && Rep2(F, m, M)
    ensures Sized2(F, a) && Sized2(F, a') && Sized2(F, b) && Sized2(F, b') && Sized2(F, m)
    ensures Rep2(F, CrossPlusTerm(F, a, a', b, b', m), CrossPlus(L, L', N, N', M))
  {
    hide Rep2, Gf32mAdd, Gf32mSub, Gf32mMult, LAdd, LSub, LMul;
    Rep2Sum(F, a', L', a, L);
    Rep2Sum(F, b', N', b, N);
    var q, Q := Gf32mMult(F, Gf32mAdd(F, a', a), Gf32mAdd(F, b', b)), LMul(LAdd(L', L), LAdd(N', N));
    Rep2Product(F, Gf32mAdd(F, a', a), LAdd(L', L), Gf32mAdd(F, b', b), LAdd(N', N));
    Rep2Product(F, a', L', b', N');
    Rep2Product(F, a, L, b, N);
    Rep2Sum(F, q, Q, m, M);
    Rep2Sum(F, Gf32mAdd(F, q, m), LAdd(Q, M), Gf32mMult(F, a', b'), LMul(L', N'));
    Rep2Sum(F, Gf32mSub(F, Gf32mAdd(F, q, m), Gf32mMult(F, a', b')), LSub(LAdd(Q, M), LMul(L', N')), Gf32mMult(F, a, b), LMul(L, N));
  }

  // The product by six multiplications represents the product.
  lemma {:induction false} Rep6Product(F: Field, a: K6, L: K6, b: K6, N: K6)
    requires Good(F) && Rep6(F, a, L) && Rep6(F, b, N)
    ensures Sized6(F, a) && Sized6(F, b) && Rep6(F, Gf33mMult(F, a, b), TMul(L, N))
  {
    hide Rep2, Gf32mAdd, Gf32mSub, Gf32mMult, LAdd, LSub, LMul, Cross, CrossPlus;
    Rep2Product(F, a.a0, L.a0, b.a0, N.a0);
    Rep2Product(F, a.a1, L.a1, b.a1, N.a1);
    Rep2Product(F, a.a2, L.a2, b.a2, N.a2);
    var p0, p1, p2 := Gf32mMult(F, a.a0, b.a0), Gf32mMult(F, a.a1, b.a1), Gf32mMult(F, a.a2, b.a2);
    var P0, P1, P2 := LMul(L.a0, N.a0), LMul(L.a1, N.a1), LMul(L.a2, N.a2);
    var d1, D1 := CrossTerm(F, a.a0, a.a1, b.a0, b.a1), Cross(L.a0, L.a1, N.a0, N.a1);
    var d2, D2 := CrossMiddle(F, a, b), CrossPlus(L.a0, L.a2, N.a0, N.a2, P1);
    var d3, D3 := CrossTerm(F, a.a1, a.a2, b.a1, b.a2), Cross(L.a1, L.a2, N.a1, N.a2);
    Rep2Cross(F, a.a0, L.a0, a.a1, L.a1, b.a0, N.a0, b.a1, N.a1);
    Rep2CrossPlus(F, a.a0, L.a0, a.a2, L.a2, b.a0, N.a0, b.a2, N.a2, p1, P1);
    Rep2Cross(F, a.a1, L.a1, a.a2, L.a2, b.a1, N.a1, b.a2, N.a2);
    Rep2Sum(F, p0, P0, d3, D3);
    Rep2Sum(F, d1, D1, d3, D3);
    Rep2Sum(F, Gf32mAdd(F, d1, d3), LAdd(D1, D3), p2, P2);
    Rep2Sum(F, d2, D2, p2, P2);
    MultShape(F, a, b);
    var G := K6(LAdd(P0, D3), LAdd(LAdd(D1, D3), P2), LAdd(D2, P2));
    forall X ensures Ev2(G.a0, X) == Ev2(TMul(L, N).a0, X) && Ev2(G.a1, X) == Ev2(TMul(L, N).a1, X) && Ev2(G.a2, X) == Ev2(TMul(L, N).a2, X) {
      ProductValues(L, N, X);
    }
    Rep2Change(F, Gf33mMult(F, a, b).a0, G.a0, TMul(L, N).a0);
    Rep2Change(F, Gf33mMult(F, a, b).a1, G.a1, TMul(L, N).a1);
    Rep2Change(F, Gf33mMult(F, a, b).a2, G.a2, TMul(L, N).a2);
  }

  function CrossMiddle(F: Field, a: K6, b: K6): (c: K2)
    requires Sized6(F, a) && Sized6(F, b)
    ensures Sized2(F, c)
  {
    CrossPlusTerm(F, a.a0, a.a2, b.a0, b.a2, Gf32mMult(F, a.a1, b.a1))
  }

  lemma {:induction false} MultShape(F: Field, a: K6, b: K6)
    requires Sized6(F, a) && Sized6(F, b)
    ensures var p0, p2 := Gf32mMult(F, a.a0, b.a0), Gf32mMult(F, a.a2, b.a2);
            var d1, d2, d3 := CrossTerm(F, a.a0, a.a1, b.a0, b.a1), CrossMiddle(F, a, b), CrossTerm(F, a.a1, a.a2, b.a1, b.a2);
            Gf33mMult(F, a, b) == K6(Gf32mAdd(F, p0, d3), Gf32mAdd(F, Gf32mAdd(F, d1, d3), p2), Gf32mAdd(F, d2, p2))
  {
    hide Gf32mAdd, Gf32mSub, Gf32mMult;
  }

  lemma {:induction false} ProductValues(L: K6, N: K6, X: int)
    ensures var P0, P1, P2 := LMul(L.a0, N.a0), LMul(L.a1, N.a1), LMul(L.a2, N.a2);
            var D1, D2, D3 := Cross(L.a0, L.a1, N.a0, N.a1), CrossPlus(L.a0, L.a2, N.a0, N.a2, P1), Cross(L.a1, L.a2, N.a1, N.a2);
            && Ev2(LAdd(P0, D3), X) == Ev2(TMul(L, N).a0, X) && Ev2(LAdd(LAdd(D1, D3), P2), X) == Ev2(TMul(L, N).a1, X)
            && Ev2(LAdd(D2, P2), X) == Ev2(TMul(L, N).a2, X)
  {
    hide Ev2, LAdd, LSub, LMul, ZMul, Cross, CrossPlus, TMul;
    var P0, P1, P2 := LMul(L.a0, N.a0), LMul(L.a1, N.a1), LMul(L.a2, N.a2);
    var D1, D2, D3 := Cross(L.a0, L.a1, N.a0, N.a1), CrossPlus(L.a0, L.a2, N.a0, N.a2, P1), Cross(L.a1, L.a2, N.a1, N.a2);
    EvTMul(L, N, X);
    EvL(L.a0, N.a0, X);
    EvL(L.a1, N.a1, X);
    EvL(L.a2, N.a2, X);
    EvCross(L.a0, L.a1, N.a0, N.a1, X);
    EvCross(L.a1, L.a2, N.a1, N.a2, X);
    EvCrossPlus(L.a0, L.a2, N.a0, N.a2, P1, X);
    EvL(P0, D3, X);
    EvL(D1, D3, X);
    EvL(LAdd(D1, D3), P2, X);
    EvL(D2, P2, X);
  }

  lemma {:induction false} Rep6Self(F: Field, a: K6)
    requires InK6(F, a)
    ensures Rep6(F, a, a)
  {
    RepSelf(F, a.a0.x0);
    RepSelf(F, a.a0.x1);
    RepSelf(F, a.a1.x0);
    RepSelf(F, a.a1.x1);
    RepSelf(F, a.a2.x0);
    RepSelf(F, a.a2.x1);
    hide Cong;
  }

  lemma {:induction false} Rep6Equal(F: Field, a: K6, L: K6, b: K6, N: K6)
    requires Good(F) && Rep6(F, a, L) && Rep6(F, b, N) && forall X :: Ev6(L, X) == Ev6(N, X)
    ensures a == b
  {
    hide Ev2, Rep2;
    forall X ensures Ev2(L.a0, X) == Ev2(N.a0, X) && Ev2(L.a1, X) == Ev2(N.a1, X) && Ev2(L.a2, X) == Ev2(N.a2, X) { assert Ev6(L, X) == Ev6(N, X); }
    Rep2Equal(F, a.a0, L.a0, b.a0, N.a0);
    Rep2Equal(F, a.a1, L.a1, b.a1, N.a1);
    Rep2Equal(F, a.a2, L.a2, b.a2, N.a2);
  }

  lemma {:induction false} Rep6In(F: Field, a: K6, L: K6)
    requires Rep6(F, a, L)
    ensures InK6(F, a)
  {
    hide Cong;
  }

  // The product of GF(3^6m) is associative.
  lemma {:induction false} MultAssociates(F: Field, a: K6, b: K6, c: K6)
    requires Good(F) && InK6(F, a) && InK6(F, b) && InK6(F, c)
    ensures Sized6(F, a) && Sized6(F, b) && Sized6(F, c)
    ensures Gf33mMult(F, Gf33mMult(F, a, b), c) == Gf33mMult(F, a, Gf33mMult(F, b, c))
  {
    hide *;
    Rep6Self(F, a);
    Rep6Self(F, b);
    Rep6Self(F, c);
    Rep6Product(F, a, a, b, b);
    Rep6Product(F, b, b, c, c);
    Rep6Product(F, Gf33mMult(F, a, b), TMul(a, b), c, c);
    Rep6Product(F, a, a, Gf33mMult(F, b, c), TMul(b, c));
    forall X ensures Ev6(TMul(TMul(a, b), c), X) == Ev6(TMul(a, TMul(b, c)), X) {
      EvTMul(TMul(a, b), c, X);
      EvTMul(a, b, X);
      EvTMul(a, TMul(b, c), X);
      EvTMul(b, c, X);
      YMulAssociates(Ev6(a, X), Ev6(b, X), Ev6(c, X));
    }
    Rep6Equal(F, Gf33mMult(F, Gf33mMult(F, a, b), c), TMul(TMul(a, b), c), Gf33mMult(F, a, Gf33mMult(F, b, c)), TMul(a, TMul(b, c)));
  }

  // ---------------------------------------------------------------- cubing is a ring homomorphism

  ghost function TCub(L: K6): K6
  {
    K6(LAdd(LAdd(LCube(L.a0), LCube(L.a1)), LCube(L.a2)), LSub(LCube(L.a1), LCube(L.a2)), LCube(L.a2))
  }

  // p goes to p + 1 and, by conjugation before, s to -s.
  function YTau(u: Z6): Z6 { Z6(ZAdd(ZAdd(u.c0, u.c1), u.c2), ZSub(u.c1, u.c2), u.c2) }
  function YConj(u: Z6): Z6 { Z6(ZConj(u.c0), ZConj(u.c1), ZConj(u.c2)) }

  lemma {:induction false} EvTCub(L: K6, X: int)
    ensures Ev6(TCub(L), X) == YTau(YConj(Ev6(L, X * X * X)))
  {
    hide Ev2, LAdd, LSub, LCube, ZAdd, ZSub, ZConj;
    var a, b, c := LCube(L.a0), LCube(L.a1), LCube(L.a2);
    EvLCube(L.a0, X);
    EvLCube(L.a1, X);
    EvLCube(L.a2, X);
    EvL(a, b, X);
    EvL(LAdd(a, b), c, X);
    EvL(b, c, X);
  }

  lemma {:induction false} Rep6Cubic(F: Field, a: K6, L: K6)
    requires Good(F) && Rep6(F, a, L)
    ensures Sized6(F, a) && Rep6(F, Gf33mCubic(F, a), TCub(L))
  {
    hide Rep2, Gf32mAdd, Gf32mSub, Gf32mCubic, LAdd, LSub, LCube;
    Rep2Cubic(F, a.a0, L.a0);
    Rep2Cubic(F, a.a1, L.a1);
    Rep2Cubic(F, a.a2, L.a2);
    var x, y, z := Gf32mCubic(F, a.a0), Gf32mCubic(F, a.a1), Gf32mCubic(F, a.a2);
    var X, Y, Z := LCube(L.a0), LCube(L.a1), LCube(L.a2);
    Rep2Sum(F, x, X, y, Y);
    Rep2Sum(F, Gf32mAdd(F, x, y), LAdd(X, Y), z, Z);
    Rep2Sum(F, y, Y, z, Z);
  }

  lemma {:induction false} YConjMul(u: Z6, v: Z6)
    ensures YConj(YMul(u, v)) == YMul(YConj(u), YConj(v))
  {
    hide ZMul;
    ZConjMul(u.c0, v.c0);
    ZConjMul(u.c0, v.c1);
    ZConjMul(u.c0, v.c2);
    ZConjMul(u.c1, v.c0);
    ZConjMul(u.c1, v.c1);
    ZConjMul(u.c1, v.c2);
    ZConjMul(u.c2, v.c0);
    ZConjMul(u.c2, v.c1);
    ZConjMul(u.c2, v.c2);
  }

  // The substitution is multiplicative up to three times this.
  function YRest(u: Z6, v: Z6): Z6
  {
    Z6(ZMul(u.c2, v.c2), ZSub(ZMul(u.c2, v.c2), ZMul(u.c1, v.c1)), ZSub(Z2(0, 0), ZMul(u.c2, v.c2)))
  }

  function ZThree(u: Z2): Z2 { Z2(3 * u.re, 3 * u.im) }

  lemma {:induction false} YTauMul(u: Z6, v: Z6)
    ensures var q, r, w := YTau(YMul(u, v)), YMul(YTau(u), YTau(v)), YRest(u, v);
            q.c0 == ZAdd(r.c0, ZThree(w.c0)) && q.c1 == ZAdd(r.c1, ZThree(w.c1)) && q.c2 == ZAdd(r.c2, ZThree(w.c2))
  {
    hide ZMul;
    var a, b := ZAdd(ZAdd(u.c0, u.c1), u.c2), ZSub(u.c1, u.c2);
    var c, d := ZAdd(ZAdd(v.c0, v.c1), v.c2), ZSub(v.c1, v.c2);
    SumTimes(u.c0, u.c1, u.c2, c);
    TimesSum(u.c0, v.c0, v.c1, v.c2);
    TimesSum(u.c1, v.c0, v.c1, v.c2);
    TimesSum(u.c2, v.c0, v.c1, v.c2);
    SumTimes(u.c0, u.c1, u.c2, d);
    SumTimes(u.c0, u.c1, u.c2, v.c2);
    ZDistributes(u.c0, v.c1, v.c2);
    ZDistributes(u.c1, v.c1, v.c2);
    ZDistributes(u.c2, v.c1, v.c2);
    ZDistributes(v.c2, u.c1, u.c2);
    ZDistributes(c, u.c1, u.c2);
    ZDistributes(d, u.c1, u.c2);
  }

  lemma {:induction false} SumTimes(a: Z2, b: Z2, c: Z2, k: Z2)
    ensures ZMul(ZAdd(ZAdd(a, b), c), k) == ZAdd(ZAdd(ZMul(a, k), ZMul(b, k)), ZMul(c, k))
  {
    hide *;
    ZDistributes(k, ZAdd(a, b), c);
    ZDistributes(k, a, b);
  }

  lemma {:induction false} TimesSum(k: Z2, a: Z2, b: Z2, c: Z2)
    ensures ZMul(k, ZAdd(ZAdd(a, b), c)) == ZAdd(ZAdd(ZMul(k, a), ZMul(k, b)), ZMul(k, c))
  {
    hide *;
    ZDistributes(k, ZAdd(a, b), c);
    ZDistributes(k, a, b);
  }

  ghost function TRest(L: K6, N: K6): K6
  {
    var u, v := LMul(LCube(L.a1), LCube(N.a1)), LMul(LCube(L.a2), LCube(N.a2));
    K6(v, LSub(v, u), LSub(K2([], []), v))
  }

  lemma {:induction false} EvTRest(L: K6, N: K6, X: int)
    ensures Ev6(TRest(L, N), X) == YRest(YConj(Ev6(L, X * X * X)), YConj(Ev6(N, X * X * X)))
  {
    hide LMul, LSub, LCube, ZMul, ZSub, ZConj, Ev;
    var a, b, c, d := LCube(L.a1), LCube(N.a1), LCube(L.a2), LCube(N.a2);
    EvLCube(L.a1, X);
    EvLCube(N.a1, X);
    EvLCube(L.a2, X);
    EvLCube(N.a2, X);
    EvL(a, b, X);
    EvL(c, d, X);
    EvL(LMul(c, d), LMul(a, b), X);
    EvL(K2([], []), LMul(c, d), X);
    EvConst(0, X);
  }

  lemma {:induction false} CubicValues(L: K6, N: K6, X: int)
    ensures var q, r, w := Ev6(TCub(TMul(L, N)), X), Ev6(TMul(TCub(L), TCub(N)), X), Ev6(TRest(L, N), X);
            q.c0 == ZAdd(r.c0, ZThree(w.c0)) && q.c1 == ZAdd(r.c1, ZThree(w.c1)) && q.c2 == ZAdd(r.c2, ZThree(w.c2))
  {
    hide *;
    var Y := X * X * X;
    EvTCub(TMul(L, N), X);
    EvTMul(L, N, Y);
    YConjMul(Ev6(L, Y), Ev6(N, Y));
    EvTMul(TCub(L), TCub(N), X);
    EvTCub(L, X);
    EvTCub(N, X);
    EvTRest(L, N, X);
    YTauMul(YConj(Ev6(L, Y)), YConj(Ev6(N, Y)));
  }

  // Values that agree up to three times a polynomial.
  lemma {:induction false} RepThree(F: Field, a: Poly, L: Poly, b: Poly, N: Poly, W: Poly)
    requires Good(F) && Rep(F, a, L) && Rep(F, b, N) && forall X :: Ev(L, X) == Ev(N, X) + 3 * Ev(W, X)
    ensures a == b
  {
    hide Cong, Ev;
    WitIsCoefCong(3, L, N, W);
    CoefCongIsCong(3, Modulus(F), L, N);
    RepCong(F, a, L, b, N);
  }

  ghost predicate UpToThree(L: K2, N: K2, W: K2)
  {
    forall X :: Ev2(L, X) == ZAdd(Ev2(N, X), ZThree(Ev2(W, X)))
  }

  lemma {:induction false} Rep2Three(F: Field, a: K2, L: K2, b: K2, N: K2, W: K2)
    requires Good(F) && Rep2(F, a, L) && Rep2(F, b, N) && UpToThree(L, N, W)
    ensures a == b
  {
    hide Cong, Ev;
    forall X ensures Ev(L.x0, X) == Ev(N.x0, X) + 3 * Ev(W.x0, X) && Ev(L.x1, X) == Ev(N.x1, X) + 3 * Ev(W.x1, X) {
      assert Ev2(L, X) == ZAdd(Ev2(N, X), ZThree(Ev2(W, X)));
    }
    RepThree(F, a.x0, L.x0, b.x0, N.x0, W.x0);
    RepThree(F, a.x1, L.x1, b.x1, N.x1, W.x1);
  }

  // Cubing a product of GF(3^6m) is multiplying the cubes.
  lemma {:induction false} CubicMultiplies(F: Field, a: K6, b: K6)
    requires Good(F) && InK6(F, a) && InK6(F, b)
    ensures Sized6(F, a) && Sized6(F, b)
    ensures Gf33mCubic(F, Gf33mMult(F, a, b)) == Gf33mMult(F, Gf33mCubic(F, a), Gf33mCubic(F, b))
    ensures InK6(F, Gf33mCubic(F, a)) && InK6(F, Gf33mMult(F, a, b))
  {
    hide Rep2, Ev2, InK2, TCub, TMul, TRest, Gf33mCubic, Gf33mMult;
    Rep6Self(F, a);
    Rep6Self(F, b);
    Rep6Product(F, a, a, b, b);
    Rep6Cubic(F, a, a);
    Rep6Cubic(F, b, b);
    Rep6Cubic(F, Gf33mMult(F, a, b), TMul(a, b));
    Rep6Product(F, Gf33mCubic(F, a), TCub(a), Gf33mCubic(F, b), TCub(b));
    Rep6In(F, Gf33mCubic(F, a), TCub(a));
    Rep6In(F, Gf33mMult(F, a, b), TMul(a, b));
    var L, N, W := TCub(TMul(a, b)), TMul(TCub(a), TCub(b)), TRest(a, b);
    ThreeParts(a, b);
    var x, y := Gf33mCubic(F, Gf33mMult(F, a, b)), Gf33mMult(F, Gf33mCubic(F, a), Gf33mCubic(F, b));
    Rep2Three(F, x.a0, L.a0, y.a0, N.a0, W.a0);
    Rep2Three(F, x.a1, L.a1, y.a1, N.a1, W.a1);
    Rep2Three(F, x.a2, L.a2, y.a2, N.a2, W.a2);
  }

  lemma {:induction false} ThreeParts(a: K6, b: K6)
    ensures var L, N, W := TCub(TMul(a, b)), TMul(TCub(a), TCub(b)), TRest(a, b);
            UpToThree(L.a0, N.a0, W.a0) && UpToThree(L.a1, N.a1, W.a1) && UpToThree(L.a2, N.a2, W.a2)
  {
    hide Ev2, TCub, TMul, TRest, ZAdd, ZThree;
    var L, N, W := TCub(TMul(a, b)), TMul(TCub(a), TCub(b)), TRest(a, b);
    forall X ensures Ev2(L.a0, X) == ZAdd(Ev2(N.a0, X), ZThree(Ev2(W.a0, X))) && Ev2(L.a1, X) == ZAdd(Ev2(N.a1, X), ZThree(Ev2(W.a1, X)))
      && Ev2(L.a2, X) == ZAdd(Ev2(N.a2, X), ZThree(Ev2(W.a2, X))) {
      CubicValues(a, b, X);
    }
  }
}
