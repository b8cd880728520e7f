// The p-th power in F_p[s]/(s^2 - N) is conjugation, by the binomial theorem.
module Frobenius {
  import opened Arith
  import opened Fp
  import opened Residues
  import opened QuadraticField

  // ---------------------------------------------------------------- binomial coefficients

  function Choose(n: nat, k: int): nat
  {
    if k < 0 || k > n then 0 else if n == 0 then 1 else Choose(n - 1, k) + Choose(n - 1, k - 1)
  }

  lemma {:induction false} ChooseEnds(n: nat)
    ensures Choose(n, 0) == 1 && Choose(n, n) == 1
  {
    if n > 0 { ChooseEnds(n - 1); }
  }

  lemma {:induction false} Pascal(n: nat, k: int)
    ensures Choose(n + 1, k) == Choose(n, k) + Choose(n, k - 1)
  {
  }

  lemma {:induction false} ChooseTimes(n: nat, k: int)
    requires n > 0
    ensures k * Choose(n, k) == n * Choose(n - 1, k - 1)
  {
    hide Choose;
    Pascal(n - 1, k);
    if n == 1 {
      ChooseOne(k);
    } else {
      ChooseTimes(n - 1, k);
      ChooseTimes(n - 1, k - 1);
      Pascal(n - 2, k - 1);
      TimesPoly(n, k, Choose(n - 1, k), Choose(n - 1, k - 1), Choose(n - 2, k - 1), Choose(n - 2, k - 2));
    }
  }

  lemma ChooseOne(k: int)
    ensures k * Choose(1, k) == 1 * Choose(0, k - 1)
  {
  }

  lemma TimesPoly(n: int, k: int, u: int, v: int, s: int, t: int)
    requires k * u == (n - 1) * s && (k - 1) * v == (n - 1) * t && v == s + t
    ensures k * (u + v) == n * v
  {
  }

  // A prime divides the binomial coefficients in between.
  lemma {:induction false} PrimeDividesChoose(p: nat, k: nat)
    requires IsPrime(p) && 0 < k < p
    ensures Choose(p, k) % p == 0
  {
    ChooseTimes(p, k);
    ModZero(Choose(p - 1, k - 1), p);
    assert p * Choose(p - 1, k - 1) == Choose(p - 1, k - 1) * p;
    PrimeDivides(k, Choose(p, k), p);
    ModSmall(k, p);
  }

  // ---------------------------------------------------------------- weighted binomial sums

  function Term(x: int, y: int, n: nat, k: nat): int
  {
    if k > n then 0 else Choose(n, k) * (Pow(x, n - k) * Pow(y, k))
  }

  // The terms below k, with weights.
  function Sum(x: int, y: int, n: nat, w: nat -> int, k: nat): int
  {
    if k == 0 then 0 else Sum(x, y, n, w, k - 1) + Term(x, y, n, k - 1) * w(k - 1)
  }

  function After(w: nat -> int): nat -> int
  {
    (k: nat) => w(k + 1)
  }

  lemma {:induction false} TermStep(x: int, y: int, n: nat, k: nat)
    ensures Term(x, y, n + 1, k + 1) == x * Term(x, y, n, k + 1) + y * Term(x, y, n, k)
    ensures Term(x, y, n + 1, 0) == x * Term(x, y, n, 0)
  {
    Pascal(n, k + 1);
    ChooseEnds(n);
    ChooseEnds(n + 1);
    assert Choose(n, n + 1) == 0;
    hide Choose;
    if k < n {
      assert Pow(x, n - k) == x * Pow(x, n - k - 1) && Pow(y, k + 1) == y * Pow(y, k) && n + 1 - (k + 1) == n - k;
      TermPoly(x, y, Choose(n, k + 1), Choose(n, k), Pow(x, n - k - 1), Pow(y, k));
    } else if k == n {
      assert Pow(x, 0) == 1 && Pow(y, k + 1) == y * Pow(y, k);
    }
  }

  lemma TermPoly(x: int, y: int, c: int, d: int, u: int, v: int)
    ensures (c + d) * ((x * u) * (y * v)) == x * (c * (u * (y * v))) + y * (d * ((x * u) * v))
  {
    assert (x * u) * (y * v) == x * (u * (y * v)) == y * ((x * u) * v);
  }

  lemma {:induction false} SumStep(x: int, y: int, n: nat, w: nat -> int, k: nat)
    ensures Sum(x, y, n + 1, w, k + 1) == x * Sum(x, y, n, w, k + 1) + y * Sum(x, y, n, After(w), k)
  {
    hide Term;
    if k == 0 {
      TermStep(x, y, n, 0);
      assert Sum(x, y, n + 1, w, 1) == Term(x, y, n + 1, 0) * w(0) && Sum(x, y, n, w, 1) == Term(x, y, n, 0) * w(0);
      Spread(x, y, Term(x, y, n, 0), 0, w(0));
    } else {
      SumStep(x, y, n, w, k - 1);
      TermStep(x, y, n, k - 1);
      Spread(x, y, Term(x, y, n, k), Term(x, y, n, k - 1), w(k));
    }
  }

  lemma Spread(x: int, y: int, s: int, t: int, w: int)
    ensures (x * s + y * t) * w == x * (s * w) + y * (t * w)
  {
  }

  lemma {:induction false} SumScales(x: int, y: int, n: nat, w: nat -> int, v: nat -> int, c: int, k: nat)
    requires forall i: nat :: w(i) == c * v(i)
    ensures Sum(x, y, n, w, k) == c * Sum(x, y, n, v, k)
  {
    hide Term;
    if k > 0 {
      SumScales(x, y, n, w, v, c, k - 1);
      assert w(k - 1) == c * v(k - 1);
      ScaleTerm(c, Sum(x, y, n, v, k - 1), Term(x, y, n, k - 1), v(k - 1));
    }
  }

  lemma ScaleTerm(c: int, s: int, t: int, v: int)
    ensures c * s + t * (c * v) == c * (s + t * v)
  {
  }

  // Modulo a prime only the ends are left.
  lemma {:induction false} OnlyEnds(p: nat, x: int, y: int, w: nat -> int, k: nat)
    requires IsPrime(p) && 0 < k <= p
    ensures Sum(x, y, p, w, k) % p == Pow(x, p) * w(0) % p
  {
    ChooseEnds(p);
    if k == 1 {
      assert Pow(y, 0) == 1;
      hide Choose, Pow, IsPrime;
      assert Sum(x, y, p, w, 1) == Term(x, y, p, 0) * w(0);
      assert Term(x, y, p, 0) == 1 * (Pow(x, p) * 1);
    } else {
      OnlyEnds(p, x, y, w, k - 1);
      PrimeDividesChoose(p, k - 1);
      var c, u := Choose(p, k - 1), Pow(x, p - (k - 1)) * Pow(y, k - 1);
      assert Term(x, y, p, k - 1) == c * u;
      hide Choose, Pow, IsPrime, Term;
      MultipleDrops(Sum(x, y, p, w, k - 1), c, u, w(k - 1), p);
    }
  }

  lemma {:induction false} MultipleDrops(s: int, c: int, u: int, v: int, p: nat)
    requires p > 0 && c % p == 0
    ensures (s + c * u * v) % p == s % p
  {
    var k := c / p;
    assert c == k * p;
    assert c * u * v == (k * (u * v)) * p;
    ModMultiple(s, k * (u * v), p);
  }

  // ---------------------------------------------------------------- powers of x + y*s

  function EvenWeight(N: int): nat -> int
  {
    (k: nat) => if k % 2 == 0 then Pow(N, k / 2) else 0
  }

  function OddWeight(N: int): nat -> int
  {
    (k: nat) => if k % 2 == 1 then Pow(N, k / 2) else 0
  }

  lemma WeightsShift(N: int)
    ensures forall k: nat :: After(EvenWeight(N))(k) == N * OddWeight(N)(k)
    ensures forall k: nat :: After(OddWeight(N))(k) == 1 * EvenWeight(N)(k)
  {
    forall k: nat ensures After(EvenWeight(N))(k) == N * OddWeight(N)(k) {
      if k % 2 == 1 { assert (k + 1) / 2 == k / 2 + 1; }
    }
    forall k: nat ensures After(OddWeight(N))(k) == 1 * EvenWeight(N)(k) {
      if k % 2 == 0 { assert (k + 1) / 2 == k / 2; }
    }
  }

  function RealSum(x: int, y: int, N: int, n: nat): int
  {
    Sum(x, y, n, EvenWeight(N), n + 1)
  }

  function ImaginarySum(x: int, y: int, N: int, n: nat): int
  {
    Sum(x, y, n, OddWeight(N), n + 1)
  }

  lemma {:induction false} SumsStep(x: int, y: int, N: int, n: nat)
    ensures RealSum(x, y, N, n + 1) == x * RealSum(x, y, N, n) + N * (y * ImaginarySum(x, y, N, n))
    ensures ImaginarySum(x, y, N, n + 1) == x * ImaginarySum(x, y, N, n) + y * RealSum(x, y, N, n)
  {
    hide *;
    var e, o := EvenWeight(N), OddWeight(N);
    SumsAre(x, y, N, n);
    SumsAre(x, y, N, n + 1);
    WeightsShift(N);
    SumStep(x, y, n, e, n + 1);
    SumStep(x, y, n, o, n + 1);
    SumScales(x, y, n, After(e), o, N, n + 1);
    SumScales(x, y, n, After(o), e, 1, n + 1);
    LastVanishes(x, y, n, e);
    LastVanishes(x, y, n, o);
    MoveFactor(y, N, Sum(x, y, n, o, n + 1));
  }

  lemma SumsAre(x: int, y: int, N: int, n: nat)
    ensures RealSum(x, y, N, n) == Sum(x, y, n, EvenWeight(N), n + 1) && ImaginarySum(x, y, N, n) == Sum(x, y, n, OddWeight(N), n + 1)
  {
  }

  lemma MoveFactor(y: int, N: int, s: int)
    ensures y * (N * s) == N * (y * s) && 1 * s == s
  {
  }

  lemma LastVanishes(x: int, y: int, n: nat, w: nat -> int)
    ensures Sum(x, y, n, w, n + 2) == Sum(x, y, n, w, n + 1)
  {
    assert Term(x, y, n, n + 1) == 0;
  }

  lemma {:induction false} PowerIsSums(p: nat, N: int, x: int, y: int, n: nat)
    requires p > 1 && Elem(p, x) && Elem(p, y)
    ensures QPow(p, N, Q2(x, y), n) == Q2(Red(p, RealSum(x, y, N, n)), Red(p, ImaginarySum(x, y, N, n)))
    ensures In(p, QPow(p, N, Q2(x, y), n))
  {
    PowIn(p, N, Q2(x, y), n);
    if n == 0 {
      StartSums(x, y, N);
      ModSmall(0, p);
      ModSmall(1, p);
    } else {
      PowerIsSums(p, N, x, y, n - 1);
      SumsStep(x, y, N, n - 1);
      var u, v := RealSum(x, y, N, n - 1), ImaginarySum(x, y, N, n - 1);
      MulReduces(p, N, QPow(p, N, Q2(x, y), n - 1), Q2(x, y));
      hide QMul, RealSum, ImaginarySum;
      ProductMod(p, N, u, v, x, y);
    }
  }

  lemma StartSums(x: int, y: int, N: int)
    ensures RealSum(x, y, N, 0) == 1 && ImaginarySum(x, y, N, 0) == 0
  {
    assert Sum(x, y, 0, EvenWeight(N), 0) == 0 && Sum(x, y, 0, OddWeight(N), 0) == 0;
    assert Term(x, y, 0, 0) == 1;
    assert Pow(N, 0) == 1;
  }

  lemma {:induction false} ProductMod(p: nat, N: int, u: int, v: int, x: int, y: int)
    requires p > 0
    ensures Red(p, Red(p, u) * x + N * (Red(p, v) * y)) == Red(p, x * u + N * (y * v))
    ensures Red(p, Red(p, u) * y + Red(p, v) * x) == Red(p, x * v + y * u)
  {
    ModMod(u, p);
    ModMod(v, p);
    ModMul(u % p, u, x, x, p);
    ModMul(u % p, u, y, y, p);
    ModMul(v % p, v, x, x, p);
    ModMul(v % p, v, y, y, p);
    ModMul(N, N, v % p * y, v * y, p);
    ModAdd(u % p * x, u * x, N * (v % p * y), N * (v * y), p);
    ModAdd(u % p * y, u * y, v % p * x, v * x, p);
    assert u * x == x * u && v * y == y * v && u * y == y * u && v * x == x * v;
  }

  // ---------------------------------------------------------------- the p-th power

  lemma {:induction false} PowMod(p: nat, x: int, n: nat)
    requires p > 1
    ensures FPow(p, x, n) == Red(p, Pow(x, n))
  {
    if n == 0 {
      ModSmall(1, p);
    } else {
      PowMod(p, x, n - 1);
      hide FPow, Pow;
      ModMod(Pow(x, n - 1), p);
      ModMul(x, x, Pow(x, n - 1) % p, Pow(x, n - 1), p);
      PowUnfolds(p, x, n);
    }
  }

  lemma PowUnfolds(p: nat, x: int, n: nat)
    requires p > 0 && n > 0
    ensures FPow(p, x, n) == Mul(p, x, FPow(p, x, n - 1)) && Pow(x, n) == x * Pow(x, n - 1)
  {
  }

  lemma {:induction false} PthPower(p: nat, x: int)
    requires IsPrime(p) && p > 2 && Elem(p, x)
    ensures Red(p, Pow(x, p)) == x
  {
    PowMod(p, x, p);
    PowUnfolds(p, x, p);
    if x == 0 {
      ModSmall(0, p);
    } else {
      Fermat(p, x);
      ModSmall(x, p);
    }
  }

  // Main result: for a non-square N the p-th power is conjugation.
  lemma {:induction false} FrobeniusConjugates(p: nat, N: int, f: Q2)
    requires IsPrime(p) && p > 2 && In(p, f) && !HasRoot(p, Red(p, N))
    ensures QPow(p, N, f, p) == Conj(p, f)
  {
    var x, y := f.x, f.y;
    OddPrime(p);
    PowerIsSums(p, N, x, y, p);
    RealEnd(p, x, y, N);
    ImaginaryEnd(p, x, y, N);
  }

  lemma {:induction false} RealEnd(p: nat, x: int, y: int, N: int)
    requires IsPrime(p) && p > 2 && p % 2 == 1 && Elem(p, x)
    ensures Red(p, RealSum(x, y, N, p)) == x
  {
    OnlyEnds(p, x, y, EvenWeight(N), p);
    PthPower(p, x);
    assert EvenWeight(N)(0) == 1 by { assert Pow(N, 0) == 1; }
    assert EvenWeight(N)(p) == 0;
    assert Term(x, y, p, p) * 0 == 0;
  }

  lemma {:induction false} ImaginaryEnd(p: nat, x: int, y: int, N: int)
    requires IsPrime(p) && p > 2 && p % 2 == 1 && Elem(p, y) && !HasRoot(p, Red(p, N))
    ensures Red(p, ImaginarySum(x, y, N, p)) == Neg(p, y)
  {
    var w, h := OddWeight(N), (p - 1) / 2;
    OnlyEnds(p, x, y, w, p);
    PthPower(p, y);
    ChooseEnds(p);
    assert w(0) == 0 && p / 2 == h && w(p) == Pow(N, h);
    assert Term(x, y, p, p) == Pow(y, p) by { assert Pow(x, 0) == 1; }
    NonSquareWeight(p, N, h);
    hide IsPrime, HasRoot, Term, Pow, Sum, Choose;
    assert ImaginarySum(x, y, N, p) == Sum(x, y, p, w, p) + Pow(y, p) * Pow(N, h);
    LastTerm(p, Sum(x, y, p, w, p), Pow(y, p), Pow(N, h), y, Pow(x, p));
  }

  lemma {:induction false} LastTerm(p: nat, s: int, u: int, v: int, y: int, z: int)
    requires p > 0 && s % p == z * 0 % p && u % p == y && v % p == (p - 1) % p
    ensures (s + u * v) % p == (0 - y) % p
  {
    ModMod(u, p);
    ModMul(u, y, v, p - 1, p);
    ModAdd(s, 0, u * v, y * (p - 1), p);
    assert y * (p - 1) == 0 - y + y * p;
    ModIntro(y * (p - 1), 0 - y, y, p);
  }

  lemma {:induction false} NonSquareWeight(p: nat, N: int, h: nat)
    requires IsPrime(p) && p > 2 && h == (p - 1) / 2 && !HasRoot(p, Red(p, N))
    ensures Pow(N, h) % p == (p - 1) % p
  {
    var n := Red(p, N);
    ZeroHasRoot(p);
    Euler(p, n);
    PowMod(p, n, h);
    PowRed(p, N, h);
    ModSmall(p - 1, p);
  }

  lemma {:induction false} PowRed(p: nat, N: int, h: nat)
    requires p > 0
    ensures Pow(Red(p, N), h) % p == Pow(N, h) % p
  {
    if h > 0 {
      PowRed(p, N, h - 1);
      ModMod(N, p);
      ModMul(Red(p, N), N, Pow(Red(p, N), h - 1), Pow(N, h - 1), p);
    }
  }
}
