// The searches for MNT (embedding degree 6) and Freeman (embedding degree 10) curve parameters.
module CmSearch {
  import opened Arith
  import opened Pell
  import opened PellSolutions
  import opened Bits

  datatype Option<T> = None | Some(value: T)

  // Parameters handed to the caller: field size q, curve order n = h*r with r prime, discriminant D.
  datatype Cm = Cm(k: int, D: int, q: int, r: int, h: int, n: int)

  // ---------------------------------------------------------------- primes beyond a bound

  function Factorial(n: nat): (f: nat)
    ensures f >= 1
  {
    if n == 0 then 1 else MulLe(1, n, Factorial(n - 1)); n * Factorial(n - 1)
  }

  lemma {:induction false} FactorialDivides(n: nat, d: int)
    requires 1 <= d <= n
    ensures Factorial(n) % d == 0
  {
    if d == n {
      ModZero(Factorial(n - 1), n);
      assert Factorial(n) == Factorial(n - 1) * n;
    } else {
      FactorialDivides(n - 1, d);
      ModSmall(0, d);
      ModMul(Factorial(n - 1), 0, n, n, d);
      assert Factorial(n) == Factorial(n - 1) * n;
    }
  }

  lemma DividesThrough(n: int, d: int, p: int)
    requires d > 0 && p > 0 && n % d == 0 && d % p == 0
    ensures n % p == 0
  {
    hide IsPrime;
    var a, b := n / d, d / p;
    assert n == a * (b * p);
    assert a * (b * p) == (a * b) * p;
    ModZero(a * b, p);
  }

  lemma {:induction false} PrimeDivisor(n: int) returns (p: int)
    requires n >= 2
    ensures IsPrime(p) && n % p == 0 && p <= n
  {
    if IsPrime(n) {
      p := n;
      ModZero(1, n);
    } else {
      var d :| 2 <= d < n && n % d == 0;
      p := PrimeDivisor(d);
      DividesThrough(n, d, p);
    }
  }

  // There is always a larger prime.
  lemma {:induction false} PrimeAbove(n: nat) returns (p: int)
    ensures IsPrime(p) && p > n
  {
    var f := Factorial(n);
    p := PrimeDivisor(f + 1);
    if p <= n {
      FactorialDivides(n, p);
      ModSmall(0, p);
      ModAdd(f, 0, 1, 1, p);
      ModSmall(1, p);
    }
  }

  // mpz_nextprime
  method NextPrime(p: nat) returns (q: nat)
    ensures IsPrime(q) && q > p
    ensures forall d :: p < d < q ==> !IsPrime(d)
  {
    ghost var bound := PrimeAbove(p);
    q := p + 1;
    while !IsPrime(q)
      invariant p < q <= bound && forall d :: p < d < q ==> !IsPrime(d)
      decreases bound - q
    {
      q := q + 1;
    }
  }

  // ---------------------------------------------------------------- stripping small factors

  ghost predicate NoPrimeFactorBelow(r: int, bound: int)
  {
    forall p :: IsPrime(p) && p < bound ==> r % p != 0
  }

  ghost predicate PrimeFactorsBelow(h: int, bound: int)
  {
    forall p :: IsPrime(p) && h % p == 0 ==> p < bound
  }

  // n is h times a prime r that exceeds all prime factors of h, and those are below 2^16.
  ghost predicate Splits(n: int, h: int, r: int)
  {
    h * r == n && h > 0 && IsPrime(r) && PrimeFactorsBelow(h, r) && PrimeFactorsBelow(h, 0x1_0000)
  }

  ghost predicate SplitsAt(n: int, r: int)
  {
    r > 0 && Splits(n, n / r, r)
  }

  // n cannot be split, its prime r leaving n/r.
  ghost predicate Unsplittable(n: int)
  {
    forall r :: !SplitsAt(n, r)
  }

  // Every way to split n is still one to split r.
  ghost predicate KeepsSplits(n: int, r: int)
  {
    forall s :: SplitsAt(n, s) ==> SplitsAt(r, s)
  }

  lemma NoFactors(bound: int)
    ensures PrimeFactorsBelow(1, bound)
  {
    forall p | IsPrime(p) ensures 1 % p != 0 { ModSmall(1, p); }
  }

  lemma FactorsTimes(h: int, p: int)
    requires IsPrime(p) && PrimeFactorsBelow(h, p + 1)
    ensures PrimeFactorsBelow(h * p, p + 1)
  {
    forall d | IsPrime(d) && (h * p) % d == 0 ensures d < p + 1 {
      PrimeDivides(h, p, d);
      if p % d == 0 && d > p { ModSmall(p, d); }
    }
  }

  // A prime beyond p that is left is the end of a split.
  lemma {:induction false} SplitFound(n: int, h: int, r: int, p: int)
    requires h * r == n && h > 0 && IsPrime(r) && IsPrime(p) && p < 0x1_0000 && PrimeFactorsBelow(h, p + 1)
    requires NoPrimeFactorBelow(r, p) && r % p != 0
    ensures Splits(n, h, r)
  {
    assert r % r == 0 by { ModZero(1, r); }
    assert r > p;
  }

  // While r is not prime, a split of r has its prime beyond every factor excluded so far.
  lemma {:induction false} SplitAbove(r: int, s: int, bound: int)
    requires SplitsAt(r, s) && !IsPrime(r) && NoPrimeFactorBelow(r, bound)
    ensures s > bound && bound < 0x1_0000
  {
    var h := r / s;
    assert h != 1 || r == s;
    var d := PrimeDivisor(h);
    var k := h / d;
    assert r == (k * s) * d by { assert h == k * d && r == h * s; }
    ModZero(k * s, d);
  }

  lemma {:induction false} SplitShrinks(r: int, s: int, p: int)
    requires SplitsAt(r, s) && IsPrime(p) && r % p == 0 && s > p
    ensures SplitsAt(r / p, s)
  {
    var h := r / s;
    PrimeDivides(h, s, p);
    assert s % p != 0;
    var k := h / p;
    assert h == k * p;
    assert r == (k * s) * p;
    DivModUnique(r, p, k * s, 0);
    DivModUnique(k * s, s, k, 0);
    if k <= 0 { MulLe(k, 0, p); }
    forall d | IsPrime(d) && k % d == 0 ensures h % d == 0 {
      assert h == (k / d * p) * d;
      ModZero(k / d * p, d);
    }
  }

  // All ways to split n have their prime beyond p.
  ghost predicate SplitsBeyond(n: int, p: int)
  {
    forall s :: SplitsAt(n, s) ==> s > p && p < 0x1_0000
  }

  lemma {:induction false} AllAbove(n: int, r: int, p: int)
    requires KeepsSplits(n, r) && !IsPrime(r) && NoPrimeFactorBelow(r, p)
    ensures SplitsBeyond(n, p)
  {
    hide NoPrimeFactorBelow, IsPrime, SplitsAt;
    forall s | SplitsAt(n, s) ensures s > p && p < 0x1_0000 { SplitAbove(r, s, p); }
  }

  lemma {:induction false} AllShrink(n: int, r: int, p: int)
    requires KeepsSplits(n, r) && IsPrime(p) && r % p == 0 && SplitsBeyond(n, p)
    ensures KeepsSplits(n, r / p)
  {
    PrimeAtLeastTwo(p);
    hide IsPrime, SplitsAt;
    forall s | SplitsAt(n, s) ensures SplitsAt(r / p, s) { SplitShrinks(r, s, p); }
  }

  // One prime p is removed from r as often as it divides.
  method StripPrime(cofac: int, r: int, p: int, n: int) returns (c: int, s: int)
    requires cofac > 0 && r > 0 && cofac * r == n && !IsPrime(r) && KeepsSplits(n, r)
    requires IsPrime(p) && p < 0x1_0000 && NoPrimeFactorBelow(r, p) && PrimeFactorsBelow(cofac, p)
    ensures c > 0 && s > 0 && c * s == n && KeepsSplits(n, s)
    ensures NoPrimeFactorBelow(s, p) && s % p != 0 && PrimeFactorsBelow(c, p + 1)
  {
    AllAbove(n, r, p);
    hide IsPrime, KeepsSplits, SplitsBeyond;
    c, s := cofac, r;
    while s % p == 0
      invariant c > 0 && s > 0 && c * s == n && KeepsSplits(n, s) && NoPrimeFactorBelow(s, p) && PrimeFactorsBelow(c, p + 1)
      decreases s
    {
      ghost var before := s;
      PrimeAtLeastTwo(p);
      DivideOut(c, s, p, n);
      FactorsTimes(c, p);
      AllShrink(n, s, p);
      c := c * p;
      s := s / p;
      FactorsShrink(before, s, p, p);
    }
  }

  lemma PrimeAtLeastTwo(p: int)
    requires IsPrime(p)
    ensures p >= 2
  {
  }

  // Split n as h*r with r prime by removing small primes in order; give up at the first 17-bit prime.
  method StripSmallFactors(n: int) returns (res: Option<(int, int)>)
    requires n > 0
    ensures res.Some? ==> Splits(n, res.value.0, res.value.1)
    ensures res.None? ==> Unsplittable(n)
  {
    hide SplitsAt, Splits, PrimeFactorsBelow;
    var cofac, r, p := 1, n, 2;
    NoFactors(2);
    if IsPrime(r) {
      PrimeSplits(n);
      return Some((1, n));
    }
    while true
      invariant cofac > 0 && r > 0 && cofac * r == n && !IsPrime(r) && KeepsSplits(n, r)
      invariant IsPrime(p) && p < 0x1_0000 && NoPrimeFactorBelow(r, p) && PrimeFactorsBelow(cofac, p)
      decreases 0x1_0000 - p
    {
      cofac, r := StripPrime(cofac, r, p, n);
      if IsPrime(r) {
        SplitFound(n, cofac, r, p);
        break;
      }
      ghost var before := p;
      p := NextPrime(p);
      FactorsBefore(r, cofac, before, p);
      if p >= 0x1_0000 {
        AllAbove(n, r, p);
        return None;
      }
    }
    return Some((cofac, r));
  }

  lemma PrimeSplits(n: int)
    requires IsPrime(n)
    ensures Splits(n, 1, n)
  {
    NoFactors(n);
    NoFactors(0x1_0000);
  }

  lemma FactorsBefore(r: int, h: int, p: int, q: int)
    requires p > 0 && NoPrimeFactorBelow(r, p) && r % p != 0 && PrimeFactorsBelow(h, p + 1) && q > p && forall d :: p < d < q ==> !IsPrime(d)
    ensures NoPrimeFactorBelow(r, q) && PrimeFactorsBelow(h, q)
  {
    hide IsPrime;
  }

  lemma DivideOut(c: int, r: int, p: int, n: int)
    requires p >= 2 && r > 0 && r % p == 0 && c * r == n && c > 0
    ensures c * p > 0 && 0 < r / p < r && (c * p) * (r / p) == n
  {
    var k := r / p;
    assert r == k * p;
    if k <= 0 { MulLe(k, 0, p); }
    MulLe(2, p, k);
    MulLe(1, c, p);
    assert (c * p) * k == c * (k * p);
  }

  lemma FactorsShrink(r: int, s: int, p: int, bound: int)
    requires p >= 2 && r % p == 0 && s == r / p && NoPrimeFactorBelow(r, bound)
    ensures NoPrimeFactorBelow(s, bound)
  {
    forall d | IsPrime(d) && d < bound ensures s % d != 0 {
      if s % d == 0 {
        assert r == ((s / d) * p) * d by { assert s == (s / d) * d && r == s * p; }
        ModZero((s / d) * p, d);
      }
    }
  }

  // A number whose largest prime factor is repeated is given up.
  lemma {:induction false} RepeatedLargest(n: int, h: int, s: int)
    requires h > 0 && IsPrime(s) && n == h * s * s && PrimeFactorsBelow(h, s + 1)
    ensures Unsplittable(n)
  {
    forall r ensures !SplitsAt(n, r) {
      if SplitsAt(n, r) { NotLargest(n, h, s, n / r, r); }
    }
  }

  lemma {:induction false} NotLargest(n: int, h: int, s: int, g: int, r: int)
    requires IsPrime(s) && n == h * s * s && PrimeFactorsBelow(h, s + 1) && g * r == n && IsPrime(r)
    ensures !PrimeFactorsBelow(g, r)
  {
    ModZero(g, r);
    PrimeDivides(h * s, s, r);
    if s % r != 0 { PrimeDivides(h, s, r); } else if r > s { ModSmall(s, r); }
    assert r <= s;
    if r == s {
      SameFactor(g, h * s, s);
      ModZero(h, s);
    } else {
      ModZero(h * s, s);
      PrimeDivides(g, r, s);
      ModSmall(r, s);
    }
    assert g % s == 0;
  }

  // ---------------------------------------------------------------- one MNT candidate

  predicate MntResidue(U: int)
  {
    U % 6 == 1 || U % 6 == 5
  }

  function MntL(U: int): int
  {
    if U % 6 == 1 then (U - 1) / 3 else (U + 1) / 3
  }

  function MntQ(U: int): int
  {
    MntL(U) * MntL(U) + 1
  }

  function MntN(U: int): int
  {
    if U % 6 == 1 then MntQ(U) + MntL(U) else MntQ(U) - MntL(U)
  }

  function Trace(cm: Cm): int
  {
    cm.q + 1 - cm.n
  }

  // 4q - t^2, which complex multiplication wants to be D times a square.
  function Discriminant(cm: Cm): int
  {
    4 * cm.q - Trace(cm) * Trace(cm)
  }

  // What every search guarantees of the parameters it hands out.
  ghost predicate Proper(cm: Cm)
  {
    IsPrime(cm.q) && Splits(cm.n, cm.h, cm.r) && cm.n > 0
  }

  ghost predicate MntOutcome(D: int, U: int, o: Option<Cm>)
  {
    match o
    case Some(cm) =>
      && MntResidue(U) && cm.k == 6 && cm.D == D && cm.q == MntQ(U) && cm.n == MntN(U) && Proper(cm)
    case None =>
      MntResidue(U) && IsPrime(MntQ(U)) ==>
        Unsplittable(MntN(U))
  }

  lemma PronicNonNegative(l: int)
    ensures l * l + l >= 0
  {
    if l >= 0 {
      MulLe(0, l, l);
    } else {
      MulLe(l + 1, 0, -l);
    }
  }

  lemma MntPositive(U: int)
    requires MntResidue(U)
    ensures MntN(U) > 0
  {
    PronicNonNegative(MntL(U));
    PronicNonNegative(-MntL(U));
  }

  method MntStep2(D: int, U: int) returns (o: Option<Cm>)
    ensures MntOutcome(D, U, o)
  {
    var l := U % 6;
    var d;
    if l == 1 {
      l := U - 1;
      d := 1;
    } else if l == 5 {
      l := U + 1;
      d := -1;
    } else {
      return None;
    }
    l := l / 3;
    var q := l * l + 1;
    if !IsPrime(q) {
      return None;
    }
    var n := if d < 0 then q - l else q + l;
    MntPositive(U);
    var split := StripSmallFactors(n);
    if split.None? {
      return None;
    }
    return Some(Cm(6, D, q, split.value.1, split.value.0, n));
  }

  // The curve order divides the sixth cyclotomic polynomial at q, and 3*(4q - t^2) is U^2 + 8.
  lemma {:induction false} MntMeans(U: int)
    requires MntResidue(U)
    ensures var q, n := MntQ(U), MntN(U);
            var t := q + 1 - n;
            n > 0 && (q * q - q + 1) % n == 0 && 3 * (4 * q - t * t) == U * U + 8
  {
    hide *;
    MntPositive(U);
    MntParts(U);
    if U % 6 == 1 { MntUpper(U, MntL(U), MntQ(U), MntN(U)); } else { MntLower(U, MntL(U), MntQ(U), MntN(U)); }
  }

  lemma {:induction false} MntUpper(U: int, l: int, q: int, n: int)
    requires U == 3 * l + 1 && q == l * l + 1 && n == q + l > 0
    ensures (q * q - q + 1) % n == 0 && 3 * (4 * q - (q + 1 - n) * (q + 1 - n)) == U * U + 8
  {
    MntTrace(l, q, n);
    MntDivides(l, q, q - l, n);
  }

  lemma {:induction false} MntLower(U: int, l: int, q: int, n: int)
    requires U == 3 * l - 1 && q == l * l + 1 && n == q - l > 0
    ensures (q * q - q + 1) % n == 0 && 3 * (4 * q - (q + 1 - n) * (q + 1 - n)) == U * U + 8
  {
    MntTrace(l, q, n);
    MntDivides(l, q, q + l, n);
  }

  lemma {:induction false} MntDivides(l: int, q: int, m: int, n: int)
    requires q == l * l + 1 && n > 0 && ((m == q - l && n == q + l) || (m == q + l && n == q - l))
    ensures (q * q - q + 1) % n == 0
  {
    MntFactors(l);
    ModZero(m, n);
  }

  lemma {:induction false} MntTrace(l: int, q: int, n: int)
    requires q == l * l + 1
    ensures n == q + l ==> 3 * (4 * q - (q + 1 - n) * (q + 1 - n)) == (3 * l + 1) * (3 * l + 1) + 8
    ensures n == q - l ==> 3 * (4 * q - (q + 1 - n) * (q + 1 - n)) == (3 * l - 1) * (3 * l - 1) + 8
  {
    MntDiscriminant(l);
  }

  lemma MntParts(U: int)
    requires MntResidue(U)
    ensures U == if U % 6 == 1 then 3 * MntL(U) + 1 else 3 * MntL(U) - 1
    ensures MntQ(U) == MntL(U) * MntL(U) + 1 && MntN(U) == if U % 6 == 1 then MntQ(U) + MntL(U) else MntQ(U) - MntL(U)
  {
  }

  lemma MntFactors(l: int)
    ensures var q := l * l + 1; q * q - q + 1 == (q - l) * (q + l) == (q + l) * (q - l)
  {
  }

  lemma MntDiscriminant(l: int)
    ensures 3 * (4 * (l * l + 1) - (1 - l) * (1 - l)) == (3 * l + 1) * (3 * l + 1) + 8
    ensures 3 * (4 * (l * l + 1) - (1 + l) * (1 + l)) == (3 * l - 1) * (3 * l - 1) + 8
  {
  }

  // ---------------------------------------------------------------- one Freeman candidate

  predicate FreemanResidue(U: int)
  {
    U % 15 == 5 || U % 15 == 10
  }

  function FreemanX(U: int): int
  {
    if U % 15 == 5 then (U - 5) / 15 else (U + 5) / 15
  }

  function FreemanT(x: int): int
  {
    10 * (x * x) + 5 * x + 3
  }

  function FreemanN(x: int): int
  {
    25 * (x * x * x * x) + 25 * (x * x * x) + 15 * (x * x) + 5 * x + 1
  }

  ghost predicate FreemanOutcome(D: int, U: int, o: Option<Cm>)
  {
    var x := FreemanX(U);
    match o
    case Some(cm) =>
      && cm.k == 10 && cm.D == D && cm.n == FreemanN(x) && Trace(cm) == FreemanT(x) && Proper(cm)
    case None =>
      IsPrime(FreemanN(x) + FreemanT(x) - 1) ==>
        Unsplittable(FreemanN(x))
  }

  method FreemanStep2(D: int, U: int) returns (o: Option<Cm>)
    requires U > 0 && FreemanResidue(U)
    ensures FreemanOutcome(D, U, o)
  {
    var x := U % 15;
    if x == 5 {
      x := U - 5;
    } else {
      x := U + 5;
    }
    x := x / 15;
    var q := FreemanQ(x);
    if !IsPrime(q) {
      return None;
    }
    var n := FreemanOrder(x, q);
    FreemanPositive(x);
    hide FreemanN, FreemanT;
    var split := StripSmallFactors(n);
    if split.None? {
      return None;
    }
    return Some(Cm(10, D, q, split.value.1, split.value.0, n));
  }

  // q = 25x^4 + 25x^3 + 25x^2 + 10x + 3 in the evaluation order of the code
  method FreemanQ(x: int) returns (q: int)
    ensures q == FreemanN(x) + FreemanT(x) - 1
  {
    var r := x * x;
    q := x + x;
    r := r * 5;
    q := q + r;
    r := r * x;
    q := q + r;
    r := r * x;
    q := q + r;
    q := q * 5;
    q := q + 3;
    FreemanHorner(x);
  }

  // n = q - t + 1 with t = 10x^2 + 5x + 3
  method FreemanOrder(x: int, q: int) returns (n: int)
    ensures n == q - FreemanT(x) + 1
  {
    n := x * 5;
    var r := n * x;
    r := r + r;
    n := n + r;
    n := q - n;
    n := n - 2;
  }

  // The evaluation order of the code gives q = n + t - 1.
  lemma {:induction false} FreemanHorner(x: int)
    ensures 5 * (x + x + x * x * 5 + x * x * 5 * x + x * x * 5 * x * x) + 3 == FreemanN(x) + FreemanT(x) - 1
    ensures x * 5 * x == 5 * (x * x)
  {
  }

  lemma FreemanPositive(x: int)
    requires x >= 0
    ensures FreemanN(x) > 0
  {
    assert x * x >= 0;
    assert x * x * x >= 0;
    assert x * x * x * x >= 0;
  }

  // The tenth cyclotomic polynomial.
  function Phi10(q: int): int
  {
    q * q * q * q - q * q * q + q * q - q + 1
  }

  lemma {:induction false} Phi10Mod(q: int, u: int, n: int)
    requires n > 0 && q % n == u % n
    ensures Phi10(q) % n == Phi10(u) % n
  {
    ModMul(q, u, q, u, n);
    ModMul(q * q, u * u, q, u, n);
    ModMul(q * q * q, u * u * u, q, u, n);
    ModAdd(q * q * q * q, u * u * u * u, q * q * q, u * u * u, n);
    ModAdd(q * q * q * q - q * q * q, u * u * u * u - u * u * u, q * q, u * u, n);
    ModAdd(q * q * q * q - q * q * q + q * q, u * u * u * u - u * u * u + u * u, q, u, n);
    ModAdd(q * q * q * q - q * q * q + q * q - q, u * u * u * u - u * u * u + u * u - u, 1, 1, n);
  }

  lemma {:induction false} Phi10Factors(x: int)
    ensures Phi10(10 * (x * x) + 5 * x + 2) == (400 * (x * x * x * x) + 400 * (x * x * x) + 240 * (x * x) + 60 * x + 11) * FreemanN(x)
  {
  }

  lemma FreemanDiscriminant(x: int)
    ensures 4 * (FreemanN(x) + FreemanT(x) - 1) - FreemanT(x) * FreemanT(x) == 15 * (x * x) + 10 * x + 3
  {
  }

  // The curve order divides the tenth cyclotomic polynomial at q.
  lemma {:induction false} FreemanOrderDivides(x: int)
    requires FreemanN(x) > 0
    ensures Phi10(FreemanN(x) + FreemanT(x) - 1) % FreemanN(x) == 0
  {
    var n, u := FreemanN(x), 10 * (x * x) + 5 * x + 2;
    var q := n + FreemanT(x) - 1;
    assert q == u + 1 * n;
    Phi10Factors(x);
    var m := 400 * (x * x * x * x) + 400 * (x * x * x) + 240 * (x * x) + 60 * x + 11;
    hide FreemanN, Phi10;
    ModIntro(q, u, 1, n);
    Phi10Mod(q, u, n);
    ModZero(m, n);
  }

  lemma FreemanSquares(x: int)
    ensures (15 * x + 5) * (15 * x + 5) + 20 == 15 * (15 * (x * x) + 10 * x + 3)
    ensures (15 * x - 5) * (15 * x - 5) + 20 == 15 * (15 * (x * x) - 10 * x + 3)
  {
  }

  // ---------------------------------------------------------------- running through the solutions

  // The solutions tried, in order: first those of the Pell routine, then each composed with the minimal one
  // every time round.
  ghost predicate IsOrbit(D: nat, sols: seq<(int, int)>, m: (int, int), us: seq<(int, int)>)
  {
    forall k :: 0 <= k < |us| ==> |sols| > 0 && us[k] == Orbit(D, sols, m, k)
  }

  datatype Family = Mnt | Freeman

  // The right-hand side of the Pell equation a family is searched with.
  function Norm(fam: Family): int
  {
    if fam.Mnt? then -8 else -20
  }

  ghost predicate Outcome(fam: Family, D: int, U: int, o: Option<Cm>)
  {
    if fam.Mnt? then MntOutcome(D, U, o) else FreemanOutcome(D, U, o)
  }

  // Every MNT set handed out satisfies the equation up to the factor 3 with D3, the 32-bit product 3*D.
  ghost predicate MntGood(D: int, D3: int, cm: Cm)
  {
    && cm.k == 6 && cm.D == D && Proper(cm)
    && (cm.q * cm.q - cm.q + 1) % cm.n == 0
    && Discriminant(cm) % 2 == 1
    && exists V :: 3 * Discriminant(cm) == D3 * (V * V)
  }

  // A Freeman set handed out comes from a solution (U, V), whose class decides the equation.
  ghost predicate FreemanFrom(D: nat, cm: Cm, U: int, V: int)
  {
    && Solves(15 * D, -20, U, V) && FreemanResidue(U) && U > 0
    && cm.n == FreemanN(FreemanX(U)) && Trace(cm) == FreemanT(FreemanX(U))
    && (IsCmDiscriminant(D, cm) <==> U % 15 == 5)
  }

  ghost predicate FreemanGood(D: nat, cm: Cm)
  {
    && cm.k == 10 && cm.D == D && Proper(cm)
    && Phi10(cm.q) % cm.n == 0
    && exists U, V :: FreemanFrom(D, cm, U, V)
  }

  ghost predicate Good(fam: Family, D: nat, E: int, cm: Cm)
  {
    if fam.Mnt? then MntGood(D, E, cm) else FreemanGood(D, cm)
  }

  lemma OddSquare(U: int)
    requires U % 2 == 1
    ensures U * U % 2 == 1
  {
    ModMul(U, 1, U, 1, 2);
  }

  lemma ResidueOdd(U: int)
    requires MntResidue(U)
    ensures U % 2 == 1
  {
  }

  lemma OddThird(x: int, s: int)
    requires s % 2 == 1 && 3 * x == s + 8
    ensures x % 2 == 1
  {
  }

  lemma {:induction false} MntOutcomeGood(D: int, D3: nat, U: int, V: int, cm: Cm)
    requires Solves(D3, -8, U, V) && MntOutcome(D, U, Some(cm))
    ensures MntGood(D, D3, cm)
  {
    MntMeans(U);
    ResidueOdd(U);
    OddSquare(U);
    OddThird(Discriminant(cm), U * U);
    assert 3 * Discriminant(cm) == D3 * (V * V);
  }

  // The equation of complex multiplication.
  ghost predicate IsCmDiscriminant(D: nat, cm: Cm)
  {
    exists V :: Discriminant(cm) == D * (V * V)
  }

  // The exact condition for type G: the parameters satisfy 4q - t^2 = D*V^2 for some V just when U is 5 modulo 15.
  lemma {:induction false} FreemanCmIff(D: nat, U: int, V: int, cm: Cm)
    requires U > 0 && Solves(15 * D, -20, U, V) && FreemanOutcome(D, U, Some(cm))
    ensures FreemanResidue(U) && (IsCmDiscriminant(D, cm) <==> U % 15 == 5)
  {
    FreemanResidueReached(D, U, V);
    var x := FreemanX(U);
    FreemanDiscriminant(x);
    hide FreemanN, FreemanT, Solves, FreemanOutcome;
    assert Discriminant(cm) == 15 * (x * x) + 10 * x + 3 by { FreemanMeans(D, U, cm); }
    FreemanEquation(D, x, U, V);
    if U % 15 == 10 {
      assert x >= 1;
      forall W ensures Discriminant(cm) != D * (W * W) {
        if Discriminant(cm) == D * (W * W) { BothClasses(D, x, V, W); }
      }
    }
  }

  lemma FreemanMeans(D: int, U: int, cm: Cm)
    requires FreemanOutcome(D, U, Some(cm))
    ensures Discriminant(cm) == 4 * (FreemanN(FreemanX(U)) + FreemanT(FreemanX(U)) - 1) - FreemanT(FreemanX(U)) * FreemanT(FreemanX(U))
  {
    hide FreemanN, FreemanT;
  }

  // 15x^2 + 10x + 3 and 15x^2 - 10x + 3 are not both D times a square: their product lies between two squares.
  lemma {:induction false} BothClasses(D: int, x: int, V: int, W: int)
    requires x >= 1 && 15 * (x * x) - 10 * x + 3 == D * (V * V)
    ensures 15 * (x * x) + 10 * x + 3 != D * (W * W)
  {
    if 15 * (x * x) + 10 * x + 3 == D * (W * W) {
      var z, s := D * V * W, 15 * (x * x);
      SquareOfProduct(D, V, W);
      ClassProduct(x);
      MulLe(x, x * x, 1) by { MulLe(1, x, x); }
      assert z * z == s * s - 10 * (x * x) + 9;
      BetweenSquares(z, s - 1);
    }
  }

  lemma SquareOfProduct(D: int, V: int, W: int)
    ensures (D * V * W) * (D * V * W) == (D * (V * V)) * (D * (W * W))
  {
  }

  lemma ClassProduct(x: int)
    ensures (15 * (x * x) - 10 * x + 3) * (15 * (x * x) + 10 * x + 3) == (15 * (x * x)) * (15 * (x * x)) - 10 * (x * x) + 9
  {
  }

  lemma {:induction false} BetweenSquares(z: int, s: int)
    requires s >= 0
    ensures z * z <= s * s || (s + 1) * (s + 1) <= z * z
  {
    var y := if z < 0 then -z else z;
    assert y * y == z * z;
    if y <= s {
      MulLe(y, s, y);
      MulLe(y, s, s);
    } else {
      MulLe(s + 1, y, y);
      MulLe(s + 1, y, s + 1);
    }
  }

  lemma {:induction false} FreemanOutcomeGood(D: nat, U: int, V: int, cm: Cm)
    requires U > 0 && FreemanResidue(U) && Solves(15 * D, -20, U, V) && FreemanOutcome(D, U, Some(cm))
    ensures FreemanGood(D, cm)
  {
    var x := FreemanX(U);
    assert cm.q == FreemanN(x) + FreemanT(x) - 1;
    FreemanOrderDivides(x);
    FreemanDiscriminant(x);
    FreemanCmIff(D, U, V, cm);
    hide FreemanN, FreemanT, Phi10;
    assert FreemanFrom(D, cm, U, V);
  }

  lemma {:induction false} FreemanEquation(D: nat, x: int, U: int, V: int)
    requires FreemanResidue(U) && x == FreemanX(U) && Solves(15 * D, -20, U, V)
    ensures 15 * (x * x) + 10 * x + 3 == D * (V * V) + if U % 15 == 5 then 0 else 20 * x
  {
    FreemanSquares(x);
    var w := V * V;
    assert 15 * D * w == 15 * (D * w);
    assert U == if U % 15 == 5 then 15 * x + 5 else 15 * x - 5;
  }

  // The branch that dies is unreachable: a solution has U congruent to 5 or 10 modulo 15.
  lemma {:induction false} FreemanResidueReached(D: nat, U: int, V: int)
    requires Solves(15 * D, -20, U, V)
    ensures FreemanResidue(U)
  {
    assert 15 * D * (V * V) == (D * (V * V)) * 15;
    ModIntro(U * U, -20, D * (V * V), 15);
    ModMod(U, 15);
    ModMul(U, U % 15, U, U % 15, 15);
    SquaresMod15(U % 15);
  }

  lemma SquaresMod15(r: int)
    requires 0 <= r < 15 && r * r % 15 == 10
    ensures r == 5 || r == 10
  {
    assert r == 0 || r == 1 || r == 2 || r == 3 || r == 4 || r == 5 || r == 6 || r == 7
        || r == 8 || r == 9 || r == 10 || r == 11 || r == 12 || r == 13 || r == 14;
  }

  // An odd divisor of a power of two is 1.
  lemma {:induction false} OddDivisor(g: int, j: nat)
    requires g > 0 && g % 2 == 1 && Pow(2, j) % g == 0
    ensures g == 1
  {
    if j == 0 {
      if g > 1 { ModSmall(1, g); }
    } else {
      var c := Pow(2, j) / g;
      assert Pow(2, j) == c * g;
      EvenCofactor(c, g);
      assert Pow(2, j - 1) == c / 2 * g by { HalfProduct(c, g); }
      ModZero(c / 2, g);
      OddDivisor(g, j - 1);
    }
  }

  lemma EvenCofactor(c: int, g: int)
    requires g % 2 == 1 && c * g % 2 == 0
    ensures c % 2 == 0
  {
    if c % 2 == 1 { ModMul(c, 1, g, 1, 2); }
  }

  lemma HalfProduct(c: int, g: int)
    requires c % 2 == 0
    ensures c * g == 2 * (c / 2 * g)
  {
    assert c == 2 * (c / 2);
    assert 2 * (c / 2) * g == 2 * (c / 2 * g);
  }

  // Numbers that divide each other are equal.
  lemma MutualDivisors(a: int, b: int, c: int, d: int)
    requires a > 0 && b > 0 && a == b * c && b == a * d
    ensures a == b
  {
    if c <= 0 { MulLe(c, 0, b); }
    if d <= 0 { MulLe(d, 0, a); }
    MulLe(1, c, b);
    MulLe(1, d, a);
  }

  // Coprime factors that differ by a ratio of squares are squares.
  lemma {:induction false} CoprimeSquare(e: nat, a: nat, x: int, y: int, v: nat, w: nat) returns (r: int)
    requires e > 0 && e * x + a * y == 1 && e * (v * v) == a * (w * w) && w > 0
    ensures r * r == e
  {
    var g := Euclid(v, w);
    var v', w' := v / g.0, w / g.0;
    assert v == v' * g.0 && w == w' * g.0;
    LowestTerms(e, a, v', w', g.0);
    assert v' * g.1 + w' * g.2 == 1 by { CancelFactor(v', w', g.0, g.1, g.2); }
    LowestSquare(e, a, x, y, v', w', g.1, g.2);
    r := w';
  }

  lemma CancelFactor(v: int, w: int, g: int, b: int, c: int)
    requires g > 0 && v * g * b + w * g * c == g
    ensures v * b + w * c == 1
  {
    assert v * g * b + w * g * c == (v * b + w * c) * g;
    SameFactor(v * b + w * c, 1, g);
  }

  lemma LowestTerms(e: int, a: int, v: int, w: int, g: int)
    requires g > 0 && e * (v * g * (v * g)) == a * (w * g * (w * g))
    ensures e * (v * v) == a * (w * w)
  {
    assert e * (v * g * (v * g)) == e * (v * v) * (g * g);
    assert a * (w * g * (w * g)) == a * (w * w) * (g * g);
    MulLe(1, g, g);
    SameFactor(e * (v * v), a * (w * w), g * g);
  }

  lemma {:induction false} LowestSquare(e: int, a: int, x: int, y: int, v: int, w: int, b: int, c: int)
    requires e > 0 && e * x + a * y == 1 && e * (v * v) == a * (w * w) && v * b + w * c == 1
    ensures w * w == e
  {
    var m, n := v * (b * b * b) + 3 * (b * b) * (w * c), 3 * (v * b) * (c * c) + w * (c * c * c);
    var V, W := v * v, w * w;
    CubeOfSum(v, w, b, c);
    Rescale(e, a, V, W, m, n);
    Rescale(W, V, a, e, y, x);
    MulSquare(w);
    if W == 0 { TimesZero(a * m + e * n); }
    MutualDivisors(e, W, a * m + e * n, V * y + W * x);
  }

  lemma MulSquare(w: int)
    ensures w * w >= 0
  {
    if w >= 0 { MulLe(0, w, w); } else { MulLe(w, 0, -w); }
  }

  lemma TimesZero(k: int)
    ensures 0 * k == 0
  {
  }

  lemma Rescale(e: int, a: int, V: int, W: int, m: int, n: int)
    requires e * V == a * W && V * m + W * n == 1
    ensures e == W * (a * m + e * n)
  {
    Regroup(e, a, V, W, m, n);
  }

  lemma Regroup(e: int, a: int, V: int, W: int, m: int, n: int)
    ensures e * (V * m + W * n) == (e * V) * m + e * W * n
    ensures W * (a * m + e * n) == (a * W) * m + e * W * n
  {
  }

  lemma CubeOfSum(v: int, w: int, b: int, c: int)
    requires v * b + w * c == 1
    ensures (v * v) * (v * (b * b * b) + 3 * (b * b) * (w * c)) + (w * w) * (3 * (v * b) * (c * c) + w * (c * c * c)) == 1
  {
    CubeExpands(v, w, b, c);
  }

  lemma CubeExpands(v: int, w: int, b: int, c: int)
    ensures (v * v) * (v * (b * b * b) + 3 * (b * b) * (w * c)) + (w * w) * (3 * (v * b) * (c * c) + w * (c * c * c))
         == (v * b + w * c) * (v * b + w * c) * (v * b + w * c)
  {
    CubeTerm(v, b);
    CubeTerm(w, c);
    SquareTerm(v, b, w * c);
    SquareTerm(w, c, v * b);
    Binomial(v * b, w * c);
  }

  lemma CubeTerm(v: int, b: int)
    ensures (v * v) * (v * (b * b * b)) == (v * b) * (v * b) * (v * b)
  {
  }

  lemma SquareTerm(v: int, b: int, t: int)
    ensures (v * v) * (3 * (b * b) * t) == 3 * ((v * b) * (v * b)) * t
    ensures (v * v) * (3 * t * (b * b)) == 3 * ((v * b) * (v * b)) * t
  {
  }

  lemma Binomial(s: int, t: int)
    ensures (s + t) * (s + t) * (s + t) == s * s * s + 3 * (s * s) * t + 3 * (t * t) * s + t * t * t
  {
  }

  lemma PowerLiterals()
    ensures Pow(2, 32) == 0x1_0000_0000 && Pow(2, 33) == 0x2_0000_0000
  {
    PowAdd(2, 8, 8);
    PowAdd(2, 16, 16);
    assert Pow(2, 8) == 256 by {
      PowAdd(2, 4, 4);
      assert Pow(2, 4) == 2 * (2 * (2 * (2 * Pow(2, 0))));
    }
  }

  lemma OddFactors(c: int, g: int)
    requires c * g % 2 == 1
    ensures g % 2 == 1
  {
    if g % 2 == 0 { ModMul(c, c, g, 0, 2); }
  }

  lemma DividesDifference(e: int, a: int, g: int)
    requires g > 0 && e % g == 0 && a % g == 0 && e % 2 == 1
    ensures g % 2 == 1 && (a - e) % g == 0
  {
    var c, d := e / g, a / g;
    assert e == c * g && a == d * g;
    OddFactors(c, g);
    assert d * g - c * g == (d - c) * g;
    ModZero(d - c, g);
  }

  lemma WrapDifference(e: nat, a: nat) returns (j: nat)
    requires e == a % 0x1_0000_0000 && 0x1_0000_0000 <= a < 0x3_0000_0000
    ensures a - e == Pow(2, j)
  {
    hide Pow;
    j := if a < 0x2_0000_0000 then 32 else 33;
    PowerLiterals();
  }

  // An odd number and its sum with 2^32 or 2^33 are coprime.
  lemma {:induction false} WrapCoprime(e: nat, a: nat) returns (x: int, y: int)
    requires e % 2 == 1 && e == a % 0x1_0000_0000 && 0x1_0000_0000 <= a < 0x3_0000_0000
    ensures e * x + a * y == 1
  {
    hide Pow;
    var j := WrapDifference(e, a);
    var t := Euclid(e, a);
    DividesDifference(e, a, t.0);
    OddDivisor(t.0, j);
    x, y := t.1, t.2;
  }

  lemma {:induction false} WrapMisses(D: nat, X: int, V: int, W: int)
    requires 0x1_0000_0000 <= 3 * D < 0x3_0000_0000 && X % 2 == 1
    requires 3 * X == 3 * D % 0x1_0000_0000 * (V * V) && X == D * (W * W)
    ensures IsSquare(3 * D % 0x1_0000_0000)
  {
    var a := 3 * D;
    var e := a % 0x1_0000_0000;
    assert 3 * X == a * (W * W);
    assert e % 2 == 1 by { if e % 2 == 0 { ModMul(e, 0, V * V, V * V, 2); } }
    assert W != 0;
    SquareOfAbs(V);
    SquareOfAbs(W);
    var x, y := WrapCoprime(e, a);
    var r := CoprimeSquare(e, a, x, y, Abs(V), Abs(W));
    SquareIff(e, r);
  }

  // The exact condition: the parameters handed out satisfy 4q - t^2 = D*V^2 just when the 32-bit product of 3
  // and D does not wrap.
  lemma {:induction false} MntCmIff(D: nat, cm: Cm)
    requires D < 0x1_0000_0000 && !IsSquare(3 * D % 0x1_0000_0000) && MntGood(D, 3 * D % 0x1_0000_0000, cm)
    ensures IsCmDiscriminant(D, cm) <==> 3 * D < 0x1_0000_0000
  {
    hide IsSquare, Proper, Discriminant;
    var E := 3 * D % 0x1_0000_0000;
    var V :| 3 * Discriminant(cm) == E * (V * V);
    if 3 * D < 0x1_0000_0000 {
      ModSmall(3 * D, 0x1_0000_0000);
      assert 3 * D * (V * V) == 3 * (D * (V * V));
    } else {
      forall W ensures Discriminant(cm) != D * (W * W) {
        if Discriminant(cm) == D * (W * W) { WrapMisses(D, Discriminant(cm), V, W); }
      }
    }
  }

  // The solutions tried so far and pending: tried of them are done, index i is next, and cur holds for each
  // index the pending solution.
  ghost predicate Searching(D: nat, N: int, sols: seq<(int, int)>, m: (int, int), cur: seq<(int, int)>, us: seq<(int, int)>, tried: nat, i: nat)
  {
    && |sols| > 0 && |cur| == |sols| && i <= |sols| && IsOrbit(D, sols, m, us) && |us| == |sols| + tried
    && (forall j :: 0 <= j < |cur| ==> cur[j].0 > 0 && cur[j].1 > 0 && Solves(D, N, cur[j].0, cur[j].1))
    && (forall j :: i <= j < |cur| ==> cur[j] == us[tried + j - i])
    && (forall j :: 0 <= j < i ==> cur[j] == us[tried + |sols| + j - i])
  }

  lemma {:induction false} SearchAdvances(D: nat, N: int, sols: seq<(int, int)>, m: (int, int), cur: seq<(int, int)>, us: seq<(int, int)>, tried: nat, i: nat)
    requires D > 0 && Searching(D, N, sols, m, cur, us, tried, i) && i < |sols|
    requires Solves(D, 1, m.0, m.1) && m.0 > 0 && m.1 > 0
    ensures var c := Compose(D, m, cur[i]);
            Searching(D, N, sols, m, cur[i := c], us + [c], tried + 1, i + 1) && c.0 > cur[i].0
    ensures |cur| == |sols| && tried < |us| && us[tried] == cur[i] && cur[i].0 > 0 && Solves(D, N, cur[i].0, cur[i].1)
    ensures IsOrbit(D, sols, m, us)
  {
    ComposeSolves(D, N, m, cur[i]);
    ComposeGrows(D, m, cur[i]);
    hide Compose, Solves;
    var c := Compose(D, m, cur[i]);
    OrbitGrows(D, sols, m, us, c);
  }

  lemma OrbitGrows(D: nat, sols: seq<(int, int)>, m: (int, int), us: seq<(int, int)>, c: (int, int))
    requires IsOrbit(D, sols, m, us) && |us| >= |sols| > 0 && c == Compose(D, m, us[|us| - |sols|])
    ensures IsOrbit(D, sols, m, us + [c])
  {
    hide Compose;
    OrbitUnfolds(D, sols, m, |us| - |sols|);
  }

  lemma SearchWraps(D: nat, N: int, sols: seq<(int, int)>, m: (int, int), cur: seq<(int, int)>, us: seq<(int, int)>, tried: nat)
    requires Searching(D, N, sols, m, cur, us, tried, |sols|)
    ensures Searching(D, N, sols, m, cur, us, tried, 0)
  {
    hide Solves;
  }

  lemma SearchStarts(D: nat, N: int, sols: seq<(int, int)>, m: (int, int))
    requires |sols| > 0 && forall h :: h in sols ==> h.0 > 0 && h.1 > 0 && Solves(D, N, h.0, h.1)
    ensures Searching(D, N, sols, m, sols, sols, 0, 0)
  {
    hide Solves;
  }

  function Somes(outs: seq<Option<Cm>>): seq<Cm>
  {
    if |outs| == 0 then []
    else Somes(outs[..|outs| - 1]) + if outs[|outs| - 1].Some? then [outs[|outs| - 1].value] else []
  }

  lemma SomesPush(outs: seq<Option<Cm>>, o: Option<Cm>)
    ensures Somes(outs + [o]) == Somes(outs) + if o.Some? then [o.value] else []
  {
    assert (outs + [o])[..|outs|] == outs;
  }

  // The bound on twice the length of a solution, formed in 32 bits.
  function Limit(bitlimit: nat): nat
  {
    (bitlimit + 10) % 0x1_0000_0000
  }

  // The solution that follows u in its class is too long.
  predicate TooLong(D: nat, m: (int, int), u: (int, int), bitlimit: nat)
  {
    Compose(D, m, u).0 >= 0 && 2 * SizeInBase2(Compose(D, m, u).0) > Limit(bitlimit)
  }

  // Why a search stops: the callback said so, or the next solution is too long.
  predicate Stops(D: nat, m: (int, int), u: (int, int), answer: int, bitlimit: nat)
  {
    answer != 0 || TooLong(D, m, u, bitlimit)
  }

  // None of the first n solutions is a reason to stop.
  ghost predicate Passed(D: nat, m: (int, int), bitlimit: nat, us: seq<(int, int)>, n: int)
  {
    n <= |us| && forall k :: 0 <= k < n ==> !TooLong(D, m, us[k], bitlimit)
  }

  // A type G set satisfies the equation of complex multiplication just when U is 5 modulo 15.
  ghost predicate Verdict(fam: Family, D: nat, U: int, o: Option<Cm>)
  {
    fam.Freeman? && o.Some? ==> (IsCmDiscriminant(D, o.value) <==> U % 15 == 5)
  }

  // What has been tried and handed out so far; answers(i) is what the callback says to the set number i, whose data
  // may have changed since.
  ghost predicate History(fam: Family, answers: nat -> int, D: nat, E: int, us: seq<(int, int)>, outs: seq<Option<Cm>>, log: seq<Cm>)
  {
    && |outs| <= |us|
    && (forall k :: 0 <= k < |outs| ==> Outcome(fam, D, us[k].0, outs[k]) && Verdict(fam, D, us[k].0, outs[k]))
    && log == Somes(outs)
    && (forall cm :: cm in log ==> Good(fam, D, E, cm))
    && (forall i :: 0 <= i < |log| - 1 ==> answers(i) == 0)
  }

  // The whole search: us is the orbit of the solutions found, tried in order until the callback accepts or the
  // next solution is too long.
  ghost predicate Searched(fam: Family, answers: nat -> int, D: nat, E: nat, bitlimit: nat, res: int, log: seq<Cm>,
                           sols: seq<(int, int)>, m: (int, int), us: seq<(int, int)>, outs: seq<Option<Cm>>)
  {
    && IsOrbit(E, sols, m, us) && History(fam, answers, D, E, us, outs, log)
    && (sols == [] ==> outs == [] && res == 0)
    && (sols != [] ==> (
      && |outs| > 0 && Passed(E, m, bitlimit, us, |outs| - 1)
      && res == (if outs[|outs| - 1].Some? then answers(|Somes(outs[..|outs| - 1])|) else 0)
      && Stops(E, m, us[|outs| - 1], res, bitlimit)))
  }

  method Step2(fam: Family, D: nat, E: nat, U: int, ghost V: int) returns (o: Option<Cm>)
    requires U > 0 && Solves(E, Norm(fam), U, V) && (fam.Freeman? ==> E == 15 * D)
    ensures Outcome(fam, D, U, o) && Verdict(fam, D, U, o) && (o.Some? ==> Good(fam, D, E, o.value))
  {
    if fam.Mnt? {
      o := MntStep2(D, U);
      if o.Some? { MntOutcomeGood(D, E, U, V, o.value); }
    } else {
      FreemanResidueReached(D, U, V);
      o := FreemanStep2(D, U);
      if o.Some? {
        FreemanOutcomeGood(D, U, V, o.value);
        FreemanCmIff(D, U, V, o.value);
      }
    }
  }

  lemma HistoryGrows(fam: Family, answers: nat -> int, D: nat, E: int, us: seq<(int, int)>, outs: seq<Option<Cm>>, log: seq<Cm>, o: Option<Cm>)
    requires History(fam, answers, D, E, us, outs, log) && |outs| < |us| && Outcome(fam, D, us[|outs|].0, o) && Verdict(fam, D, us[|outs|].0, o)
    requires o.Some? ==> Good(fam, D, E, o.value)
    requires |log| > 0 ==> answers(|log| - 1) == 0
    ensures History(fam, answers, D, E, us, outs + [o], if o.Some? then log + [o.value] else log)
  {
    hide Outcome, Good;
    SomesPush(outs, o);
  }

  lemma HistoryKeeps(fam: Family, answers: nat -> int, D: nat, E: int, us: seq<(int, int)>, outs: seq<Option<Cm>>, log: seq<Cm>, u: (int, int))
    requires History(fam, answers, D, E, us, outs, log)
    ensures History(fam, answers, D, E, us + [u], outs, log)
  {
    hide Outcome, Good, Somes;
  }

  lemma HistoryLog(fam: Family, answers: nat -> int, D: nat, E: int, us: seq<(int, int)>, outs: seq<Option<Cm>>, log: seq<Cm>)
    requires History(fam, answers, D, E, us, outs, log)
    ensures log == Somes(outs)
  {
    hide Outcome, Good, Somes, Verdict;
  }

  // Candidate number i of one round.
  method TryOne(fam: Family, answers: nat -> int, D: nat, E: nat, bitlimit: nat, minx: int, miny: int, cur: seq<(int, int)>, i: nat, log: seq<Cm>,
                ghost sols: seq<(int, int)>, ghost us: seq<(int, int)>, ghost outs: seq<Option<Cm>>)
    returns (stop: bool, res: int, cur': seq<(int, int)>, log': seq<Cm>, ghost us': seq<(int, int)>, ghost outs': seq<Option<Cm>>)
    requires E > 0 && Solves(E, 1, minx, miny) && minx > 0 && miny > 0 && (fam.Freeman? ==> E == 15 * D)
    requires Searching(E, Norm(fam), sols, (minx, miny), cur, us, |outs|, i) && i < |sols|
    requires History(fam, answers, D, E, us, outs, log) && (|log| > 0 ==> answers(|log| - 1) == 0)
    requires Passed(E, (minx, miny), bitlimit, us, |outs|)
    ensures stop ==> Searched(fam, answers, D, E, bitlimit, res, log', sols, (minx, miny), us', outs')
    ensures !stop ==> Searching(E, Norm(fam), sols, (minx, miny), cur', us', |outs'|, i + 1)
    ensures !stop ==> History(fam, answers, D, E, us', outs', log') && (|log'| > 0 ==> answers(|log'| - 1) == 0)
    ensures !stop ==> Passed(E, (minx, miny), bitlimit, us', |outs'|)
    ensures !stop ==> cur' == cur[i := cur'[i]] && cur[i].0 < cur'[i].0 < Pow(2, Limit(bitlimit))
  {
    hide Outcome, Good, Somes, IsOrbit, Searching, Solves, History;
    ghost var m := (minx, miny);
    SearchAdvances(E, Norm(fam), sols, m, cur, us, |outs|, i);
    var o := Step2(fam, D, E, cur[i].0, cur[i].1);
    HistoryGrows(fam, answers, D, E, us, outs, log, o);
    HistoryLog(fam, answers, D, E, us, outs, log);
    us', outs', log', cur' := us, outs + [o], if o.Some? then log + [o.value] else log, cur;
    assert outs'[..|outs'| - 1] == outs;
    res := if o.Some? then answers(|log|) else 0;
    if res != 0 { return true, res, cur', log', us', outs'; }
    var t0 := minx * cur[i].0 + miny * cur[i].1 * E;
    var t2 := minx * cur[i].1 + miny * cur[i].0;
    assert (t0, t2) == Compose(E, m, cur[i]);
    BitsLimit(t0, Limit(bitlimit));
    if 2 * SizeInBase2(t0) > Limit(bitlimit) { return true, res, cur', log', us', outs'; }
    cur' := cur[i := (t0, t2)];
    us' := us + [(t0, t2)];
    HistoryKeeps(fam, answers, D, E, us, outs', log', (t0, t2));
    stop := false;
  }

  // What a caller sees: every set handed out is good, and all before the last were refused.
  ghost predicate HandedOut(fam: Family, answers: nat -> int, D: nat, E: int, res: int, log: seq<Cm>)
  {
    && (forall cm :: cm in log ==> Good(fam, D, E, cm))
    && (forall i :: 0 <= i < |log| - 1 ==> answers(i) == 0)
    && (res != 0 ==> log != [] && res == answers(|log| - 1))
  }

  lemma SearchedMeans(fam: Family, answers: nat -> int, D: nat, E: nat, bitlimit: nat, res: int, log: seq<Cm>,
                      sols: seq<(int, int)>, m: (int, int), us: seq<(int, int)>, outs: seq<Option<Cm>>)
    requires Searched(fam, answers, D, E, bitlimit, res, log, sols, m, us, outs)
    ensures HandedOut(fam, answers, D, E, res, log)
  {
    hide Outcome, Good, IsOrbit, Stops;
  }

  // Nothing tried yet.
  lemma NothingTried(fam: Family, answers: nat -> int, D: nat, E: nat, bitlimit: nat, m: (int, int), found: seq<(int, int)>)
    ensures History(fam, answers, D, E, found, [], [])
    ensures found == [] ==> Searched(fam, answers, D, E, bitlimit, 0, [], found, m, found, []) && HandedOut(fam, answers, D, E, 0, [])
  {
    hide Outcome, Good, Stops, Solves;
  }

  // The loop both searches share.
  method SearchSolutions(fam: Family, answers: nat -> int, D: nat, E: nat, bitlimit: nat, minx: int, miny: int, found: seq<(int, int)>)
    returns (res: int, log: seq<Cm>, ghost us: seq<(int, int)>, ghost outs: seq<Option<Cm>>)
    requires E > 0 && Solves(E, 1, minx, miny) && minx > 0 && miny > 0 && (fam.Freeman? ==> E == 15 * D)
    requires forall h :: h in found ==> h.0 > 0 && h.1 > 0 && Solves(E, Norm(fam), h.0, h.1)
    ensures HandedOut(fam, answers, D, E, res, log)
    ensures Searched(fam, answers, D, E, bitlimit, res, log, found, (minx, miny), us, outs)
  {
    hide Solves, Searching, History, Searched, HandedOut;
    res, log, us, outs := 0, [], found, [];
    NothingTried(fam, answers, D, E, bitlimit, (minx, miny), found);
    var n := |found|;
    if n > 0 {
      var cur := found;
      SearchStarts(E, Norm(fam), found, (minx, miny));
      ghost var limit := Pow(2, Limit(bitlimit));
      while true
        invariant |cur| == n && Searching(E, Norm(fam), found, (minx, miny), cur, us, |outs|, 0)
        invariant History(fam, answers, D, E, us, outs, log) && (|log| > 0 ==> answers(|log| - 1) == 0)
        invariant Passed(E, (minx, miny), bitlimit, us, |outs|)
        decreases if cur[0].0 < limit then limit - cur[0].0 else 0
      {
        ghost var first := cur[0].0;
        for i := 0 to n
          invariant |cur| == n && Searching(E, Norm(fam), found, (minx, miny), cur, us, |outs|, i)
          invariant History(fam, answers, D, E, us, outs, log) && (|log| > 0 ==> answers(|log| - 1) == 0)
          invariant Passed(E, (minx, miny), bitlimit, us, |outs|)
          invariant if i == 0 then cur[0].0 == first else first < cur[0].0 < limit
        {
          var stop;
          stop, res, cur, log, us, outs := TryOne(fam, answers, D, E, bitlimit, minx, miny, cur, i, log, found, us, outs);
          if stop {
            SearchedMeans(fam, answers, D, E, bitlimit, res, log, found, (minx, miny), us, outs);
            return;
          }
        }
        SearchWraps(E, Norm(fam), found, (minx, miny), cur, us, |outs|);
      }
    }
  }

  lemma AllMntCmIff(answers: nat -> int, D: nat, res: int, log: seq<Cm>)
    requires D < 0x1_0000_0000 && !IsSquare(3 * D % 0x1_0000_0000) && HandedOut(Mnt, answers, D, 3 * D % 0x1_0000_0000, res, log)
    ensures forall cm :: cm in log ==> (IsCmDiscriminant(D, cm) <==> 3 * D < 0x1_0000_0000)
  {
    hide IsSquare, IsCmDiscriminant, MntGood;
    forall cm | cm in log ensures IsCmDiscriminant(D, cm) <==> 3 * D < 0x1_0000_0000 { MntCmIff(D, cm); }
  }

  // Type D curves. The product 3*D is formed in 32 bits.
  method CmSearchD(answers: nat -> int, D: nat, bitlimit: nat)
    returns (res: int, log: seq<Cm>, ghost path: seq<State>, ghost us: seq<(int, int)>, ghost outs: seq<Option<Cm>>)
    requires D < 0x1_0000_0000 && bitlimit < 0x1_0000_0000
    ensures HandedOut(Mnt, answers, D, 3 * D % 0x1_0000_0000, res, log)
    ensures forall cm :: cm in log ==> (IsCmDiscriminant(D, cm) <==> 3 * D < 0x1_0000_0000)
    ensures var E := 3 * D % 0x1_0000_0000;
            if IsSquare(E) then res == 0 && log == []
            else IsPath(E, path) && Final(E, KeyOf(path[|path| - 1])) &&
                 Searched(Mnt, answers, D, E, bitlimit, res, log, Recorded(SquareFactors(1, 8), path, -8),
                          (path[|path| - 1].p, path[|path| - 1].q), us, outs)
  {
    var E := 3 * D % 0x1_0000_0000;
    if IsSquare(E) {
      res, log, path, us, outs := 0, [], [], [], [];
      return;
    }
    var minx, miny, found;
    minx, miny, found, path := GeneralPell(E, -8);
    res, log, us, outs := SearchSolutions(Mnt, answers, D, E, bitlimit, minx, miny, found);
    AllMntCmIff(answers, D, res, log);
  }

  // Type G curves. The product 15*D does not wrap.
  method CmSearchG(answers: nat -> int, D: nat, bitlimit: nat)
    returns (res: int, log: seq<Cm>, ghost path: seq<State>, ghost us: seq<(int, int)>, ghost outs: seq<Option<Cm>>)
    requires D < 0x1_0000_0000 && bitlimit < 0x1_0000_0000
    ensures HandedOut(Freeman, answers, D, 15 * D, res, log) && |outs| <= |us|
    ensures forall k :: 0 <= k < |outs| && outs[k].Some? ==> (IsCmDiscriminant(D, outs[k].value) <==> us[k].0 % 15 == 5)
    ensures var E := 15 * D;
            if IsSquare(E) then res == 0 && log == []
            else IsPath(E, path) && Final(E, KeyOf(path[|path| - 1])) &&
                 Searched(Freeman, answers, D, E, bitlimit, res, log, Recorded(SquareFactors(1, 20), path, -20),
                          (path[|path| - 1].p, path[|path| - 1].q), us, outs)
  {
    var E := 15 * D;
    if IsSquare(E) {
      res, log, path, us, outs := 0, [], [], [], [];
      return;
    }
    var minx, miny, found;
    minx, miny, found, path := GeneralPell(E, -20);
    res, log, us, outs := SearchSolutions(Freeman, answers, D, E, bitlimit, minx, miny, found);
  }

  lemma BitsLimit(t: nat, b: nat)
    ensures 2 * SizeInBase2(t) <= b ==> t < Pow(2, b)
  {
    BelowTop(t);
    if 2 * SizeInBase2(t) <= b {
      PowAdd(2, SizeInBase2(t), b - SizeInBase2(t));
      PowPositive(2, b - SizeInBase2(t));
      MulLe(1, Pow(2, b - SizeInBase2(t)), Pow(2, SizeInBase2(t)));
    }
  }

  // ---------------------------------------------------------------- which solutions are tried

  ghost predicate Tried(us: seq<(int, int)>, outs: seq<Option<Cm>>, z: (int, int))
  {
    exists i :: 0 <= i < |outs| && i < |us| && us[i] == z
  }

  // A search whose callback accepts nothing: the solutions of x^2 - E*y^2 = Norm within the length limit are members
  // of the orbit number 0 to |outs| + n - 2, n being the length of the list, and those tried are number 0 to
  // |outs| - 1. So what is missed is at most the rest of the last round.
  lemma {:induction false} SearchTries(fam: Family, answers: nat -> int, D: nat, E: nat, bitlimit: nat, log: seq<Cm>, path: seq<State>,
                        us: seq<(int, int)>, outs: seq<Option<Cm>>, x: nat, y: int) returns (k: nat)
    requires IsRun(E, path) && Norm(fam) * Norm(fam) < E
    requires |path| > 0 && Searched(fam, answers, D, E, bitlimit, 0, log, Listed(path, Norm(fam)), Least(path), us, outs)
    requires Solves(E, Norm(fam), x, y) && x > 0 && y > 0 && 2 * SizeInBase2(x) <= Limit(bitlimit)
    ensures |Listed(path, Norm(fam))| > 0 && k < |outs| + |Listed(path, Norm(fam))| - 1
    ensures Orbit(E, Listed(path, Norm(fam)), Least(path), k) == (x, y)
    ensures Tried(us, outs, (x, y)) <==> k < |outs|
  {
    hide IsRun, Solves, Listed, Least, Compose, History;
    var N, sols, m := Norm(fam), Listed(path, Norm(fam)), Least(path);
    k := AllInOrbit(E, N, path, x, y);
    HistoryTried(fam, answers, D, E, us, outs, log);
    var t := |outs| - 1;
    assert us[t] == Orbit(E, sols, m, t);
    OrbitUnfolds(E, sols, m, t);
    OrbitSolves(E, N, path, t + |sols|);
    if k < |outs| { assert us[k] == (x, y); }
    forall i | 0 <= i < |outs| && us[i] == (x, y) ensures i == k {
      if i < k { OrbitIncreases(E, N, path, i, k); }
      if k < i { OrbitIncreases(E, N, path, k, i); }
    }
    if k >= t + |sols| {
      if k > t + |sols| { OrbitIncreases(E, N, path, t + |sols|, k); }
      SizeMonotone(Orbit(E, sols, m, t + |sols|).0, x);
    }
  }

  lemma HistoryTried(fam: Family, answers: nat -> int, D: nat, E: int, us: seq<(int, int)>, outs: seq<Option<Cm>>, log: seq<Cm>)
    requires History(fam, answers, D, E, us, outs, log)
    ensures |outs| <= |us|
  {
    hide Outcome, Good, Somes, Verdict;
  }

  // ---------------------------------------------------------------- sets handed out that miss the equation

  lemma {:induction false} SmallCofactor(n: int, d: int, top: int, c: int)
    requires n == c * d && 1 <= top < d < n < (top + 1) * (top + 1)
    ensures 2 <= c <= top
  {
    if c <= 1 { MulLe(c, 1, d); }
    if c >= top + 1 {
      MulLe(top + 1, c, d);
      MulLe(top + 1, d, top + 1);
    }
  }

  // Trial division up to the square root.
  ghost predicate NoDivisor(n: int, top: int)
  {
    forall d :: 2 <= d <= top ==> n % d != 0
  }

  lemma {:induction false} Cofactor(n: int, d: int) returns (c: int)
    requires d > 0 && n % d == 0
    ensures n == c * d
  {
    c := n / d;
  }

  lemma NotDivisible(n: int, top: int, c: int, d: int)
    requires NoDivisor(n, top) && 2 <= c <= top
    ensures n != d * c
  {
    if n == d * c { ModZero(d, c); }
  }

  lemma {:induction false} LargeDivisor(n: int, top: int, d: int)
    requires NoDivisor(n, top) && 1 <= top < d < n < (top + 1) * (top + 1)
    ensures n % d != 0
  {
    hide NoDivisor;
    if n % d == 0 {
      var c := Cofactor(n, d);
      SmallCofactor(n, d, top, c);
      NotDivisible(n, top, c, d);
    }
  }

  lemma {:induction false} TrialDivision(n: int, top: int)
    requires n >= 2 && top >= 1 && n < (top + 1) * (top + 1) && NoDivisor(n, top)
    ensures IsPrime(n)
  {
    forall d | 2 <= d < n ensures n % d != 0 {
      if d > top { LargeDivisor(n, top, d); }
    }
  }

  lemma {:induction false} RootIs(n: nat, r: nat)
    requires r * r <= n < (r + 1) * (r + 1)
    ensures ISqrt(n) == r
  {
    var s := ISqrt(n);
    hide ISqrt;
    if s < r { MulLe(s + 1, r, s + 1); MulLe(s + 1, r, r); }
    if r < s { MulLe(r + 1, s, r + 1); MulLe(r + 1, s, s); }
  }

  lemma {:induction false} FirstOfSomes(outs: seq<Option<Cm>>)
    requires |outs| > 0 && outs[0].Some?
    ensures |Somes(outs)| > 0 && Somes(outs)[0] == outs[0].value
  {
    if |outs| > 1 { FirstOfSomes(outs[..|outs| - 1]); }
  }

  lemma {:induction false} RecordedPrefix(factors: seq<Pos>, path: seq<State>, N: int, i: nat)
    requires i <= |path|
    ensures |Recorded(factors, path[..i], N)| <= |Recorded(factors, path, N)|
    ensures Recorded(factors, path, N)[..|Recorded(factors, path[..i], N)|] == Recorded(factors, path[..i], N)
  {
    if i < |path| {
      var l := path[..|path| - 1];
      RecordedPrefix(factors, l, N, i);
      assert l[..i] == path[..i];
    } else {
      assert path[..i] == path;
    }
  }

  // The first set a search hands out comes from the first solution tried.
  lemma {:induction false} FirstHandedOut(fam: Family, answers: nat -> int, D: nat, E: nat, bitlimit: nat, res: int, log: seq<Cm>,
                        sols: seq<(int, int)>, m: (int, int), us: seq<(int, int)>, outs: seq<Option<Cm>>, h: (int, int))
    requires Searched(fam, answers, D, E, bitlimit, res, log, sols, m, us, outs) && BeginsWith(sols, h)
    ensures |us| > 0 && us[0] == h && |outs| > 0 && Outcome(fam, D, us[0].0, outs[0])
    ensures outs[0].Some? ==> |log| > 0 && log[0] == outs[0].value
  {
    hide Outcome, Stops, Good;
    assert |us| > 0;
    if outs[0].Some? { FirstOfSomes(outs); }
  }

  lemma PathContinues(E: nat, path: seq<State>, i: nat)
    requires Expandable(E) && IsPath(E, path) && Final(E, KeyOf(path[|path| - 1])) && i < |path| && path[i].Q != 1
    ensures i + 1 < |path| && CanStep(E, path[i]) && path[i + 1] == Next(E, path[i])
  {
    hide Sound, Next, CanStep, Start, Expandable, ISqrt;
  }

  lemma PathBegins(E: nat, path: seq<State>)
    requires Expandable(E) && IsPath(E, path)
    ensures |path| > 0 && path[0] == Start(E)
  {
    hide Sound, Next, CanStep, Start, Expandable, ISqrt;
  }

  lemma {:induction false} StartIs(E: nat, r: nat, a: int)
    requires r * r < E < (r + 1) * (r + 1) && a == (r + r) / (E - r * r)
    ensures Expandable(E) && ISqrt(E) == r && Start(E) == State(r, E - r * r, a, r, 1, 1, 0, -1)
  {
    RootIs(E, r);
    hide ISqrt;
  }

  lemma NextIs(E: nat, r: nat, s: State, P: int, Q: int, a: int)
    requires s.Q > 0 && CanStep(E, s) && ISqrt(E) == r && P == s.a * s.Q - s.P && Q != 0 && Q * s.Q == E - P * P && a == (r + P) / Q
    ensures Next(E, s) == State(P, Q, a, s.a * s.p + s.pm, s.a * s.q + s.qm, s.p, s.q, -s.d)
  {
    hide ISqrt;
    ExactQuotient(E - P * P, s.Q, Q);
  }

  lemma {:induction false} ExactQuotient(x: int, m: int, q: int)
    requires m > 0 && x == q * m
    ensures x / m == q
  {
    DivModUnique(x, m, q, 0);
  }

  lemma RunMeans(E: nat, path: seq<State>)
    requires IsRun(E, path)
    ensures Expandable(E) && IsPath(E, path) && Final(E, KeyOf(path[|path| - 1]))
  {
    hide Expandable, IsPath, Final;
  }

  // The expansion of sqrt(593) meets norm -8 in its third position, with the convergent 73/3.
  lemma {:induction false} ExpansionOf593(E: nat, path: seq<State>)
    requires E == 593 && IsRun(E, path)
    ensures |path| >= 3 && path[0] == State(24, 17, 2, 24, 1, 1, 0, -1) && path[1] == State(10, 29, 1, 49, 2, 24, 1, 1)
    ensures path[2] == State(19, 8, 5, 73, 3, 49, 2, -1)
  {
    hide *;
    RunMeans(E, path);
    StartIs(E, 24, 2);
    PathBegins(E, path);
    PathContinues(E, path, 0);
    NextIs(E, 24, path[0], 10, 29, 1);
    PathContinues(E, path, 1);
    NextIs(E, 24, path[1], 19, 8, 5);
  }

  ghost predicate BeginsWith(sols: seq<(int, int)>, h: (int, int))
  {
    |sols| > 0 && sols[0] == h
  }

  lemma RecordedSnoc(factors: seq<Pos>, path: seq<State>, N: int, i: nat)
    requires i < |path|
    ensures Recorded(factors, path[..i + 1], N) == Recorded(factors, path[..i], N) + Hits(factors, path[i], N)
  {
    assert path[..i + 1][..i] == path[..i];
  }

  lemma NoHits(factors: seq<Pos>, s: State, N: int)
    requires s.d != Sign(N)
    ensures Hits(factors, s, N) == []
  {
  }

  // The hits with the factors 1 and 2.
  lemma TwoFactors(s: State, N: int)
    requires s.d == Sign(N)
    ensures Hits([1, 2], s, N) ==
      (if s.Q == Abs(N) then [(s.p, s.q)] else []) + (if s.Q == Abs(N) / 4 then [(s.p * 2, s.q * 2)] else [])
  {
    var f: seq<Pos> := [1, 2];
    assert f[..1] == [1] && f[..1][..0] == [];
    assert Sq(1) == 1 && Sq(2) == 4 && Abs(N) / 1 == Abs(N);
    assert Hits(f[..1], s, N) == if s.d != Sign(N) then [] else Hits([], s, N) + if s.Q == Abs(N) then [(s.p * 1, s.q * 1)] else [];
  }

  lemma FactorsOfEight()
    ensures SquareFactors(1, 8) == [1, 2] && SquareFactors(1, 20) == [1, 2]
  {
  }

  lemma {:induction false} FirstHit593(path: seq<State>)
    requires |path| >= 3 && path[0] == State(24, 17, 2, 24, 1, 1, 0, -1) && path[1] == State(10, 29, 1, 49, 2, 24, 1, 1)
    requires path[2] == State(19, 8, 5, 73, 3, 49, 2, -1)
    ensures BeginsWith(Recorded(SquareFactors(1, 8), path, -8), (73, 3))
  {
    hide Recorded, Hits, SquareFactors;
    FactorsOfEight();
    var f: seq<Pos> := [1, 2];
    RecordedSnoc(f, path, -8, 0);
    RecordedSnoc(f, path, -8, 1);
    RecordedSnoc(f, path, -8, 2);
    TwoFactors(path[0], -8);
    NoHits(f, path[1], -8);
    TwoFactors(path[2], -8);
    RecordedNone(f, path, -8);
    RecordedPrefix(f, path, -8, 3);
  }

  lemma RecordedNone(factors: seq<Pos>, path: seq<State>, N: int)
    ensures Recorded(factors, path[..0], N) == []
  {
  }

  // In the expansion of sqrt(3045) the first convergent 55/1 has norm -20.
  lemma {:induction false} ExpansionOf3045(E: nat, path: seq<State>)
    requires E == 3045 && IsRun(E, path)
    ensures |path| >= 1 && path[0] == State(55, 20, 5, 55, 1, 1, 0, -1)
  {
    hide *;
    RunMeans(E, path);
    StartIs(E, 55, 5);
    PathBegins(E, path);
  }

  lemma {:induction false} FirstHit3045(path: seq<State>)
    requires |path| >= 1 && path[0] == State(55, 20, 5, 55, 1, 1, 0, -1)
    ensures BeginsWith(Recorded(SquareFactors(1, 20), path, -20), (55, 1))
  {
    hide Recorded, Hits, SquareFactors;
    FactorsOfEight();
    var f: seq<Pos> := [1, 2];
    RecordedSnoc(f, path, -20, 0);
    TwoFactors(path[0], -20);
    RecordedNone(f, path, -20);
    RecordedPrefix(f, path, -20, 1);
  }

  lemma Primes577()
    ensures IsPrime(577) && IsPrime(601)
  {
    assert forall d :: 2 <= d <= 24 ==> 577 % d != 0;
    assert forall d :: 2 <= d <= 24 ==> 601 % d != 0;
    hide IsPrime;
    TrialDivision(577, 24);
    TrialDivision(601, 24);
  }

  lemma Prime751()
    ensures IsPrime(751) && IsPrime(11)
  {
    assert forall d :: 2 <= d <= 27 ==> 751 % d != 0;
    hide IsPrime;
    TrialDivision(751, 27);
    TrialDivision(11, 3);
  }

  lemma Prime8443()
    ensures IsPrime(8443)
  {
    assert forall d :: 2 <= d <= 91 ==> 8443 % d != 0;
    hide IsPrime;
    TrialDivision(8443, 91);
  }

  lemma {:induction false} SmallPrimes()
    ensures IsPrime(577) && IsPrime(601) && IsPrime(8443) && IsPrime(751) && IsPrime(11)
  {
    hide IsPrime;
    Primes577();
    Prime751();
    Prime8443();
  }

  lemma {:induction false} Splittable()
    ensures !Unsplittable(601) && !Unsplittable(8261)
  {
    SmallPrimes();
    hide Splits;
    PrimeSplits(601);
    assert SplitsAt(601, 601);
    ElevenTimes();
    assert SplitsAt(8261, 751);
  }

  lemma {:induction false} ElevenTimes()
    ensures Splits(8261, 11, 751)
  {
    SmallPrimes();
    forall p | IsPrime(p) && 11 % p == 0 ensures p <= 11 { if p > 11 { ModSmall(11, p); } }
  }

  // The first set of the type D search for D = 1431655963, whose product 3*D wraps to 593, is q = 577, n = 601 with
  // 4q - t^2 = 1779, which is not D times a square.
  lemma {:induction false} MntWrapFails(answers: nat -> int, D: nat, E: nat, bitlimit: nat, res: int, log: seq<Cm>, path: seq<State>,
                        m: (int, int), us: seq<(int, int)>, outs: seq<Option<Cm>>)
    requires D == 1431655963 && E == 3 * D % 0x1_0000_0000 && IsRun(E, path)
    requires Searched(Mnt, answers, D, E, bitlimit, res, log, Recorded(SquareFactors(1, 8), path, -8), m, us, outs)
    ensures |log| > 0 && log[0].q == 577 && log[0].n == 601 && !IsCmDiscriminant(D, log[0])
  {
    hide *;
    assert E == 593;
    ExpansionOf593(E, path);
    FirstHit593(path);
    FirstHandedOut(Mnt, answers, D, E, bitlimit, res, log, Recorded(SquareFactors(1, 8), path, -8), m, us, outs, (73, 3));
    MntOf73(D, us[0].0, outs[0]);
  }

  lemma {:induction false} MntOf73(D: nat, U: int, o: Option<Cm>)
    requires D == 1431655963 && U == 73 && Outcome(Mnt, D, U, o)
    ensures o.Some? && o.value.q == 577 && o.value.n == 601 && !IsCmDiscriminant(D, o.value)
  {
    SmallPrimes();
    Splittable();
    hide IsPrime, Unsplittable, Splits;
    assert MntResidue(73) && MntL(73) == 24 && MntQ(73) == 577 && MntN(73) == 601;
    forall V: int ensures 1779 != D * (V * V) {
      if V != 0 { assert V * V >= 1; }
    }
  }

  // The first set of the type G search for D = 203 comes from U = 55: q = 8443 and n = 11*751, with 4q - t^2 = 283.
  lemma {:induction false} FreemanOtherClassFails(answers: nat -> int, D: nat, E: nat, bitlimit: nat, res: int, log: seq<Cm>, path: seq<State>,
                        m: (int, int), us: seq<(int, int)>, outs: seq<Option<Cm>>)
    requires D == 203 && E == 15 * D && IsRun(E, path)
    requires Searched(Freeman, answers, D, E, bitlimit, res, log, Recorded(SquareFactors(1, 20), path, -20), m, us, outs)
    ensures |log| > 0 && log[0].q == 8443 && log[0].n == 8261 && !IsCmDiscriminant(D, log[0])
  {
    hide *;
    ExpansionOf3045(E, path);
    FirstHit3045(path);
    FirstHandedOut(Freeman, answers, D, E, bitlimit, res, log, Recorded(SquareFactors(1, 20), path, -20), m, us, outs, (55, 1));
    FreemanOf55(D, us[0].0, outs[0]);
  }

  lemma {:induction false} FreemanOf55(D: nat, U: int, o: Option<Cm>)
    requires D == 203 && U == 55 && Outcome(Freeman, D, U, o)
    ensures o.Some? && o.value.q == 8443 && o.value.n == 8261 && !IsCmDiscriminant(D, o.value)
  {
    SmallPrimes();
    Splittable();
    hide IsPrime, Unsplittable, Splits;
    assert FreemanX(55) == 4 && FreemanN(4) == 8261 && FreemanT(4) == 183;
    forall V: int ensures 283 != D * (V * V) {
      if V != 0 { SquareAtLeast(V); }
    }
  }

  lemma SquareAtLeast(V: int)
    requires V != 0
    ensures V * V == 1 || V * V >= 4
  {
  }

  // This is what the searches do, whatever the callback says.
  method WrappedSearch(answers: nat -> int, D: nat, bitlimit: nat) returns (res: int, log: seq<Cm>)
    requires D == 1431655963 && bitlimit < 0x1_0000_0000
    ensures |log| > 0 && log[0].q == 577 && log[0].n == 601 && !IsCmDiscriminant(D, log[0])
  {
    hide *;
    ghost var path, us, outs;
    res, log, path, us, outs := CmSearchD(answers, D, bitlimit);
    ghost var E := 3 * D % 0x1_0000_0000;
    assert E == 593;
    StartIs(E, 24, 2);
    RunIs(E, path);
    MntWrapFails(answers, D, E, bitlimit, res, log, path, (path[|path| - 1].p, path[|path| - 1].q), us, outs);
  }

  method OtherClassSearch(answers: nat -> int, D: nat, bitlimit: nat) returns (res: int, log: seq<Cm>)
    requires D == 203 && bitlimit < 0x1_0000_0000
    ensures |log| > 0 && log[0].q == 8443 && log[0].n == 8261 && !IsCmDiscriminant(D, log[0])
  {
    hide *;
    ghost var path, us, outs;
    res, log, path, us, outs := CmSearchG(answers, D, bitlimit);
    ghost var E := 15 * D;
    StartIs(E, 55, 5);
    RunIs(E, path);
    FreemanOtherClassFails(answers, D, E, bitlimit, res, log, path, (path[|path| - 1].p, path[|path| - 1].q), us, outs);
  }

  lemma RunIs(E: nat, path: seq<State>)
    requires Expandable(E)
    ensures !IsSquare(E)
    ensures IsPath(E, path) && Final(E, KeyOf(path[|path| - 1])) ==> IsRun(E, path)
  {
    hide IsPath, Final;
  }

  // ---------------------------------------------------------------- a solution that is short enough and not tried

  // The first nine positions of the expansion of sqrt(201), as far as hits go.
  predicate Begins201(path: seq<State>)
  {
    && |path| > 8 && path[0].Q == 5 && path[0].d == -1 && path[1].d == 1 && path[2].Q == 11 && path[2].d == -1 && path[3].d == 1
    && path[4] == State(9, 8, 2, 241, 17, 156, 11, -1) && path[5].d == 1 && path[7].d == 1
    && path[8] == State(7, 8, 2, 8549, 603, 7670, 541, -1)
  }

  lemma {:induction false} ExpansionOf201(E: nat, path: seq<State>)
    requires E == 201 && IsRun(E, path)
    ensures Begins201(path)
  {
    hide *;
    RunMeans(E, path);
    StartIs(E, 14, 5);
    PathBegins(E, path);
    PathContinues(E, path, 0);
    NextIs(E, 14, path[0], 11, 16, 1);
    PathContinues(E, path, 1);
    NextIs(E, 14, path[1], 5, 11, 1);
    PathContinues(E, path, 2);
    NextIs(E, 14, path[2], 6, 15, 1);
    PathContinues(E, path, 3);
    NextIs(E, 14, path[3], 9, 8, 2);
    PathContinues(E, path, 4);
    NextIs(E, 14, path[4], 7, 19, 1);
    PathContinues(E, path, 5);
    NextIs(E, 14, path[5], 12, 3, 8);
    PathContinues(E, path, 6);
    NextIs(E, 14, path[6], 12, 19, 1);
    PathContinues(E, path, 7);
    NextIs(E, 14, path[7], 7, 8, 2);
    Begins201Is(path);
  }

  lemma Begins201Is(path: seq<State>)
    requires |path| > 8 && path[0].Q == 5 && path[0].d == -1 && path[1].d == 1 && path[2].Q == 11 && path[2].d == -1 && path[3].d == 1
    requires path[4] == State(9, 8, 2, 241, 17, 156, 11, -1) && path[5].d == 1 && path[7].d == 1
    requires path[8] == State(7, 8, 2, 8549, 603, 7670, 541, -1)
    ensures Begins201(path)
  {
  }

  lemma {:induction false} HitsOf201(path: seq<State>)
    requires Begins201(path)
    ensures BeginsWith(Recorded(SquareFactors(1, 8), path, -8), (241, 17))
    ensures (8549, 603) in Recorded(SquareFactors(1, 8), path, -8)
  {
    hide Recorded, Hits, SquareFactors;
    FactorsOfEight();
    var f: seq<Pos> := [1, 2];
    RecordedNone(f, path, -8);
    RecordedSnoc(f, path, -8, 0);
    TwoFactors(path[0], -8);
    RecordedSnoc(f, path, -8, 1);
    NoHits(f, path[1], -8);
    RecordedSnoc(f, path, -8, 2);
    TwoFactors(path[2], -8);
    RecordedSnoc(f, path, -8, 3);
    NoHits(f, path[3], -8);
    RecordedSnoc(f, path, -8, 4);
    TwoFactors(path[4], -8);
    RecordedPrefix(f, path, -8, 5);
    TwoFactors(path[8], -8);
    RecordedContain(f, path, -8, 8, (8549, 603));
  }

  // The type D search for D = 67 with 30 bits hands out nothing: the first solution (241, 17) gives a composite q, its
  // successor is too long, and the second solution (8549, 603), which is short enough and of the right residue, with
  // q = 8122501 and n = 8119651, is never tried.
  lemma {:induction false} SearchStopsShort(answers: nat -> int, D: nat, E: nat, bitlimit: nat, res: int, log: seq<Cm>, path: seq<State>,
                        us: seq<(int, int)>, outs: seq<Option<Cm>>)
    requires D == 67 && E == 3 * D % 0x1_0000_0000 && bitlimit == 30 && IsRun(E, path) && |path| > 0
    requires Searched(Mnt, answers, D, E, bitlimit, res, log, Recorded(SquareFactors(1, 8), path, -8), Least(path), us, outs)
    ensures res == 0 && log == [] && (8549, 603) in Recorded(SquareFactors(1, 8), path, -8) && !Tried(us, outs, (8549, 603))
    ensures 2 * SizeInBase2(8549) <= Limit(bitlimit) && MntResidue(8549) && MntQ(8549) == 8122501 && MntN(8549) == 8119651
  {
    hide *;
    assert E == 201;
    ExpansionOf201(E, path);
    assert |path| > 8 && path[8].p == 8549 by { Begins201Means(path); }
    HitsOf201(path);
    FirstHandedOut(Mnt, answers, D, E, bitlimit, res, log, Recorded(SquareFactors(1, 8), path, -8), Least(path), us, outs, (241, 17));
    MntOf241(D, us[0].0, outs[0]);
    LeastBeyond(E, path, 8);
    SuccessorTooLong(E, Least(path), bitlimit);
    StoppedAtOnce(Mnt, answers, D, E, bitlimit, res, log, Recorded(SquareFactors(1, 8), path, -8), Least(path), us, outs);
    MntOf8549();
  }

  lemma {:induction false} MntOf241(D: nat, U: int, o: Option<Cm>)
    requires U == 241 && Outcome(Mnt, D, U, o)
    ensures o.None?
  {
    hide Unsplittable, Splits;
    assert MntL(241) == 80 && MntQ(241) == 6401;
    assert 6401 % 37 == 0;
  }

  lemma {:induction false} MntOf8549()
    ensures 2 * SizeInBase2(8549) <= Limit(30) && MntResidue(8549) && MntQ(8549) == 8122501 && MntN(8549) == 8119651
  {
    assert MntL(8549) == 2850;
  }

  lemma Begins201Means(path: seq<State>)
    requires Begins201(path)
    ensures |path| > 8 && path[8].p == 8549
  {
  }

  lemma {:induction false} LeastBeyond(E: nat, path: seq<State>, k: nat)
    requires IsRun(E, path) && k < |path|
    ensures Least(path).0 >= path[k].p && Least(path).1 > 0 && Least(path).0 > 0
    decreases |path| - k
  {
    RunEnd(E, path);
    hide IsRun;
    if k + 1 < |path| {
      RunStep(E, path, k);
      LeastBeyond(E, path, k + 1);
    }
  }

  lemma {:induction false} SuccessorTooLong(E: nat, m: (int, int), bitlimit: nat)
    requires m.0 >= 8549 && m.1 > 0 && bitlimit == 30
    ensures TooLong(E, m, (241, 17), bitlimit)
  {
    MulLe(0, m.1 * 17, E);
    hide SizeInBase2;
    SizeAbove(Compose(E, m, (241, 17)).0);
  }

  lemma {:induction false} SizeAbove(t: nat)
    requires t >= 0x10_0000
    ensures SizeInBase2(t) > 20
  {
    assert Pow(2, 10) == 1024 by { assert Pow(2, 5) == 32; PowAdd(2, 5, 5); }
    PowAdd(2, 10, 10);
    BelowTop(t);
    hide Pow, SizeInBase2;
    if SizeInBase2(t) <= 20 { UnitGrows(SizeInBase2(t), 20); }
  }

  lemma {:induction false} StoppedAtOnce(fam: Family, answers: nat -> int, D: nat, E: nat, bitlimit: nat, res: int, log: seq<Cm>,
                        sols: seq<(int, int)>, m: (int, int), us: seq<(int, int)>, outs: seq<Option<Cm>>)
    requires Searched(fam, answers, D, E, bitlimit, res, log, sols, m, us, outs) && |sols| > 0 && |outs| > 0 && |us| > 0
    requires outs[0].None? && TooLong(E, m, us[0], bitlimit)
    ensures |outs| == 1 && res == 0 && log == []
    ensures forall z :: z != us[0] ==> !Tried(us, outs, z)
  {
    hide Outcome, Good, TooLong, IsOrbit;
    assert |outs| == 1;
    assert outs[..|outs| - 1] == [] && Somes([]) == [];
  }

  method StoppedSearch(answers: nat -> int, D: nat, bitlimit: nat) returns (res: int, log: seq<Cm>)
    requires D == 67 && bitlimit == 30
    ensures res == 0 && log == []
  {
    hide *;
    ghost var path, us, outs;
    res, log, path, us, outs := CmSearchD(answers, D, bitlimit);
    ghost var E := 3 * D % 0x1_0000_0000;
    assert E == 201;
    StartIs(E, 14, 5);
    RunIs(E, path);
    LeastIs(path);
    SearchStopsShort(answers, D, E, bitlimit, res, log, path, us, outs);
  }

  lemma LeastIs(path: seq<State>)
    requires |path| > 0
    ensures Least(path) == (path[|path| - 1].p, path[|path| - 1].q)
  {
  }
}
