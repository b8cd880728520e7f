// Integer facts the other modules share: powers, remainders, primes and inverses modulo n.
module Arith {

  function Pow(b: int, e: nat): int
  {
    if e == 0 then 1 else b * Pow(b, e - 1)
  }

  lemma PowPositive(b: int, e: nat)
    requires b > 0
    ensures Pow(b, e) > 0
  {
  }

  lemma PowAdd(b: int, m: nat, n: nat)
    ensures Pow(b, m + n) == Pow(b, m) * Pow(b, n)
  {
    if m > 0 {
      PowAdd(b, m - 1, n);
      assert Pow(b, m + n) == b * Pow(b, m - 1 + n);
    }
  }

  lemma MulLe(a: int, b: int, c: int)
    requires a <= b && 0 <= c
    ensures a * c <= b * c
  {
  }

  // Norms x^2 - N*y^2 multiply out.
  lemma {:induction false} NormProduct(N: int, a: int, b: int, x: int, y: int)
    ensures (a * a - N * (b * b)) * (x * x - N * (y * y))
         == (a * x) * (a * x) + N * (N * ((b * y) * (b * y))) - N * ((a * y) * (a * y)) - N * ((b * x) * (b * x))
  {
    ProductOfDifferences(N, a * a, b * b, x * x, y * y);
    SquareOfProduct(a, x);
    SquareOfProduct(b, y);
    SquareOfProduct(a, y);
    SquareOfProduct(b, x);
  }

  lemma ProductOfDifferences(N: int, a: int, b: int, c: int, d: int)
    ensures (a - N * b) * (c - N * d) == a * c + N * (N * (b * d)) - N * (a * d) - N * (b * c)
  {
  }

  lemma SquareOfProduct(a: int, b: int)
    ensures (a * b) * (a * b) == (a * a) * (b * b)
  {
  }

  lemma CrossTerms(N: int, s: int, t: int, u: int, v: int)
    ensures (s + N * t) * (s + N * t) - N * ((u + v) * (u + v))
         == s * s + N * (N * (t * t)) - N * (u * u) - N * (v * v) + 2 * N * (s * t - u * v)
  {
  }

  lemma RegroupProducts(a: int, b: int, x: int, y: int)
    ensures (a * x) * (b * y) == (a * y) * (b * x)
  {
  }

  // ---------------------------------------------------------------- remainders

  lemma DivModUnique(x: int, n: int, q: int, r: int)
    requires n > 0 && 0 <= r < n && x == q * n + r
    ensures x / n == q && x % n == r
  {
    var d := x / n - q;
    assert x == (x / n) * n + x % n;
    assert d * n == r - x % n;
    if d > 0 { MulLe(1, d, n); }
    if d < 0 { MulLe(d, -1, n); }
  }

  // Adding a multiple of n does not change the remainder.
  lemma ModMultiple(x: int, k: int, n: int)
    requires n > 0
    ensures (x + k * n) % n == x % n
  {
    assert x + k * n == (x / n + k) * n + x % n;
    DivModUnique(x + k * n, n, x / n + k, x % n);
  }

  lemma ModIntro(a: int, b: int, k: int, n: int)
    requires n > 0 && a == b + k * n
    ensures a % n == b % n
  {
    ModMultiple(b, k, n);
  }

  lemma ModElim(a: int, b: int, n: int) returns (k: int)
    requires n > 0 && a % n == b % n
    ensures a == b + k * n
  {
    k := a / n - b / n;
    assert a == (a / n) * n + a % n;
    assert b == (b / n) * n + b % n;
  }

  lemma ModSmall(a: int, n: int)
    requires 0 <= a < n
    ensures a % n == a
  {
    DivModUnique(a, n, 0, a);
  }

  lemma ModMod(a: int, n: int)
    requires n > 0
    ensures a % n % n == a % n
  {
    ModSmall(a % n, n);
  }

  lemma ModAdd(a: int, b: int, c: int, d: int, n: int)
    requires n > 0 && a % n == b % n && c % n == d % n
    ensures (a + c) % n == (b + d) % n
    ensures (a - c) % n == (b - d) % n
  {
    var k := ModElim(a, b, n);
    var l := ModElim(c, d, n);
    assert (k + l) * n == k * n + l * n;
    ModIntro(a + c, b + d, k + l, n);
    assert (k - l) * n == k * n - l * n;
    ModIntro(a - c, b - d, k - l, n);
  }

  lemma ModMul(a: int, b: int, c: int, d: int, n: int)
    requires n > 0 && a % n == b % n && c % n == d % n
    ensures (a * c) % n == (b * d) % n
  {
    var k := ModElim(a, b, n);
    var l := ModElim(c, d, n);
    ProductExpands(b, k, d, l, n);
    ModIntro(a * c, b * d, b * l + k * d + k * l * n, n);
  }

  lemma ProductExpands(b: int, k: int, d: int, l: int, n: int)
    ensures (b + k * n) * (d + l * n) == b * d + (b * l + k * d + k * l * n) * n
  {
  }

  lemma ModZero(k: int, n: int)
    requires n > 0
    ensures (k * n) % n == 0
  {
    ModMultiple(0, k, n);
    ModSmall(0, n);
  }

  // ---------------------------------------------------------------- primes

  predicate IsPrime(p: int)
  {
    2 <= p && forall d :: 2 <= d < p ==> p % d != 0
  }

  // Extended Euclid: g is the greatest common divisor of a and b, and a*x + b*y == g.
  function Euclid(a: nat, b: nat): (r: (int, int, int))
    requires a > 0 || b > 0
    ensures r.0 > 0 && a * r.1 + b * r.2 == r.0
    ensures a % r.0 == 0 && b % r.0 == 0
    decreases b
  {
    if b == 0 then
      ModZero(1, a);
      ModSmall(0, a);
      (a, 1, 0)
    else
      var s := Euclid(b, a % b);
      EuclidStep(a, b, s.0, s.1, s.2);
      (s.0, s.2, s.1 - (a / b) * s.2)
  }

  lemma EuclidStep(a: nat, b: nat, g: int, x: int, y: int)
    requires b > 0 && g > 0 && b * x + (a % b) * y == g
    requires b % g == 0 && (a % b) % g == 0
    ensures a * y + b * (x - (a / b) * y) == g
    ensures a % g == 0
  {
    var q, r := a / b, a % b;
    assert a == q * b + r;
    assert (q * b + r) * y + b * (x - q * y) == b * x + r * y;
    ModMul(b, 0, q, q, g);
    ModSmall(0, g);
    ModAdd(b * q, 0, r, 0, g);
  }

  predicate Coprime(a: int, n: int)
    requires n > 0
  {
    Euclid(a % n, n).0 == 1
  }

  // mpz_invert: the inverse of a modulo n, for a coprime to n.
  function Inverse(a: int, n: int): (r: int)
    requires n > 1 && Coprime(a, n)
    ensures 0 < r < n && (a * r) % n == 1
  {
    var e := Euclid(a % n, n);
    var r := e.1 % n;
    ModIntro((a % n) * e.1, 1, -e.2, n);
    ModSmall(1, n);
    ModMod(a, n);
    ModMod(e.1, n);
    ModMul(a, a % n, r, e.1, n);
    ModSmall(0, n);
    r
  }

  // Below a prime everything but zero is invertible.
  lemma PrimeCoprime(a: int, p: int)
    requires IsPrime(p) && a % p != 0
    ensures Coprime(a, p)
  {
    var g := Euclid(a % p, p).0;
    if g > p { ModSmall(p, g); }
    if g == p { ModSmall(a % p, p); }
  }

  // Euclid's lemma.
  lemma PrimeDivides(a: int, b: int, p: int)
    requires IsPrime(p) && (a * b) % p == 0
    ensures a % p == 0 || b % p == 0
  {
    if a % p != 0 {
      PrimeCoprime(a, p);
      Cancel(a, b, 0, p);
      ModSmall(0, p);
    }
  }

  // A factor coprime to n cancels.
  lemma Cancel(a: int, b: int, c: int, n: int)
    requires n > 1 && Coprime(a, n) && (a * b) % n == (a * c) % n
    ensures b % n == c % n
  {
    var r := Inverse(a, n);
    ModSmall(1, n);
    ModMul(a * b, a * c, r, r, n);
    ModMul(a * r, 1, b, b, n);
    ModMul(a * r, 1, c, c, n);
    assert a * r * b == a * b * r && a * r * c == a * c * r;
  }

  lemma InverseUnique(a: int, r: int, s: int, n: int)
    requires n > 1 && (a * r) % n == 1 && (a * s) % n == 1
    ensures r % n == s % n
  {
    ModSmall(1, n);
    ModMul(a * r, 1, s, s, n);
    ModMul(a * s, 1, r, r, n);
    assert a * r * s == a * s * r;
  }

  // Having an inverse is the same as being coprime.
  lemma CoprimeIntro(a: int, r: int, n: int)
    requires n > 1 && (a * r) % n == 1
    ensures Coprime(a, n)
  {
    var e := Euclid(a % n, n);
    ModSmall(1, n);
    ModMod(a, n);
    ModMul(a, a % n, r, r, n);
    var k := ModElim((a % n) * r, 1, n);
    var x, y := a % n / e.0, n / e.0;
    assert a % n == x * e.0 && n == y * e.0;
    assert (x * r - k * y) * e.0 == 1;
    UnitFactor(x * r - k * y, e.0);
  }

  lemma UnitFactor(c: int, g: int)
    requires g > 0 && c * g == 1
    ensures g == 1
  {
    if g > 1 {
      if c >= 1 { MulLe(1, c, g); } else { MulLe(c, 0, g); }
    }
  }
}
