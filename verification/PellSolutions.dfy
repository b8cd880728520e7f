// All solutions of x^2 - D*y^2 = N for N^2 below D: they are read off the convergents.
module PellSolutions {
  import opened Arith
  import opened Pell

  // ---------------------------------------------------------------- the order of Z[sqrt(D)]

  // a + b*sqrt(D) is not negative.
  predicate NonNeg(D: nat, a: int, b: int)
  {
    (a >= 0 && a * a >= D * (b * b)) || (b >= 0 && a * a <= D * (b * b))
  }

  lemma {:induction false} Dominates(x: int, y: int)
    requires x >= 0 && x * x >= y * y
    ensures -x <= y <= x
  {
    if y > x { MulLe(x + 1, y, x); MulLe(x + 1, y, y); }
    if y < -x { MulLe(x + 1, -y, x); MulLe(x + 1, -y, -y); }
  }

  lemma SquareNonNeg(a: int)
    ensures a * a >= 0
  {
    if a >= 0 { MulLe(0, a, a); } else { MulLe(a, 0, -a); }
  }

  // s >= t and u >= v, not negative: the products compare.
  lemma ProductsCompare(s: int, t: int, u: int, v: int)
    requires s >= t >= 0 && u >= v >= 0
    ensures s * u >= t * v
  {
    MulLe(t, s, u);
    MulLe(v, u, t);
  }

  lemma ScaledSquare(D: nat, b: int)
    ensures D * (b * b) >= 0
  {
    SquareNonNeg(b);
    MulLe(0, D, b * b);
  }

  lemma SquareSplits(a: int, b: int)
    ensures (a * b) * (a * b) == (a * a) * (b * b)
  {
  }

  lemma SquareSplitsScaled(D: int, b: int, d: int)
    ensures (D * (b * d)) * (D * (b * d)) == (D * (b * b)) * (D * (d * d)) && D * ((b * d) * (b * d)) == (D * (b * b)) * (d * d)
    ensures (D * (b * b)) * (d * d) == (b * b) * (D * (d * d))
  {
    SquareSplits(b, d);
  }

  // The norm of a product.
  lemma {:induction false} NormOfProduct(D: int, a: int, b: int, c: int, d: int)
    ensures var x, y := a * c + D * (b * d), a * d + b * c;
            x * x - D * (y * y) == (a * a - D * (b * b)) * (c * c - D * (d * d))
  {
    CrossTerms(D, a * c, b * d, a * d, b * c);
    NormProduct(D, a, b, c, d);
    RegroupProducts(a, b, c, d);
  }

  lemma {:induction false} ProductSign(s: int, t: int)
    ensures (s >= 0 && t >= 0) || (s <= 0 && t <= 0) ==> s * t >= 0
    ensures (s >= 0 && t <= 0) || (s <= 0 && t >= 0) ==> s * t <= 0
  {
    if t >= 0 {
      if s >= 0 { MulLe(0, s, t); } else { MulLe(s, 0, t); }
    } else {
      if s >= 0 { MulLe(0, s, -t); } else { MulLe(s, 0, -t); }
    }
  }

  lemma {:induction false} NonNegProduct(D: nat, a: int, b: int, c: int, d: int)
    requires NonNeg(D, a, b) && NonNeg(D, c, d)
    ensures NonNeg(D, a * c + D * (b * d), a * d + b * c)
  {
    NormOfProduct(D, a, b, c, d);
    ProductSign(a * a - D * (b * b), c * c - D * (d * d));
    if a >= 0 && a * a >= D * (b * b) {
      if c >= 0 && c * c >= D * (d * d) { LargeLarge(D, a, b, c, d); } else { LargeSmall(D, a, b, c, d); }
    } else {
      if c >= 0 && c * c >= D * (d * d) { LargeSmall(D, c, d, a, b); } else { SmallSmall(D, a, b, c, d); }
    }
  }

  lemma {:induction false} LargeLarge(D: nat, a: int, b: int, c: int, d: int)
    requires a >= 0 && a * a >= D * (b * b) && c >= 0 && c * c >= D * (d * d)
    ensures a * c >= D * (b * d) >= -(a * c)
  {
    ScaledSquare(D, b);
    ScaledSquare(D, d);
    ProductsCompare(a * a, D * (b * b), c * c, D * (d * d));
    SquareSplits(a, c);
    SquareSplitsScaled(D, b, d);
    MulLe(0, a, c);
    Dominates(a * c, D * (b * d));
  }

  lemma {:induction false} LargeSmall(D: nat, a: int, b: int, c: int, d: int)
    requires a >= 0 && a * a >= D * (b * b) && d >= 0 && c * c <= D * (d * d)
    ensures a * d >= b * c >= -(a * d)
  {
    SquareNonNeg(b);
    SquareNonNeg(d);
    MulLe(D * (b * b), a * a, d * d);
    MulLe(c * c, D * (d * d), b * b);
    SquareSplits(a, d);
    SquareSplits(b, c);
    SquareSplitsScaled(D, b, d);
    MulLe(0, a, d);
    Dominates(a * d, b * c);
  }

  lemma {:induction false} SmallSmall(D: nat, a: int, b: int, c: int, d: int)
    requires b >= 0 && a * a <= D * (b * b) && d >= 0 && c * c <= D * (d * d)
    ensures D * (b * d) >= a * c >= -(D * (b * d))
  {
    SquareNonNeg(a);
    SquareNonNeg(c);
    ProductsCompare(D * (b * b), a * a, D * (d * d), c * c);
    SquareSplits(a, c);
    SquareSplitsScaled(D, b, d);
    MulLe(0, b, d);
    MulLe(0, D, b * d);
    Dominates(D * (b * d), a * c);
  }

  lemma SquareOfSum(D: int, a: int, b: int)
    ensures (a + b) * (a + b) == a * a + 2 * (a * b) + b * b && D * ((a + b) * (a + b)) == D * (a * a) + 2 * (D * (a * b)) + D * (b * b)
  {
  }

  lemma {:induction false} NonNegSum(D: nat, a: int, b: int, c: int, d: int)
    requires NonNeg(D, a, b) && NonNeg(D, c, d)
    ensures NonNeg(D, a + c, b + d)
  {
    SquareOfSum(D, a, c);
    SquareOfSum(D, b, d);
    if a >= 0 && a * a >= D * (b * b) {
      if c >= 0 && c * c >= D * (d * d) { LargeLarge(D, a, b, c, d); } else { MixedSum(D, a, b, c, d); }
    } else {
      if c >= 0 && c * c >= D * (d * d) { MixedSum(D, c, d, a, b); } else { SmallSmall(D, a, b, c, d); }
    }
  }

  lemma {:induction false} MixedSum(D: nat, a: int, b: int, c: int, d: int)
    requires a >= 0 && a * a >= D * (b * b) && d >= 0 && c * c <= D * (d * d)
    ensures NonNeg(D, a + c, b + d)
  {
    MixedCases(D, a, b, c, d, a + c, b + d);
  }

  lemma {:induction false} MixedCases(D: nat, a: int, b: int, c: int, d: int, s: int, t: int)
    requires a >= 0 && a * a >= D * (b * b) && d >= 0 && c * c <= D * (d * d) && s == a + c && t == b + d
    ensures NonNeg(D, s, t)
  {
    if s < 0 && s * s >= D * (t * t) { MixedLow(D, a, b, s, t, c, d); }
    if t < 0 && s * s < D * (t * t) { MixedHigh(D, a, b, s, t, c, d); }
  }

  lemma SquareOfDifference(D: int, a: int, b: int)
    ensures (a - b) * (a - b) == a * a - 2 * (a * b) + b * b && D * ((a - b) * (a - b)) == D * (a * a) - 2 * (D * (a * b)) + D * (b * b)
  {
  }

  lemma {:induction false} MixedLow(D: nat, a: int, b: int, s: int, t: int, c: int, d: int)
    requires a >= 0 && a * a >= D * (b * b) && s < 0 && s * s >= D * (t * t)
    requires c == s - a && d == t - b && d >= 0 && c * c <= D * (d * d)
    ensures t >= 0 && s * s == D * (t * t)
  {
    LargeLarge(D, a, b, -s, t) by { assert -s * -s == s * s; }
    SquareOfDifference(D, t, b);
    SquareOfDifference(D, s, a);
    Flip(a, s, b, t);
    if t < 0 { NegativePair(D, a, b, s, t); }
  }

  lemma Flip(a: int, s: int, b: int, t: int)
    ensures a * -s == -(s * a) && t * b == b * t
  {
  }

  lemma {:induction false} NegativePair(D: nat, a: int, b: int, s: int, t: int)
    requires a >= 0 && s < 0 && b <= t < 0 && -(s * a) == -(D * (b * t))
    ensures D == 0 || s * a > 0
  {
    MulLe(1, -b, -t);
    assert -b * -t == b * t;
    MulLe(1, b * t, D);
  }

  lemma {:induction false} MixedHigh(D: nat, a: int, b: int, s: int, t: int, c: int, d: int)
    requires a >= 0 && a * a >= D * (b * b) && t < 0 && s * s <= D * (t * t)
    requires a == s - c && b == t - d && d >= 0 && c * c <= D * (d * d)
    ensures s * s == D * (t * t)
  {
    SmallSmall(D, c, d, s, -t) by { assert -t * -t == t * t; }
    SquareOfDifference(D, s, c);
    SquareOfDifference(D, t, d);
    Flip(d, t, c, s);
  }

  lemma {:induction false} NonNegScale(D: nat, k: nat, a: int, b: int)
    requires NonNeg(D, a, b)
    ensures NonNeg(D, k * a, k * b)
  {
    if k > 0 {
      NonNegScale(D, k - 1, a, b);
      NonNegSum(D, (k - 1) * a, (k - 1) * b, a, b);
      assert (k - 1) * a + a == k * a && (k - 1) * b + b == k * b;
    } else {
      assert k * a == 0 && k * b == 0 && D * (0 * 0) == 0;
    }
  }

  lemma NonNegInteger(D: nat, a: int)
    requires NonNeg(D, a, 0)
    ensures a >= 0
  {
    SquareNonNeg(a);
    if a < 0 { MulLe(1, -a, -a); }
    assert D * (0 * 0) == 0;
  }

  // A multiple of sqrt(D).
  lemma NonNegRoot(D: nat, b: int)
    requires NonNeg(D, 0, b) && D > 0
    ensures b >= 0
  {
    if b < 0 {
      MulLe(1, -b, -b);
      MulLe(1, D, b * b);
    }
  }

  // sigma is the sign of the norm of p + q*sqrt(D): then sigma*(p - q*sqrt(D)) is not negative.
  lemma {:induction false} ConjugateSign(D: nat, p: int, q: int, n: int, sigma: int)
    requires p >= 0 && q >= 0 && n == p * p - D * (q * q) && ((sigma == 1 && n >= 0) || (sigma == -1 && n <= 0))
    ensures NonNeg(D, sigma * p, -sigma * q)
  {
    assert -1 * p == -p && -1 * q == -q && 1 * p == p && 1 * q == q && -q * -q == q * q && -p * -p == p * p;
  }

  lemma SignTimes(sigma: int, x: int)
    ensures sigma == 1 ==> sigma * x == x && -sigma * x == -x
    ensures sigma == -1 ==> sigma * x == -x && -sigma * x == x
  {
  }

  // z = u*c1 + v*c0 with u and v of opposite signs, c0 and c1 neighbouring convergents and z at least c0: the norm of z
  // is at least sqrt(D).
  lemma {:induction false} OppositeCoefficients(D: nat, x: int, y: int, N: int, p: int, q: int, n: int, p': int, q': int, n': int, u: int, v: int)
    requires D > 0 && N == x * x - D * (y * y) && n == p * p - D * (q * q) && n' == p' * p' - D * (q' * q')
    requires x == u * p' + v * p && y == u * q' + v * q && x >= p >= 0 && y >= q >= 0 && p' >= 0 && q' >= 0
    requires (n > 0 && n' < 0) || (n < 0 && n' > 0)
    requires (p' * q - p * q' == 1 || p' * q - p * q' == -1) && ((u > 0 && v < 0) || (u < 0 && v > 0))
    ensures N * N >= D
  {
    var sigma := if n > 0 then 1 else -1;
    var tau := if v > 0 then sigma else -sigma;
    var M, w := x * p - D * (y * q), x * q - y * p;
    DeltaLarge(D, x, y, p, q, n, p', q', n', u, v, sigma, tau);
    Determinant(x, y, p, q, p', q', u, v);
    NormTimesNorm(D, x, y, p, q);
    hide NonNeg;
    FourProducts(D, x, y, p, q, N, M, w, sigma, tau);
    NormBound(D, N, n, M, w, sigma, tau);
  }

  lemma {:induction false} Determinant(x: int, y: int, p: int, q: int, p': int, q': int, u: int, v: int)
    requires x == u * p' + v * p && y == u * q' + v * q && u != 0 && (p' * q - p * q' == 1 || p' * q - p * q' == -1)
    ensures (x * q - y * p) * (x * q - y * p) >= 1
  {
    DeterminantIs(p, q, p', q', u, v);
    hide *;
    var d, w := p' * q - p * q', x * q - y * p;
    assert w == u || w == -u by { assert u * 1 == u && u * -1 == -u; }
    if w > 0 { MulLe(1, w, w); } else { MulLe(1, -w, -w); }
  }

  lemma DeterminantIs(p: int, q: int, p': int, q': int, u: int, v: int)
    ensures (u * p' + v * p) * q - (u * q' + v * q) * p == u * (p' * q - p * q')
  {
  }

  lemma {:induction false} NormTimesNorm(D: int, x: int, y: int, p: int, q: int)
    ensures var M, w := x * p - D * (y * q), x * q - y * p;
            M * M - D * (w * w) == (x * x - D * (y * y)) * (p * p - D * (q * q))
  {
    NormOfProduct(D, x, y, p, -q);
    assert y * -q == -(y * q) && D * -(y * q) == -(D * (y * q)) && x * -q == -(x * q) && -q * -q == q * q;
    assert -(x * q) + y * p == -(x * q - y * p);
    assert -(x * q - y * p) * -(x * q - y * p) == (x * q - y * p) * (x * q - y * p);
  }

  // tau*(x - y*sqrt(D)) is at least sigma*(p - q*sqrt(D)).
  lemma {:induction false} DeltaLarge(D: nat, x: int, y: int, p: int, q: int, n: int, p': int, q': int, n': int, u: int, v: int, sigma: int, tau: int)
    requires n == p * p - D * (q * q) && n' == p' * p' - D * (q' * q') && p >= 0 && q >= 0 && p' >= 0 && q' >= 0
    requires x == u * p' + v * p && y == u * q' + v * q
    requires (n > 0 && n' < 0 && sigma == 1) || (n < 0 && n' > 0 && sigma == -1)
    requires (u > 0 && v < 0 && tau == -sigma) || (u < 0 && v > 0 && tau == sigma)
    ensures NonNeg(D, sigma * p, -sigma * q) && NonNeg(D, tau * x, -tau * y)
    ensures NonNeg(D, tau * x - sigma * p, -tau * y + sigma * q)
  {
    ConjugateSign(D, p, q, n, sigma);
    ConjugateSign(D, p', q', n', -sigma);
    hide NonNeg;
    var U, V := if u > 0 then u else -u, if v > 0 then v else -v;
    NonNegScale(D, U, -sigma * p', sigma * q');
    NonNegScale(D, V - 1, sigma * p, -sigma * q);
    NonNegSum(D, U * (-sigma * p'), U * (sigma * q'), (V - 1) * (sigma * p), (V - 1) * (-sigma * q));
    Coefficients(p, p', u, v, U, V, sigma, tau);
    Coefficients(q, q', u, v, U, V, sigma, tau);
    NonNegSum(D, tau * x - sigma * p, -tau * y + sigma * q, sigma * p, -sigma * q);
  }

  lemma {:induction false} Coefficients(p: int, p': int, u: int, v: int, U: int, V: int, sigma: int, tau: int)
    requires (sigma == 1 || sigma == -1) && ((u == U && v == -V && tau == -sigma) || (u == -U && v == V && tau == sigma))
    ensures U * (-sigma * p') + (V - 1) * (sigma * p) == tau * (u * p' + v * p) - sigma * p
    ensures U * (sigma * p') + (V - 1) * (-sigma * p) == -tau * (u * p' + v * p) + sigma * p
    ensures -(-sigma) * p' == sigma * p'
  {
  }

  // Four products of numbers that are not negative.
  lemma {:induction false} FourProducts(D: nat, x: int, y: int, p: int, q: int, N: int, M: int, w: int, sigma: int, tau: int)
    requires x >= p >= 0 && y >= q >= 0 && N == x * x - D * (y * y) && M == x * p - D * (y * q) && w == x * q - y * p
    requires NonNeg(D, sigma * p, -sigma * q) && NonNeg(D, tau * x, -tau * y) && NonNeg(D, tau * x - sigma * p, -tau * y + sigma * q)
    ensures NonNeg(D, tau * (N - M), -tau * w) && NonNeg(D, tau * N - sigma * M, sigma * w)
    ensures NonNeg(D, tau * M, tau * w) && NonNeg(D, sigma * M, -sigma * w) && NonNeg(D, tau * N, 0)
  {
    hide NonNeg;
    BothNonNeg(D, x, y);
    BothNonNeg(D, p, q);
    BothNonNeg(D, x - p, y - q);
    Product1(D, x, y, p, q, tau);
    Product2(D, x, y, p, q, sigma, tau);
    Product3(D, x, y, p, q, tau);
    Product4(D, x, y, p, q, sigma);
    Product4(D, x, y, x, y, tau);
    assert -tau * (x * y - y * x) == 0 by { TimesCommutes(x, y); assert -tau * 0 == 0; }
  }

  lemma {:induction false} Product1(D: nat, x: int, y: int, p: int, q: int, tau: int)
    requires NonNeg(D, tau * x, -tau * y) && NonNeg(D, x - p, y - q)
    ensures NonNeg(D, tau * (x * x - D * (y * y) - (x * p - D * (y * q))), -tau * (x * q - y * p))
  {
    Expand1(D, x, y, p, q, tau);
    hide *;
    NonNegProduct(D, tau * x, -tau * y, x - p, y - q);
  }

  lemma {:induction false} Product2(D: nat, x: int, y: int, p: int, q: int, sigma: int, tau: int)
    requires NonNeg(D, x, y) && NonNeg(D, tau * x - sigma * p, -tau * y + sigma * q)
    ensures NonNeg(D, tau * (x * x - D * (y * y)) - sigma * (x * p - D * (y * q)), sigma * (x * q - y * p))
  {
    Expand2(D, x, y, p, q, sigma, tau);
    hide *;
    NonNegProduct(D, x, y, tau * x - sigma * p, -tau * y + sigma * q);
  }

  lemma {:induction false} Product3(D: nat, x: int, y: int, p: int, q: int, tau: int)
    requires NonNeg(D, tau * x, -tau * y) && NonNeg(D, p, q)
    ensures NonNeg(D, tau * (x * p - D * (y * q)), tau * (x * q - y * p))
  {
    Expand3(D, x, y, p, q, tau);
    hide *;
    NonNegProduct(D, tau * x, -tau * y, p, q);
  }

  lemma {:induction false} Product4(D: nat, x: int, y: int, p: int, q: int, sigma: int)
    requires NonNeg(D, x, y) && NonNeg(D, sigma * p, -sigma * q)
    ensures NonNeg(D, sigma * (x * p - D * (y * q)), -sigma * (x * q - y * p))
  {
    Expand4(D, x, y, p, q, sigma);
    hide *;
    NonNegProduct(D, x, y, sigma * p, -sigma * q);
  }

  lemma BothNonNeg(D: nat, a: int, b: int)
    requires a >= 0 && b >= 0
    ensures NonNeg(D, a, b)
  {
  }

  lemma Expand1(D: int, x: int, y: int, p: int, q: int, tau: int)
    ensures tau * x * (x - p) + D * (-tau * y * (y - q)) == tau * (x * x - D * (y * y) - (x * p - D * (y * q)))
    ensures tau * x * (y - q) + -tau * y * (x - p) == -tau * (x * q - y * p)
  {
  }

  lemma {:induction false} Expand2(D: int, x: int, y: int, p: int, q: int, sigma: int, tau: int)
    ensures x * (tau * x - sigma * p) + D * (y * (-tau * y + sigma * q)) == tau * (x * x - D * (y * y)) - sigma * (x * p - D * (y * q))
    ensures x * (-tau * y + sigma * q) + y * (tau * x - sigma * p) == sigma * (x * q - y * p)
  {
    Spread(x, x, p, sigma, tau);
    Spread(y, y, q, sigma, tau);
    Spread(x, y, q, sigma, tau);
    Spread(y, x, p, sigma, tau);
    ScaleThrough(D, tau, y * y, sigma, y * q);
    assert x * y == y * x;
    SignedDifference(tau, x * x, D * (y * y));
    SignedDifference(sigma, x * p, D * (y * q));
    SignedDifference(sigma, x * q, y * p);
  }

  lemma Spread(x: int, y: int, q: int, sigma: int, tau: int)
    ensures x * (tau * y - sigma * q) == tau * (x * y) - sigma * (x * q) && x * (-tau * y + sigma * q) == sigma * (x * q) - tau * (x * y)
  {
  }

  lemma ScaleThrough(D: int, tau: int, s: int, sigma: int, t: int)
    ensures D * (sigma * t - tau * s) == sigma * (D * t) - tau * (D * s)
  {
  }

  lemma SignedDifference(tau: int, s: int, t: int)
    ensures tau * (s - t) == tau * s - tau * t
  {
  }

  lemma Expand3(D: int, x: int, y: int, p: int, q: int, tau: int)
    ensures tau * x * p + D * (-tau * y * q) == tau * (x * p - D * (y * q))
    ensures tau * x * q + -tau * y * p == tau * (x * q - y * p)
  {
  }

  lemma Expand4(D: int, x: int, y: int, p: int, q: int, sigma: int)
    ensures x * (sigma * p) + D * (y * (-sigma * q)) == sigma * (x * p - D * (y * q))
    ensures x * (-sigma * q) + y * (sigma * p) == -sigma * (x * q - y * p)
  {
  }

  lemma {:induction false} NormBound(D: nat, N: int, n: int, M: int, w: int, sigma: int, tau: int)
    requires D > 0 && M * M - D * (w * w) == N * n && w * w >= 1
    requires (n > 0 && sigma == 1) || (n < 0 && sigma == -1)
    requires tau == sigma || tau == -sigma
    requires NonNeg(D, tau * (N - M), -tau * w) && NonNeg(D, tau * N - sigma * M, sigma * w)
    requires NonNeg(D, tau * M, tau * w) && NonNeg(D, sigma * M, -sigma * w) && NonNeg(D, tau * N, 0)
    ensures N * N >= D
  {
    NonNegInteger(D, tau * N);
    MulLe(1, w * w, D);
    NonNegSum(D, tau * (N - M), -tau * w, tau * N - sigma * M, sigma * w);
    NonNegSum(D, tau * M, tau * w, sigma * M, -sigma * w);
    SignTimes(tau, N);
    SignTimes(tau, M);
    SignTimes(tau, w);
    SignTimes(tau, N - M);
    SignTimes(sigma, M);
    SignTimes(sigma, w);
    hide NonNeg;
    if tau == sigma {
      NonNegInteger(D, 2 * (tau * (N - M)));
      NonNegInteger(D, 2 * (tau * M));
      ProductSign(N, n);
      SquaresOrdered(N, M);
    } else {
      NonNegRoot(D, 2 * (tau * w));
      RootBound(D, tau * N, tau * w);
      SignSquares(tau, N, w);
    }
  }

  lemma SignSquares(tau: int, N: int, w: int)
    requires tau == 1 || tau == -1
    ensures (tau * N) * (tau * N) == N * N && (tau * w) * (tau * w) == w * w
  {
  }

  lemma SquaresOrdered(N: int, M: int)
    requires (0 <= M <= N) || (N <= M <= 0)
    ensures M * M <= N * N
  {
    if N >= 0 { ProductsCompare(N, M, N, M); } else { ProductsCompare(-N, -M, -N, -M); }
  }

  lemma {:induction false} RootBound(D: nat, a: int, b: int)
    requires a >= 0 && b >= 0 && NonNeg(D, 2 * a, -2 * b)
    ensures a * a >= D * (b * b)
  {
    assert (2 * a) * (2 * a) == 4 * (a * a) && (-2 * b) * (-2 * b) == 4 * (b * b) && D * (4 * (b * b)) == 4 * (D * (b * b));
    if b == 0 { SquareNonNeg(a); assert D * (b * b) == 0; }
  }

  // ---------------------------------------------------------------- small norms are met by convergents

  // (x, y) has reached the pair (p, q).
  predicate Reaches(x: int, y: int, p: int, q: int)
  {
    x >= p && y >= q
  }

  lemma {:induction false} ConvergentNorms(D: nat, s: State)
    requires Expandable(D) && Sound(D, s)
    ensures var n, n' := s.pm * s.pm - D * (s.qm * s.qm), s.p * s.p - D * (s.q * s.q);
            (n > 0 && n' < 0 && s.d == -1) || (n < 0 && n' > 0 && s.d == 1)
    ensures s.p * s.qm - s.pm * s.q == s.d && s.p >= 0 && s.q >= 0 && s.pm > 0 && s.qm >= 0
  {
    RootPositive(D);
    var a0, w := ISqrt(D), s.pm * s.pm - D * (s.qm * s.qm);
    hide ISqrt, Expandable;
    MulLe(s.P, a0, s.P);
    MulLe(s.P, a0, a0);
    assert w * s.Q == -s.d * (D - s.P * s.P);
    if s.d == 1 {
      if w >= 0 { MulLe(0, w, s.Q); }
    } else {
      if w <= 0 { MulLe(w, 0, s.Q); }
    }
    assert s.d * s.Q == if s.d == 1 then s.Q else -s.Q;
  }

  // A solution that has reached a convergent but not the next one is a multiple of the first.
  lemma {:induction false} BetweenConvergents(D: nat, N: int, s: State, x: int, y: int) returns (v: int)
    requires Expandable(D) && Sound(D, s) && Solves(D, N, x, y) && N * N < D && x > 0
    requires Reaches(x, y, s.pm, s.qm) && !Reaches(x, y, s.p, s.q)
    ensures v >= 1 && x == v * s.pm && y == v * s.qm
  {
    ConvergentNorms(D, s);
    var p, q, p', q', d := s.pm, s.qm, s.p, s.q, s.d;
    hide Sound, Expandable;
    Coordinates(x, y, p, q, p', q', -d);
    var u: int;
    v, u := -d * (x * q' - y * p'), -d * (y * p - x * q);
    BetweenCases(D, N, x, y, p, q, p', q', u, v);
  }

  lemma {:induction false} BetweenCases(D: nat, N: int, x: int, y: int, p: int, q: int, p': int, q': int, u: int, v: int)
    requires N == x * x - D * (y * y) && N * N < D && x > 0 && x == v * p + u * p' && y == v * q + u * q'
    requires p > 0 && q >= 0 && p' >= 0 && q' >= 0 && x >= p && y >= q && (x < p' || y < q')
    requires var n, n' := p * p - D * (q * q), p' * p' - D * (q' * q'); (n > 0 && n' < 0) || (n < 0 && n' > 0)
    requires p' * q - p * q' == 1 || p' * q - p * q' == -1
    ensures v >= 1 && u == 0
  {
    if (u > 0 && v < 0) || (u < 0 && v > 0) {
      SquareNonNeg(N);
      OppositeCoefficients(D, x, y, N, p, q, p * p - D * (q * q), p', q', p' * p' - D * (q' * q'), u, v);
    } else if u > 0 {
      MulLe(1, u, p');
      MulLe(1, u, q');
      MulLe(0, v, p);
      MulLe(0, v, q);
    } else {
      MulLe(u, 0, p');
      if v <= 0 { MulLe(v, 0, p); }
    }
  }

  // ---------------------------------------------------------------- one period

  // A whole run of the Pell routine.
  ghost predicate IsRun(D: nat, path: seq<State>)
  {
    Expandable(D) && IsPath(D, path) && Final(D, KeyOf(path[|path| - 1]))
  }

  // What a run gives at position i.
  lemma {:induction false} RunAt(D: nat, path: seq<State>, i: nat)
    requires IsRun(D, path) && i < |path|
    ensures Expandable(D) && Sound(D, path[i])
    ensures i > 0 ==> path[i].pm == path[i - 1].p && path[i].qm == path[i - 1].q
    ensures i == 0 ==> path[i].pm == 1 && path[i].qm == 0
  {
    hide Sound, ISqrt, Final;
    if i > 0 { assert path[i - 1 + 1] == Next(D, path[i - 1]); }
  }

  lemma {:induction false} RunEnd(D: nat, path: seq<State>)
    requires IsRun(D, path)
    ensures |path| > 0 && var m := path[|path| - 1]; m.Q == 1 && m.d == 1 && Solves(D, 1, m.p, m.q) && m.p > 0 && m.q > 0
  {
    hide ISqrt;
    SoundMeans(D, path[|path| - 1]);
  }

  // f times the convergent of path[i] is the solution (x, y).
  predicate HitAt(path: seq<State>, i: nat, f: int, x: int, y: int)
    requires i < |path|
  {
    f >= 1 && x == path[i].p * f && y == path[i].q * f
  }

  // A positive solution that has not reached the end of the run is a multiple of a convergent on it.
  lemma {:induction false} OnTheRun(D: nat, N: int, path: seq<State>, x: int, y: int) returns (i: nat, f: int)
    requires IsRun(D, path) && Solves(D, N, x, y) && N * N < D && x > 0 && y > 0
    requires var m := path[|path| - 1]; !Reaches(x, y, m.p, m.q)
    ensures i + 1 < |path| && HitAt(path, i, f, x, y) && !Reaches(x, y, path[i + 1].p, path[i + 1].q)
  {
    hide IsRun, Sound, Solves;
    assert |path| > 0 by { RunEnd(D, path); }
    var k := 0;
    RunAt(D, path, 0);
    while Reaches(x, y, path[k].p, path[k].q)
      invariant k < |path| && Reaches(x, y, path[k].pm, path[k].qm)
      decreases |path| - k
    {
      assert k + 1 < |path|;
      k := k + 1;
      RunAt(D, path, k);
    }
    RunAt(D, path, k);
    f := BetweenConvergents(D, N, path[k], x, y);
    assert f * 0 == 0;
    i := k - 1;
    TimesCommutes(f, path[k].pm);
    TimesCommutes(f, path[k].qm);
  }

  // ---------------------------------------------------------------- the list holds them

  lemma {:induction false} HitsContain(factors: seq<Pos>, s: State, N: int, f: Pos)
    requires f in factors && s.d == Sign(N) && s.Q == Abs(N) / Sq(f)
    ensures (s.p * f, s.q * f) in Hits(factors, s, N)
  {
    hide Sign, Abs, Sq;
    var i := |factors| - 1;
    if factors[i] != f { HitsContain(factors[..i], s, N, f); }
  }

  lemma {:induction false} RecordedContain(factors: seq<Pos>, path: seq<State>, N: int, i: nat, h: (int, int))
    requires i < |path| && h in Hits(factors, path[i], N)
    ensures h in Recorded(factors, path, N)
  {
    hide Hits;
    if i < |path| - 1 { RecordedContain(factors, path[..|path| - 1], N, i, h); }
  }

  lemma {:induction false} HitNorm(D: nat, N: int, s: State, f: int)
    requires Expandable(D) && Sound(D, s) && Solves(D, N, s.p * f, s.q * f) && f >= 1 && N != 0
    ensures s.d == Sign(N) && Abs(N) == s.Q * (f * f) && f * f > 0 && s.Q > 0
  {
    assert s.p * s.p - D * (s.q * s.q) == s.d * s.Q && s.Q > 0 && (s.d == 1 || s.d == -1);
    ScaledNorm(D, s.p, s.q, f);
    hide Sound, Expandable;
    MulLe(1, f, f);
    SignedMultiple(N, s.d, s.Q, f * f);
  }

  lemma {:induction false} SignedMultiple(N: int, d: int, Q: int, g: int)
    requires N == d * Q * g && (d == 1 || d == -1) && Q > 0 && g > 0
    ensures d == Sign(N) && Abs(N) == Q * g
  {
    MulLe(1, Q, g);
    if d == 1 { assert d * Q == Q; } else { assert d * Q == -Q && -Q * g == -(Q * g); }
  }

  lemma ScaledNorm(D: int, p: int, q: int, f: int)
    ensures (p * f) * (p * f) - D * ((q * f) * (q * f)) == (p * p - D * (q * q)) * (f * f)
  {
    SquareSplits(p, f);
    SquareSplits(q, f);
    assert D * ((q * q) * (f * f)) == (D * (q * q)) * (f * f);
  }

  lemma {:induction false} HitRecorded(D: nat, N: int, path: seq<State>, i: nat, f: int, x: int, y: int)
    requires IsRun(D, path) && i < |path| && HitAt(path, i, f, x, y) && Solves(D, N, x, y) && N != 0
    ensures (x, y) in Recorded(SquareFactors(1, Abs(N)), path, N)
  {
    hide IsRun, Sound, Solves, Abs, Sign, SquareFactors, Recorded, Hits;
    RunAt(D, path, i);
    HitNorm(D, N, path[i], f);
    FactorListed(Abs(N), path[i].Q, f);
    HitsContain(SquareFactors(1, Abs(N)), path[i], N, f);
    RecordedContain(SquareFactors(1, Abs(N)), path, N, i, (x, y));
  }

  lemma {:induction false} FactorListed(n: nat, Q: int, f: int)
    requires f >= 1 && n == Q * (f * f) && Q > 0
    ensures f in SquareFactors(1, n) && Q == n / Sq(f)
  {
    var g: Pos := f;
    assert Sq(g) == f * f;
    MulLe(1, Q, f * f);
    DivModUnique(n, Sq(g), Q, 0);
    hide SquareFactors;
    SquareFactorsExact(1, n, g);
  }

  // ---------------------------------------------------------------- composition with the least solution

  // The composition of a solution with the minimal one.
  function Compose(D: nat, m: (int, int), s: (int, int)): (int, int)
  {
    (m.0 * s.0 + m.1 * s.1 * D, m.0 * s.1 + m.1 * s.0)
  }

  lemma {:induction false} ComposeSolves(D: nat, N: int, m: (int, int), s: (int, int))
    requires Solves(D, 1, m.0, m.1) && Solves(D, N, s.0, s.1)
    ensures var c := Compose(D, m, s); Solves(D, N, c.0, c.1)
  {
    Brahmagupta(D, m.0, m.1, s.0, s.1);
    assert 1 * N == N;
  }

  lemma Brahmagupta(D: int, a: int, b: int, x: int, y: int)
    ensures (a * x + b * y * D) * (a * x + b * y * D) - D * ((a * y + b * x) * (a * y + b * x))
         == (a * a - D * (b * b)) * (x * x - D * (y * y))
  {
    CrossTerms(D, a * x, b * y, a * y, b * x);
    NormProduct(D, a, b, x, y);
    RegroupProducts(a, b, x, y);
    assert b * y * D == D * (b * y);
  }

  lemma {:induction false} ComposeGrows(D: nat, m: (int, int), s: (int, int))
    requires D > 0 && Solves(D, 1, m.0, m.1) && m.0 > 0 && m.1 > 0 && s.0 > 0 && s.1 > 0
    ensures var c := Compose(D, m, s); c.0 > s.0 && c.1 > 0
  {
    MulLe(1, m.0, s.0);
    MulLe(1, m.0, s.1);
    MulLe(1, m.1, s.1);
    MulLe(1, m.1, s.0);
    MulLe(1, D, m.1 * s.1);
  }

  // The other way round: divide by the minimal solution.
  function Reduce(D: nat, m: (int, int), s: (int, int)): (int, int)
  {
    (m.0 * s.0 - D * (m.1 * s.1), m.0 * s.1 - m.1 * s.0)
  }

  lemma {:induction false} ReduceInverts(D: nat, N: int, m: (int, int), s: (int, int))
    requires Solves(D, 1, m.0, m.1) && Solves(D, N, s.0, s.1)
    ensures var c := Reduce(D, m, s); Compose(D, m, c) == s && Solves(D, N, c.0, c.1)
  {
    var a, b, x, y := m.0, m.1, s.0, s.1;
    ReducePoly(D, a, b, x, y);
    assert x * 1 == x && y * 1 == y && N * 1 == N;
    NormTimesNorm(D, x, y, a, b);
    var c := Reduce(D, m, s);
    assert c.0 == x * a - D * (y * b) && (c.1 == x * b - y * a || c.1 == -(x * b - y * a));
    assert -(x * b - y * a) * -(x * b - y * a) == (x * b - y * a) * (x * b - y * a);
  }

  lemma ReducePoly(D: int, a: int, b: int, x: int, y: int)
    ensures var u, v := a * x - D * (b * y), a * y - b * x;
            a * u + b * v * D == x * (a * a - D * (b * b)) && a * v + b * u == y * (a * a - D * (b * b))
  {
  }

  // A solution beyond the minimal one stays positive when divided by it, or becomes an integer.
  lemma {:induction false} ReducePositive(D: nat, N: int, m: (int, int), s: (int, int))
    requires D > 0 && Solves(D, 1, m.0, m.1) && m.0 > 0 && m.1 > 0 && Solves(D, N, s.0, s.1) && N != 0 && N * N < D
    requires Reaches(s.0, s.1, m.0, m.1)
    ensures var c := Reduce(D, m, s); c.0 >= 1 && c.1 >= 0
  {
    var a, b, x, y := m.0, m.1, s.0, s.1;
    var c := Reduce(D, m, s);
    ReduceInverts(D, N, m, s);
    BothNonNeg(D, x - a, y - b);
    ConjugateSign(D, a, b, 1, 1);
    SignTimes(1, a);
    SignTimes(1, b);
    NonNegProduct(D, x - a, y - b, a, -b);
    ReduceShift(D, a, b, x, y);
    hide Reduce, Compose;
    AboveOne(D, N, c.0, c.1);
  }

  lemma {:induction false} ReduceShift(D: int, a: int, b: int, x: int, y: int)
    requires a * a - D * (b * b) == 1
    ensures (x - a) * a + D * ((y - b) * -b) == a * x - D * (b * y) - 1 && (x - a) * -b + (y - b) * a == a * y - b * x
  {
    assert (y - b) * -b == b * b - b * y;
    assert D * (b * b - b * y) == D * (b * b) - D * (b * y);
  }

  lemma {:induction false} AboveOne(D: nat, N: int, x: int, y: int)
    requires D > 0 && x * x - D * (y * y) == N && N != 0 && N * N < D && NonNeg(D, x - 1, y)
    ensures x >= 1 && y >= 0
  {
    var z := D * (y * y);
    assert (x - 1) * (x - 1) == x * x - 2 * x + 1;
    AtLeastSquare(N);
    if y < 0 {
      MulLe(1, -y, -y);
      MulLe(1, y * y, D);
      if x <= N { SquaresOrdered(N, x); }
    } else if x <= 0 {
      HalfNorm(N, x);
      if y >= 1 { MulLe(1, y, y); MulLe(1, y * y, D); }
    }
  }

  lemma AtLeastSquare(N: int)
    requires N != 0
    ensures N * N >= N && N * N >= -N && N * N >= 1
  {
    if N > 0 { MulLe(1, N, N); } else { MulLe(1, -N, -N); }
  }

  lemma {:induction false} HalfNorm(N: int, x: int)
    requires x <= 0 && N <= -1 && -2 * x + 1 <= -N
    ensures x * x - N <= N * N
  {
    ProductsCompare(-N - 1, -2 * x, -N - 1, -2 * x);
    assert (-2 * x) * (-2 * x) == 4 * (x * x) && (-N - 1) * (-N - 1) == N * N + 2 * N + 1;
    MulLe(1, -N, -N);
  }

  // ---------------------------------------------------------------- every solution

  // The k-th solution in the order in which a search visits them.
  function Orbit(D: nat, sols: seq<(int, int)>, m: (int, int), k: nat): (int, int)
    requires |sols| > 0
  {
    if k < |sols| then sols[k] else Compose(D, m, Orbit(D, sols, m, k - |sols|))
  }

  function Listed(path: seq<State>, N: int): seq<(int, int)>
  {
    Recorded(SquareFactors(1, Abs(N)), path, N)
  }

  function Least(path: seq<State>): (int, int)
    requires |path| > 0
  {
    (path[|path| - 1].p, path[|path| - 1].q)
  }

  // Main result: for N^2 below D every positive solution is a listed one composed with the least solution of
  // x^2 - D*y^2 = 1 some number of times.
  lemma {:induction false} AllInOrbit(D: nat, N: int, path: seq<State>, x: int, y: int) returns (k: nat)
    requires IsRun(D, path) && Solves(D, N, x, y) && x > 0 && y > 0 && N != 0 && N * N < D
    ensures |path| > 0 && |Listed(path, N)| > 0 && Orbit(D, Listed(path, N), Least(path), k) == (x, y)
    decreases x
  {
    RunEnd(D, path);
    var m := Least(path);
    var last := |path| - 1;
    hide IsRun, Solves, Recorded, SquareFactors, Compose, Reduce;
    SquareNonNeg(N);
    if !Reaches(x, y, m.0, m.1) {
      var i, f := OnTheRun(D, N, path, x, y);
      HitRecorded(D, N, path, i, f, x, y);
      k :| 0 <= k < |Listed(path, N)| && Listed(path, N)[k] == (x, y);
    } else {
      ReducePositive(D, N, m, (x, y));
      ReduceInverts(D, N, m, (x, y));
      var c := Reduce(D, m, (x, y));
      if c.1 == 0 {
        ComposeInteger(D, m, c.0);
        HitRecorded(D, N, path, last, c.0, x, y);
        k :| 0 <= k < |Listed(path, N)| && Listed(path, N)[k] == (x, y);
      } else {
        ComposeGrows(D, m, c);
        k := AllInOrbit(D, N, path, c.0, c.1);
        OrbitUnfolds(D, Listed(path, N), m, k);
        k := k + |Listed(path, N)|;
      }
    }
  }

  lemma ComposeInteger(D: nat, m: (int, int), f: int)
    ensures Compose(D, m, (f, 0)) == (m.0 * f, m.1 * f)
  {
    assert m.1 * 0 * D == 0 && m.0 * 0 == 0;
  }

  lemma OrbitUnfolds(D: nat, sols: seq<(int, int)>, m: (int, int), k: nat)
    requires |sols| > 0
    ensures Orbit(D, sols, m, k + |sols|) == Compose(D, m, Orbit(D, sols, m, k))
  {
    hide Compose;
  }

  // ---------------------------------------------------------------- in increasing order

  // Solutions for one norm are ordered alike by both coordinates.
  lemma {:induction false} SameNormOrder(D: nat, N: int, x: int, y: int, x': int, y': int)
    requires D > 0 && Solves(D, N, x, y) && Solves(D, N, x', y') && x > 0 && y > 0 && x' > 0 && y' > 0
    ensures x < x' <==> y < y'
  {
    if y < y' {
      if x' <= x { OrderStep(D, y, y', x', x); }
    } else {
      if x < x' { OrderStep(D, y', y, x, x') ; StrictSquares(x, x'); }
    }
    if y < y' && x' <= x { StrictSquares(y, y'); }
  }

  lemma {:induction false} OrderStep(D: nat, y: int, y': int, x: int, x': int)
    requires D > 0 && 0 < y <= y' && 0 < x <= x'
    ensures x * x <= x' * x' && D * (y * y) <= D * (y' * y')
    ensures y * y < y' * y' ==> D * (y * y) < D * (y' * y')
  {
    ProductsCompare(x', x, x', x);
    ProductsCompare(y', y, y', y);
    MulLe(0, y' * y' - y * y, D);
    MulLe(1, D, y' * y' - y * y);
    assert D * (y' * y' - y * y) == D * (y' * y') - D * (y * y);
  }

  lemma StrictSquares(x: int, x': int)
    requires 0 < x < x'
    ensures x * x < x' * x'
  {
    MulLe(x + 1, x', x);
    MulLe(x + 1, x', x');
  }

  // A multiple by f of a convergent with norm N does not reach the next convergent.
  lemma {:induction false} NotNext(D: nat, N: int, s: State, f: int)
    requires Expandable(D) && Sound(D, s) && f >= 1 && Abs(N) == s.Q * (f * f) && N * N < D
    ensures !Reaches(s.p * f, s.q * f, s.a * s.p + s.pm, s.a * s.q + s.qm)
  {
    SmallFactor(D, N, s, f);
    assert s.p > 0 && s.pm > 0;
    hide Sound, Expandable;
    MulLe(f, s.a, s.p);
    TimesCommutes(f, s.p);
  }

  // The factor of a small norm is at most the partial quotient.
  lemma {:induction false} SmallFactor(D: nat, N: int, s: State, f: int)
    requires Expandable(D) && Sound(D, s) && f >= 1 && Abs(N) == s.Q * (f * f) && N * N < D
    ensures f <= s.a
  {
    var a0 := ISqrt(D);
    assert D < (a0 + 1) * (a0 + 1);
    assert s.Q > 0 && s.P > 0 && s.a == (a0 + s.P) / s.Q;
    hide ISqrt, Sound, Expandable;
    SquareOfAbs(N);
    FactorBound(D, Abs(N), a0, s.P, s.Q, s.a, f);
  }

  lemma SquareOfAbs(N: int)
    ensures Abs(N) * Abs(N) == N * N
  {
  }

  lemma {:induction false} FactorBound(D: int, n: int, a0: int, P: int, Q: int, a: int, f: int)
    requires Q > 0 && P > 0 && a0 >= 0 && a == (a0 + P) / Q && f >= 1 && n == Q * (f * f) && n * n < D < (a0 + 1) * (a0 + 1)
    ensures f <= a
  {
    assert a0 + P == a * Q + (a0 + P) % Q;
    if f >= a + 1 {
      MulLe(a + 1, f, Q);
      MulLe(1, f, f);
      MulLe(f, f * f, Q);
      TimesCommutes(Q, f * f);
      assert (a + 1) * Q == a * Q + Q;
      ProductsCompare(n, a0 + 1, n, a0 + 1);
    }
  }

  lemma {:induction false} FactorsIncrease(from: Pos, n: nat)
    ensures forall i, j :: 0 <= i < j < |SquareFactors(from, n)| ==> SquareFactors(from, n)[i] < SquareFactors(from, n)[j]
    ensures forall i :: 0 <= i < |SquareFactors(from, n)| ==> SquareFactors(from, n)[i] >= from
    decreases n + 1 - from
  {
    SquareFactorsUnfold(from, n);
    hide SquareFactors;
    if Sq(from) <= n { FactorsIncrease(from + 1, n); }
  }

  // The factors that matter: increasing, with squares that divide.
  ghost predicate Factors(factors: seq<Pos>, n: nat)
  {
    && (forall i, j :: 0 <= i < j < |factors| ==> factors[i] < factors[j])
    && (forall i :: 0 <= i < |factors| ==> n % Sq(factors[i]) == 0)
  }

  lemma {:induction false} SquareFactorsAre(n: nat)
    ensures Factors(SquareFactors(1, n), n)
  {
    FactorsIncrease(1, n);
    hide SquareFactors;
    forall i | 0 <= i < |SquareFactors(1, n)| ensures n % Sq(SquareFactors(1, n)[i]) == 0 {
      SquareFactorsExact(1, n, SquareFactors(1, n)[i]);
    }
  }

  // At most one hit at a position, and what it is.
  lemma {:induction false} OneHit(factors: seq<Pos>, s: State, N: int)
    requires Factors(factors, Abs(N)) && s.Q > 0
    ensures |Hits(factors, s, N)| <= 1
    ensures |Hits(factors, s, N)| == 1 ==> exists f :: f in factors && Hits(factors, s, N)[0] == (s.p * f, s.q * f) && Abs(N) == s.Q * Sq(f)
  {
    hide Abs, Sq, Sign;
    if |factors| > 0 && s.d == Sign(N) {
      var i := |factors| - 1;
      OneHit(factors[..i], s, N);
      if s.Q == Abs(N) / Sq(factors[i]) {
        ExactDivision(Abs(N), Sq(factors[i]));
        TimesCommutes(s.Q, Sq(factors[i]));
        if |Hits(factors[..i], s, N)| == 1 {
          var f :| f in factors[..i] && Abs(N) == s.Q * Sq(f);
          SameSquareFactor(s.Q, f, factors[i]);
        }
      }
    }
  }

  lemma {:induction false} SameSquareFactor(Q: int, f: Pos, g: Pos)
    requires Q > 0 && Q * Sq(f) == Q * Sq(g)
    ensures f == g
  {
    TimesCommutes(Q, Sq(f));
    TimesCommutes(Q, Sq(g));
    SameFactor(Sq(f), Sq(g), Q);
    if f < g { StrictSquares(f, g); }
    if g < f { StrictSquares(g, f); }
  }

  lemma {:induction false} HitBelow(D: nat, N: int, path: seq<State>, k: nat, h: (int, int))
    requires IsRun(D, path) && N * N < D && k < |path| && h in Hits(SquareFactors(1, Abs(N)), path[k], N)
    ensures Hits(SquareFactors(1, Abs(N)), path[k], N) == [h] && Reaches(h.0, h.1, path[k].p, path[k].q)
    ensures Solves(D, N, h.0, h.1) && h.0 > 0 && h.1 > 0
    ensures exists f :: f >= 1 && h == (path[k].p * f, path[k].q * f)
    ensures k + 1 < |path| ==> !Reaches(h.0, h.1, path[k + 1].p, path[k + 1].q)
  {
    RunAt(D, path, k);
    SquareFactorsAre(Abs(N));
    assert Sound(D, path[k]) && path[k].Q > 0 && path[k].p > 0 && path[k].q > 0;
    if k + 1 < |path| { RunStep(D, path, k); }
    hide Sound, SquareFactors, Hits, Abs, IsRun, Expandable, Solves;
    var l := SquareFactors(1, Abs(N));
    OneHit(l, path[k], N);
    HitsSolve(D, l, path[k], N, h);
    var f :| f in l && h == (path[k].p * f, path[k].q * f) && Abs(N) == path[k].Q * Sq(f);
    MulLe(1, f, path[k].p);
    MulLe(1, f, path[k].q);
    TimesCommutes(f, path[k].p);
    TimesCommutes(f, path[k].q);
    NotNext(D, N, path[k], f);
  }

  lemma {:induction false} RunStep(D: nat, path: seq<State>, k: nat)
    requires IsRun(D, path) && k + 1 < |path|
    ensures path[k + 1].p == path[k].a * path[k].p + path[k].pm && path[k + 1].q == path[k].a * path[k].q + path[k].qm
    ensures path[k + 1].p >= path[k].p && path[k + 1].q >= path[k].q
  {
    RunAt(D, path, k);
    hide ISqrt, Final;
    assert path[k + 1] == Next(D, path[k]);
    MulLe(1, path[k].a, path[k].p);
    MulLe(1, path[k].a, path[k].q);
  }

  // The list so far: in order, and below the next convergent.
  ghost predicate Ordered(D: nat, N: int, sols: seq<(int, int)>)
  {
    && (forall i :: 0 <= i < |sols| ==> Solves(D, N, sols[i].0, sols[i].1) && sols[i].0 > 0 && sols[i].1 > 0)
    && (forall i, j :: 0 <= i < j < |sols| ==> sols[i].0 < sols[j].0)
  }

  ghost predicate Below(sols: seq<(int, int)>, p: int, q: int)
  {
    forall i :: 0 <= i < |sols| ==> !Reaches(sols[i].0, sols[i].1, p, q)
  }

  lemma {:induction false} ListedPrefix(D: nat, N: int, path: seq<State>, k: nat)
    requires IsRun(D, path) && N * N < D && k <= |path|
    ensures Ordered(D, N, Listed(path[..k], N))
    ensures k < |path| ==> Below(Listed(path[..k], N), path[k].p, path[k].q)
  {
    hide IsRun, Solves, SquareFactors, Hits;
    if k > 0 {
      var l, hits := Listed(path[..k - 1], N), Hits(SquareFactors(1, Abs(N)), path[k - 1], N);
      ListedPrefix(D, N, path, k - 1);
      assert path[..k][..k - 1] == path[..k - 1];
      assert Listed(path[..k], N) == l + hits;
      hide Recorded;
      SquareNonNeg(N);
      if k < |path| { RunStep(D, path, k - 1); }
      if hits != [] {
        var h := hits[0];
        HitBelow(D, N, path, k - 1, h);
        forall i | 0 <= i < |l| ensures l[i].0 < h.0 { SameNormOrder(D, N, h.0, h.1, l[i].0, l[i].1); SameNormOrder(D, N, l[i].0, l[i].1, h.0, h.1); }
      }
    }
  }

  // The list of the routine is in increasing order.
  lemma {:induction false} ListedOrdered(D: nat, N: int, path: seq<State>)
    requires IsRun(D, path) && N * N < D
    ensures Ordered(D, N, Listed(path, N))
  {
    hide *;
    ListedPrefix(D, N, path, |path|);
    assert path[..|path|] == path;
  }

  lemma {:induction false} ComposeReaches(D: nat, m: (int, int), s: (int, int))
    requires D > 0 && m.0 > 0 && m.1 > 0 && s.0 > 0 && s.1 > 0
    ensures var c := Compose(D, m, s); Reaches(c.0, c.1, m.0, m.1)
  {
    MulLe(1, s.0, m.0);
    MulLe(1, s.0, m.1);
    MulLe(1, s.1, m.0);
    MulLe(0, m.1, s.1);
    MulLe(0, m.1 * s.1, D);
    TimesCommutes(m.0, s.0);
    TimesCommutes(m.1, s.0);
    TimesCommutes(m.0, s.1);
  }

  // Every listed solution comes before the first one composed.
  lemma {:induction false} ListedBeforeComposed(D: nat, N: int, path: seq<State>, j: nat)
    requires IsRun(D, path) && N * N < D && j < |Listed(path, N)|
    ensures |path| > 0 && Listed(path, N)[j].0 < Compose(D, Least(path), Listed(path, N)[0]).0
  {
    RunEnd(D, path);
    var sols, m, k := Listed(path, N), Least(path), |path| - 1;
    ListedOrdered(D, N, path);
    ListedPrefix(D, N, path, k);
    SquareNonNeg(N);
    var h, g := sols[j], sols[0];
    var c := Compose(D, m, g);
    assert sols == Listed(path[..k], N) + Hits(SquareFactors(1, Abs(N)), path[k], N);
    hide Recorded, Hits, SquareFactors, IsRun;
    ComposeSolves(D, N, m, g);
    ComposeReaches(D, m, g);
    ComposeGrows(D, m, g);
    hide Compose;
    if Reaches(h.0, h.1, m.0, m.1) {
      assert h in Hits(SquareFactors(1, Abs(N)), path[k], N);
      HitBelow(D, N, path, k, h);
      var f :| f >= 1 && h == (path[k].p * f, path[k].q * f);
      IntegerBelow(D, N, m, f, g);
    } else {
      hide Solves;
      SameNormOrder(D, N, h.0, h.1, c.0, c.1);
      SameNormOrder(D, N, c.0, c.1, h.0, h.1);
    }
  }

  // f times the minimal solution comes before the composition of any solution of the same norm.
  lemma {:induction false} IntegerBelow(D: nat, N: int, m: (int, int), f: int, g: (int, int))
    requires D > 0 && Solves(D, 1, m.0, m.1) && m.0 > 0 && m.1 > 0 && f >= 1 && Solves(D, N, m.0 * f, m.1 * f)
    requires Solves(D, N, g.0, g.1) && g.0 > 0 && g.1 > 0
    ensures m.0 * f < Compose(D, m, g).0
  {
    ScaledNorm(D, m.0, m.1, f);
    assert 1 * (f * f) == f * f;
    hide *;
    LargerRoot(D, g.0, g.1, f);
    ComposeAbove(D, m, g, f);
  }

  lemma {:induction false} LargerRoot(D: nat, x: int, y: int, f: int)
    requires D > 0 && x * x - D * (y * y) == f * f && x > 0 && y > 0 && f >= 1
    ensures x > f
  {
    MulLe(1, y, y);
    MulLe(1, y * y, D);
    TimesCommutes(D, y * y);
    if x <= f { ProductsCompare(f, x, f, x); }
  }

  lemma {:induction false} ComposeAbove(D: nat, m: (int, int), g: (int, int), f: int)
    requires m.0 > 0 && m.1 > 0 && g.0 > f && g.1 > 0
    ensures m.0 * f < Compose(D, m, g).0
  {
    MulLe(f + 1, g.0, m.0);
    MulLe(0, m.1, g.1);
    MulLe(0, m.1 * g.1, D);
    TimesCommutes(m.0, g.0);
    TimesCommutes(m.0, f);
    assert (f + 1) * m.0 == f * m.0 + m.0;
  }

  lemma {:induction false} ComposeOrdered(D: nat, m: (int, int), s: (int, int), t: (int, int))
    requires D > 0 && m.0 > 0 && m.1 > 0 && s.0 < t.0 && s.1 <= t.1
    ensures Compose(D, m, s).0 < Compose(D, m, t).0
  {
    MulLe(s.0 + 1, t.0, m.0);
    MulLe(s.1, t.1, m.1);
    MulLe(m.1 * s.1, m.1 * t.1, D) by { TimesCommutes(m.1, s.1); TimesCommutes(m.1, t.1); }
    TimesCommutes(m.0, s.0);
    TimesCommutes(m.0, t.0);
    assert (s.0 + 1) * m.0 == s.0 * m.0 + m.0;
  }

  lemma {:induction false} OrbitSolves(D: nat, N: int, path: seq<State>, k: nat)
    requires IsRun(D, path) && N * N < D && |Listed(path, N)| > 0
    ensures |path| > 0 && var z := Orbit(D, Listed(path, N), Least(path), k); Solves(D, N, z.0, z.1) && z.0 > 0 && z.1 > 0
  {
    RunEnd(D, path);
    ListedOrdered(D, N, path);
    SquareNonNeg(N);
    hide IsRun, Recorded, SquareFactors, Compose, Solves;
    if k >= |Listed(path, N)| {
      var z := Orbit(D, Listed(path, N), Least(path), k - |Listed(path, N)|);
      OrbitSolves(D, N, path, k - |Listed(path, N)|);
      ComposeSolves(D, N, Least(path), z);
      ComposeGrows(D, Least(path), z);
    }
  }

  // The search visits the solutions in increasing order.
  lemma {:induction false} OrbitStep(D: nat, N: int, path: seq<State>, k: nat)
    requires IsRun(D, path) && N * N < D && |Listed(path, N)| > 0
    ensures |path| > 0 && var sols, m := Listed(path, N), Least(path); Orbit(D, sols, m, k).0 < Orbit(D, sols, m, k + 1).0
  {
    RunEnd(D, path);
    ListedOrdered(D, N, path);
    SquareNonNeg(N);
    var sols, m := Listed(path, N), Least(path);
    hide IsRun, Recorded, SquareFactors, Compose, Solves;
    if k + 1 == |sols| {
      ListedBeforeComposed(D, N, path, k);
    } else if k >= |sols| {
      var s, t := Orbit(D, sols, m, k - |sols|), Orbit(D, sols, m, k + 1 - |sols|);
      OrbitStep(D, N, path, k - |sols|);
      OrbitSolves(D, N, path, k - |sols|);
      OrbitSolves(D, N, path, k + 1 - |sols|);
      SameNormOrder(D, N, s.0, s.1, t.0, t.1);
      ComposeOrdered(D, m, s, t);
    }
  }

  lemma {:induction false} OrbitIncreases(D: nat, N: int, path: seq<State>, i: nat, j: nat)
    requires IsRun(D, path) && N * N < D && |Listed(path, N)| > 0 && i < j
    ensures |path| > 0 && var sols, m := Listed(path, N), Least(path); Orbit(D, sols, m, i).0 < Orbit(D, sols, m, j).0
    decreases j - i
  {
    RunEnd(D, path);
    hide *;
    OrbitStep(D, N, path, i);
    if i + 1 < j { OrbitIncreases(D, N, path, i + 1, j); }
  }

  ghost predicate InOrbit(D: nat, sols: seq<(int, int)>, m: (int, int), z: (int, int))
  {
    |sols| > 0 && exists k: nat :: Orbit(D, sols, m, k) == z
  }

  // The positive solutions for N are exactly the orbit of the list.
  lemma {:induction false} SolutionsAreOrbit(D: nat, N: int, path: seq<State>, x: int, y: int)
    requires IsRun(D, path) && |path| > 0 && N != 0 && N * N < D
    ensures Solves(D, N, x, y) && x > 0 && y > 0 <==> InOrbit(D, Listed(path, N), Least(path), (x, y))
  {
    hide IsRun, Solves, Listed, Least, Orbit;
    if Solves(D, N, x, y) && x > 0 && y > 0 {
      var k := AllInOrbit(D, N, path, x, y);
    }
    if InOrbit(D, Listed(path, N), Least(path), (x, y)) {
      var k: nat :| Orbit(D, Listed(path, N), Least(path), k) == (x, y);
      OrbitSolves(D, N, path, k);
    }
  }
}
