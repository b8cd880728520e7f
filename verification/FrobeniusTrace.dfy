// Traces of Frobenius over extensions, and the orders of a curve over them.
module FrobeniusTrace {
  import opened Arith

  // The trace over the extension of degree k of a curve of trace t over F_q.
  function Trace(q: int, t: int, k: nat): int
  {
    if k == 0 then 2 else if k == 1 then t else t * Trace(q, t, k - 1) - q * Trace(q, t, k - 2)
  }

  // Degrees below one give the trace itself.
  method TraceN(q: int, trace: int, n: int) returns (res: int)
    ensures res == Trace(q, trace, if n <= 1 then 1 else n)
  {
    var c2, c1 := 2, trace;
    for i := 2 to (if n < 2 then 2 else n + 1)
      invariant c1 == Trace(q, trace, i - 1) && c2 == Trace(q, trace, i - 2)
    {
      var c0 := trace * c1;
      var t0 := q * c2;
      c0 := c0 - t0;
      c2 := c1;
      c1 := c0;
    }
    res := c1;
  }

  // The number of points over the extension of degree k.
  function Order(q: int, t: int, k: nat): int
  {
    Pow(q, k) + 1 - Trace(q, t, k)
  }

  method CurveOrderExtn(q: int, t: int, k: nat) returns (res: int)
    ensures k >= 1 ==> res == Order(q, t, k)
    ensures k == 0 ==> res == 2 - t
  {
    var z := Pow(q, k);
    z := z + 1;
    var tk := TraceN(q, t, k);
    z := z - tk;
    res := z;
  }

  // ---------------------------------------------------------------- composition

  // Traces are sums of powers of the two roots: T(m+k) + q^k T(m-k) = T(m) T(k).
  lemma {:induction false} TraceSum(q: int, t: int, m: nat, k: nat)
    requires k <= m
    ensures Trace(q, t, m + k) + Pow(q, k) * Trace(q, t, m - k) == Trace(q, t, m) * Trace(q, t, k)
  {
    hide *;
    TraceUnfolds(q, t, 0);
    if k == 0 {
      Starts(q, t, m);
    } else if k == 1 {
      Starts(q, t, m);
      TraceUnfolds(q, t, m - 1);
    } else {
      TraceSum(q, t, m, k - 1);
      TraceSum(q, t, m, k - 2);
      TraceUnfolds(q, t, k - 2);
      TraceUnfolds(q, t, m + k - 2);
      TraceUnfolds(q, t, m - k);
      SumStep(q, t, Trace(q, t, m), Trace(q, t, k - 1), Trace(q, t, k - 2), Trace(q, t, m + k - 1), Trace(q, t, m + k - 2),
        Trace(q, t, m - k + 1), Trace(q, t, m - k + 2), Trace(q, t, m - k), Pow(q, k - 2));
    }
  }

  lemma TraceUnfolds(q: int, t: int, k: nat)
    ensures Trace(q, t, k + 2) == t * Trace(q, t, k + 1) - q * Trace(q, t, k)
    ensures Pow(q, k + 2) == q * (q * Pow(q, k)) && Pow(q, k + 1) == q * Pow(q, k)
  {
    assert Pow(q, k + 2) == q * Pow(q, k + 1);
  }

  lemma Starts(q: int, t: int, m: nat)
    ensures Trace(q, t, 0) == 2 && Trace(q, t, 1) == t && Pow(q, 0) == 1 && Pow(q, 1) == q
    ensures Trace(q, t, m) * 2 == Trace(q, t, m) + 1 * Trace(q, t, m) && Trace(q, t, m) * t == t * Trace(q, t, m)
  {
    assert Pow(q, 1) == q * Pow(q, 0);
  }

  lemma SumStep(q: int, t: int, T: int, a: int, b: int, u: int, v: int, x: int, y: int, z: int, w: int)
    requires u + q * w * x == T * a && v + w * y == T * b && y == t * x - q * z
    ensures (t * u - q * v) + (q * (q * w)) * z == T * (t * a - q * b)
  {
    assert T * (t * a - q * b) == t * (T * a) - q * (T * b);
    assert t * (u + q * w * x) - q * (v + w * y) == t * u - q * v + q * w * (t * x - y);
    assert q * w * (q * z) == q * (q * w) * z;
  }

  // The trace over an extension of an extension.
  lemma {:induction false} Composition(q: int, t: int, k: nat, j: nat)
    ensures Trace(Pow(q, k), Trace(q, t, k), j) == Trace(q, t, j * k)
  {
    if j == 0 {
    } else if j == 1 {
      assert 1 * k == k;
    } else {
      Composition(q, t, k, j - 1);
      Composition(q, t, k, j - 2);
      assert (j - 1) * k == (j - 2) * k + k && j * k == (j - 1) * k + k;
      MulLe(0, j - 2, k);
      TraceSum(q, t, (j - 1) * k, k);
    }
  }

  lemma {:induction false} PowerOfPower(q: int, k: nat, j: nat)
    ensures Pow(Pow(q, k), j) == Pow(q, j * k)
  {
    if j > 0 {
      PowerOfPower(q, k, j - 1);
      assert j * k == (j - 1) * k + k;
      MulLe(0, j - 1, k);
      PowAdd(q, (j - 1) * k, k);
    } else {
      assert 0 * k == 0;
    }
  }

  lemma {:induction false} OrderComposes(q: int, t: int, k: nat, j: nat)
    ensures Order(Pow(q, k), Trace(q, t, k), j) == Order(q, t, j * k)
  {
    Composition(q, t, k, j);
    PowerOfPower(q, k, j);
  }

  // ---------------------------------------------------------------- divisibility

  // The order over the extension of degree k is the order over F_q times this.
  function Cofactor(q: int, t: int, k: nat): int
  {
    if k == 0 then 0 else if k == 1 then 1
    else t * Cofactor(q, t, k - 1) - q * Cofactor(q, t, k - 2) + Pow(q, k - 1) + 1
  }

  lemma {:induction false} OrderDivides(q: int, t: int, k: nat)
    ensures Order(q, t, k) == Order(q, t, 1) * Cofactor(q, t, k)
  {
    assert Pow(q, 1) == q * Pow(q, 0);
    if k >= 2 {
      OrderDivides(q, t, k - 1);
      OrderDivides(q, t, k - 2);
      assert Pow(q, k) == q * Pow(q, k - 1) && Pow(q, k - 1) == q * Pow(q, k - 2);
      DividesStep(q, t, Pow(q, k - 2), Trace(q, t, k - 1), Trace(q, t, k - 2), Cofactor(q, t, k - 1), Cofactor(q, t, k - 2));
    }
  }

  lemma DividesStep(q: int, t: int, w: int, u: int, v: int, c: int, d: int)
    requires q * w + 1 - u == (q + 1 - t) * c && w + 1 - v == (q + 1 - t) * d
    ensures q * (q * w) + 1 - (t * u - q * v) == (q + 1 - t) * (t * c - q * d + q * w + 1)
  {
    var n := q + 1 - t;
    Pull(n, t, q, c, d, q * w + 1);
    Telescope(q, t, w, u, v);
  }

  lemma Pull(n: int, t: int, q: int, c: int, d: int, e: int)
    ensures n * (t * c - q * d + e) == t * (n * c) - q * (n * d) + n * e
  {
  }

  lemma Telescope(q: int, t: int, w: int, u: int, v: int)
    ensures t * (q * w + 1 - u) - q * (w + 1 - v) + (q + 1 - t) * (q * w + 1) == q * (q * w) + 1 - (t * u - q * v)
  {
  }

  // The order over each intermediate field divides the order over the larger one.
  lemma {:induction false} TowerOrderDivides(q: int, t: int, k: nat, j: nat)
    ensures Order(q, t, j * k) == Order(q, t, k) * Cofactor(Pow(q, k), Trace(q, t, k), j)
  {
    OrderComposes(q, t, k, j);
    OrderComposes(q, t, k, 1);
    assert 1 * k == k;
    OrderDivides(Pow(q, k), Trace(q, t, k), j);
  }

  // ---------------------------------------------------------------- the discriminant

  function U(q: int, t: int, k: nat): int
  {
    if k == 0 then 0 else if k == 1 then 1 else t * U(q, t, k - 1) - q * U(q, t, k - 2)
  }

  lemma {:induction false} HalfSteps(q: int, t: int, k: nat)
    ensures 2 * Trace(q, t, k + 1) == t * Trace(q, t, k) + (t * t - 4 * q) * U(q, t, k)
    ensures 2 * U(q, t, k + 1) == t * U(q, t, k) + Trace(q, t, k)
  {
    if k >= 1 {
      HalfSteps(q, t, k - 1);
      assert Trace(q, t, k + 1) == t * Trace(q, t, k) - q * Trace(q, t, k - 1);
      assert U(q, t, k + 1) == t * U(q, t, k) - q * U(q, t, k - 1);
      HalfStep(q, t, Trace(q, t, k - 1), U(q, t, k - 1), Trace(q, t, k), U(q, t, k));
    }
  }

  lemma HalfStep(q: int, t: int, a: int, u: int, b: int, v: int)
    requires 2 * b == t * a + (t * t - 4 * q) * u && 2 * v == t * u + a
    ensures 2 * (t * b - q * a) == t * b + (t * t - 4 * q) * v
    ensures 2 * (t * v - q * u) == t * v + b
  {
    assert t * (2 * v) == t * (t * u + a);
    assert (t * t - 4 * q) * (2 * v) == (t * t - 4 * q) * (t * u + a);
    assert t * (2 * b) == t * (t * a + (t * t - 4 * q) * u);
  }

  // The discriminant of every extension is that of the curve up to a square.
  lemma {:induction false} Discriminant(q: int, t: int, k: nat)
    ensures Trace(q, t, k) * Trace(q, t, k) - 4 * Pow(q, k) == (t * t - 4 * q) * (U(q, t, k) * U(q, t, k))
  {
    if k > 0 {
      Discriminant(q, t, k - 1);
      HalfSteps(q, t, k - 1);
      NormStep(q, t, Trace(q, t, k - 1), U(q, t, k - 1), Trace(q, t, k), U(q, t, k), Pow(q, k - 1));
    }
  }

  lemma {:induction false} NormStep(q: int, t: int, a: int, u: int, b: int, v: int, w: int)
    requires 2 * b == t * a + (t * t - 4 * q) * u && 2 * v == t * u + a
    requires a * a - 4 * w == (t * t - 4 * q) * (u * u)
    ensures b * b - 4 * (q * w) == (t * t - 4 * q) * (v * v)
  {
    var d := t * t - 4 * q;
    var s := (2 * b) * (2 * b) - d * ((2 * v) * (2 * v));
    assert s == (t * t - d) * (a * a - d * (u * u)) by { NormExpands(d, t, a, u); }
    assert s == 4 * (b * b - d * (v * v));
    assert (4 * q) * (4 * w) == 16 * (q * w);
  }

  lemma NormExpands(d: int, t: int, a: int, u: int)
    ensures (t * a + d * u) * (t * a + d * u) - d * ((t * u + a) * (t * u + a)) == (t * t - d) * (a * a - d * (u * u))
  {
  }

  // Hasse's bound passes from the curve to every extension.
  lemma {:induction false} HasseInherited(q: int, t: int, k: nat)
    requires t * t <= 4 * q
    ensures Trace(q, t, k) * Trace(q, t, k) <= 4 * Pow(q, k)
  {
    Discriminant(q, t, k);
    hide *;
    NonPositive(t * t - 4 * q, U(q, t, k));
  }

  lemma NonPositive(d: int, u: int)
    requires d <= 0
    ensures d * (u * u) <= 0
  {
  }
}
