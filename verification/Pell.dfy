// The generalised Pell equation x^2 - D*y^2 = N by the continued fraction of sqrt(D).
module Pell {
  import opened Arith

  // mpz_sqrt: the integer part of the square root.
  function ISqrt(n: nat): (r: nat)
    ensures r * r <= n < (r + 1) * (r + 1)
  {
    if n == 0 then 0
    else
      var s := ISqrt(n - 1);
      if (s + 1) * (s + 1) <= n then s + 1 else s
  }

  predicate IsSquare(n: nat)
  {
    ISqrt(n) * ISqrt(n) == n
  }

  lemma {:induction false} SquareIff(n: nat, r: int)
    requires r * r == n
    ensures IsSquare(n)
  {
    var t := if r < 0 then -r else r;
    assert t * t == n;
    var s := ISqrt(n);
    assert s * s <= n < (s + 1) * (s + 1);
    hide ISqrt;
    SameRoot(s, t);
  }

  lemma SameRoot(s: nat, t: nat)
    requires s * s <= t * t < (s + 1) * (s + 1)
    ensures s == t
  {
    if t > s { MulLe(s + 1, t, s + 1); MulLe(s + 1, t, t); }
    if t < s { MulLe(t + 1, s, t + 1); MulLe(t + 1, s, s); }
  }

  function Abs(n: int): nat
  {
    if n < 0 then -n else n
  }

  // ---------------------------------------------------------------- the expansion as a state machine

  // One position of the expansion: (P + sqrt(D)) / Q with partial quotient a, the convergent p/q before
  // that quotient is used, the one before it, and the sign d of p^2 - D*q^2.
  datatype State = State(P: int, Q: int, a: int, p: int, q: int, pm: int, qm: int, d: int)

  predicate Expandable(D: nat)
  {
    !IsSquare(D)
  }

  lemma RootPositive(D: nat)
    requires Expandable(D)
    ensures ISqrt(D) >= 1 && ISqrt(D) * ISqrt(D) < D
  {
    assert ISqrt(D) == 0 ==> D == 0;
  }

  function Start(D: nat): State
    requires Expandable(D)
  {
    RootPositive(D);
    var a0 := ISqrt(D);
    State(a0, D - a0 * a0, (a0 + a0) / (D - a0 * a0), a0, 1, 1, 0, -1)
  }

  // Where the expansion is, forgetting the convergents.
  datatype Key = Key(P: int, Q: int, d: int)

  function KeyOf(s: State): Key
  {
    Key(s.P, s.Q, s.d)
  }

  predicate Reduced(D: nat, k: Key)
  {
    var a0 := ISqrt(D);
    && 0 < k.P <= a0 && a0 - k.P < k.Q <= a0 + k.P
    && (D - k.P * k.P) % k.Q == 0 && (k.d == 1 || k.d == -1)
  }

  function StepKey(D: nat, k: Key): Key
    requires Reduced(D, k)
  {
    var a := (ISqrt(D) + k.P) / k.Q;
    var P := a * k.Q - k.P;
    Key(P, (D - P * P) / k.Q, -k.d)
  }

  // Every division the loop makes is exact, and the state stays reduced.
  lemma {:induction false} StepReduced(D: nat, k: Key)
    requires Expandable(D) && Reduced(D, k)
    ensures var n := StepKey(D, k); Reduced(D, n) && k.Q * n.Q == D - n.P * n.P
  {
    hide ISqrt, Expandable;
    RootPositive(D);
    var n := StepKey(D, k);
    StepNumbers(D, ISqrt(D), k.P, k.Q, (ISqrt(D) + k.P) / k.Q, n.P, n.Q);
  }

  lemma {:induction false} StepNumbers(D: int, a0: int, P: int, Q: int, a: int, P': int, Q': int)
    requires 0 < P <= a0 && a0 - P < Q <= a0 + P && (D - P * P) % Q == 0 && a0 * a0 < D < (a0 + 1) * (a0 + 1)
    requires a == (a0 + P) / Q && P' == a * Q - P && Q' == (D - P' * P') / Q
    ensures 0 < P' <= a0 && a0 - P' < Q' <= a0 + P' && (D - P' * P') % Q' == 0 && Q * Q' == D - P' * P'
  {
    StepBounds(a0, P, Q);
    ExactQuotient(D, P, Q, a);
    ExactDivision(D - P' * P', Q);
    NextBounds(D, a0, P', Q, Q');
    ModZero(Q, Q');
  }

  lemma ExactDivision(x: int, n: int)
    requires n > 0 && x % n == 0
    ensures n * (x / n) == x
  {
  }

  lemma {:induction false} StepBounds(a0: int, P: int, Q: int)
    requires 0 < P <= a0 && a0 - P < Q <= a0 + P
    ensures var P' := (a0 + P) / Q * Q - P; 0 < P' <= a0 && a0 - P' < Q <= a0 + P'
  {
    var a := (a0 + P) / Q;
    assert a0 + P == a * Q + (a0 + P) % Q;
    QuotientPositive(a0 + P, Q);
    MulLe(1, a, Q);
  }

  lemma QuotientPositive(x: int, n: int)
    requires 0 < n <= x
    ensures x / n >= 1
  {
    assert x == (x / n) * n + x % n;
    if x / n <= 0 { MulLe(x / n, 0, n); }
  }

  lemma {:induction false} ExactQuotient(D: int, P: int, Q: int, a: int)
    requires Q > 0 && (D - P * P) % Q == 0
    ensures var P' := a * Q - P; (D - P' * P') % Q == 0
  {
    var P' := a * Q - P;
    assert D - P' * P' == D - P * P + (2 * a * P - a * a * Q) * Q;
    ModMultiple(D - P * P, 2 * a * P - a * a * Q, Q);
  }

  lemma {:induction false} NextBounds(D: int, a0: int, P: int, Q: int, Q': int)
    requires 0 < P <= a0 && a0 * a0 < D < (a0 + 1) * (a0 + 1)
    requires a0 - P < Q <= a0 + P && Q * Q' == D - P * P
    ensures a0 - P < Q' <= a0 + P
  {
    assert (a0 + P) * (a0 - P) == a0 * a0 - P * P;
    assert (a0 - P + 1) * (a0 + P + 1) == (a0 + 1) * (a0 + 1) - P * P;
    if Q' <= a0 - P {
      MulLe(Q', a0 - P, Q);
      MulLe(Q, a0 + P, a0 - P);
    }
    if Q' >= a0 + P + 1 {
      MulLe(a0 + P + 1, Q', Q);
      MulLe(a0 - P + 1, Q, a0 + P + 1);
    }
  }

  // The step is injective on reduced states.
  lemma {:induction false} StepInjective(D: nat, k: Key, l: Key)
    requires Expandable(D) && Reduced(D, k) && Reduced(D, l) && StepKey(D, k) == StepKey(D, l)
    ensures k == l
  {
    StepReduced(D, k);
    StepReduced(D, l);
    var n := StepKey(D, k);
    SameFactor(k.Q, l.Q, n.Q);
    SameResidue((ISqrt(D) + k.P) / k.Q, (ISqrt(D) + l.P) / l.Q, k.Q, k.P, l.P, ISqrt(D));
  }

  lemma SameResidue(a: int, b: int, Q: int, P: int, P': int, top: int)
    requires Q > 0 && a * Q - P == b * Q - P' && top - Q < P <= top && top - Q < P' <= top
    ensures P == P'
  {
    assert P - P' == (a - b) * Q;
    if a > b { MulLe(1, a - b, Q); }
    if a < b { MulLe(a - b, -1, Q); }
  }

  lemma SameFactor(x: int, y: int, z: int)
    requires z > 0 && x * z == y * z
    ensures x == y
  {
    if x < y { MulLe(x + 1, y, z); }
    if y < x { MulLe(y + 1, x, z); }
  }

  predicate Final(D: nat, k: Key)
  {
    k == Key(ISqrt(D), 1, 1)
  }

  // The loop guard: a1 == 2*a0 and d == 1 happens in the final state only.
  lemma {:induction false} FinalIff(D: nat, k: Key)
    requires Expandable(D) && Reduced(D, k)
    ensures Final(D, k) <==> (ISqrt(D) + k.P) / k.Q == 2 * ISqrt(D) && k.d == 1
  {
    RootPositive(D);
    hide ISqrt;
    LargestQuotient(ISqrt(D), k.P, k.Q);
  }

  lemma {:induction false} LargestQuotient(a0: int, P: int, Q: int)
    requires 0 < P <= a0 && Q > 0
    ensures (a0 + P) / Q == 2 * a0 <==> P == a0 && Q == 1
  {
    var a, r := (a0 + P) / Q, (a0 + P) % Q;
    assert a0 + P == a * Q + r;
    if Q == 1 {
      assert a * 1 == a;
    } else if a == 2 * a0 {
      MulLe(2, Q, a);
    }
  }

  // The final state is the one and only predecessor of the starting state.
  lemma {:induction false} StartKey(D: nat)
    requires Expandable(D)
    ensures var s := KeyOf(Start(D)); Reduced(D, s)
    ensures Reduced(D, Key(ISqrt(D), 1, 1)) && StepKey(D, Key(ISqrt(D), 1, 1)) == KeyOf(Start(D))
  {
    RootPositive(D);
    var a0 := ISqrt(D);
    assert D <= a0 * a0 + 2 * a0;
    ModZero(1, D - a0 * a0);
    assert (D - a0 * a0) % 1 == 0 && (D - a0 * a0) / 1 == D - a0 * a0;
  }

  // ---------------------------------------------------------------- invariants of the convergents

  predicate CanStep(D: nat, s: State)
  {
    s.Q != 0 && (D - (s.a * s.Q - s.P) * (s.a * s.Q - s.P)) / s.Q != 0
  }

  function Next(D: nat, s: State): State
    requires CanStep(D, s)
  {
    var P := s.a * s.Q - s.P;
    var Q := (D - P * P) / s.Q;
    State(P, Q, (ISqrt(D) + P) / Q, s.a * s.p + s.pm, s.a * s.q + s.qm, s.p, s.q, -s.d)
  }

  predicate Sound(D: nat, s: State)
  {
    && Reduced(D, KeyOf(s)) && s.a == (ISqrt(D) + s.P) / s.Q && s.a >= 1
    && s.p * s.p - D * (s.q * s.q) == s.d * s.Q
    && s.p * s.pm - D * (s.q * s.qm) == -s.d * s.P
    && (s.pm * s.pm - D * (s.qm * s.qm)) * s.Q == -s.d * (D - s.P * s.P)
    && s.pm * s.q - s.p * s.qm == -s.d
    && s.p > 0 && s.q > 0 && s.pm > 0 && s.qm >= 0
  }

  lemma {:induction false} StartSound(D: nat)
    requires Expandable(D)
    ensures Sound(D, Start(D))
  {
    StartKey(D);
    RootPositive(D);
    var a0 := ISqrt(D);
    QuotientPositive(a0 + a0, D - a0 * a0);
  }

  lemma {:induction false} NextSound(D: nat, s: State)
    requires Expandable(D) && Sound(D, s)
    ensures CanStep(D, s)
    ensures Sound(D, Next(D, s)) && KeyOf(Next(D, s)) == StepKey(D, KeyOf(s))
    ensures Next(D, s).q >= s.q
  {
    hide ISqrt;
    StepReduced(D, KeyOf(s));
    var n := Next(D, s);
    QuotientPositive(ISqrt(D) + n.P, n.Q);
    MulLe(1, s.a, s.p);
    MulLe(1, s.a, s.q);
    assert s.Q * n.Q == D - n.P * n.P;
    DeterminantStep(s.a, s.p, s.q, s.pm, s.qm);
    NormStep(D, s.P, s.Q, s.a, s.p, s.q, s.pm, s.qm, s.d, n.P, n.Q);
  }

  lemma {:induction false} DeterminantStep(a: int, p: int, q: int, pm: int, qm: int)
    ensures p * (a * q + qm) - (a * p + pm) * q == -(pm * q - p * qm)
  {
  }

  // The three norms after one step; all of it is algebra in Z[sqrt(D)].
  lemma {:induction false} NormStep(D: int, P: int, Q: int, a: int, p: int, q: int, pm: int, qm: int, d: int, P': int, Q': int)
    requires Q > 0 && P' == a * Q - P && Q * Q' == D - P' * P'
    requires p * p - D * (q * q) == d * Q && p * pm - D * (q * qm) == -d * P
    requires (pm * pm - D * (qm * qm)) * Q == -d * (D - P * P)
    ensures var x, y := a * p + pm, a * q + qm;
            x * x - D * (y * y) == -d * Q' && x * p - D * (y * q) == d * P'
            && (p * p - D * (q * q)) * Q' == d * (D - P' * P')
  {
    var x, y := a * p + pm, a * q + qm;
    var u, v, w := p * p - D * (q * q), p * pm - D * (q * qm), pm * pm - D * (qm * qm);
    NormExpand(D, a, p, q, pm, qm);
    NormCollapse(D, P, Q, a, d, u, v, w, P', Q');
    SameFactor(a * a * u + 2 * a * v + w, -d * Q', Q);
    assert u * Q' == d * (Q * Q');
    assert a * u + v == d * P';
  }

  lemma {:induction false} NormExpand(D: int, a: int, p: int, q: int, pm: int, qm: int)
    ensures var x, y := a * p + pm, a * q + qm;
            var u, v, w := p * p - D * (q * q), p * pm - D * (q * qm), pm * pm - D * (qm * qm);
            x * x - D * (y * y) == a * a * u + 2 * a * v + w && x * p - D * (y * q) == a * u + v
  {
    SquareOfSum(a, p, pm);
    SquareOfSum(a, q, qm);
    ScaledSums(D, a, q * q, q * qm, qm * qm);
    FactoredSums(a, D, p * p, q * q, p * pm, q * qm);
  }

  lemma SquareOfSum(a: int, p: int, r: int)
    ensures (a * p + r) * (a * p + r) == a * a * (p * p) + 2 * a * (p * r) + r * r && (a * p + r) * p == a * (p * p) + p * r
  {
  }

  lemma ScaledSums(D: int, a: int, s: int, t: int, u: int)
    ensures D * (a * a * s + 2 * a * t + u) == a * a * (D * s) + 2 * a * (D * t) + D * u && D * (a * s + t) == a * (D * s) + D * t
  {
  }

  lemma FactoredSums(a: int, D: int, s: int, s': int, t: int, t': int)
    ensures a * a * (s - D * s') == a * a * s - a * a * (D * s') && 2 * a * (t - D * t') == 2 * a * t - 2 * a * (D * t')
    ensures a * (s - D * s') == a * s - a * (D * s')
  {
  }

  lemma {:induction false} NormCollapse(D: int, P: int, Q: int, a: int, d: int, u: int, v: int, w: int, P': int, Q': int)
    requires P' == a * Q - P && Q * Q' == D - P' * P'
    requires u == d * Q && v == -d * P && w * Q == -d * (D - P * P)
    ensures (a * a * u + 2 * a * v + w) * Q == (-d * Q') * Q
  {
    var X := a * Q;
    assert a * a * u * Q == d * (X * X);
    assert 2 * a * v * Q == -d * (2 * P * X);
    assert X * X - 2 * P * X + P * P == P' * P';
    assert d * (X * X) - d * (2 * P * X) + d * (P * P) - d * D == d * (P' * P' - D);
    assert (a * a * u + 2 * a * v + w) * Q == d * (P' * P' - D);
    assert (-d * Q') * Q == d * (P' * P' - D);
  }

  // ---------------------------------------------------------------- what is recorded

  type Pos = x: int | x > 0 witness 1

  function Sq(f: Pos): Pos
  {
    MulLe(1, f, f);
    f * f
  }

  // The f >= from with f^2 dividing n, in order.
  function SquareFactors(from: Pos, n: nat): (s: seq<Pos>)
    decreases n + 1 - from
  {
    if Sq(from) > n then []
    else
      assert from <= n by { MulLe(1, from, from); }
      (if n % Sq(from) == 0 then [from] else []) + SquareFactors(from + 1, n)
  }

  lemma {:induction false} SquareFactorsExact(from: Pos, n: nat, f: Pos)
    ensures f in SquareFactors(from, n) <==> f >= from && Sq(f) <= n && n % Sq(f) == 0
    decreases n + 1 - from
  {
    if Sq(from) > n {
      if f >= from { MulLe(from, f, from); MulLe(from, f, f); }
    } else {
      MulLe(1, from, from);
      SquareFactorsExact(from + 1, n, f);
    }
  }

  function Sign(N: int): int
  {
    if N > 0 then 1 else -1
  }

  // The solutions read off one convergent: it is scaled by every f whose square accounts for the norm.
  function Hits(factors: seq<Pos>, s: State, N: int): seq<(int, int)>
  {
    if |factors| == 0 || s.d != Sign(N) then []
    else
      var i := |factors| - 1;
      Hits(factors[..i], s, N)
      + if s.Q == Abs(N) / Sq(factors[i]) then [(s.p * factors[i], s.q * factors[i])] else []
  }

  function Recorded(factors: seq<Pos>, path: seq<State>, N: int): seq<(int, int)>
  {
    if |path| == 0 then []
    else Recorded(factors, path[..|path| - 1], N) + Hits(factors, path[|path| - 1], N)
  }

  ghost predicate IsPath(D: nat, path: seq<State>)
    requires Expandable(D)
  {
    && |path| > 0 && path[0] == Start(D)
    && (forall i :: 0 <= i < |path| ==> Sound(D, path[i]))
    && (forall i :: 0 <= i < |path| - 1 ==>
          !Final(D, KeyOf(path[i])) && CanStep(D, path[i]) && path[i + 1] == Next(D, path[i]))
  }

  predicate Solves(D: nat, N: int, x: int, y: int)
  {
    x * x - D * (y * y) == N
  }

  lemma {:induction false} ScaledSolves(D: nat, N: int, x: int, y: int, f: int, M: int)
    requires Solves(D, M, x, y) && M * (f * f) == N
    ensures Solves(D, N, x * f, y * f)
  {
    assert (x * f) * (x * f) == (x * x) * (f * f) && (y * f) * (y * f) == (y * y) * (f * f);
    assert D * ((y * y) * (f * f)) == D * (y * y) * (f * f);
  }

  lemma {:induction false} HitSolves(D: nat, s: State, N: int, f: Pos)
    requires Sound(D, s) && s.d == Sign(N) && Abs(N) % Sq(f) == 0 && s.Q == Abs(N) / Sq(f)
    ensures Solves(D, N, s.p * f, s.q * f) && s.p * f > 0 && s.q * f > 0
  {
    assert N == s.d * Abs(N);
    assert Sq(f) == f * f;
    hide Reduced, Sq, Abs, Sign;
    ExactDivision(Abs(N), Sq(f));
    assert Solves(D, s.d * s.Q, s.p, s.q);
    assert s.p > 0 && s.q > 0;
    hide *;
    MulLe(1, f, s.p);
    MulLe(1, f, s.q);
    Distribute(s.d, s.Q, Sq(f));
    ScaledSolves(D, N, s.p, s.q, f, s.d * s.Q);
  }

  lemma Distribute(d: int, Q: int, m: int)
    ensures (d * Q) * m == d * (Q * m)
  {
  }

  lemma {:induction false} HitsSolve(D: nat, factors: seq<Pos>, s: State, N: int, h: (int, int))
    requires Sound(D, s) && h in Hits(factors, s, N)
    requires forall i :: 0 <= i < |factors| ==> Abs(N) % Sq(factors[i]) == 0
    ensures Solves(D, N, h.0, h.1) && h.0 > 0 && h.1 > 0
  {
    hide Sound, Solves, Abs, Sq;
    var i := |factors| - 1;
    if h in Hits(factors[..i], s, N) {
      HitsSolve(D, factors[..i], s, N, h);
    } else {
      HitSolves(D, s, N, factors[i]);
    }
  }

  lemma {:induction false} RecordedSolve(D: nat, factors: seq<Pos>, path: seq<State>, N: int, h: (int, int))
    requires forall i :: 0 <= i < |path| ==> Sound(D, path[i])
    requires forall i :: 0 <= i < |factors| ==> Abs(N) % Sq(factors[i]) == 0
    requires h in Recorded(factors, path, N)
    ensures Solves(D, N, h.0, h.1) && h.0 > 0 && h.1 > 0
  {
    hide Sound, Solves, Hits, Abs, Sq;
    var l := |path| - 1;
    if h in Hits(factors, path[l], N) {
      HitsSolve(D, factors, path[l], N, h);
    } else {
      RecordedSolve(D, factors, path[..l], N, h);
    }
  }

  // Main result on the recorded pairs: all of them solve the equation.
  lemma {:induction false} AllRecordedSolve(D: nat, factors: seq<Pos>, path: seq<State>, N: int)
    requires forall i :: 0 <= i < |path| ==> Sound(D, path[i])
    requires forall i :: 0 <= i < |factors| ==> Abs(N) % Sq(factors[i]) == 0
    ensures forall h :: h in Recorded(factors, path, N) ==> Solves(D, N, h.0, h.1) && h.0 > 0 && h.1 > 0
  {
    forall h | h in Recorded(factors, path, N) ensures Solves(D, N, h.0, h.1) && h.0 > 0 && h.1 > 0 {
      RecordedSolve(D, factors, path, N, h);
    }
  }

  // ---------------------------------------------------------------- the routine

  method FindSquareFactors(N: int) returns (listf: seq<Pos>)
    ensures listf == SquareFactors(1, Abs(N))
    ensures forall i :: 0 <= i < |listf| ==> Abs(N) % Sq(listf[i]) == 0
  {
    var m := Abs(N);
    hide Abs, SquareFactors, Sq;
    listf := [];
    var f: Pos := 1;
    assert listf + SquareFactors(1, m) == SquareFactors(1, m);
    while true
      invariant listf + SquareFactors(f, m) == SquareFactors(1, m)
      invariant forall i :: 0 <= i < |listf| ==> m % Sq(listf[i]) == 0
      decreases m + 1 - f
    {
      var n := Sq(f);
      SquareFactorsUnfold(f, m);
      if n > m { break; }
      if m % n == 0 {
        assert listf + ([f] + SquareFactors(f + 1, m)) == (listf + [f]) + SquareFactors(f + 1, m);
        listf := listf + [f];
      }
      f := f + 1;
    }
    assert listf + [] == listf;
  }

  lemma SquareFactorsUnfold(f: Pos, n: nat)
    ensures Sq(f) > n ==> SquareFactors(f, n) == []
    ensures Sq(f) <= n ==> f <= n
    ensures Sq(f) <= n ==> SquareFactors(f, n) == (if n % Sq(f) == 0 then [f] else []) + SquareFactors(f + 1, n)
  {
    MulLe(1, f, f);
  }

  // All reduced positions, a finite set.
  ghost function AllKeys(D: nat): set<Key>
  {
    set P, Q, d | 0 < P <= ISqrt(D) && 0 < Q <= 2 * ISqrt(D) && -1 <= d <= 1 :: Key(P, Q, d)
  }

  ghost predicate Entered(D: nat, seen: set<Key>, k: Key)
    requires Expandable(D)
  {
    k == KeyOf(Start(D)) || exists j :: j in seen && Reduced(D, j) && StepKey(D, j) == k
  }

  // Visited positions: none is final, and each but the start was entered from a visited one.
  ghost predicate Visited(D: nat, seen: set<Key>, cur: Key)
    requires Expandable(D)
  {
    && seen <= AllKeys(D) && cur !in seen && Reduced(D, cur)
    && (forall k :: k in seen ==> Reduced(D, k) && !Final(D, k))
    && (forall k :: k in seen + {cur} ==> Entered(D, seen, k))
  }

  // Termination: from a position that is not final the step reaches one not visited before.
  lemma {:induction false} StepIsNew(D: nat, seen: set<Key>, cur: Key)
    requires Expandable(D) && Visited(D, seen, cur) && !Final(D, cur)
    ensures Visited(D, seen + {cur}, StepKey(D, cur)) && cur in AllKeys(D)
  {
    var n := StepKey(D, cur);
    StepReduced(D, cur);
    StartKey(D);
    hide StepKey, Start;
    if n in seen + {cur} {
      assert Entered(D, seen, n);
      if n == KeyOf(Start(D)) {
        StepInjective(D, cur, Key(ISqrt(D), 1, 1));
      } else {
        var j :| j in seen && Reduced(D, j) && StepKey(D, j) == n;
        StepInjective(D, cur, j);
      }
    }
    assert cur in AllKeys(D);
    hide Reduced;
    forall k | k in seen + {cur} + {n} ensures Entered(D, seen + {cur}, k) {
      if k in seen + {cur} { assert Entered(D, seen, k); }
    }
  }

  method RecordHits(sols: seq<(int, int)>, listf: seq<Pos>, p0: int, q0: int, Q1: int, d: int, N: int, ghost s: State)
    returns (r: seq<(int, int)>)
    requires s.p == p0 && s.q == q0 && s.Q == Q1 && s.d == d
    ensures r == sols + Hits(listf, s, N)
  {
    r := sols;
    if d == Sign(N) {
      for i := 0 to |listf|
        invariant r == sols + Hits(listf[..i], s, N)
      {
        var f := listf[i];
        assert listf[..i + 1][..i] == listf[..i];
        if Q1 == Abs(N) / Sq(f) {
          r := r + [(p0 * f, q0 * f)];
        }
      }
      assert listf[..|listf|] == listf;
    }
  }

  lemma {:induction false} PathGrows(D: nat, path: seq<State>, s: State)
    requires Expandable(D) && IsPath(D, path + [s]) && !Final(D, KeyOf(s)) && CanStep(D, s) && Sound(D, Next(D, s))
    ensures IsPath(D, path + [s] + [Next(D, s)])
  {
    hide Sound, Final, CanStep, Next, Start;
    var l := path + [s];
    var m := l + [Next(D, s)];
    forall i | 0 <= i < |m| - 1
      ensures !Final(D, KeyOf(m[i])) && CanStep(D, m[i]) && m[i + 1] == Next(D, m[i])
    {
      assert m[i] == l[i];
      if i < |path| { assert m[i + 1] == l[i + 1]; }
    }
  }

  // The recurrences of the loop.
  function NextP(a: int, Q: int, P: int): int
  {
    a * Q - P
  }

  function NextQ(D: int, P: int, Q: int): int
    requires Q != 0
  {
    (D - P * P) / Q
  }

  function Quotient(a0: int, P: int, Q: int): int
    requires Q != 0
  {
    (a0 + P) / Q
  }

  function Convergent(a: int, p: int, pm: int): int
  {
    a * p + pm
  }

  // p1/q1 is the convergent after s.
  ghost predicate Ahead(s: State, p1: int, q1: int)
  {
    p1 == s.a * s.p + s.pm && q1 == s.a * s.q + s.qm
  }

  lemma {:induction false} StartPath(D: nat, p1: int, q1: int)
    requires Expandable(D) && p1 == ISqrt(D) * Start(D).a + 1 && q1 == Start(D).a
    ensures IsPath(D, [] + [Start(D)]) && Visited(D, {}, KeyOf(Start(D))) && Ahead(Start(D), p1, q1)
    ensures Start(D) == State(ISqrt(D), D - ISqrt(D) * ISqrt(D), (ISqrt(D) + ISqrt(D)) / (D - ISqrt(D) * ISqrt(D)), ISqrt(D), 1, 1, 0, -1)
  {
    StartKey(D);
    StartSound(D);
    TimesCommutes(ISqrt(D), Start(D).a);
    hide ISqrt, StepKey;
  }

  lemma TimesCommutes(a: int, b: int)
    ensures a * b == b * a
  {
  }

  lemma {:induction false} SoundMeans(D: nat, s: State)
    requires Expandable(D) && Sound(D, s)
    ensures Reduced(D, KeyOf(s)) && s.Q > 0
    ensures Final(D, KeyOf(s)) <==> s.a == 2 * ISqrt(D) && s.d == 1
    ensures Final(D, KeyOf(s)) ==> Solves(D, 1, s.p, s.q)
    ensures s.p > 0 && s.q > 0
  {
    FinalIff(D, KeyOf(s));
    hide ISqrt;
  }

  lemma {:induction false} NextMeans(D: nat, s: State, p1: int, q1: int)
    requires Expandable(D) && Sound(D, s) && CanStep(D, s) && Sound(D, Next(D, s)) && Ahead(s, p1, q1)
    ensures var n := Next(D, s);
            && n.Q > 0 && s.Q > 0 && n.P == NextP(s.a, s.Q, s.P) && n.Q == NextQ(D, n.P, s.Q) && n.a == Quotient(ISqrt(D), n.P, n.Q)
            && n.p == p1 && n.q == q1 && n.pm == s.p && n.qm == s.q && n.d == -s.d
            && Ahead(n, Convergent(n.a, p1, s.p), Convergent(n.a, q1, s.q))
  {
    hide ISqrt;
  }

  lemma RecordedGrows(factors: seq<Pos>, path: seq<State>, s: State, N: int)
    ensures Recorded(factors, path + [s], N) == Recorded(factors, path, N) + Hits(factors, s, N)
  {
    assert (path + [s])[..|path|] == path;
  }

  method GeneralPell(D: nat, N: int) returns (minx: int, miny: int, sols: seq<(int, int)>, ghost path: seq<State>)
    requires Expandable(D)
    ensures IsPath(D, path) && Final(D, KeyOf(path[|path| - 1]))
    ensures minx == path[|path| - 1].p && miny == path[|path| - 1].q
    ensures Solves(D, 1, minx, miny) && minx > 0 && miny > 0
    ensures forall x, y | Solves(D, 1, x, y) && x > 0 && y > 0 :: minx <= x && miny <= y
    ensures sols == Recorded(SquareFactors(1, Abs(N)), path, N)
    ensures forall h :: h in sols ==> Solves(D, N, h.0, h.1) && h.0 > 0 && h.1 > 0
  {
    var listf := FindSquareFactors(N);
    StartKey(D);
    StartSound(D);
    var a0 := ISqrt(D);
    var P0, Q0 := 0, 1;
    var P1, Q1 := a0, D - a0 * a0;
    var a1 := (a0 + P1) / Q1;
    var p0, q0 := a0, 1;
    var p1, q1 := a0 * a1 + 1, a1;
    var d := -1;
    sols := [];
    ghost var s := Start(D);
    path := [];
    ghost var seen: set<Key> := {};
    StartPath(D, p1, q1);
    hide *;
    while true
      invariant Sound(D, s) && s == State(P1, Q1, a1, p0, q0, s.pm, s.qm, d) && Ahead(s, p1, q1)
      invariant IsPath(D, path + [s])
      invariant sols == Recorded(listf, path, N)
      invariant Visited(D, seen, KeyOf(s))
      decreases AllKeys(D) - seen
    {
      SoundMeans(D, s);
      sols := RecordHits(sols, listf, p0, q0, Q1, d, N, s);
      RecordedGrows(listf, path, s, N);
      if 2 * a0 == a1 && d == 1 {
        path := path + [s];
        break;
      }
      NextSound(D, s);
      NextMeans(D, s, p1, q1);
      StepIsNew(D, seen, KeyOf(s));
      PathGrows(D, path, s);
      P0 := P1;
      P1 := NextP(a1, Q1, P0);
      Q0 := Q1;
      Q1 := NextQ(D, P1, Q0);
      a1 := Quotient(a0, P1, Q1);
      p0, p1 := p1, Convergent(a1, p1, p0);
      q0, q1 := q1, Convergent(a1, q1, q0);
      d := -d;
      seen := seen + {KeyOf(s)};
      path := path + [s];
      s := Next(D, s);
    }
    minx, miny := p0, q0;
    PathOutcome(D, listf, path, N);
  }

  lemma {:induction false} PathOutcome(D: nat, factors: seq<Pos>, path: seq<State>, N: int)
    requires Expandable(D) && IsPath(D, path) && Final(D, KeyOf(path[|path| - 1]))
    requires factors == SquareFactors(1, Abs(N))
    ensures var m := path[|path| - 1];
            Solves(D, 1, m.p, m.q) && m.p > 0 && m.q > 0 && forall x, y | Solves(D, 1, x, y) && x > 0 && y > 0 :: m.p <= x && m.q <= y
    ensures forall h :: h in Recorded(factors, path, N) ==> Solves(D, N, h.0, h.1) && h.0 > 0 && h.1 > 0
  {
    SoundMeans(D, path[|path| - 1]);
    forall i | 0 <= i < |factors| ensures Abs(N) % Sq(factors[i]) == 0 { SquareFactorsExact(1, Abs(N), factors[i]); }
    hide Sound, Solves, Final, Next, Recorded;
    AllRecordedSolve(D, factors, path, N);
    PathEndMinimal(D, path);
  }

  // ---------------------------------------------------------------- minimality

  // Between two neighbouring convergents of a path there is no solution of x^2 - D*y^2 = 1 but the first itself.
  lemma {:induction false} NoneBetween(D: nat, s: State, x: int, y: int)
    requires Expandable(D) && Sound(D, s) && CanStep(D, s) && Sound(D, Next(D, s))
    requires Solves(D, 1, x, y) && x > 0 && s.q <= y < Next(D, s).q
    ensures Final(D, KeyOf(s))
  {
    var n := Next(D, s);
    RootPositive(D);
    RootBound(D, x, y, n.P);
    var A := NoneBetweenInt(D, x, y, s.p, s.q, n.p, n.q, s.d, s.Q, n.P);
    assert s.d == 1 && s.Q == 1;
  }

  lemma {:induction false} NoneBetweenInt(D: nat, x: int, y: int, p: int, q: int, p': int, q': int, d: int, Q: int, P': int) returns (A: int)
    requires x * x - D * (y * y) == 1 && x > 0 && 0 < q <= y < q' && (d == 1 || d == -1) && Q > 0 && P' > 0
    requires p * q' - p' * q == d && x > y * P'
    requires p * p - D * (q * q) == d * Q && p' * p - D * (q' * q) == d * P'
    ensures d * Q == 1
  {
    var u, v := d * (x * q' - y * p'), d * (y * p - x * q);
    var C := x * q - y * p;
    A := x * p - D * (y * q);
    Coordinates(x, y, p, q, p', q', d);
    FirstNorm(D, x, y, p, q, p', q', u, v, d, Q, P');
    ConvergentFromQuotient(D, x, y, p, q);
    SignCases(x, y, q, q', u, v, d, A, C, P', Q);
    SameConvergent(D, x, y, p, q, A, C, v, d);
  }

  lemma {:induction false} SameConvergent(D: int, x: int, y: int, p: int, q: int, A: int, C: int, v: int, d: int)
    requires p == x * A + D * (y * C) && q == x * C + y * A && C == -d * v && v == 0 && A == 1
    ensures p == x && q == y
  {
    assert C == 0;
    assert y * C == 0 && x * C == 0 && D * 0 == 0 && x * A == x && y * A == y;
  }

  // (x,y) in the basis of the two convergents.
  lemma {:induction false} Coordinates(x: int, y: int, p: int, q: int, p': int, q': int, d: int)
    requires p * q' - p' * q == d && (d == 1 || d == -1)
    ensures var u, v := d * (x * q' - y * p'), d * (y * p - x * q);
            u * p + v * p' == x && u * q + v * q' == y && x * q - y * p == -d * v
  {
    var e, f := x * q' - y * p', y * p - x * q;
    Cramer(x, y, p, q, p', q');
    hide *;
    if d == 1 {
      assert x * d == x && y * d == y;
    } else {
      assert x * d == -x && y * d == -y;
      assert (d * e) * p == -(e * p) && (d * f) * p' == -(f * p') && (d * e) * q == -(e * q) && (d * f) * q' == -(f * q');
    }
  }

  lemma {:induction false} Cramer(x: int, y: int, p: int, q: int, p': int, q': int)
    ensures (x * q' - y * p') * p + (y * p - x * q) * p' == x * (p * q' - p' * q)
    ensures (x * q' - y * p') * q + (y * p - x * q) * q' == y * (p * q' - p' * q)
  {
  }

  lemma {:induction false} FirstNorm(D: int, x: int, y: int, p: int, q: int, p': int, q': int, u: int, v: int, d: int, Q: int, P': int)
    requires u * p + v * p' == x && u * q + v * q' == y
    requires p * p - D * (q * q) == d * Q && p' * p - D * (q' * q) == d * P'
    ensures x * p - D * (y * q) == d * (u * Q + v * P')
  {
    assert x * p == u * (p * p) + v * (p' * p) && y * q == u * (q * q) + v * (q' * q);
    assert D * (y * q) == u * (D * (q * q)) + v * (D * (q' * q));
  }

  // p + q*sqrt(D) is (x + y*sqrt(D)) times A + C*sqrt(D).
  lemma {:induction false} ConvergentFromQuotient(D: int, x: int, y: int, p: int, q: int)
    requires x * x - D * (y * y) == 1
    ensures var A, C := x * p - D * (y * q), x * q - y * p;
            p == x * A + D * (y * C) && q == x * C + y * A
  {
    NormTimes(D, x, y, p, q);
    assert p * 1 == p && q * 1 == q;
  }

  lemma {:induction false} NormTimes(D: int, x: int, y: int, p: int, q: int)
    ensures x * (x * p - D * (y * q)) + D * (y * (x * q - y * p)) == p * (x * x - D * (y * y))
    ensures x * (x * q - y * p) + y * (x * p - D * (y * q)) == q * (x * x - D * (y * y))
  {
  }

  lemma {:induction false} RootBound(D: nat, x: int, y: int, P: int)
    requires Solves(D, 1, x, y) && x > 0 && y > 0 && 0 < P <= ISqrt(D) && ISqrt(D) * ISqrt(D) < D
    ensures x > y * P
  {
    var a0 := ISqrt(D);
    hide ISqrt;
    var z := y * P;
    MulLe(P, a0, P);
    MulLe(P, a0, a0);
    assert z * z == (P * P) * (y * y);
    MulLe(P * P, D, y * y);
    if x <= z { MulLe(x, z, x); MulLe(x, z, z); }
  }

  lemma {:induction false} SignCases(x: int, y: int, q: int, q': int, u: int, v: int, d: int, A: int, C: int, P': int, Q: int)
    requires q == x * C + y * A && A == d * (u * Q + v * P') && C == -d * v && y == u * q + v * q'
    requires 0 < q <= y < q' && x > y * P' && Q >= 1 && (d == 1 || d == -1)
    ensures v == 0 && A == 1
  {
    var g := x - y * P';
    if v == 0 {
      assert C == 0 && x * C == 0;
      OnlyOne(q, y, A);
    } else {
      SignIdentity(x, y, u, v, P', Q);
      assert q == if d == 1 then y * (u * Q) - v * g else v * g - y * (u * Q);
      OppositeSigns(y, q, q', u, v, g, Q);
    }
  }

  lemma OnlyOne(q: int, y: int, A: int)
    requires q == y * A && 0 < q <= y
    ensures A == 1
  {
    if A >= 2 { MulLe(2, A, y); }
    if A <= 0 { MulLe(A, 0, y); }
  }

  lemma {:induction false} OppositeSigns(y: int, q: int, q': int, u: int, v: int, g: int, Q: int)
    requires y == u * q + v * q' && 0 < q <= y < q' && Q >= 1 && g >= 1 && v != 0
    ensures v * g - y * (u * Q) < -q || v * g - y * (u * Q) > q
  {
    if v >= 1 {
      if u >= 0 { MulLe(0, u, q); MulLe(1, v, q'); }
      else { Push(v, g, y, -u, Q); Negate(y, u, Q); }
    } else {
      if u <= 0 { MulLe(u, 0, q); MulLe(v, -1, q'); }
      else { Push(-v, g, y, u, Q); Negate(g, -v, 1); }
    }
  }

  lemma Negate(y: int, u: int, Q: int)
    ensures y * (-u * Q) == -(y * (u * Q))
  {
  }

  lemma {:induction false} SignIdentity(x: int, y: int, u: int, v: int, P': int, Q: int)
    ensures x * -v + y * (u * Q + v * P') == y * (u * Q) - v * (x - y * P')
    ensures x * v + y * -(u * Q + v * P') == v * (x - y * P') - y * (u * Q)
  {
  }

  lemma Push(v: int, g: int, y: int, u: int, Q: int)
    requires v >= 1 && g >= 1 && y >= 1 && u >= 1 && Q >= 1
    ensures v * g + y * (u * Q) > y
  {
    MulLe(1, v, g);
    MulLe(1, u, Q);
    MulLe(1, u * Q, y);
  }

  // Main result on (minx, miny): the routine returns the smallest positive solution of x^2 - D*y^2 = 1.
  lemma {:induction false} PathMinimal(D: nat, path: seq<State>, x: int, y: int)
    requires Expandable(D) && IsPath(D, path) && Final(D, KeyOf(path[|path| - 1]))
    requires Solves(D, 1, x, y) && x > 0 && y > 0
    ensures y >= path[|path| - 1].q && x >= path[|path| - 1].p
  {
    var last := path[|path| - 1];
    if y < last.q {
      var i := 0;
      while path[i + 1].q <= y
        invariant 0 <= i < |path| - 1 && path[i].q <= y
        decreases |path| - i
      {
        i := i + 1;
      }
      NoneBetween(D, path[i], x, y);
    }
    assert last.p * last.p - D * (last.q * last.q) == 1;
    Monotone(D, last.p, last.q, x, y);
  }

  lemma {:induction false} Monotone(D: nat, p: int, q: int, x: int, y: int)
    requires p * p - D * (q * q) == 1 && x * x - D * (y * y) == 1 && 0 < q <= y && p > 0 && x > 0
    ensures x >= p
  {
    MulLe(q, y, q);
    MulLe(q, y, y);
    MulLe(q * q, y * y, D);
    if x < p { MulLe(x + 1, p, x); MulLe(x + 1, p, p); }
  }

  lemma {:induction false} PathEndMinimal(D: nat, path: seq<State>)
    requires Expandable(D) && IsPath(D, path) && Final(D, KeyOf(path[|path| - 1]))
    ensures forall x, y | Solves(D, 1, x, y) && x > 0 && y > 0 :: path[|path| - 1].p <= x && path[|path| - 1].q <= y
  {
    forall x, y | Solves(D, 1, x, y) && x > 0 && y > 0 ensures path[|path| - 1].p <= x && path[|path| - 1].q <= y {
      PathMinimal(D, path, x, y);
    }
  }
}
