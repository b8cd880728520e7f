// GF(3^m) as polynomials over GF(3) modulo x^m + x^t + 2, on words: products, cubes and reduction.
module TernaryField {
  import opened Arith
  import opened TernaryWords
  import opened TernaryElements
  import opened Polynomials
  import opened PolynomialDivision
  import PolynomialRing
  import PolynomialProducts

  function Trinomial(m: nat, t: nat): (f: Poly)
    ensures |f| == m + 1
  {
    seq(m + 1, i => if i == 0 then 2 else if i == t || i == m then 1 else 0)
  }

  // An element has digits below x^m only.
  ghost predicate Elt(s: seq<Word>, len: nat, m: nat)
  {
    Sane(s, len) && m < 64 * len && forall i :: m <= i < 64 * len ==> Digit(s, len, i) == 0
  }

  // p holds the modulus.
  ghost predicate IsModulus(p: seq<Word>, len: nat, m: nat, t: nat)
  {
    && 0 < t < m < 64 * len && Sane(p, len)
    && forall i :: 0 <= i < 64 * len ==> Digit(p, len, i) == Coef(Trinomial(m, t), i)
  }

  method FieldInit(m: nat, t: nat) returns (p: array<Word>, len: nat)
    requires 0 < t < m
    ensures fresh(p) && p.Length == 2 * len && IsModulus(p[..], len, m, t)
  {
    len := (m + (64 - 1) + 1) / 64;
    p := new Word[2 * len](_ => Zero);
    ZeroDigits(p[..], len);
    Gf3mSet(p, len, 0, 2);
    Gf3mSet(p, len, t, 1);
    Gf3mSet(p, len, m, 1);
  }

  // ---------------------------------------------------------------- congruences of digits

  // Subtracting, or for the digit 2 adding, a multiple of the modulus.
  lemma {:induction false} SubtractMultiple(d: Poly, d': Poly, q: Poly, v: int, k: nat, m: nat, t: nat)
    requires CoefCong(3, d', PSub(d, PScale(v, q))) && SameCoefs(q, PShift(k, Trinomial(m, t)))
    ensures Cong(3, Trinomial(m, t), d', d)
  {
    hide CoefCong, SameCoefs, Cong, PSub, PScale, PShift, Ev;
    var M := Trinomial(m, t);
    var g := PSub(d, PScale(v, q));
    var c := PScale(-v, PShift(k, [1]));
    forall X ensures Ev(g, X) == Ev(d, X) + Ev(M, X) * Ev(c, X) {
      EvSub(d, PScale(v, q), X);
      EvScale(v, q, X);
      SameCoefsSameValues(q, PShift(k, M), X);
      EvShift(k, M, X);
      EvScale(-v, PShift(k, [1]), X);
      EvShift(k, [1], X);
      EvConst(1, X);
      MultiplePoly(Ev(d, X), v, Pow(X, k), Ev(M, X));
    }
    MultipleVanishes(3, M, c, g, d);
    CoefCongIsCong(3, M, d', g);
    CongTrans(3, M, d', g, d);
  }

  lemma MultiplePoly(d: int, v: int, w: int, m: int)
    ensures d - v * (w * m) == d + m * (0 - v) * (w * 1)
    ensures m * (0 - v) * (w * 1) == m * ((0 - v) * (w * 1))
  {
  }

  // Removing the digit v at the top of a multiple q of the modulus.
  lemma RemoveSized(e: seq<Word>, e': seq<Word>, q: seq<Word>, len: nat, v: int)
    requires Sane(e, len) && Sane(q, len)
    requires if v == 1 then IsDifference(e', e, q, len) else if v == 2 then IsSum(e', e, q, len) else v == 0 && e' == e
    ensures |e| == |e'| == |q| == 2 * len
  {
    hide Digit;
  }

  lemma {:induction false} RemoveDigit(e: seq<Word>, e': seq<Word>, q: seq<Word>, len: nat, v: int, k: nat, m: nat, t: nat)
    requires Sane(e, len) && Sane(q, len) && SameCoefs(Digits(q, len), PShift(k, Trinomial(m, t)))
    requires if v == 1 then IsDifference(e', e, q, len) else if v == 2 then IsSum(e', e, q, len) else v == 0 && e' == e
    ensures Sane(e', len) && Cong(3, Trinomial(m, t), Digits(e', len), Digits(e, len))
    ensures forall i :: 0 <= i < 64 * len ==> Digit(e', len, i) == (Digit(e, len, i) - v * Digit(q, len, i)) % 3
  {
    hide IsSum, IsDifference, Sane, Digit, SameCoefs, Cong;
    RemoveSized(e, e', q, len, v);
    if v == 1 { DifferenceDigits(e', e, q, len); }
    if v == 2 { SumDigits(e', e, q, len); }
    var d, d', dq := Digits(e, len), Digits(e', len), Digits(q, len);
    forall i: nat ensures Coef(d', i) % 3 == Coef(PSub(d, PScale(v, dq)), i) % 3 {
    }
    SubtractMultiple(d, d', dq, v, k, m, t);
  }

  // ---------------------------------------------------------------- multiplication

  // e = n*a for a digit n.
  method Gf3mF1(e: array<Word>, n: int, a: array<Word>, len: nat)
    requires e != a && e.Length == 2 * len && a.Length == 2 * len && 0 <= n <= 2 && Sane(a[..], len)
    modifies e
    ensures Sane(e[..], len) && forall i :: 0 <= i < 64 * len ==> Digit(e[..], len, i) == (n * Digit(a[..], len, i)) % 3
  {
    hide Clean, Bit;
    ghost var s := a[..];
    if n == 0 {
      Gf3mZero(e);
      ZeroDigits(e[..], len);
    } else if n == 1 {
      for i := 0 to 2 * len
        invariant a[..] == s && forall j :: 0 <= j < i ==> e[j] == s[j]
      {
        e[i] := a[i];
      }
      assert e[..] == s;
      hide Digit;
    } else {
      Gf3mNeg(e, a, len);
      SwapDigits(e[..], s, len);
      hide Digit;
    }
  }

  // e = e*x modulo the trinomial.
  method Gf3mF2(e: array<Word>, p: array<Word>, len: nat, m: nat, t: nat)
    requires e != p && e.Length == 2 * len && p.Length == 2 * len && Elt(e[..], len, m) && IsModulus(p[..], len, m, t)
    modifies e
    ensures Elt(e[..], len, m) && Cong(3, Trinomial(m, t), Digits(e[..], len), PShift(1, old(Digits(e[..], len))))
  {
    hide *;
    ghost var s := e[..];
    EltMeans(s, len, m);
    ModulusMeans(p[..], len, m, t);
    Gf3mShiftUp(e, len);
    ghost var r := e[..];
    UpDigits(r, s, len);
    SaneLength(r, len);
    var v := Digit(e[..], len, m);
    if v == 1 {
      Gf3mSub(e, e, p, len);
    } else if v == 2 {
      Gf3mAdd(e, e, p, len);
    }
    DigitRange(r, len, m);
    ShiftReduced(s, r, e[..], p[..], len, m, t, v);
  }

  // One digit up, then less v times the modulus for the digit v that reached the top.
  lemma {:induction false} ShiftReduced(s: seq<Word>, r: seq<Word>, e: seq<Word>, p: seq<Word>, len: nat, m: nat, t: nat, v: int)
    requires Elt(s, len, m) && IsModulus(p, len, m, t) && IsUp(r, s, len) && |r| == 2 * len && m < 64 * len && v == Digit(r, len, m)
    requires if v == 1 then IsDifference(e, r, p, len) else if v == 2 then IsSum(e, r, p, len) else v == 0 && e == r
    ensures Elt(e, len, m) && |s| == 2 * len && Cong(3, Trinomial(m, t), Digits(e, len), PShift(1, Digits(s, len)))
  {
    hide *;
    EltMeans(s, len, m);
    ModulusMeans(p, len, m, t);
    UpDigits(r, s, len);
    ShiftedUp(s, r, len, m);
    RemoveSized(r, e, p, len, v);
    RemoveDigit(r, e, p, len, v, 0, m, t);
    CongSame(3, Trinomial(m, t), Digits(r, len), PShift(1, Digits(s, len)));
    CongTrans(3, Trinomial(m, t), Digits(e, len), Digits(r, len), PShift(1, Digits(s, len)));
    TopRemoved(r, e, p, len, m, t, v);
  }

  lemma {:induction false} EltMeans(s: seq<Word>, len: nat, m: nat)
    requires Elt(s, len, m)
    ensures |s| == 2 * len && Sane(s, len) && m < 64 * len && forall i :: m <= i < 64 * len ==> Digit(s, len, i) == 0
  {
  }

  lemma {:induction false} ModulusMeans(p: seq<Word>, len: nat, m: nat, t: nat)
    requires IsModulus(p, len, m, t)
    ensures |p| == 2 * len && 0 < t < m < 64 * len && Sane(p, len)
    ensures SameCoefs(Digits(p, len), PShift(0, Trinomial(m, t)))
  {
    assert PShift(0, Trinomial(m, t)) == Trinomial(m, t);
    hide Digit;
  }

  lemma DigitRange(s: seq<Word>, len: nat, i: nat)
    requires |s| == 2 * len && i < 64 * len
    ensures 0 <= Digit(s, len, i) <= 2
  {
  }

  lemma {:induction false} ShiftedUp(s: seq<Word>, r: seq<Word>, len: nat, m: nat)
    requires |s| == |r| == 2 * len && m < 64 * len && forall i :: m <= i < 64 * len ==> Digit(s, len, i) == 0
    requires forall i :: 0 <= i < 64 * len ==> Digit(r, len, i) == if i > 0 then Digit(s, len, i - 1) else 0
    ensures forall X :: Ev(Digits(r, len), X) == Ev(PShift(1, Digits(s, len)), X)
    ensures forall i :: m < i < 64 * len ==> Digit(r, len, i) == 0
  {
    hide Digit;
    var f, g := Digits(r, len), PShift(1, Digits(s, len));
    forall i: nat ensures Coef(f, i) == Coef(g, i) {
    }
    forall X ensures Ev(f, X) == Ev(g, X) { SameCoefsSameValues(f, g, X); }
  }

  lemma {:induction false} TopRemoved(r: seq<Word>, e: seq<Word>, p: seq<Word>, len: nat, m: nat, t: nat, v: int)
    requires Sane(e, len) && |r| == 2 * len && IsModulus(p, len, m, t) && v == Digit(r, len, m)
    requires forall i :: m < i < 64 * len ==> Digit(r, len, i) == 0
    requires forall i :: 0 <= i < 64 * len ==> Digit(e, len, i) == (Digit(r, len, i) - v * Digit(p, len, i)) % 3
    ensures Elt(e, len, m)
  {
    hide Digit;
    forall i | m <= i < 64 * len ensures Digit(e, len, i) == 0 {
      assert Digit(p, len, i) == Coef(Trinomial(m, t), i);
    }
  }

  // e is congruent to a*b.
  ghost predicate IsProduct(e: Poly, a: Poly, b: Poly, m: nat, t: nat)
  {
    Cong(3, Trinomial(m, t), e, PMul(a, b))
  }

  // c = a*(the digits of b below i) and the shifted operand is a*x^i.
  ghost predicate MultState(c: Poly, s: Poly, a: Poly, b: Poly, i: nat, m: nat, t: nat)
    requires i <= |b|
  {
    Cong(3, Trinomial(m, t), c, PMul(a, b[..i])) && Cong(3, Trinomial(m, t), s, PShift(i, a))
  }

  lemma {:induction false} MultStep(c: Poly, s: Poly, a: Poly, b: Poly, i: nat, m: nat, t: nat, c': Poly, s': Poly)
    requires i < |b| && MultState(c, s, a, b, i, m, t)
    requires CoefCong(3, c', PAdd(c, PScale(b[i], s))) && Cong(3, Trinomial(m, t), s', PShift(1, s))
    ensures MultState(c', s', a, b, i + 1, m, t)
  {
    hide Cong, CoefCong;
    var M := Trinomial(m, t);
    var u := PAdd(c, PScale(b[i], s));
    CoefCongIsCong(3, M, c', u);
    MultDiff(c, s, a, b, i);
    CongFrom(3, M, [1], c, PMul(a, b[..i]), [b[i]], s, PShift(i, a), u, PMul(a, b[..i + 1]));
    CongTrans(3, M, c', u, PMul(a, b[..i + 1]));
    ShiftDiff1(s, a, i);
    CongFrom(3, M, [0, 1], s, PShift(i, a), [1], s, s, PShift(1, s), PShift(i + 1, a)) by { CongSame(3, M, s, s); }
    CongTrans(3, M, s', PShift(1, s), PShift(i + 1, a));
  }

  lemma {:induction false} MultDiff(c: Poly, s: Poly, a: Poly, b: Poly, i: nat)
    requires i < |b|
    ensures Diff([1], c, PMul(a, b[..i]), [b[i]], s, PShift(i, a), PAdd(c, PScale(b[i], s)), PMul(a, b[..i + 1]))
  {
    hide Ev, PAdd, PMul, PScale, PShift;
    var u, v := PAdd(c, PScale(b[i], s)), PMul(a, b[..i + 1]);
    assert b[..i + 1] == b[..i] + [b[i]];
    forall X ensures Ev(u, X) - Ev(v, X) == Ev([1], X) * (Ev(c, X) - Ev(PMul(a, b[..i]), X)) + Ev([b[i]], X) * (Ev(s, X) - Ev(PShift(i, a), X)) {
      EvConst(1, X);
      EvConst(b[i], X);
      EvAdd(c, PScale(b[i], s), X);
      EvScale(b[i], s, X);
      EvMul(a, b[..i + 1], X);
      EvMul(a, b[..i], X);
      Snoc(b[..i], b[i], X);
      EvShift(i, a, X);
      MultPoly(Ev(c, X), Ev(s, X), Ev(a, X), Ev(b[..i], X), b[i], Pow(X, i));
    }
  }

  lemma {:induction false} Snoc(f: Poly, c: int, X: int)
    ensures Ev(f + [c], X) == Ev(f, X) + c * Pow(X, |f|)
  {
    PolynomialRing.EvSnoc(f, c, X);
  }

  lemma MultPoly(c: int, s: int, a: int, b: int, d: int, w: int)
    ensures c + d * s - a * (b + d * w) == 1 * (c - a * b) + d * (s - w * a)
  {
  }

  lemma {:induction false} ShiftDiff1(s: Poly, a: Poly, i: nat)
    ensures Diff([0, 1], s, PShift(i, a), [1], s, s, PShift(1, s), PShift(i + 1, a))
  {
    hide Ev, PShift;
    forall X ensures Ev(PShift(1, s), X) - Ev(PShift(i + 1, a), X) == Ev([0, 1], X) * (Ev(s, X) - Ev(PShift(i, a), X)) + Ev([1], X) * (Ev(s, X) - Ev(s, X)) {
      EvShift(1, s, X);
      EvShift(i + 1, a, X);
      EvShift(i, a, X);
      EvX(X);
      ShiftPoly1(X, Ev(s, X), Pow(X, i), Ev(a, X));
    }
  }

  lemma {:induction false} EvX(X: int)
    ensures Ev([0, 1], X) == X && Pow(X, 1) == X && Ev([1], X) == 1
    ensures forall i: nat :: Pow(X, i + 1) == X * Pow(X, i)
  {
    EvShift(1, [1], X);
    EvConst(1, X);
    assert [0, 1] == PShift(1, [1]);
    assert Pow(X, 1) == X * Pow(X, 0);
  }

  lemma ShiftPoly1(X: int, s: int, w: int, a: int)
    ensures X * s - X * w * a == X * (s - w * a) + 1 * (s - s)
  {
  }

  lemma {:induction false} MultStart(a: Poly, b: Poly, c: Poly, m: nat, t: nat)
    requires forall i: nat :: Coef(c, i) == 0
    ensures MultState(c, a, a, b, 0, m, t)
  {
    assert b[..0] == [] && PShift(0, a) == a;
    forall X ensures Ev(c, X) == Ev(PMul(a, b[..0]), X) {
      EvMul(a, [], X);
      EvConst(0, X);
      SameCoefsSameValues(c, [], X);
      assert Ev(a, X) * 0 == 0;
    }
    CongSame(3, Trinomial(m, t), c, PMul(a, b[..0]));
    CongSame(3, Trinomial(m, t), a, PShift(0, a));
  }

  // c + n*s, digit by digit.
  lemma {:induction false} AddedMultiple(c: seq<Word>, c': seq<Word>, u: seq<Word>, s: seq<Word>, len: nat, m: nat, n: int)
    requires Elt(c, len, m) && Elt(s, len, m) && Sane(u, len) && IsSum(c', c, u, len)
    requires forall i :: 0 <= i < 64 * len ==> Digit(u, len, i) == (n * Digit(s, len, i)) % 3
    ensures Elt(c', len, m) && CoefCong(3, Digits(c', len), PAdd(Digits(c, len), PScale(n, Digits(s, len))))
  {
    hide Digit, IsSum, Sane, Elt;
    EltMeans(c, len, m);
    EltMeans(s, len, m);
    SumDigits(c', c, u, len);
    SaneLength(c', len);
    var f, g := Digits(c', len), PAdd(Digits(c, len), PScale(n, Digits(s, len)));
    forall i: nat ensures Coef(f, i) % 3 == Coef(g, i) % 3 {
      if i < 64 * len { SumMod(Digit(c, len, i), n * Digit(s, len, i)); }
    }
    forall i | m <= i < 64 * len ensures Digit(c', len, i) == 0 {
      TimesZero(n);
    }
    EltIntro(c', len, m);
  }

  lemma TimesZero(n: int)
    ensures n * 0 == 0
  {
  }

  lemma SumMod(a: int, b: int)
    ensures ((a + b % 3) % 3) % 3 == (a + b) % 3
  {
  }

  lemma SaneLength(s: seq<Word>, len: nat)
    requires Sane(s, len)
    ensures |s| == 2 * len
  {
  }

  lemma {:induction false} ProductDone(c: Poly, s: Poly, a: Poly, b: Poly, m: nat, t: nat)
    requires m <= |b| && MultState(c, s, a, b, m, m, t) && forall i :: m <= i < |b| ==> b[i] == 0
    ensures IsProduct(c, a, b, m, t)
  {
    hide Cong;
    assert SameCoefs(b[..m], b);
    forall X ensures Ev(PMul(a, b[..m]), X) == Ev(PMul(a, b), X) {
      EvMul(a, b[..m], X);
      EvMul(a, b, X);
      SameCoefsSameValues(b[..m], b, X);
    }
    CongSame(3, Trinomial(m, t), PMul(a, b[..m]), PMul(a, b));
    CongTrans(3, Trinomial(m, t), c, PMul(a, b[..m]), PMul(a, b));
  }

  lemma {:induction false} ZeroElt(s: seq<Word>, len: nat, m: nat)
    requires |s| == 2 * len && m < 64 * len && forall i :: 0 <= i < |s| ==> s[i] == Zero
    ensures Elt(s, len, m) && forall i: nat :: Coef(Digits(s, len), i) == 0
  {
    ZeroDigits(s, len);
    hide Digit;
  }

  // e = a*b; the result may be one of the operands.
  method Gf3mMult(e: array<Word>, a: array<Word>, b: array<Word>, p: array<Word>, len: nat, m: nat, t: nat)
    requires e.Length == 2 * len && a.Length == 2 * len && b.Length == 2 * len && p.Length == 2 * len
    requires Elt(a[..], len, m) && Elt(b[..], len, m) && IsModulus(p[..], len, m, t)
    modifies e
    ensures Elt(e[..], len, m) && IsProduct(Digits(e[..], len), old(Digits(a[..], len)), old(Digits(b[..], len)), m, t)
  {
    hide *;
    EltMeans(b[..], len, m);
    ghost var A, D, P := Digits(a[..], len), Digits(b[..], len), p[..];
    var aa := new Word[2 * len](_ => Zero);
    CopyWords(aa, a);
    var u := new Word[2 * len](_ => Zero);
    var c := new Word[2 * len](_ => Zero);
    ZeroElt(c[..], len, m);
    MultStart(A, D, Digits(c[..], len), m, t);
    for i := 0 to m
      invariant p[..] == P && Digits(b[..], len) == D
      invariant Elt(aa[..], len, m) && Elt(c[..], len, m)
      invariant MultState(Digits(c[..], len), Digits(aa[..], len), A, D, i, m, t)
    {
      ghost var c0, s := c[..], aa[..];
      var v := Digit(b[..], len, i);
      DigitRange(b[..], len, i);
      EltMeans(s, len, m);
      Gf3mF1(u, v, aa, len);
      Gf3mAdd(c, c, u, len);
      AddedMultiple(c0, c[..], u[..], s, len, m, v);
      Gf3mF2(aa, p, len, m, t);
      MultStep(Digits(c0, len), Digits(s, len), A, D, i, m, t, Digits(c[..], len), Digits(aa[..], len));
    }
    ProductDone(Digits(c[..], len), Digits(aa[..], len), A, D, m, t);
    CopyWords(e, c);
  }

  method CopyWords(e: array<Word>, a: array<Word>)
    requires e.Length == a.Length
    modifies e
    ensures e[..] == old(a[..])
  {
    ghost var s := a[..];
    if e == a {
      return;
    }
    for i := 0 to a.Length
      invariant a[..] == s && forall j :: 0 <= j < i ==> e[j] == s[j]
    {
      e[i] := a[i];
    }
  }

  // ---------------------------------------------------------------- reduction

  // The shifted modulus x^(degree - m)*p.
  ghost predicate IsShifted(q: seq<Word>, len: nat, m: nat, t: nat, k: nat)
  {
    Sane(q, len) && SameCoefs(Digits(q, len), PShift(k, Trinomial(m, t)))
  }

  lemma {:induction false} ShiftedCoefs(q: seq<Word>, len: nat, m: nat, t: nat, k: nat)
    requires 0 < t < m && m + k < 64 * len && Sane(q, len)
    requires forall i :: 0 <= i < 64 * len ==> Digit(q, len, i) == if i == k then 2 else if i == k + t || i == k + m then 1 else 0
    ensures IsShifted(q, len, m, t, k)
  {
    hide Digit;
    var f, g := Digits(q, len), PShift(k, Trinomial(m, t));
    forall i: nat ensures Coef(f, i) == Coef(g, i) {
      if k <= i <= k + m { assert g[i] == Trinomial(m, t)[i - k]; }
    }
  }

  lemma {:induction false} ShiftedMeans(q: seq<Word>, len: nat, m: nat, t: nat, k: nat)
    requires 0 < t < m && m + k < 64 * len && IsShifted(q, len, m, t, k)
    ensures |q| == 2 * len && Sane(q, len)
    ensures forall i :: 0 <= i < 64 * len ==> Digit(q, len, i) == if i == k then 2 else if i == k + t || i == k + m then 1 else 0
  {
    hide Digit;
    var f, g := Digits(q, len), PShift(k, Trinomial(m, t));
    forall i | 0 <= i < 64 * len ensures Digit(q, len, i) == if i == k then 2 else if i == k + t || i == k + m then 1 else 0 {
      assert f[i] == Coef(f, i) == Coef(g, i);
      if k <= i <= k + m { assert g[i] == Trinomial(m, t)[i - k]; }
    }
  }

  lemma {:induction false} ShiftedOnce(q: seq<Word>, q': seq<Word>, len: nat, m: nat, t: nat, k: nat)
    requires 0 < t < m && m + k < 64 * len && k > 0 && IsShifted(q, len, m, t, k) && IsDown(q', q, len)
    ensures IsShifted(q', len, m, t, k - 1)
  {
    hide Digit, Sane, IsDown, IsShifted;
    ShiftedMeans(q, len, m, t, k);
    DownDigits(q', q, len);
    ShiftedCoefs(q', len, m, t, k - 1);
  }

  // The digit at k + m goes away.
  lemma {:induction false} DigitGone(e: seq<Word>, e': seq<Word>, q: seq<Word>, len: nat, m: nat, t: nat, k: nat, v: int)
    requires 0 < t < m && m + k < 64 * len && IsShifted(q, len, m, t, k) && |e| == |e'| == 2 * len && v == Digit(e, len, m + k)
    requires forall i :: m + k < i < 64 * len ==> Digit(e, len, i) == 0
    requires forall i :: 0 <= i < 64 * len ==> Digit(e', len, i) == (Digit(e, len, i) - v * Digit(q, len, i)) % 3
    ensures forall i :: m + k <= i < 64 * len ==> Digit(e', len, i) == 0
  {
    hide Digit, Sane, IsShifted;
    ShiftedMeans(q, len, m, t, k);
    forall i | m + k <= i < 64 * len ensures Digit(e', len, i) == 0 {
      if i > m + k { assert v * 0 == 0; }
    }
  }

  // Subtracts multiples of the modulus from the top degree down to m.
  method Gf3mReduct(e: array<Word>, len: nat, degree: nat, m: nat, t: nat)
    requires e.Length == 2 * len && Sane(e[..], len) && 0 < t < m <= degree < 64 * len
    requires forall i :: degree < i < 64 * len ==> Digit(e[..], len, i) == 0
    modifies e
    ensures Elt(e[..], len, m) && Cong(3, Trinomial(m, t), Digits(e[..], len), old(Digits(e[..], len)))
  {
    hide *;
    ghost var e0 := Digits(e[..], len);
    CongSame(3, Trinomial(m, t), e0, e0);
    var px := NewShifted(len, degree, m, t);
    var d := degree;
    while d >= m
      invariant m - 1 <= d <= degree && Sane(e[..], len)
      invariant d >= m ==> IsShifted(px[..], len, m, t, d - m)
      invariant forall i :: d < i < 64 * len ==> Digit(e[..], len, i) == 0
      invariant Cong(3, Trinomial(m, t), Digits(e[..], len), e0)
    {
      ghost var s, q := e[..], px[..];
      var v := Digit(e[..], len, d);
      DigitRange(s, len, d);
      ShiftedIs(q, len, m, t, d - m);
      if v == 1 {
        Gf3mSub(e, e, px, len);
      } else if v == 2 {
        Gf3mAdd(e, e, px, len);
      }
      RemoveDigit(s, e[..], q, len, v, d - m, m, t);
      DigitGone(s, e[..], q, len, m, t, d - m, v);
      CongTrans(3, Trinomial(m, t), Digits(e[..], len), Digits(s, len), e0);
      ghost var r := e[..];
      d := d - 1;
      Gf3mShiftDown(px, len);
      assert e[..] == r;
      if d >= m { ShiftedOnce(q, px[..], len, m, t, d + 1 - m); }
    }
    EltIntro(e[..], len, m);
  }

  lemma ShiftedIs(q: seq<Word>, len: nat, m: nat, t: nat, k: nat)
    requires IsShifted(q, len, m, t, k)
    ensures |q| == 2 * len && Sane(q, len) && SameCoefs(Digits(q, len), PShift(k, Trinomial(m, t)))
  {
  }

  lemma EltIntro(s: seq<Word>, len: nat, m: nat)
    requires |s| == 2 * len && Sane(s, len) && m < 64 * len && forall i :: m <= i < 64 * len ==> Digit(s, len, i) == 0
    ensures Elt(s, len, m)
  {
  }

  // x^degree + x^(degree-m+t) + 2*x^(degree-m)
  method NewShifted(len: nat, degree: nat, m: nat, t: nat) returns (px: array<Word>)
    requires 0 < t < m <= degree < 64 * len
    ensures fresh(px) && px.Length == 2 * len && IsShifted(px[..], len, m, t, degree - m)
  {
    hide *;
    px := new Word[2 * len](_ => Zero);
    ZeroDigits(px[..], len);
    Gf3mSet(px, len, degree, 1);
    Gf3mSet(px, len, degree - m + t, 1);
    Gf3mSet(px, len, degree - m, 2);
    ShiftedCoefs(px[..], len, m, t, degree - m);
  }

  // ---------------------------------------------------------------- cubes

  // f(x^3)
  function Spread(f: Poly): (r: Poly)
    ensures |r| == 3 * |f|
  {
    if f == [] then [] else [f[0], 0, 0] + Spread(f[1..])
  }

  lemma {:induction false} SpreadCoef(f: Poly, i: nat)
    ensures Coef(Spread(f), i) == if i % 3 == 0 then Coef(f, i / 3) else 0
  {
    if f != [] && i >= 3 {
      SpreadCoef(f[1..], i - 3);
      assert (i - 3) / 3 == i / 3 - 1 && (i - 3) % 3 == i % 3;
    }
  }

  lemma {:induction false} EvSpread(f: Poly, X: int)
    ensures f != [] ==> Ev(Spread(f), X) == f[0] + Pow(X, 3) * Ev(Spread(f[1..]), X)
  {
    if f != [] {
      var r := Spread(f[1..]);
      EvShift(3, r, X);
      var head := [f[0], 0, 0];
      assert Spread(f) == head + r;
      assert SameCoefs(Spread(f), PAdd([f[0]], PShift(3, r)));
      SameCoefsSameValues(Spread(f), PAdd([f[0]], PShift(3, r)), X);
      EvAdd([f[0]], PShift(3, r), X);
      EvConst(f[0], X);
    }
  }

  // The difference of f^3 and f(x^3) is three times this.
  function CubeRest(f: Poly): Poly
  {
    if f == [] then []
    else
      var g := [0] + f[1..];
      PAdd(PAdd([(f[0] * f[0] * f[0] - f[0]) / 3], PScale(f[0], PMul(g, PAdd([f[0]], g)))), PShift(3, CubeRest(f[1..])))
  }

  lemma {:induction false} Frobenius(f: Poly, X: int)
    ensures Ev(f, X) * Ev(f, X) * Ev(f, X) == Ev(Spread(f), X) + 3 * Ev(CubeRest(f), X)
    decreases |f|, 1
  {
    if f == [] {
      assert Spread(f) == [] && CubeRest(f) == [];
    } else {
      FrobeniusStep(f, X);
    }
  }

  lemma {:induction false} FrobeniusStep(f: Poly, X: int)
    requires f != []
    ensures Ev(f, X) * Ev(f, X) * Ev(f, X) == Ev(Spread(f), X) + 3 * Ev(CubeRest(f), X)
    decreases |f|, 0
  {
    hide *;
    Frobenius(f[1..], X);
    EvSpread(f, X);
    CubeRestValue(f, X);
    CubeThree(X);
    EvUnfold(f, X);
    FirstCoef(f);
    CombineCube(f[0], X, Ev(f[1..], X), Ev(Spread(f[1..]), X), Ev(CubeRest(f[1..]), X), Pow(X, 3), Ev(f, X), Ev(Spread(f), X), Ev(CubeRest(f), X));
  }

  lemma {:induction false} CombineCube(c: int, X: int, y: int, s: int, k: int, w: int, F: int, S: int, R: int)
    requires F == c + X * y && S == c + w * s && w == X * X * X && y * y * y == s + 3 * k
    requires R == (c * c * c - c) / 3 + c * ((X * y) * (c + X * y)) + w * k
    ensures F * F * F == S + 3 * R
  {
    SmallFermat(c);
    CubePoly(c, X, y, s, k, (c * c * c - c) / 3);
  }

  lemma FirstCoef(f: Poly)
    requires f != []
    ensures Coef(f, 0) == f[0]
  {
  }

  lemma {:induction false} CubeRestValue(f: Poly, X: int)
    requires f != []
    ensures var c, y := f[0], Ev(f[1..], X);
            Ev(CubeRest(f), X) == (c * c * c - c) / 3 + c * ((X * y) * (c + X * y)) + Pow(X, 3) * Ev(CubeRest(f[1..]), X)
  {
    hide Ev, PAdd, PScale, PMul, PShift, Pow;
    var c, g, k := f[0], [0] + f[1..], (f[0] * f[0] * f[0] - f[0]) / 3;
    EvAdd(PAdd([k], PScale(c, PMul(g, PAdd([c], g)))), PShift(3, CubeRest(f[1..])), X);
    EvAdd([k], PScale(c, PMul(g, PAdd([c], g))), X);
    EvConst(k, X);
    EvConst(c, X);
    EvScale(c, PMul(g, PAdd([c], g)), X);
    EvMul(g, PAdd([c], g), X);
    EvAdd([c], g, X);
    PolynomialProducts.EvCons(0, f[1..], X);
    EvShift(3, CubeRest(f[1..]), X);
  }

  lemma CubeThree(X: int)
    ensures Pow(X, 3) == X * X * X
  {
    assert Pow(X, 3) == X * Pow(X, 2) && Pow(X, 2) == X * Pow(X, 1) && Pow(X, 1) == X * Pow(X, 0);
    assert X * (X * X) == X * X * X;
  }

  // c^3 - c is a product of three neighbours.
  lemma {:induction false} SmallFermat(c: int)
    ensures 3 * ((c * c * c - c) / 3) == c * c * c - c
  {
    var q, r := c / 3, c % 3;
    assert c == 3 * q + r;
    ThreeNeighbours(q, r);
    DigitFermat(r);
    ThirdOf(c * c * c - c, 9 * (q * q * q) + 9 * (q * q) * r + 3 * q * (r * r) - q + if r == 2 then 2 else 0);
  }

  lemma DigitFermat(r: int)
    requires 0 <= r < 3
    ensures r * r * r - r == 3 * if r == 2 then 2 else 0
  {
  }

  lemma ThirdOf(x: int, k: int)
    requires x == 3 * k
    ensures 3 * (x / 3) == x
  {
  }

  lemma ThreeNeighbours(q: int, r: int)
    ensures var c := 3 * q + r; c * c * c - c == 3 * (9 * (q * q * q) + 9 * (q * q) * r + 3 * q * (r * r) - q) + (r * r * r - r)
  {
  }

  lemma CubePoly(c: int, X: int, y: int, s: int, k: int, d: int)
    requires y * y * y == s + 3 * k && 3 * d == c * c * c - c
    ensures (c + X * y) * (c + X * y) * (c + X * y) == c + X * X * X * s + 3 * (d + c * ((X * y) * (c + X * y)) + X * X * X * k)
  {
    CubeExpand(c, X * y);
    CubeOfProduct(X, y);
    assert X * X * X * (y * y * y) == X * X * X * s + 3 * (X * X * X * k);
  }

  lemma CubeExpand(c: int, z: int)
    ensures (c + z) * (c + z) * (c + z) == c * c * c + 3 * (c * (z * (c + z))) + z * z * z
  {
  }

  lemma CubeOfProduct(X: int, y: int)
    ensures (X * y) * (X * y) * (X * y) == X * X * X * (y * y * y)
  {
  }

  // Over GF(3) cubing substitutes x^3.
  lemma {:induction false} CubeIsSpread(f: Poly)
    ensures Cong(3, [], PMul(f, PMul(f, f)), Spread(f))
  {
    hide Ev, PMul, Spread, CubeRest, CoefCong, Cong;
    var g := PMul(f, PMul(f, f));
    forall X ensures Ev(g, X) == Ev(Spread(f), X) + 3 * Ev(CubeRest(f), X) { CubeValue(f, X); }
    WitIsCoefCong(3, g, Spread(f), CubeRest(f));
    CoefCongIsCong(3, [], g, Spread(f));
  }

  lemma {:induction false} CubeValue(f: Poly, X: int)
    ensures Ev(PMul(f, PMul(f, f)), X) == Ev(Spread(f), X) + 3 * Ev(CubeRest(f), X)
  {
    hide Ev, PMul, Spread, CubeRest;
    EvMul(f, PMul(f, f), X);
    EvMul(f, f, X);
    Frobenius(f, X);
    Associate(Ev(f, X), Ev(f, X), Ev(f, X));
  }

  // e is congruent to a^3.
  ghost predicate IsCube(e: Poly, a: Poly, m: nat, t: nat)
  {
    Cong(3, Trinomial(m, t), e, PMul(a, PMul(a, a)))
  }

  // The spread digits of x.
  ghost predicate SpreadDigits(a: seq<Word>, len3: nat, x: seq<Word>, len: nat, i: nat)
  {
    && |a| == 2 * len3 && |x| == 2 * len && i <= 64 * len
    && forall j :: 0 <= j < 64 * len3 ==> Digit(a, len3, j) == if j % 3 == 0 && j / 3 < i then Digit(x, len, j / 3) else 0
  }

  lemma {:induction false} SpreadIs(a: seq<Word>, len3: nat, x: seq<Word>, len: nat, m: nat)
    requires SpreadDigits(a, len3, x, len, m) && Elt(x, len, m) && 1 <= m && 3 * m <= 64 * len3 + 2
    ensures SameCoefs(Digits(a, len3), Spread(Digits(x, len)))
    ensures forall i :: 3 * m - 3 < i < 64 * len3 ==> Digit(a, len3, i) == 0
  {
    hide Digit;
    var f, g := Digits(a, len3), Spread(Digits(x, len));
    forall i: nat ensures Coef(f, i) == Coef(g, i) {
      SpreadCoef(Digits(x, len), i);
    }
  }

  lemma {:induction false} CubeCong(e: Poly, r: Poly, a: Poly, x: Poly, m: nat, t: nat)
    requires SameCoefs(e, r) && Cong(3, Trinomial(m, t), r, a) && SameCoefs(a, Spread(x))
    ensures IsCube(e, x, m, t)
  {
    hide Cong, SameCoefs, Spread, PMul, Ev;
    var M, c := Trinomial(m, t), PMul(x, PMul(x, x));
    forall X ensures Ev(e, X) == Ev(r, X) && Ev(a, X) == Ev(Spread(x), X) {
      SameCoefsSameValues(e, r, X);
      SameCoefsSameValues(a, Spread(x), X);
    }
    CongSame(3, M, e, r);
    CongSame(3, M, a, Spread(x));
    CubeIsSpread(x);
    CongWeaken(3, M, c, Spread(x));
    CongSym(3, M, c, Spread(x));
    CongTrans(3, M, e, r, a);
    CongTrans(3, M, e, a, Spread(x));
    CongTrans(3, M, e, Spread(x), c);
  }

  // The lower words of each half.
  lemma {:induction false} Narrowed(e: seq<Word>, len: nat, a: seq<Word>, len3: nat, m: nat)
    requires Elt(a, len3, m) && m < 64 * len && len <= len3 && |e| == 2 * len
    requires forall k :: 0 <= k < len ==> e[k] == a[k]
    requires forall k :: len <= k < 2 * len ==> e[k] == a[len3 + (k - len)]
    ensures Elt(e, len, m) && SameCoefs(Digits(e, len), Digits(a, len3))
  {
    hide Trit, Clean;
    forall i | 0 <= i < len ensures CleanPair(e, len, i) {
      assert CleanPair(a, len3, i);
      assert e[len + i] == a[len3 + (len + i - len)];
    }
    forall i | 0 <= i < 64 * len ensures Digit(e, len, i) == Digit(a, len3, i) {
      assert e[len + i / 64] == a[len3 + (len + i / 64 - len)];
    }
    hide Digit;
    var f, g := Digits(e, len), Digits(a, len3);
    forall i: nat ensures Coef(f, i) == Coef(g, i) {
    }
  }

  // Copies the words of an element between buffers of different length.
  method Narrow(e: array<Word>, len: nat, a: array<Word>, len3: nat)
    requires e != a && e.Length == 2 * len && a.Length == 2 * len3 && len <= len3
    modifies e
    ensures forall k :: 0 <= k < len ==> e[k] == a[k]
    ensures forall k :: len <= k < 2 * len ==> e[k] == a[len3 + (k - len)]
  {
    ghost var s := a[..];
    for k := 0 to len
      invariant a[..] == s && forall j :: 0 <= j < k ==> e[j] == s[j]
    {
      e[k] := a[k];
    }
    for k := len to 2 * len
      invariant a[..] == s && forall j :: 0 <= j < len ==> e[j] == s[j]
      invariant forall j :: len <= j < k ==> e[j] == s[len3 + (j - len)]
    {
      e[k] := a[len3 + (k - len)];
    }
  }

  // e = x^3, by spreading the digits of x and reducing; the result may be the operand.
  method Gf3mCubic(e: array<Word>, x: array<Word>, len: nat, m: nat, t: nat)
    requires e.Length == 2 * len && x.Length == 2 * len && Elt(x[..], len, m) && 0 < t < m && len == (m + 64) / 64
    modifies e
    ensures Elt(e[..], len, m) && IsCube(Digits(e[..], len), old(Digits(x[..], len)), m, t)
  {
    hide *;
    ghost var s := x[..];
    EltMeans(s, len, m);
    var len3 := (3 * m - 2 + 64 - 1) / 64;
    assert len <= len3 && 3 * m <= 64 * len3 + 2;
    var a := new Word[2 * len3](_ => Zero);
    ZeroDigits(a[..], len3);
    SpreadStart(a[..], len3, s, len);
    for i := 0 to m
      invariant x[..] == s && Sane(a[..], len3) && SpreadDigits(a[..], len3, s, len, i)
    {
      ghost var a0 := a[..];
      SpreadMeans(a0, len3, s, len, i);
      var v := Digit(x[..], len, i);
      DigitRange(s, len, i);
      Gf3mSet(a, len3, 3 * i, v);
      SpreadStep(a0, a[..], len3, s, len, i);
    }
    SpreadIs(a[..], len3, s, len, m);
    ghost var d := Digits(a[..], len3);
    Gf3mReduct(a, len3, 3 * m - 3, m, t);
    Narrow(e, len, a, len3);
    Narrowed(e[..], len, a[..], len3, m);
    CubeCong(Digits(e[..], len), Digits(a[..], len3), d, Digits(s, len), m, t);
  }

  lemma SpreadStart(a: seq<Word>, len3: nat, x: seq<Word>, len: nat)
    requires |a| == 2 * len3 && |x| == 2 * len && forall j :: 0 <= j < 64 * len3 ==> Digit(a, len3, j) == 0
    ensures SpreadDigits(a, len3, x, len, 0)
  {
  }

  lemma {:induction false} SpreadMeans(a: seq<Word>, len3: nat, x: seq<Word>, len: nat, i: nat)
    requires SpreadDigits(a, len3, x, len, i) && 3 * i < 64 * len3
    ensures |a| == 2 * len3 && Digit(a, len3, 3 * i) == 0
  {
    hide Digit;
    assert 3 * i / 3 == i;
  }

  lemma {:induction false} SpreadStep(a: seq<Word>, a': seq<Word>, len3: nat, x: seq<Word>, len: nat, i: nat)
    requires SpreadDigits(a, len3, x, len, i) && i < 64 * len && |a'| == 2 * len3
    requires forall j :: 0 <= j < 64 * len3 ==> Digit(a', len3, j) == if j == 3 * i then Digit(x, len, i) else Digit(a, len3, j)
    ensures SpreadDigits(a', len3, x, len, i + 1)
  {
    hide Digit;
    forall j | 0 <= j < 64 * len3 ensures Digit(a', len3, j) == if j % 3 == 0 && j / 3 < i + 1 then Digit(x, len, j / 3) else 0 {
      assert Digit(a, len3, j) == if j % 3 == 0 && j / 3 < i then Digit(x, len, j / 3) else 0;
    }
  }

  // ---------------------------------------------------------------- one value, one set of digits

  lemma {:induction false} DigitsUnique(e: seq<Word>, z: seq<Word>, len: nat, m: nat, t: nat)
    requires Elt(e, len, m) && Elt(z, len, m) && 0 < t < m && Cong(3, Trinomial(m, t), Digits(e, len), Digits(z, len))
    ensures Digits(e, len) == Digits(z, len)
  {
    hide Digit, Cong, Ev;
    var M, f, g := Trinomial(m, t), Digits(e, len), Digits(z, len);
    var f', g' := f[..m], g[..m];
    assert SameCoefs(f', f) && SameCoefs(g, g');
    forall X ensures Ev(f', X) == Ev(f, X) && Ev(g, X) == Ev(g', X) {
      SameCoefsSameValues(f', f, X);
      SameCoefsSameValues(g, g', X);
    }
    CongSame(3, M, f', f);
    CongSame(3, M, g, g');
    CongTrans(3, M, f', f, g);
    CongTrans(3, M, f', g, g');
    RemainderUnique(3, M, f', g');
    ReducedEqual(3, f', g');
    assert forall i :: 0 <= i < |f| ==> f[i] == if i < m then f'[i] else 0;
  }

  // The cube by spreading is the product x*(x*x).
  lemma {:induction false} CubicIsProduct(e: seq<Word>, x: seq<Word>, y: seq<Word>, z: seq<Word>, len: nat, m: nat, t: nat)
    requires Elt(e, len, m) && Elt(x, len, m) && Elt(y, len, m) && Elt(z, len, m) && 0 < t < m
    requires IsCube(Digits(e, len), Digits(x, len), m, t)
    requires IsProduct(Digits(y, len), Digits(x, len), Digits(x, len), m, t) && IsProduct(Digits(z, len), Digits(x, len), Digits(y, len), m, t)
    ensures Digits(e, len) == Digits(z, len)
  {
    hide Digit, Cong, Ev, PMul;
    var M, f := Trinomial(m, t), Digits(x, len);
    var g, h := Digits(y, len), Digits(z, len);
    CubeDiff(f, g);
    CongSame(3, M, f, f);
    CongFrom(3, M, f, g, PMul(f, f), [1], f, f, PMul(f, g), PMul(f, PMul(f, f)));
    CongTrans(3, M, h, PMul(f, g), PMul(f, PMul(f, f)));
    CongSym(3, M, h, PMul(f, PMul(f, f)));
    CongTrans(3, M, Digits(e, len), PMul(f, PMul(f, f)), h);
    DigitsUnique(e, z, len, m, t);
  }

  lemma {:induction false} CubeDiff(f: Poly, g: Poly)
    ensures Diff(f, g, PMul(f, f), [1], f, f, PMul(f, g), PMul(f, PMul(f, f)))
  {
    hide Ev, PMul;
    forall X ensures Ev(PMul(f, g), X) - Ev(PMul(f, PMul(f, f)), X) == Ev(f, X) * (Ev(g, X) - Ev(PMul(f, f), X)) + Ev([1], X) * (Ev(f, X) - Ev(f, X)) {
      EvMul(f, g, X);
      EvMul(f, PMul(f, f), X);
      EvConst(1, X);
      CubeDiffPoly(Ev(f, X), Ev(g, X), Ev(PMul(f, f), X));
    }
  }

  lemma CubeDiffPoly(f: int, g: int, h: int)
    ensures f * g - f * h == f * (g - h) + 1 * (f - f)
  {
  }
}
