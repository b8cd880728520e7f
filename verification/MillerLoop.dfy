// Type A pairings: the affine, the projective and the preprocessed Miller loop, and the final powering.
// The curve is y^2 = x^3 + x over F_q; the second point is mapped to (-x, iy).
module MillerLoop {
  import opened Arith
  import opened Fp
  import opened QuadraticField
  import opened Curve
  import opened Residues
  import opened Lucas

  // ---------------------------------------------------------------- lines

  // The line a*X + b*Y + c = 0.
  datatype Line = Line(a: int, b: int, c: int)

  function TangentAt(q: nat, x: int, y: int): Line
    requires q > 0
  {
    Line(Red(q, TangentA(x)), Red(q, TangentB(y)), Red(q, TangentC(x, y)))
  }

  // -(3x^2 + 1), 2y and -(2y^2 + x*a), the tangent times 2y.
  function TangentA(x: int): int
  {
    0 - (3 * (x * x) + 1)
  }

  function TangentB(y: int): int
  {
    2 * y
  }

  function TangentC(x: int, y: int): int
  {
    x * (3 * (x * x) + 1) - 2 * (y * y)
  }

  function ChordAt(q: nat, x: int, y: int, x1: int, y1: int): Line
    requires q > 0
  {
    Line(Red(q, y - y1), Red(q, x1 - x), Red(q, x * y1 - y * x1))
  }

  // Where the line is evaluated at the image (-Qx, i*Qy).
  function Eval(q: nat, l: Line, Qx: int, Qy: int): Q2
    requires q > 0
  {
    Q2(Red(q, l.c - l.a * Qx), Red(q, l.b * Qy))
  }

  function ScaleLine(q: nat, w: int, l: Line): Line
    requires q > 0
  {
    Line(Mul(q, w, l.a), Mul(q, w, l.b), Mul(q, w, l.c))
  }

  ghost predicate Proportions(q: nat, l: Line)
  {
    Elem(q, l.a) && Elem(q, l.b) && Elem(q, l.c)
  }

  method ComputeTangent(q: nat, Vx: int, Vy: int) returns (l: Line)
    requires q > 2 && Elem(q, Vx) && Elem(q, Vy)
    ensures l == TangentAt(q, Vx, Vy)
  {
    Homomorphism(q);
    TangentPoly(Vx, Vy);
    assert Elem(q, 1);
    hide Red, Add, Sub, Mul, Neg, Elem, Plus, Minus, Times, Opp, TangentA, TangentB, TangentC;
    var a := Square(q, Vx);
    var e0 := Add(q, a, a);
    a := Add(q, e0, a);
    var b := 1;
    a := Add(q, a, b);
    a := Neg(q, a);
    b := Double(q, Vy);
    e0 := Mul(q, b, Vy);
    var c := Mul(q, a, Vx);
    c := Add(q, c, e0);
    c := Neg(q, c);
    l := Line(a, b, c);
  }

  lemma TangentPoly(x: int, y: int)
    ensures var s := Times(x, x);
            var a := Opp(Plus(Plus(Plus(s, s), s), 1));
            && a == TangentA(x) && Plus(y, y) == TangentB(y)
            && Opp(Plus(Times(a, x), Times(Plus(y, y), y))) == TangentC(x, y)
  {
  }

  method ComputeLine(q: nat, Vx: int, Vy: int, V1x: int, V1y: int) returns (l: Line)
    requires q > 2 && Elem(q, Vx) && Elem(q, Vy) && Elem(q, V1x) && Elem(q, V1y)
    ensures l == ChordAt(q, Vx, Vy, V1x, V1y)
  {
    ChordValue(q, Vx, Vy, V1x, V1y);
    hide *;
    var a := Sub(q, Vy, V1y);
    var b := Sub(q, V1x, Vx);
    var c := Mul(q, Vx, V1y);
    var e0 := Mul(q, Vy, V1x);
    c := Sub(q, c, e0);
    l := Line(a, b, c);
  }

  lemma {:induction false} ChordValue(q: nat, x: int, y: int, x1: int, y1: int)
    requires q > 2 && Elem(q, x) && Elem(q, y) && Elem(q, x1) && Elem(q, y1)
    ensures ChordAt(q, x, y, x1, y1) == Line(Sub(q, y, y1), Sub(q, x1, x), Sub(q, Mul(q, x, y1), Mul(q, y, x1)))
  {
    ModMod(x * y1, q);
    ModMod(y * x1, q);
    ModAdd(x * y1 % q, x * y1, y * x1 % q, y * x1, q);
  }

  method EvalLine(out: Element, q: nat, l: Line, Qx: int, Qy: int)
    requires q > 2 && Proportions(q, l) && Elem(q, Qx) && Elem(q, Qy)
    modifies out
    ensures out.Value() == Eval(q, l, Qx, Qy) && out.Valid(q)
  {
    hide Red, Sub, Mul, Elem, Minus, Times;
    Homomorphism(q);
    EvalPoly(l, Qx, Qy);
    out.y := Mul(q, l.a, Qx);
    out.x := Sub(q, l.c, out.y);
    out.y := Mul(q, l.b, Qy);
  }

  lemma EvalPoly(l: Line, Qx: int, Qy: int)
    ensures Minus(l.c, Times(l.a, Qx)) == l.c - l.a * Qx && Times(l.b, Qy) == l.b * Qy
  {
  }

  // The image of (x, y) over F_q[i].
  function ImageX(q: nat, x: int): Q2
    requires q > 0
  {
    Q2(Neg(q, x), 0)
  }

  function ImageY(y: int): Q2
  {
    Q2(0, y)
  }

  // The value of the line a*X + b*Y + c at a point with coordinates in F_q[i].
  function LineValue(q: nat, l: Line, X: Q2, Y: Q2): Q2
    requires q > 0
  {
    QAdd(q, QAdd(q, QMul(q, -1, Q2(l.a, 0), X), QMul(q, -1, Q2(l.b, 0), Y)), Q2(l.c, 0))
  }

  // The image of a point of y^2 = x^3 + x is a point of that curve over F_q[i].
  lemma {:induction false} ImageOnCurve(q: nat, x: int, y: int)
    requires q > 1 && Elem(q, x) && Elem(q, y) && OnCurve(q, 1, 0, Aff(x, y))
    ensures var X, Y := ImageX(q, x), ImageY(y);
            In(q, X) && In(q, Y) && QMul(q, -1, Y, Y) == QAdd(q, QMul(q, -1, X, QMul(q, -1, X, X)), X)
  {
    var X, Y, n := ImageX(q, x), ImageY(y), Neg(q, x);
    assert Elem(q, n);
    MulReduces(q, -1, Y, Y);
    MulReduces(q, -1, X, X);
    var S := QMul(q, -1, X, X);
    MulReduces(q, -1, X, S);
    hide QMul, Defect;
    ModSmall(0, q);
    assert 0 * 0 + -1 * (y * y) == 0 - y * y && n * n + -1 * (0 * 0) == n * n && n * 0 + 0 * n == 0;
    assert S == Q2(Red(q, n * n), 0);
    var c := Red(q, n * n);
    assert n * c + -1 * (0 * 0) == n * c && n * 0 + 0 * c == 0 && 0 * y + y * 0 == 0;
    CubeOfImage(q, x, n, c);
    MinusSquare(q, x, y);
  }

  lemma {:induction false} CubeOfImage(q: nat, x: int, n: int, c: int)
    requires q > 0 && n == Neg(q, x) && c == Red(q, n * n)
    ensures Add(q, Red(q, n * c), n) == Red(q, 0 - (x * x * x + x))
  {
    ModMod(0 - x, q);
    ModMul(n, 0 - x, n, 0 - x, q);
    ModMod(n * n, q);
    ModMul(n, 0 - x, c, (0 - x) * (0 - x), q);
    ModMod(n * c, q);
    ModAdd(n * c % q, (0 - x) * ((0 - x) * (0 - x)), n, 0 - x, q);
    assert (0 - x) * ((0 - x) * (0 - x)) == 0 - x * x * x;
  }

  lemma {:induction false} MinusSquare(q: nat, x: int, y: int)
    requires q > 0 && OnCurve(q, 1, 0, Aff(x, y))
    ensures Red(q, 0 - y * y) == Red(q, 0 - (x * x * x + x))
  {
    var d := Defect(1, 0, x, y);
    ModSmall(0, q);
    ModAdd(0 - y * y, 0 - y * y, d, 0, q);
    assert 0 - y * y + d == 0 - (x * x * x + x);
  }

  // What eval_miller computes is the value of the line at the image.
  lemma {:induction false} EvalAtImage(q: nat, l: Line, Qx: int, Qy: int)
    requires q > 1 && Proportions(q, l) && Elem(q, Qx) && Elem(q, Qy)
    ensures Eval(q, l, Qx, Qy) == LineValue(q, l, ImageX(q, Qx), ImageY(Qy))
  {
    var n := Neg(q, Qx);
    assert Elem(q, n);
    MulReduces(q, -1, Q2(l.a, 0), ImageX(q, Qx));
    MulReduces(q, -1, Q2(l.b, 0), ImageY(Qy));
    hide QMul;
    assert l.a * n + -1 * (0 * 0) == l.a * n && l.a * 0 + 0 * n == 0 && l.b * 0 + -1 * (0 * Qy) == 0 && l.b * Qy + 0 * 0 == l.b * Qy;
    ModSmall(0, q);
    ImageReal(q, l.a, l.c, Qx, n);
    ModMod(l.b * Qy, q);
  }

  lemma {:induction false} ImageReal(q: nat, a: int, c: int, x: int, n: int)
    requires q > 0 && n == Neg(q, x)
    ensures Add(q, Add(q, Red(q, a * n), 0), c) == Red(q, c - a * x)
  {
    ModMod(0 - x, q);
    ModMul(a, a, n, 0 - x, q);
    ModMod(a * n, q);
    ModMod(a * n % q, q);
    ModAdd(a * n % q % q, a * (0 - x), c, c, q);
    assert a * (0 - x) + c == c - a * x;
  }

  // The chord passes through both points and, when they have different abscissas, through minus their sum.
  lemma {:induction false} ChordMeets(q: nat, b: int, P: Pt, Q: Pt)
    requires IsPrime(q) && q > 2 && P.Aff? && Q.Aff? && Proper(q, P) && Proper(q, Q)
    requires OnCurve(q, 1, b, P) && OnCurve(q, 1, b, Q)
    ensures var l := ChordAt(q, P.x, P.y, Q.x, Q.y);
            && OnLine(q, l, P.x, P.y) && OnLine(q, l, Q.x, Q.y)
            && (P == Q <==> l.a == 0 && l.b == 0) && (P == Q ==> l.c == 0)
            && (P.x != Q.x ==> GroupAdd(q, 1, P, Q).Aff? && OnLine(q, l, GroupAdd(q, 1, P, Q).x, 0 - GroupAdd(q, 1, P, Q).y))
  {
    var l := ChordAt(q, P.x, P.y, Q.x, Q.y);
    var a, c := P.y - Q.y, P.x * Q.y - P.y * Q.x;
    ChordPoly(P.x, P.y, Q.x, Q.y);
    LineMod(q, a, Q.x - P.x, c, P.x, P.y, P.y);
    LineMod(q, a, Q.x - P.x, c, Q.x, Q.y, Q.y);
    ModSmall(0, q);
    ChordCoefficients(q, P, Q);
    if P.x != Q.x {
      ChordJoins(q, 1, b, P, Q);
      var R := GroupAdd(q, 1, P, Q);
      var s, h :| Joins(q, 1, b, s, h, P, Q, R);
      hide GroupAdd, IsPrime;
      LineMod(q, a, Q.x - P.x, c, R.x, 0 - R.y, 0 - R.y);
      ThirdOnChord(q, s, h, P.x, P.y, Q.x, Q.y, R.x, 0 - R.y);
    }
  }

  lemma ChordPoly(x: int, y: int, x1: int, y1: int)
    ensures (y - y1) * x + (x1 - x) * y + (x * y1 - y * x1) == 0 && (y - y1) * x1 + (x1 - x) * y1 + (x * y1 - y * x1) == 0
  {
  }

  lemma {:induction false} ChordCoefficients(q: nat, P: Pt, Q: Pt)
    requires q > 0 && P.Aff? && Q.Aff? && Proper(q, P) && Proper(q, Q)
    ensures var l := ChordAt(q, P.x, P.y, Q.x, Q.y); (P == Q <==> l.a == 0 && l.b == 0) && (P == Q ==> l.c == 0)
  {
    ModSmall(0, q);
    if P.y != Q.y { DifferenceNonzero(q, P.y, Q.y); }
    if P.x != Q.x { DifferenceNonzero(q, Q.x, P.x); }
  }

  // A third point on the same slope lies on the chord.
  lemma {:induction false} ThirdOnChord(q: nat, s: int, h: int, x: int, y: int, x1: int, y1: int, x2: int, y2: int)
    requires q > 0 && OnSlope(q, s, h, x, y) && OnSlope(q, s, h, x1, y1) && OnSlope(q, s, h, x2, y2)
    ensures Red(q, (y - y1) * x2 + (x1 - x) * y2 + (x * y1 - y * x1)) == 0
  {
    ThirdOnChordPoly(s, h, x, y, x1, y1, x2, y2);
    ThreeZeros(q, s * x + h - y, s * x1 + h - y1, s * x2 + h - y2, x1 - x2, x2 - x, x - x1);
  }

  lemma {:induction false} ThreeZeros(q: nat, d: int, e: int, f: int, u: int, v: int, w: int)
    requires q > 0 && d % q == 0 && e % q == 0 && f % q == 0
    ensures ((d * u + e * v) * 1 + f * w) % q == 0
  {
    ZeroCombination(q, d, e, u, v);
    ZeroCombination(q, d * u + e * v, f, 1, w);
  }

  lemma ThirdOnChordPoly(s: int, h: int, x: int, y: int, x1: int, y1: int, x2: int, y2: int)
    ensures ((s * x + h - y) * (x1 - x2) + (s * x1 + h - y1) * (x2 - x)) * 1 + (s * x2 + h - y2) * (x - x1) ==
      (y - y1) * x2 + (x1 - x) * y2 + (x * y1 - y * x1)
  {
  }

  // The tangent line passes through the point and through minus its double.
  lemma {:induction false} TangentMeets(q: nat, P: Pt)
    requires IsPrime(q) && q > 2 && P.Aff? && Proper(q, P) && P.y != 0
    ensures var l := TangentAt(q, P.x, P.y);
            var R := GroupAdd(q, 1, P, P);
            R.Aff? && OnLine(q, l, P.x, P.y) && OnLine(q, l, R.x, 0 - R.y) && l.b != 0
  {
    DoubleNonzero(q, P.y);
    var num, t := TangentNumerator(q, 1, P.x), Double(q, P.y);
    var s := Div(q, num, t);
    DivSolves(q, num, t);
    var R := Third(q, s, P, P.x);
    var m := 3 * (P.x * P.x) + 1;
    hide Div, Inv, IsPrime;
    assert (2 * P.y * s - m) % q == 0 by {
      ModMod(2 * P.y, q);
      ModMod(m, q);
      ModMul(s, s, t, 2 * P.y, q);
      ModAdd(s * t, s * (2 * P.y), num, m, q);
      assert s * (2 * P.y) == 2 * P.y * s;
    }
    ModMod((P.x - R.x) * s - P.y, q);
    LineMod(q, 0 - m, 2 * P.y, P.x * m - 2 * (P.y * P.y), P.x, P.y, P.y);
    LineMod(q, 0 - m, 2 * P.y, P.x * m - 2 * (P.y * P.y), R.x, 0 - R.y, 0 - ((P.x - R.x) * s - P.y)) by {
      ModAdd(0, 0, R.y, (P.x - R.x) * s - P.y, q);
    }
    TangentMeetsPoly(P.x, P.y, m, s, R.x);
    ModSmall(0, q);
    ModMul(2 * P.y * s - m, 0, R.x - P.x, R.x - P.x, q);
  }

  ghost predicate OnLine(q: nat, l: Line, x: int, y: int)
    requires q > 0
  {
    Red(q, l.a * x + l.b * y + l.c) == 0
  }

  lemma TangentMeetsPoly(x: int, y: int, m: int, s: int, x3: int)
    ensures (0 - m) * x + (2 * y) * y + (x * m - 2 * (y * y)) == 0
    ensures (0 - m) * x3 + (2 * y) * (0 - ((x - x3) * s - y)) + (x * m - 2 * (y * y)) == (2 * y * s - m) * (x3 - x)
  {
  }

  lemma {:induction false} LineMod(q: nat, a: int, b: int, c: int, x: int, y: int, y': int)
    requires q > 0 && y % q == y' % q
    ensures Red(q, Red(q, a) * x + Red(q, b) * y + Red(q, c)) == Red(q, a * x + b * y' + c)
  {
    ModMod(a, q);
    ModMod(b, q);
    ModMod(c, q);
    ModMul(a % q, a, x, x, q);
    ModMul(b % q, b, y, y', q);
    ModAdd(a % q * x, a * x, b % q * y, b * y', q);
    ModAdd(a % q * x + b % q * y, a * x + b * y', c % q, c, q);
  }

  // ---------------------------------------------------------------- weighted projective coordinates

  // (X/z^2, Y/z^3) is P.
  ghost predicate Jacobian(q: nat, X: int, Y: int, z: int, z2: int, P: Pt)
    requires q > 0
  {
    && P.Aff? && Proper(q, P) && Elem(q, z) && z != 0 && z2 == Mul(q, z, z)
    && X == Mul(q, P.x, z2) && Y == Mul(q, P.y, Mul(q, z2, z))
  }

  // z^6
  function Weight(q: nat, z: int): int
    requires q > 0
  {
    Mul(q, Mul(q, Mul(q, z, z), Mul(q, z, z)), Mul(q, z, z))
  }

  method ComputeTangentProj(q: nat, Vx: int, Vy: int, z: int, z2: int, ghost P: Pt) returns (l: Line)
    requires q > 2 && Jacobian(q, Vx, Vy, z, z2, P)
    ensures l == ScaleLine(q, Weight(q, z), TangentAt(q, P.x, P.y))
  {
    RepElem(q, P.x);
    RepElem(q, P.y);
    RepElem(q, z);
    assert TangentAt(q, P.x, P.y) == Line(Red(q, TangentA(P.x)), Red(q, TangentB(P.y)), Red(q, TangentC(P.x, P.y)));
    assert Rep(q, Red(q, TangentA(P.x)), TangentA(P.x)) && Rep(q, Red(q, TangentB(P.y)), TangentB(P.y))
        && Rep(q, Red(q, TangentC(P.x, P.y)), TangentC(P.x, P.y));
    Represent(q);
    TangentProjPoly(P.x, P.y, z);
    hide Red, Add, Sub, Mul, Neg, Elem, Plus, Minus, Times, Opp, TangentA, TangentB, TangentC, TangentAt, Rep;
    var a := Square(q, z2);
    var b := Square(q, Vx);
    var e0 := Double(q, b);
    b := Add(q, e0, b);
    a := Add(q, a, b);
    a := Neg(q, a);
    e0 := Double(q, Vy);
    b := Mul(q, e0, z2);
    b := Mul(q, b, z);
    var c := Mul(q, Vx, a);
    a := Mul(q, a, z2);
    e0 := Mul(q, e0, Vy);
    c := Add(q, c, e0);
    c := Neg(q, c);
    l := Line(a, b, c);
  }

  lemma {:induction false} TangentProjPoly(x: int, y: int, z: int)
    ensures var u := Times(z, z);
            var X, Y := Times(x, u), Times(y, Times(u, z));
            var s := Times(X, X);
            var a := Opp(Plus(Times(u, u), Plus(Plus(s, s), s)));
            var w := Times(Times(u, u), u);
            && Times(a, u) == Times(w, TangentA(x))
            && Times(Times(Plus(Y, Y), u), z) == Times(w, TangentB(y))
            && Opp(Plus(Times(X, a), Times(Plus(Y, Y), Y))) == Times(w, TangentC(x, y))
  {
    var u := z * z;
    WeightA(x, u);
    WeightB(y, z, u);
    WeightC(x, y, z, u);
  }

  lemma WeightA(x: int, u: int)
    ensures (0 - (u * u + (x * u * (x * u) + x * u * (x * u) + x * u * (x * u)))) * u == u * u * u * (0 - (3 * (x * x) + 1))
  {
  }

  lemma WeightB(y: int, z: int, u: int)
    requires u == z * z
    ensures (y * (u * z) + y * (u * z)) * u * z == u * u * u * (2 * y)
  {
    assert (y * (u * z) + y * (u * z)) * u * z == 2 * y * u * u * (z * z);
  }

  lemma {:induction false} WeightC(x: int, y: int, z: int, u: int)
    requires u == z * z
    ensures var a := 0 - (u * u + (x * u * (x * u) + x * u * (x * u) + x * u * (x * u)));
            0 - (x * u * a + (y * (u * z) + y * (u * z)) * (y * (u * z))) == u * u * u * (x * (3 * (x * x) + 1) - 2 * (y * y))
  {
    WeightCx(x, u);
    WeightCy(y, z, u);
    assert u * u * u * (x * (3 * (x * x) + 1) - 2 * (y * y)) == u * u * u * (x * (3 * (x * x) + 1)) - u * u * u * (2 * (y * y));
  }

  lemma WeightCx(x: int, u: int)
    ensures x * u * (0 - (u * u + (x * u * (x * u) + x * u * (x * u) + x * u * (x * u)))) == 0 - u * u * u * (x * (3 * (x * x) + 1))
  {
  }

  lemma WeightCy(y: int, z: int, u: int)
    requires u == z * z
    ensures (y * (u * z) + y * (u * z)) * (y * (u * z)) == u * u * u * (2 * (y * y))
  {
    assert (y * (u * z) + y * (u * z)) * (y * (u * z)) == 2 * (y * y) * u * u * (z * z);
  }

  // ---------------------------------------------------------------- doubling in these coordinates

  // The slope of the tangent at P.
  function SlopeAt(q: nat, P: Pt): int
    requires IsPrime(q) && q > 2 && P.Aff? && Proper(q, P) && P.y != 0
  {
    DoubleNonzero(q, P.y);
    Div(q, TangentNumerator(q, 1, P.x), Double(q, P.y))
  }

  lemma {:induction false} SlopeSolves(q: nat, P: Pt)
    requires IsPrime(q) && q > 2 && P.Aff? && Proper(q, P) && P.y != 0
    ensures Red(q, 2 * P.y * SlopeAt(q, P)) == Red(q, 3 * (P.x * P.x) + 1) && Elem(q, SlopeAt(q, P))
  {
    DoubleNonzero(q, P.y);
    var num, t, m := TangentNumerator(q, 1, P.x), Double(q, P.y), 3 * (P.x * P.x) + 1;
    DivSolves(q, num, t);
    var s := SlopeAt(q, P);
    hide Div, Inv, IsPrime, SlopeAt;
    MulElem(q, num, Inv(q, t));
    ModMod(2 * P.y, q);
    ModMul(s, s, t, 2 * P.y, q);
    ModSmall(0, q);
    ModAdd(s * t - num, 0, num, num, q);
    ModMod(m, q);
    assert s * (2 * P.y) == 2 * P.y * s;
  }

  // 3X^2 + z^4 is the slope times the new z.
  lemma {:induction false} SlopeTimesZ(q: nat, X: int, Y: int, z: int, z2: int, P: Pt)
    requires IsPrime(q) && q > 2 && Jacobian(q, X, Y, z, z2, P) && P.y != 0
    ensures Add(q, Add(q, Double(q, Square(q, X)), Square(q, X)), Square(q, z2)) ==
      Mul(q, SlopeAt(q, P), Double(q, Mul(q, Y, z)))
  {
    SlopeSolves(q, P);
    var x, y, s := P.x, P.y, SlopeAt(q, P);
    RepElem(q, x);
    RepElem(q, y);
    RepElem(q, z);
    RepElem(q, s);
    Represent(q);
    var u := Times(z, z);
    SlopePoly(x, y, z, s);
    hide Red, Add, Sub, Mul, Neg, Elem, Plus, Minus, Times, Opp, Rep, SlopeAt, IsPrime;
    RedLinear(q, 0, Times(u, u), 3 * (x * x) + 1, 2 * y * s);
  }

  lemma {:induction false} SlopePoly(x: int, y: int, z: int, s: int)
    ensures var u := Times(z, z);
            var v := Times(Times(x, u), Times(x, u));
            && Plus(Plus(Plus(v, v), v), Times(u, u)) == Plus(0, Times(Times(u, u), 3 * (x * x) + 1))
            && Times(s, Plus(Times(Times(y, Times(u, z)), z), Times(Times(y, Times(u, z)), z))) == Plus(0, Times(Times(u, u), 2 * y * s))
  {
    var u := z * z;
    SlopeLeft(x, u);
    SlopeRight(y, z, u, s);
  }

  lemma SlopeLeft(x: int, u: int)
    ensures x * u * (x * u) + x * u * (x * u) + x * u * (x * u) + u * u == u * u * (3 * (x * x) + 1)
  {
  }

  lemma SlopeRight(y: int, z: int, u: int, s: int)
    requires u == z * z
    ensures s * (y * (u * z) * z + y * (u * z) * z) == u * u * (2 * y * s)
  {
    assert s * (y * (u * z) * z + y * (u * z) * z) == 2 * y * s * u * (z * z);
  }

  // 4XY^2 and 8Y^4 in terms of the new z.
  lemma {:induction false} OldCoordinates(q: nat, X: int, Y: int, z: int, z2: int, P: Pt)
    requires q > 2 && Jacobian(q, X, Y, z, z2, P)
    ensures var Z := Double(q, Mul(q, Y, z));
            && Double(q, Double(q, Mul(q, X, Square(q, Y)))) == Mul(q, P.x, Mul(q, Z, Z))
            && Double(q, Double(q, Double(q, Square(q, Square(q, Y))))) == Mul(q, P.y, Mul(q, Mul(q, Z, Z), Z))
  {
    var x, y := P.x, P.y;
    RepElem(q, x);
    RepElem(q, y);
    RepElem(q, z);
    Represent(q);
    OldPoly(x, y, z);
    hide Red, Add, Sub, Mul, Neg, Elem, Plus, Minus, Times, Opp, Rep;
  }

  lemma {:induction false} OldPoly(x: int, y: int, z: int)
    ensures var u := Times(z, z);
            var Y := Times(y, Times(u, z));
            var Z := Plus(Times(Y, z), Times(Y, z));
            var v, w := Times(Times(x, u), Times(Y, Y)), Times(Times(Y, Y), Times(Y, Y));
            && Plus(Plus(v, v), Plus(v, v)) == Times(x, Times(Z, Z))
            && Plus(Plus(Plus(w, w), Plus(w, w)), Plus(Plus(w, w), Plus(w, w))) == Times(y, Times(Times(Z, Z), Z))
  {
    var u := z * z;
    assert y * (u * z) * z == y * u * u;
    OldSquare(x, y, u, z);
    OldFourth(y, u, z);
  }

  lemma OldSquare(x: int, y: int, u: int, z: int)
    requires u == z * z
    ensures 4 * (x * u * (y * (u * z) * (y * (u * z)))) == x * (2 * (y * u * u) * (2 * (y * u * u)))
  {
    assert 4 * (x * u * (y * (u * z) * (y * (u * z)))) == 4 * x * u * y * y * u * u * (z * z);
    assert x * (2 * (y * u * u) * (2 * (y * u * u))) == 4 * x * u * y * y * u * u * u;
  }

  lemma OldFourth(y: int, u: int, z: int)
    requires u == z * z
    ensures 8 * (y * (u * z) * (y * (u * z)) * (y * (u * z) * (y * (u * z)))) == y * (2 * (y * u * u) * (2 * (y * u * u)) * (2 * (y * u * u)))
  {
    assert y * (u * z) * (y * (u * z)) == y * y * u * u * (z * z);
    assert y * (u * z) * (y * (u * z)) == y * y * u * u * u;
    FourthPower(y, u);
  }

  lemma FourthPower(y: int, u: int)
    ensures 8 * (y * y * u * u * u * (y * y * u * u * u)) == y * (2 * (y * u * u) * (2 * (y * u * u)) * (2 * (y * u * u)))
  {
  }

  // The new coordinates are those of the double.
  lemma {:induction false} NewCoordinates(q: nat, s: int, P: Pt, Z: int)
    requires q > 2 && P.Aff? && Proper(q, P) && Elem(q, s) && Elem(q, Z)
    ensures var R := Third(q, s, P, P.x);
            var e0, e1, e2 := Mul(q, s, Z), Mul(q, P.x, Mul(q, Z, Z)), Mul(q, P.y, Mul(q, Mul(q, Z, Z), Z));
            var X := Sub(q, Square(q, e0), Double(q, e1));
            X == Mul(q, R.x, Mul(q, Z, Z)) && Sub(q, Mul(q, e0, Sub(q, e1, X)), e2) == Mul(q, R.y, Mul(q, Mul(q, Z, Z), Z))
  {
    var x, y := P.x, P.y;
    var x3 := Third(q, s, P, x).x;
    NewX(q, s, x, Z);
    NewY(q, s, x, y, x3, Z);
    hide Red, Add, Sub, Mul, Double, Square, Elem;
  }

  lemma {:induction false} NewX(q: nat, s: int, x: int, Z: int)
    requires q > 2 && Elem(q, x) && Elem(q, s) && Elem(q, Z)
    ensures Sub(q, Square(q, Mul(q, s, Z)), Double(q, Mul(q, x, Mul(q, Z, Z)))) == Mul(q, Red(q, s * s - x - x), Mul(q, Z, Z))
  {
    RepElem(q, x);
    RepElem(q, s);
    RepElem(q, Z);
    assert Rep(q, Red(q, s * s - x - x), s * s - x - x);
    Represent(q);
    NewXPoly(s, x, Z);
    hide Red, Add, Sub, Mul, Neg, Elem, Plus, Minus, Times, Opp, Rep;
  }

  lemma NewXPoly(s: int, x: int, Z: int)
    ensures Minus(Times(Times(s, Z), Times(s, Z)), Plus(Times(x, Times(Z, Z)), Times(x, Times(Z, Z)))) ==
      Times(s * s - x - x, Times(Z, Z))
  {
  }

  lemma {:induction false} NewY(q: nat, s: int, x: int, y: int, x3: int, Z: int)
    requires q > 2 && Elem(q, x) && Elem(q, y) && Elem(q, s) && Elem(q, Z) && Elem(q, x3)
    ensures Sub(q, Mul(q, Mul(q, s, Z), Sub(q, Mul(q, x, Mul(q, Z, Z)), Mul(q, x3, Mul(q, Z, Z)))), Mul(q, y, Mul(q, Mul(q, Z, Z), Z))) ==
      Mul(q, Red(q, (x - x3) * s - y), Mul(q, Mul(q, Z, Z), Z))
  {
    RepElem(q, x);
    RepElem(q, y);
    RepElem(q, s);
    RepElem(q, Z);
    RepElem(q, x3);
    assert Rep(q, Red(q, (x - x3) * s - y), (x - x3) * s - y);
    Represent(q);
    NewYPoly(s, x, y, x3, Z);
    hide Red, Add, Sub, Mul, Neg, Elem, Plus, Minus, Times, Opp, Rep;
  }

  lemma NewYPoly(s: int, x: int, y: int, x3: int, Z: int)
    ensures Minus(Times(Times(s, Z), Minus(Times(x, Times(Z, Z)), Times(x3, Times(Z, Z)))), Times(y, Times(Times(Z, Z), Z))) ==
      Times((x - x3) * s - y, Times(Times(Z, Z), Z))
  {
  }

  lemma {:induction false} DoubleIsThird(q: nat, P: Pt)
    requires IsPrime(q) && q > 2 && P.Aff? && Proper(q, P) && P.y != 0
    ensures GroupAdd(q, 1, P, P) == Third(q, SlopeAt(q, P), P, P.x)
    ensures Elem(q, SlopeAt(q, P)) && GroupAdd(q, 1, P, P).Aff? && Proper(q, GroupAdd(q, 1, P, P))
  {
    SlopeSolves(q, P);
  }

  lemma {:induction false} NewZNonzero(q: nat, Y: int, z: int, z2: int, X: int, P: Pt)
    requires IsPrime(q) && q > 2 && Jacobian(q, X, Y, z, z2, P) && P.y != 0
    ensures var Z := Double(q, Mul(q, Y, z)); Elem(q, Z) && Z != 0
  {
    hide Mul;
    ProductNonzero(q, z, z);
    ProductNonzero(q, z2, z);
    ProductNonzero(q, P.y, Mul(q, z2, z));
    ProductNonzero(q, Y, z);
    DoubleNonzero(q, Mul(q, Y, z));
  }

  method ProjDouble(q: nat, X: int, Y: int, Z: int, Z2: int, ghost P: Pt) returns (Vx: int, Vy: int, z: int, z2: int)
    requires IsPrime(q) && q > 2 && Jacobian(q, X, Y, Z, Z2, P) && P.y != 0
    ensures Jacobian(q, Vx, Vy, z, z2, GroupAdd(q, 1, P, P))
  {
    SlopeTimesZ(q, X, Y, Z, Z2, P);
    OldCoordinates(q, X, Y, Z, Z2, P);
    DoubleIsThird(q, P);
    NewZNonzero(q, Y, Z, Z2, X, P);
    NewCoordinates(q, SlopeAt(q, P), P, Double(q, Mul(q, Y, Z)));
    hide *;
    Vx, Vy, z, z2 := X, Y, Z, Z2;
    var e0 := Square(q, Vx);
    var e1 := Double(q, e0);
    e0 := Add(q, e1, e0);
    e1 := Square(q, z2);
    e0 := Add(q, e0, e1);
    z := Mul(q, Vy, z);
    z := Double(q, z);
    z2 := Square(q, z);
    var e2 := Square(q, Vy);
    e1 := Mul(q, Vx, e2);
    e1 := Double(q, e1);
    e1 := Double(q, e1);
    var e3 := Double(q, e1);
    Vx := Square(q, e0);
    Vx := Sub(q, Vx, e3);
    e2 := Square(q, e2);
    e2 := Double(q, e2);
    e2 := Double(q, e2);
    e2 := Double(q, e2);
    e1 := Sub(q, e1, Vx);
    e0 := Mul(q, e0, e1);
    Vy := Sub(q, e0, e2);
    JacobianIntro(q, Vx, Vy, z, z2, GroupAdd(q, 1, P, P));
  }

  lemma JacobianIntro(q: nat, X: int, Y: int, z: int, z2: int, P: Pt)
    requires q > 0 && P.Aff? && Proper(q, P) && Elem(q, z) && z != 0 && z2 == Square(q, z)
    requires X == Mul(q, P.x, Mul(q, z, z)) && Y == Mul(q, P.y, Mul(q, Mul(q, z, z), z))
    ensures Jacobian(q, X, Y, z, z2, P)
  {
  }
}
