// Points of y^2 = x^3 + a*x + b over F_p, one at a time and in batches that share one inversion.
module Curve {
  import opened Arith
  import opened Fp

  datatype Pt = Inf | Aff(x: int, y: int)

  ghost predicate Proper(p: nat, P: Pt)
  {
    P.Inf? || (Elem(p, P.x) && Elem(p, P.y))
  }

  // ---------------------------------------------------------------- the group law

  // The third intersection, negated, of the line of slope l through P with the curve; x2 is the other abscissa.
  function Third(p: nat, l: int, P: Pt, x2: int): Pt
    requires p > 0 && P.Aff?
  {
    var x := Red(p, l * l - P.x - x2);
    Aff(x, Red(p, (P.x - x) * l - P.y))
  }

  // The slope of the tangent has 3x^2 + a over 2y.
  function TangentNumerator(p: nat, a: int, x: int): int
    requires p > 0
  {
    Red(p, 3 * (x * x) + a)
  }

  lemma {:induction false} DoubleNonzero(p: nat, y: int)
    requires IsPrime(p) && p > 2 && Elem(p, y) && y != 0
    ensures Double(p, y) != 0 && Elem(p, Double(p, y))
  {
    if 2 * y < p { ModSmall(2 * y, p); } else { ModIntro(2 * y, 2 * y - p, 1, p); ModSmall(2 * y - p, p); }
    assert p % 2 != 0;
  }

  lemma {:induction false} SubNonzero(p: nat, a: int, b: int)
    requires p > 1 && Elem(p, a) && Elem(p, b) && a != b
    ensures Sub(p, a, b) != 0 && Elem(p, Sub(p, a, b))
  {
    if a < b { ModIntro(a - b, a - b + p, -1, p); ModSmall(a - b + p, p); } else { ModSmall(a - b, p); }
  }

  function GroupAdd(p: nat, a: int, P: Pt, Q: Pt): Pt
    requires IsPrime(p) && p > 2 && Proper(p, P) && Proper(p, Q)
  {
    if P.Inf? then Q
    else if Q.Inf? then P
    else if P.x == Q.x then
      if P.y != Q.y || P.y == 0 then Inf
      else
        DoubleNonzero(p, P.y);
        Third(p, Div(p, TangentNumerator(p, a, P.x), Double(p, P.y)), P, P.x)
    else
      SubNonzero(p, Q.x, P.x);
      Third(p, Div(p, Sub(p, Q.y, P.y), Sub(p, Q.x, P.x)), P, Q.x)
  }

  ghost function Defect(a: int, b: int, x: int, y: int): int
  {
    y * y - (x * x * x + a * x + b)
  }

  ghost predicate OnCurve(p: nat, a: int, b: int, P: Pt)
    requires p > 0
  {
    P.Aff? ==> Red(p, Defect(a, b, P.x, P.y)) == 0
  }

  // The cubic minus the squared line l*X + m is (X - x1)(X - x2)(X - x3) up to a linear part, of slope and height:
  ghost function Slope(a: int, l: int, m: int, x1: int, x2: int): int
  {
    var x3 := l * l - x1 - x2; x1 * x2 + x1 * x3 + x2 * x3 + 2 * l * m - a
  }

  ghost function Height(b: int, l: int, m: int, x1: int, x2: int): int
  {
    m * m - b - x1 * x2 * (l * l - x1 - x2)
  }

  lemma CubicMinusLine(X: int, a: int, b: int, l: int, m: int, x1: int, x2: int)
    ensures Defect(a, b, X, l * X + m) ==
      Slope(a, l, m, x1, x2) * X + Height(b, l, m, x1, x2) - (X - x1) * (X - x2) * (X - (l * l - x1 - x2))
  {
    var x3 := l * l - x1 - x2;
    ThreeRoots(X, l * l, x1, x2);
    SquaredLine(X, l, m);
    Distribute(x1 * x2 + x1 * x3 + x2 * x3, 2 * l * m, a, X);
  }

  lemma Distribute(u: int, v: int, w: int, X: int)
    ensures (u + v - w) * X == u * X + v * X - w * X
  {
  }

  lemma ThreeRoots(X: int, w: int, x1: int, x2: int)
    ensures var x3 := w - x1 - x2;
            (X - x1) * (X - x2) * (X - x3) == X * X * X - w * (X * X) + (x1 * x2 + x1 * x3 + x2 * x3) * X - x1 * x2 * x3
  {
  }

  lemma SquaredLine(X: int, l: int, m: int)
    ensures (l * X + m) * (l * X + m) == l * l * (X * X) + 2 * l * m * X + m * m
  {
  }

  lemma {:induction false} CubicAtRoot(X: int, a: int, b: int, l: int, m: int, x1: int, x2: int, y: int)
    requires y == l * X + m && (X == x1 || X == x2 || X == l * l - x1 - x2)
    ensures Defect(a, b, X, y) == Slope(a, l, m, x1, x2) * X + Height(b, l, m, x1, x2)
  {
    CubicMinusLine(X, a, b, l, m, x1, x2);
    hide Defect, Slope, Height;
    ZeroProduct(X - x1, X - x2, X - (l * l - x1 - x2));
  }

  lemma ZeroProduct(a: int, b: int, c: int)
    requires a == 0 || b == 0 || c == 0
    ensures a * b * c == 0
  {
  }

  lemma Interpolate(u: int, v: int, x1: int, x2: int, x3: int)
    ensures (u * x3 + v) * (x2 - x1) == (u * x1 + v) * (x2 - x3) + (u * x2 + v) * (x3 - x1)
  {
  }

  lemma OtherOrdinate(a: int, b: int, x: int, y: int, d: int)
    ensures Defect(a, b, x, d + y) == Defect(a, b, x, y) + d * (d + 2 * y)
    ensures Defect(a, b, x, 0 - y) == Defect(a, b, x, y)
  {
  }

  lemma {:induction false} ChordPoly(a: int, b: int, x1: int, y1: int, x2: int, y2: int, l: int)
    ensures var x3 := l * l - x1 - x2;
            var d := l * (x2 - x1) - (y2 - y1);
            Defect(a, b, x3, (x1 - x3) * l - y1) * (x2 - x1) ==
            Defect(a, b, x1, y1) * (x2 - x3) + (Defect(a, b, x2, y2) + d * (d + 2 * y2)) * (x3 - x1)
  {
    var x3 := l * l - x1 - x2;
    var d := l * (x2 - x1) - (y2 - y1);
    var m := y1 - l * x1;
    var u, v := Slope(a, l, m, x1, x2), Height(b, l, m, x1, x2);
    LineThrough(l, x1, x2, x3, y1);
    CubicAtRoot(x1, a, b, l, m, x1, x2, y1);
    CubicAtRoot(x2, a, b, l, m, x1, x2, d + y2);
    CubicAtRoot(x3, a, b, l, m, x1, x2, l * x3 + m);
    OtherOrdinate(a, b, x2, y2, d);
    OtherOrdinate(a, b, x3, l * x3 + m, 0);
    Interpolate(u, v, x1, x2, x3);
    hide *;
  }

  lemma LineThrough(l: int, x1: int, x2: int, x3: int, y1: int)
    ensures l * x1 + (y1 - l * x1) == y1 && l * x2 + (y1 - l * x1) == l * (x2 - x1) + y1
    ensures (x1 - x3) * l - y1 == 0 - (l * x3 + (y1 - l * x1))
  {
  }

  lemma TangentPoly(a: int, b: int, x1: int, y1: int, l: int)
    ensures var x3 := l * l - x1 - x1;
            Defect(a, b, x3, (x1 - x3) * l - y1) ==
            Defect(a, b, x1, y1) + (2 * y1 * l - (3 * (x1 * x1) + a)) * (x3 - x1)
  {
  }

  lemma {:induction false} DefectMod(p: nat, a: int, b: int, x: int, y: int, u: int, v: int)
    requires p > 0 && x % p == u % p && y % p == v % p
    ensures Defect(a, b, x, y) % p == Defect(a, b, u, v) % p
  {
    hide IsPrime;
    ModMul(y, v, y, v, p);
    ModMul(x, u, x, u, p);
    ModMul(x * x, u * u, x, u, p);
    ModMul(a, a, x, u, p);
    ModAdd(x * x * x, u * u * u, a * x, a * u, p);
    ModAdd(x * x * x + a * x, u * u * u + a * u, b, b, p);
    ModAdd(y * y, v * v, x * x * x + a * x + b, u * u * u + a * u + b, p);
  }

  // The defect of the third point is that of the unreduced formulas.
  lemma {:induction false} ThirdDefect(p: nat, a: int, b: int, l: int, P: Pt, x2: int)
    requires p > 0 && P.Aff?
    ensures var x3 := l * l - P.x - x2;
            var R := Third(p, l, P, x2);
            Red(p, Defect(a, b, R.x, R.y)) == Red(p, Defect(a, b, x3, (P.x - x3) * l - P.y))
  {
    var x3 := l * l - P.x - x2;
    var x := Red(p, x3);
    ModMod(x3, p);
    ModAdd(P.x, P.x, x, x3, p);
    ModMul(P.x - x, P.x - x3, l, l, p);
    ModAdd((P.x - x) * l, (P.x - x3) * l, P.y, P.y, p);
    ModMod((P.x - x) * l - P.y, p);
    DefectMod(p, a, b, x, Third(p, l, P, x2).y, x3, (P.x - x3) * l - P.y);
  }

  lemma {:induction false} ZeroCombination(p: nat, u: int, v: int, k: int, m: int)
    requires p > 0 && u % p == 0 && v % p == 0
    ensures (u * k + v * m) % p == 0
  {
    ModSmall(0, p);
    ModMul(u, 0, k, k, p);
    ModMul(v, 0, m, m, p);
    ModAdd(u * k, 0, v * m, 0, p);
  }

  // The quotient solves its equation.
  lemma {:induction false} DivSolves(p: nat, num: int, t: int)
    requires IsPrime(p) && Elem(p, num) && Elem(p, t) && t != 0
    ensures (Div(p, num, t) * t - num) % p == 0
  {
    assert t * num == num * t;
    QuotientTimes(p, num, t, t, num);
    ModSmall(num, p);
    ModAdd(Div(p, num, t) * t, num, num, num, p);
    ModSmall(0, p);
  }

  // Sums of points of the curve are points of the curve.
  lemma {:induction false} GroupAddOnCurve(p: nat, a: int, b: int, P: Pt, Q: Pt)
    requires IsPrime(p) && p > 2 && Proper(p, P) && Proper(p, Q) && OnCurve(p, a, b, P) && OnCurve(p, a, b, Q)
    ensures Proper(p, GroupAdd(p, a, P, Q)) && OnCurve(p, a, b, GroupAdd(p, a, P, Q))
  {
    if P.Aff? && Q.Aff? {
      if P.x != Q.x {
        ChordOnCurve(p, a, b, P, Q);
      } else if P.y == Q.y && P.y != 0 {
        TangentOnCurve(p, a, b, P);
      }
    }
  }

  lemma {:induction false} ChordOnCurve(p: nat, a: int, b: int, P: Pt, Q: Pt)
    requires IsPrime(p) && p > 2 && P.Aff? && Q.Aff? && Proper(p, P) && Proper(p, Q) && P.x != Q.x
    requires OnCurve(p, a, b, P) && OnCurve(p, a, b, Q)
    ensures OnCurve(p, a, b, GroupAdd(p, a, P, Q))
  {
    SubNonzero(p, Q.x, P.x);
    var num, t := Sub(p, Q.y, P.y), Sub(p, Q.x, P.x);
    var l := Div(p, num, t);
    ThirdDefect(p, a, b, l, P, Q.x);
    ChordSlope(p, P, Q, l);
    hide Div, Inv, IsPrime, Defect, Third;
    var x3 := l * l - P.x - Q.x;
    var d := l * (Q.x - P.x) - (Q.y - P.y);
    var e1, e2 := Defect(a, b, P.x, P.y), Defect(a, b, Q.x, Q.y);
    var e3 := Defect(a, b, x3, (P.x - x3) * l - P.y);
    ChordPoly(a, b, P.x, P.y, Q.x, Q.y, l);
    ZeroCombination(p, e2, d, 1, d + 2 * Q.y);
    ZeroCombination(p, e1, e2 + d * (d + 2 * Q.y), Q.x - x3, x3 - P.x);
    assert (e3 * (Q.x - P.x)) % p == 0;
    ZeroFactor(p, e3, Q.x - P.x);
  }

  lemma {:induction false} ZeroFactor(p: nat, e: int, t: int)
    requires IsPrime(p) && (e * t) % p == 0 && t % p != 0
    ensures e % p == 0
  {
    PrimeDivides(e, t, p);
  }

  lemma {:induction false} TangentOnCurve(p: nat, a: int, b: int, P: Pt)
    requires IsPrime(p) && p > 2 && P.Aff? && Proper(p, P) && P.y != 0 && OnCurve(p, a, b, P)
    ensures OnCurve(p, a, b, GroupAdd(p, a, P, P))
  {
    DoubleNonzero(p, P.y);
    var num, t := TangentNumerator(p, a, P.x), Double(p, P.y);
    var l := Div(p, num, t);
    ThirdDefect(p, a, b, l, P, P.x);
    DivSolves(p, num, t);
    hide Div, Inv, IsPrime, Defect, Third;
    var x3 := l * l - P.x - P.x;
    var d := 2 * P.y * l - (3 * (P.x * P.x) + a);
    assert d % p == 0 by {
      ModMod(2 * P.y, p);
      ModMod(3 * (P.x * P.x) + a, p);
      ModMul(l, l, t, 2 * P.y, p);
      ModAdd(l * t, l * (2 * P.y), num, 3 * (P.x * P.x) + a, p);
      assert l * (2 * P.y) == 2 * P.y * l;
    }
    TangentPoly(a, b, P.x, P.y, l);
    ZeroCombination(p, Defect(a, b, P.x, P.y), d, 1, x3 - P.x);
  }

  // ---------------------------------------------------------------- what the sum means

  ghost function Along(a: int, b: int, l: int, h: int, X: int): int
  {
    Defect(a, b, X, l * X + h)
  }

  function Roots(X: int, x1: int, x2: int, x3: int): int
  {
    (X - x1) * (X - x2) * (X - x3)
  }

  // On the line Y = l*X + h the cubic minus Y^2 is (X - x1)(X - x2)(X - x3): the line meets the curve in these
  // abscissas, each as often as it is listed, and nowhere else.
  ghost predicate Meets(p: nat, a: int, b: int, l: int, h: int, x1: int, x2: int, x3: int)
    requires p > 0
  {
    forall X :: Red(p, 0 - Along(a, b, l, h, X)) == Red(p, Roots(X, x1, x2, x3))
  }

  predicate OnSlope(p: nat, l: int, h: int, x: int, y: int)
    requires p > 0
  {
    Red(p, l * x + h - y) == 0
  }

  // R is the third intersection of a line with the curve, reflected; P and Q are the other two.
  ghost predicate IsChord(p: nat, a: int, b: int, P: Pt, Q: Pt, R: Pt)
    requires p > 0 && P.Aff? && Q.Aff? && R.Aff?
  {
    exists l, h :: Joins(p, a, b, l, h, P, Q, R)
  }

  ghost predicate Joins(p: nat, a: int, b: int, l: int, h: int, P: Pt, Q: Pt, R: Pt)
    requires p > 0 && P.Aff? && Q.Aff? && R.Aff?
  {
    && OnSlope(p, l, h, P.x, P.y) && OnSlope(p, l, h, Q.x, Q.y) && OnSlope(p, l, h, R.x, 0 - R.y)
    && Meets(p, a, b, l, h, P.x, Q.x, R.x)
  }

  lemma {:induction false} SlopeOfTangent(a: int, l: int, x1: int, y1: int)
    ensures Slope(a, l, y1 - l * x1, x1, x1) == 2 * y1 * l - (3 * (x1 * x1) + a)
  {
  }

  // With two roots on the line and no linear part left, the third is where Third puts it.
  lemma {:induction false} ThirdJoins(p: nat, a: int, b: int, l: int, P: Pt, Q: Pt)
    requires p > 0 && P.Aff? && Q.Aff? && OnSlope(p, l, P.y - l * P.x, Q.x, Q.y)
    requires Red(p, Slope(a, l, P.y - l * P.x, P.x, Q.x)) == 0 && Red(p, Height(b, l, P.y - l * P.x, P.x, Q.x)) == 0
    ensures Joins(p, a, b, l, P.y - l * P.x, P, Q, Third(p, l, P, Q.x))
  {
    hide Slope, Height, Defect, IsPrime, Roots;
    var h, R, x3 := P.y - l * P.x, Third(p, l, P, Q.x), l * l - P.x - Q.x;
    assert l * P.x + h - P.y == 0;
    ModSmall(0, p);
    ModMod(x3, p);
    ReflectedOnLine(p, l, P.x, P.y, R.x);
    forall X ensures Red(p, 0 - Along(a, b, l, h, X)) == Red(p, Roots(X, P.x, Q.x, R.x)) {
      CubicMinusLine(X, a, b, l, h, P.x, Q.x);
      RootsMod(p, X, P.x, Q.x, x3, R.x);
      ZeroCombination(p, Slope(a, l, h, P.x, Q.x), Height(b, l, h, P.x, Q.x), X, 1);
      RootsAre(X, P.x, Q.x, x3);
      ModAdd(Roots(X, P.x, Q.x, x3), Roots(X, P.x, Q.x, x3), Slope(a, l, h, P.x, Q.x) * X + Height(b, l, h, P.x, Q.x) * 1, 0, p);
    }
  }

  lemma RootsAre(X: int, x1: int, x2: int, x3: int)
    ensures Roots(X, x1, x2, x3) == (X - x1) * (X - x2) * (X - x3)
  {
  }

  lemma {:induction false} RootsMod(p: nat, X: int, x1: int, x2: int, u: int, v: int)
    requires p > 0 && u % p == v % p
    ensures Red(p, Roots(X, x1, x2, u)) == Red(p, Roots(X, x1, x2, v))
  {
    ModAdd(X, X, u, v, p);
    ModMul((X - x1) * (X - x2), (X - x1) * (X - x2), X - u, X - v, p);
  }

  lemma {:induction false} ReflectedOnLine(p: nat, l: int, x: int, y: int, x3: int)
    requires p > 0
    ensures OnSlope(p, l, y - l * x, x3, 0 - Red(p, (x - x3) * l - y))
  {
    var w := (x - x3) * l - y;
    ModMod(w, p);
    ModAdd(l * x3 + (y - l * x), l * x3 + (y - l * x), 0 - w % p, 0 - w, p) by { ModAdd(0, 0, w % p, w, p); }
    assert l * x3 + (y - l * x) + w == 0;
    ModSmall(0, p);
  }

  lemma {:induction false} ChordJoins(p: nat, a: int, b: int, P: Pt, Q: Pt)
    requires IsPrime(p) && p > 2 && P.Aff? && Q.Aff? && Proper(p, P) && Proper(p, Q) && P.x != Q.x
    requires OnCurve(p, a, b, P) && OnCurve(p, a, b, Q)
    ensures GroupAdd(p, a, P, Q).Aff? && IsChord(p, a, b, P, Q, GroupAdd(p, a, P, Q))
  {
    SubNonzero(p, Q.x, P.x);
    var l := Div(p, Sub(p, Q.y, P.y), Sub(p, Q.x, P.x));
    var R := GroupAdd(p, a, P, Q);
    assert R == Third(p, l, P, Q.x);
    ChordSlope(p, P, Q, l);
    hide Div, Inv, IsPrime, Defect, Third, Slope, Height, GroupAdd, Joins;
    var h := P.y - l * P.x;
    var d := l * (Q.x - P.x) - (Q.y - P.y);
    LineThrough(l, P.x, Q.x, 0, P.y);
    ChordLinear(p, a, b, P.x, P.y, Q.x, Q.y, l, d);
    assert OnSlope(p, l, h, Q.x, Q.y);
    ThirdJoins(p, a, b, l, P, Q);
  }

  lemma {:induction false} ChordSlope(p: nat, P: Pt, Q: Pt, l: int)
    requires IsPrime(p) && p > 2 && P.Aff? && Q.Aff? && Proper(p, P) && Proper(p, Q) && P.x != Q.x
    requires Sub(p, Q.x, P.x) != 0 && Elem(p, Sub(p, Q.x, P.x)) && l == Div(p, Sub(p, Q.y, P.y), Sub(p, Q.x, P.x))
    ensures (l * (Q.x - P.x) - (Q.y - P.y)) % p == 0 && (Q.x - P.x) % p != 0
  {
    var num, t := Sub(p, Q.y, P.y), Sub(p, Q.x, P.x);
    DivSolves(p, num, t);
    hide Div, Inv, IsPrime;
    ModMod(Q.x - P.x, p);
    ModMod(Q.y - P.y, p);
    ModMul(l, l, t, Q.x - P.x, p);
    ModAdd(l * t, l * (Q.x - P.x), num, Q.y - P.y, p);
  }

  lemma {:induction false} ChordLinear(p: nat, a: int, b: int, x1: int, y1: int, x2: int, y2: int, l: int, d: int)
    requires IsPrime(p) && d == l * (x2 - x1) - (y2 - y1) && d % p == 0 && (x2 - x1) % p != 0
    requires Red(p, Defect(a, b, x1, y1)) == 0 && Red(p, Defect(a, b, x2, y2)) == 0
    ensures Red(p, Slope(a, l, y1 - l * x1, x1, x2)) == 0 && Red(p, Height(b, l, y1 - l * x1, x1, x2)) == 0
  {
    var m := y1 - l * x1;
    LineThrough(l, x1, x2, 0, y1);
    CubicAtRoot(x1, a, b, l, m, x1, x2, y1);
    CubicAtRoot(x2, a, b, l, m, x1, x2, d + y2);
    OtherOrdinate(a, b, x2, y2, d);
    ZeroCombination(p, Defect(a, b, x2, y2), d, 1, d + 2 * y2);
    TwoZeros(p, Slope(a, l, m, x1, x2), Height(b, l, m, x1, x2), x1, x2);
  }

  // A linear function with two zeros vanishes.
  lemma {:induction false} TwoZeros(p: nat, u: int, v: int, x1: int, x2: int)
    requires p > 0 && IsPrime(p) && (x2 - x1) % p != 0 && (u * x1 + v) % p == 0 && (u * x2 + v) % p == 0
    ensures u % p == 0 && v % p == 0
  {
    hide IsPrime;
    ModSmall(0, p);
    ModAdd(u * x2 + v, 0, u * x1 + v, 0, p);
    TwoZerosPoly(u, v, x1, x2);
    ZeroFactor(p, u, x2 - x1);
    ZeroCombination(p, u * x1 + v, u, 1, 0 - x1);
  }

  lemma TwoZerosPoly(u: int, v: int, x1: int, x2: int)
    ensures u * x2 + v - (u * x1 + v) == u * (x2 - x1) && (u * x1 + v) * 1 + u * (0 - x1) == v
  {
  }

  lemma {:induction false} TangentJoins(p: nat, a: int, b: int, P: Pt)
    requires IsPrime(p) && p > 2 && P.Aff? && Proper(p, P) && P.y != 0 && OnCurve(p, a, b, P)
    ensures GroupAdd(p, a, P, P).Aff? && IsChord(p, a, b, P, P, GroupAdd(p, a, P, P))
  {
    DoubleNonzero(p, P.y);
    var l := Div(p, TangentNumerator(p, a, P.x), Double(p, P.y));
    assert GroupAdd(p, a, P, P) == Third(p, l, P, P.x);
    TangentSlope(p, a, P, l);
    SlopeOfTangent(a, l, P.x, P.y);
    var h := P.y - l * P.x;
    CubicAtRoot(P.x, a, b, l, h, P.x, P.x, P.y);
    var u, v := Slope(a, l, h, P.x, P.x), Height(b, l, h, P.x, P.x);
    hide Div, Inv, IsPrime, Defect, Third, Slope, Height, GroupAdd, Joins;
    ModSmall(0, p);
    ZeroCombination(p, u * P.x + v, u, 1, 0 - P.x);
    assert (u * P.x + v) * 1 + u * (0 - P.x) == v;
    assert OnSlope(p, l, h, P.x, P.y) by { assert l * P.x + h - P.y == 0; }
    ThirdJoins(p, a, b, l, P, P);
  }

  lemma {:induction false} TangentSlope(p: nat, a: int, P: Pt, l: int)
    requires IsPrime(p) && p > 2 && P.Aff? && Proper(p, P) && Double(p, P.y) != 0 && Elem(p, Double(p, P.y))
    requires l == Div(p, TangentNumerator(p, a, P.x), Double(p, P.y))
    ensures (2 * P.y * l - (3 * (P.x * P.x) + a)) % p == 0
  {
    var num, t := TangentNumerator(p, a, P.x), Double(p, P.y);
    DivSolves(p, num, t);
    hide Div, Inv, IsPrime;
    ModMod(2 * P.y, p);
    ModMod(3 * (P.x * P.x) + a, p);
    ModMul(l, l, t, 2 * P.y, p);
    ModAdd(l * t, l * (2 * P.y), num, 3 * (P.x * P.x) + a, p);
    assert l * (2 * P.y) == 2 * P.y * l;
  }

  // Points of the curve with the same abscissa are equal or opposite.
  lemma {:induction false} SameAbscissa(p: nat, a: int, b: int, x: int, y: int, y2: int)
    requires IsPrime(p) && Elem(p, y) && Elem(p, y2) && y != y2
    requires Red(p, Defect(a, b, x, y)) == 0 && Red(p, Defect(a, b, x, y2)) == 0
    ensures (y + y2) % p == 0
  {
    hide Defect, IsPrime;
    ModSmall(0, p);
    ModAdd(Defect(a, b, x, y), 0, Defect(a, b, x, y2), 0, p);
    DefectDifference(a, b, x, y, y2);
    DifferenceNonzero(p, y, y2);
    ZeroFactor(p, y + y2, y - y2);
  }

  lemma {:induction false} DefectDifference(a: int, b: int, x: int, y: int, y2: int)
    ensures Defect(a, b, x, y) - Defect(a, b, x, y2) == (y + y2) * (y - y2)
  {
    assert (y + y2) * (y - y2) == y * y - y2 * y2;
  }

  lemma {:induction false} DifferenceNonzero(p: nat, y: int, y2: int)
    requires Elem(p, y) && Elem(p, y2) && y != y2
    ensures (y - y2) % p != 0
  {
    if y < y2 { ModIntro(y - y2, y - y2 + p, -1, p); ModSmall(y - y2 + p, p); } else { ModSmall(y - y2, p); }
  }

  // Main result on the group law: infinity is neutral, the sum is infinity for opposite points only, and otherwise it
  // is the reflection of the third intersection of the line that meets the curve in the two points.
  lemma {:induction false} GroupAddMeans(p: nat, a: int, b: int, P: Pt, Q: Pt)
    requires IsPrime(p) && p > 2 && Proper(p, P) && Proper(p, Q) && OnCurve(p, a, b, P) && OnCurve(p, a, b, Q)
    ensures var R := GroupAdd(p, a, P, Q);
            && (P.Inf? ==> R == Q) && (Q.Inf? ==> R == P)
            && (P.Aff? && Q.Aff? ==> (R.Inf? <==> P.x == Q.x && (P.y + Q.y) % p == 0))
            && (P.Aff? && Q.Aff? && R.Aff? ==> IsChord(p, a, b, P, Q, R))
  {
    if P.Aff? && Q.Aff? {
      hide IsChord, Defect, Third;
      if P.x != Q.x {
        ChordJoins(p, a, b, P, Q);
      } else if P.y != Q.y {
        SameAbscissa(p, a, b, P.x, P.y, Q.y);
      } else if P.y != 0 {
        TangentJoins(p, a, b, P);
        TwiceNonzero(p, P.y);
      } else {
        ModSmall(0, p);
      }
    }
  }

  lemma {:induction false} TwiceNonzero(p: nat, y: int)
    requires IsPrime(p) && p > 2 && Elem(p, y) && y != 0
    ensures (y + y) % p != 0
  {
    DoubleNonzero(p, y);
  }

  lemma {:induction false} RedIsElem(p: nat, a: int)
    requires p > 0
    ensures Elem(p, Red(p, a))
  {
  }

  // ---------------------------------------------------------------- points updated in place

  class Point {
    var inf: bool
    var x: int
    var y: int

    ghost predicate Valid(p: nat)
      reads this
    {
      Elem(p, x) && Elem(p, y)
    }

    function Value(): Pt
      reads this
    {
      if inf then Inf else Aff(x, y)
    }

    constructor (P: Pt)
      ensures Value() == P
    {
      inf := P.Inf?;
      x := if P.Aff? then P.x else 0;
      y := if P.Aff? then P.y else 0;
    }
  }

  lemma {:induction false} ThirdSteps(p: nat, l: int, x: int, y: int, x2: int)
    requires p > 1 && Elem(p, l) && Elem(p, x) && Elem(p, y) && Elem(p, x2)
    ensures var P := Third(p, l, Aff(x, y), x2);
            && Elem(p, P.x) && Elem(p, P.y)
            && P.x == Sub(p, Sub(p, Square(p, l), x), x2)
            && P.y == Sub(p, Mul(p, Sub(p, x, P.x), l), y)
    ensures x == x2 ==> Third(p, l, Aff(x, y), x2).x == Sub(p, Square(p, l), Double(p, x))
  {
    Homomorphism(p);
    var x3 := Red(p, l * l - x - x2);
    ThirdPoly(l, x, x2);
    ThirdPoly2(l, x, x3, y);
    hide Red, Add, Sub, Mul, Elem, Plus, Minus, Times;
  }

  lemma ThirdPoly(l: int, x: int, x2: int)
    ensures Minus(Minus(Times(l, l), x), x2) == l * l - x - x2
    ensures Minus(Times(l, l), Plus(x, x)) == l * l - x - x
  {
  }

  lemma ThirdPoly2(l: int, x: int, x3: int, y: int)
    ensures Minus(Times(Minus(x, x3), l), y) == (x - x3) * l - y
  {
  }

  lemma {:induction false} NumeratorSteps(p: nat, a: int, x: int)
    requires p > 1 && Elem(p, a) && Elem(p, x)
    ensures Add(p, Red(p, Square(p, x) * 3), a) == TangentNumerator(p, a, x) && Elem(p, TangentNumerator(p, a, x))
  {
    OperationsReduce(p, x * x, 3);
    ElemReduces(p, x);
    ModMod(x * x, p);
    ModMul(x * x % p, x * x, 3, 3, p);
    ModMod(x * x % p * 3, p);
    ModAdd(x * x % p * 3 % p, x * x * 3, a, a, p);
  }

  method DoubleNoCheck(r: Point, q: Point, p: nat, a: int)
    requires IsPrime(p) && p > 2 && Elem(p, a) && q.Valid(p) && !q.inf && q.y != 0
    modifies r
    ensures r.Value() == old(GroupAdd(p, a, q.Value(), q.Value())) && r.Valid(p)
  {
    DoubleNonzero(p, q.y);
    var e0 := Double(p, q.y);
    e0 := Inv(p, e0);
    TangentStep(r, q, e0, p, a);
  }

  // The tangent formulas, given the inverse of twice the ordinate.
  method TangentStep(r: Point, q: Point, inv: int, p: nat, a: int)
    requires IsPrime(p) && p > 2 && Elem(p, a) && q.Valid(p) && !q.inf && q.y != 0 && IsInverse(p, Double(p, q.y), inv)
    modifies r
    ensures r.Value() == old(GroupAdd(p, a, q.Value(), q.Value())) && r.Valid(p)
  {
    DoubleNonzero(p, q.y);
    NumeratorSteps(p, a, q.x);
    ghost var x, y := q.x, q.y;
    hide IsPrime, Red, Add, Sub, Mul, Inv, Third;
    var lambda := Square(p, q.x);
    lambda := Red(p, lambda * 3);
    lambda := Add(p, lambda, a);
    lambda := Mul(p, lambda, inv);
    MulElem(p, TangentNumerator(p, a, x), inv);
    ThirdSteps(p, lambda, x, y, x);
    var e1 := Double(p, q.x);
    var e0 := Square(p, lambda);
    e0 := Sub(p, e0, e1);
    e1 := Sub(p, q.x, e0);
    e1 := Mul(p, e1, lambda);
    e1 := Sub(p, e1, q.y);
    r.x := e0;
    r.y := e1;
    r.inf := false;
  }

  method CurveSet(c: Point, a: Point, ghost p: nat)
    requires a.Valid(p) && c.Valid(p)
    modifies c
    ensures c.Value() == old(a.Value()) && c.Valid(p)
  {
    if a.inf {
      c.inf := true;
      return;
    }
    c.inf := false;
    c.x := a.x;
    c.y := a.y;
  }

  method CurveDouble(c: Point, q: Point, p: nat, a: int)
    requires IsPrime(p) && p > 2 && Elem(p, a) && q.Valid(p) && c.Valid(p)
    modifies c
    ensures c.Value() == old(GroupAdd(p, a, q.Value(), q.Value())) && c.Valid(p)
  {
    if q.inf {
      c.inf := true;
      return;
    }
    if q.y == 0 {
      c.inf := true;
      return;
    }
    DoubleNoCheck(c, q, p, a);
  }

  // Addition; the name is that of the group written multiplicatively.
  method CurveMul(c: Point, u: Point, v: Point, p: nat, a: int)
    requires IsPrime(p) && p > 2 && Elem(p, a) && u.Valid(p) && v.Valid(p) && c.Valid(p)
    modifies c
    ensures c.Value() == old(GroupAdd(p, a, u.Value(), v.Value())) && c.Valid(p)
  {
    if u.inf {
      CurveSet(c, v, p);
      return;
    }
    if v.inf {
      CurveSet(c, u, p);
      return;
    }
    if u.x == v.x {
      if u.y == v.y {
        if u.y == 0 {
          c.inf := true;
          return;
        } else {
          DoubleNoCheck(c, u, p, a);
          return;
        }
      }
      c.inf := true;
      return;
    }
    SubNonzero(p, v.x, u.x);
    var e0 := Sub(p, v.x, u.x);
    e0 := Inv(p, e0);
    ChordSteps(c, u, v, e0, p, a);
  }

  // The chord formulas, given the inverse of the difference of abscissas.
  method ChordSteps(c: Point, u: Point, v: Point, inv: int, p: nat, ghost a: int)
    requires IsPrime(p) && p > 2 && u.Valid(p) && v.Valid(p) && !u.inf && !v.inf && u.x != v.x
    requires IsInverse(p, Sub(p, v.x, u.x), inv)
    modifies c
    ensures c.Value() == old(GroupAdd(p, a, u.Value(), v.Value())) && c.Valid(p)
  {
    ghost var x, y, x2 := u.x, u.y, v.x;
    hide IsPrime, Red, Add, Sub, Mul, Inv, Third;
    var lambda := Sub(p, v.y, u.y);
    MulElem(p, lambda, inv);
    lambda := Mul(p, lambda, inv);
    ThirdSteps(p, lambda, x, y, x2);
    var e0 := Square(p, lambda);
    e0 := Sub(p, e0, u.x);
    e0 := Sub(p, e0, v.x);
    var e1 := Sub(p, u.x, e0);
    e1 := Mul(p, e1, lambda);
    e1 := Sub(p, e1, u.y);
    c.x := e0;
    c.y := e1;
    c.inf := false;
  }

  // ---------------------------------------------------------------- one inversion for a whole batch

  function Prefix(p: nat, d: seq<int>, k: nat): int
    requires p > 0 && k < |d|
  {
    if k == 0 then d[0] else Mul(p, d[k], Prefix(p, d, k - 1))
  }

  ghost predicate Units(p: nat, d: seq<int>)
  {
    forall k :: 0 <= k < |d| ==> Elem(p, d[k]) && d[k] != 0
  }

  lemma {:induction false} PrefixUnit(p: nat, d: seq<int>, k: nat)
    requires IsPrime(p) && Units(p, d) && k < |d|
    ensures Elem(p, Prefix(p, d, k)) && Prefix(p, d, k) != 0
  {
    if k > 0 {
      PrefixUnit(p, d, k - 1);
      ProductNonzero(p, d[k], Prefix(p, d, k - 1));
    }
  }

  lemma {:induction false} InverseIs(p: nat, d: int, r: int)
    requires IsPrime(p) && Elem(p, d) && d != 0 && Elem(p, r) && Mul(p, r, d) == 1
    ensures r == Inv(p, d)
  {
    assert r * d == d * r;
    InverseUnique(d, r, Inv(p, d), p);
    ModSmall(r, p);
    ModSmall(Inv(p, d), p);
  }

  // From the inverse e of prefix k: the inverse of d[k], and the inverse of prefix k-1.
  lemma {:induction false} PeelInverse(p: nat, d: seq<int>, k: nat, e: int)
    requires IsPrime(p) && Units(p, d) && 0 < k < |d| && Elem(p, e) && Mul(p, e, Prefix(p, d, k)) == 1
    ensures Mul(p, Prefix(p, d, k - 1), e) == Inv(p, d[k])
    ensures Mul(p, Mul(p, e, d[k]), Prefix(p, d, k - 1)) == 1
  {
    PrefixUnit(p, d, k - 1);
    Homomorphism(p);
    var w, x := Prefix(p, d, k - 1), d[k];
    assert Prefix(p, d, k) == Mul(p, x, w);
    PeelPoly(e, x, w);
    assert Mul(p, Mul(p, e, x), w) == Mul(p, e, Mul(p, x, w)) && Mul(p, Mul(p, w, e), x) == Mul(p, e, Mul(p, x, w)) by {
      hide Red, Mul, Times, Prefix, IsPrime;
    }
    MulElem(p, w, e);
    InverseIs(p, x, Mul(p, w, e));
  }

  lemma PeelPoly(e: int, x: int, w: int)
    ensures Times(Times(e, x), w) == Times(e, Times(x, w)) == Times(Times(w, e), x)
  {
  }

  ghost predicate IsInverse(p: nat, d: int, r: int)
  {
    IsPrime(p) && Elem(p, d) && d != 0 && r == Inv(p, d)
  }

  ghost predicate InversePrefix(p: nat, d: seq<int>, k: nat, e: int)
  {
    0 < p && k < |d| && Elem(p, e) && Mul(p, e, Prefix(p, d, k)) == 1
  }

  ghost predicate IsPrefix(p: nat, d: seq<int>, k: nat, w: int)
  {
    0 < p && k < |d| && w == Prefix(p, d, k)
  }

  lemma {:induction false} Backward(p: nat, d: seq<int>, k: nat, e: int, w: int)
    requires IsPrime(p) && Units(p, d) && 0 < k < |d| && InversePrefix(p, d, k, e) && IsPrefix(p, d, k - 1, w)
    ensures IsInverse(p, d[k], Mul(p, w, e))
    ensures InversePrefix(p, d, k - 1, Mul(p, e, d[k]))
  {
    PeelInverse(p, d, k, e);
    MulElem(p, e, d[k]);
  }

  lemma {:induction false} Forward(p: nat, d: seq<int>, k: nat, w: int)
    requires p > 0 && k < |d| && (k > 0 ==> IsPrefix(p, d, k - 1, w))
    ensures IsPrefix(p, d, k, if k == 0 then d[0] else Mul(p, d[k], w))
  {
  }

  lemma {:induction false} Turn(p: nat, d: seq<int>, k: nat, w: int)
    requires IsPrime(p) && Units(p, d) && IsPrefix(p, d, k, w)
    ensures Elem(p, w) && w != 0 && InversePrefix(p, d, k, Inv(p, w))
  {
    PrefixUnit(p, d, k);
    InverseOfPrefix(p, d, k);
  }

  lemma {:induction false} Last(p: nat, d: seq<int>, e: int)
    requires IsPrime(p) && Units(p, d) && InversePrefix(p, d, 0, e)
    ensures IsInverse(p, d[0], e)
  {
    InverseIs(p, d[0], e);
  }

  lemma {:induction false} InverseOfPrefix(p: nat, d: seq<int>, k: nat)
    requires IsPrime(p) && Units(p, d) && k < |d| && Elem(p, Prefix(p, d, k)) && Prefix(p, d, k) != 0
    ensures var i := Inv(p, Prefix(p, d, k)); Elem(p, i) && Mul(p, i, Prefix(p, d, k)) == 1
  {
    var w := Prefix(p, d, k);
    assert w * Inv(p, w) == Inv(p, w) * w;
  }

  // Point q holds the value P.
  ghost predicate Holds(p: nat, q: Point, P: Pt)
    reads q
  {
    q.Valid(p) && q.Value() == P
  }

  lemma DoubleTimes(p: nat, e: int, y: int)
    requires p > 0
    ensures Double(p, Mul(p, e, y)) == Mul(p, e, Double(p, y))
  {
    ModMod(2 * y, p);
    ModMul(e, e, (y + y) % p, y + y, p);
    ModMod(e * y, p);
    ModAdd(e * y % p, e * y, e * y % p, e * y, p);
    assert e * y + e * y == e * (y + y);
  }

  // Prefix products forward, one inversion, and the single inverses on the way back.
  method InverseOrdinates(p: nat, a: seq<Point>, ghost d: seq<int>) returns (table: array<int>)
    requires IsPrime(p) && |a| == |d| > 0 && Units(p, d)
    requires forall k :: 0 <= k < |a| ==> d[k] == Double(p, a[k].y)
    ensures fresh(table) && table.Length == |a|
    ensures forall k :: 0 <= k < |a| ==> IsInverse(p, d[k], table[k])
  {
    var n := |a|;
    table := new int[n](_ => 0);
    hide *;
    for i := 0 to n
      invariant forall k :: 0 <= k < i ==> IsPrefix(p, d, k, table[k])
    {
      Forward(p, d, i, if i > 0 then table[i - 1] else 0);
      table[i] := Double(p, a[i].y);
      if i > 0 { table[i] := Mul(p, table[i], table[i - 1]); }
    }
    Turn(p, d, n - 1, table[n - 1]);
    var e2 := Inv(p, table[n - 1]);
    var i := n - 1;
    while i > 0
      invariant 0 <= i < n && InversePrefix(p, d, i, e2)
      invariant forall k :: 0 <= k < i ==> IsPrefix(p, d, k, table[k])
      invariant forall k :: i < k < n ==> IsInverse(p, d[k], table[k])
    {
      Backward(p, d, i, e2, table[i - 1]);
      DoubleTimes(p, e2, a[i].y);
      table[i] := Mul(p, table[i - 1], e2);
      e2 := Mul(p, e2, a[i].y);
      e2 := Double(p, e2);
      i := i - 1;
    }
    Last(p, d, e2);
    table[0] := e2;
  }

  method InverseDifferences(p: nat, a: seq<Point>, b: seq<Point>, ghost d: seq<int>) returns (table: array<int>)
    requires IsPrime(p) && |a| == |b| == |d| > 0 && Units(p, d)
    requires forall k :: 0 <= k < |a| ==> d[k] == Sub(p, b[k].x, a[k].x)
    ensures fresh(table) && table.Length == |a|
    ensures forall k :: 0 <= k < |a| ==> IsInverse(p, d[k], table[k])
  {
    var n := |a|;
    table := new int[n](_ => 0);
    hide *;
    Forward(p, d, 0, 0);
    table[0] := Sub(p, b[0].x, a[0].x);
    for i := 1 to n
      invariant forall k :: 0 <= k < i ==> IsPrefix(p, d, k, table[k])
    {
      Forward(p, d, i, table[i - 1]);
      table[i] := Sub(p, b[i].x, a[i].x);
      table[i] := Mul(p, table[i], table[i - 1]);
    }
    Turn(p, d, n - 1, table[n - 1]);
    var e2 := Inv(p, table[n - 1]);
    var i := n - 1;
    while i > 0
      invariant 0 <= i < n && InversePrefix(p, d, i, e2)
      invariant forall k :: 0 <= k < i ==> IsPrefix(p, d, k, table[k])
      invariant forall k :: i < k < n ==> IsInverse(p, d[k], table[k])
    {
      Backward(p, d, i, e2, table[i - 1]);
      table[i] := Mul(p, table[i - 1], e2);
      var e1 := Sub(p, b[i].x, a[i].x);
      e2 := Mul(p, e2, e1);
      i := i - 1;
    }
    Last(p, d, e2);
    table[0] := e2;
  }

  // Targets are pairwise distinct and no target is a later source, so that writing one result spoils no other.
  ghost predicate Separate(c: seq<Point>, a: seq<Point>)
  {
    |c| == |a| && forall i, j :: 0 <= i < j < |c| ==> c[i] != c[j] && c[i] != a[j]
  }

  // The values points hold.
  ghost function Values(a: seq<Point>): (A: seq<Pt>)
    reads a
    ensures |A| == |a| && forall k :: 0 <= k < |a| ==> A[k] == a[k].Value()
  {
    seq(|a|, k requires 0 <= k < |a| reads a => a[k].Value())
  }

  ghost predicate AllFinite(p: nat, A: seq<Pt>)
  {
    forall k :: 0 <= k < |A| ==> A[k].Aff? && Proper(p, A[k])
  }

  // Doubles every point with one inversion; a target still flagged infinite is skipped.
  method MultiDouble(c: seq<Point>, a: seq<Point>, p: nat, coefficient: int)
    requires IsPrime(p) && p > 2 && Elem(p, coefficient) && |a| > 0 && Separate(c, a)
    requires AllFinite(p, Values(a)) && forall k :: 0 <= k < |a| ==> a[k].y != 0
    modifies c
    ensures var A := old(Values(a)); forall k :: 0 <= k < |c| ==>
      if old(c[k].inf) then c[k].inf else Holds(p, c[k], GroupAdd(p, coefficient, A[k], A[k]))
  {
    ghost var A := Values(a);
    ghost var d := seq(|a|, k requires 0 <= k < |a| => Double(p, A[k].y));
    forall k | 0 <= k < |a| ensures Elem(p, d[k]) && d[k] != 0 { DoubleNonzero(p, A[k].y); }
    assert Units(p, d);
    var table := InverseOrdinates(p, a, d);
    DoubleEach(c, a, table, p, coefficient, A);
  }

  ghost predicate TangentReady(p: nat, P: Pt, inv: int)
  {
    P.Aff? && Proper(p, P) && P.y != 0 && IsInverse(p, Double(p, P.y), inv)
  }

  method DoubleEach(c: seq<Point>, a: seq<Point>, table: array<int>, p: nat, coefficient: int, ghost A: seq<Pt>)
    requires IsPrime(p) && p > 2 && Elem(p, coefficient) && Separate(c, a) && AllFinite(p, A)
    requires |a| == |A| == table.Length && forall k :: 0 <= k < |a| ==> Holds(p, a[k], A[k]) && TangentReady(p, A[k], table[k])
    modifies c
    ensures forall k :: 0 <= k < |c| ==>
      if old(c[k].inf) then c[k].inf else Holds(p, c[k], GroupAdd(p, coefficient, A[k], A[k]))
  {
    hide IsPrime, Double, Elem, GroupAdd, IsInverse;
    for i := 0 to |a|
      invariant forall k :: i <= k < |c| ==> c[k].inf == old(c[k].inf)
      invariant forall k :: i <= k < |a| ==> Holds(p, a[k], A[k])
      invariant forall k :: 0 <= k < i ==> if old(c[k].inf) then c[k].inf else Holds(p, c[k], GroupAdd(p, coefficient, A[k], A[k]))
    {
      if !c[i].inf { TangentStep(c[i], a[i], table[i], p, coefficient); }
    }
  }

  // Adds every pair with one inversion.
  method MultiAdd(c: seq<Point>, a: seq<Point>, b: seq<Point>, p: nat, coefficient: int)
    requires IsPrime(p) && p > 2 && Elem(p, coefficient) && |a| > 0 && Separate(c, a) && Separate(c, b)
    requires AllFinite(p, Values(a)) && AllFinite(p, Values(b)) && forall k :: 0 <= k < |a| ==> a[k].x != b[k].x
    modifies c
    ensures var A, C := old(Values(a)), old(Values(b));
            forall k :: 0 <= k < |c| ==> Holds(p, c[k], GroupAdd(p, coefficient, A[k], C[k]))
  {
    ghost var A, C := Values(a), Values(b);
    ghost var d := seq(|a|, k requires 0 <= k < |a| => Sub(p, C[k].x, A[k].x));
    forall k | 0 <= k < |a| ensures Elem(p, d[k]) && d[k] != 0 { SubNonzero(p, C[k].x, A[k].x); }
    assert Units(p, d);
    var table := InverseDifferences(p, a, b, d);
    AddEach(c, a, b, table, p, coefficient, A, C);
  }

  ghost predicate ChordReady(p: nat, P: Pt, Q: Pt, inv: int)
  {
    P.Aff? && Q.Aff? && Proper(p, P) && Proper(p, Q) && P.x != Q.x && IsInverse(p, Sub(p, Q.x, P.x), inv)
  }

  method AddEach(c: seq<Point>, a: seq<Point>, b: seq<Point>, table: array<int>, p: nat, coefficient: int, ghost A: seq<Pt>, ghost C: seq<Pt>)
    requires IsPrime(p) && p > 2 && Elem(p, coefficient) && Separate(c, a) && Separate(c, b) && AllFinite(p, A) && AllFinite(p, C)
    requires |a| == |A| == |C| == table.Length
    requires forall k :: 0 <= k < |a| ==> Holds(p, a[k], A[k]) && Holds(p, b[k], C[k]) && ChordReady(p, A[k], C[k], table[k])
    modifies c
    ensures forall k :: 0 <= k < |c| ==> Holds(p, c[k], GroupAdd(p, coefficient, A[k], C[k]))
  {
    hide IsPrime, Sub, Elem, GroupAdd, IsInverse;
    for i := 0 to |a|
      invariant forall k :: i <= k < |a| ==> Holds(p, a[k], A[k]) && Holds(p, b[k], C[k])
      invariant forall k :: 0 <= k < i ==> Holds(p, c[k], GroupAdd(p, coefficient, A[k], C[k]))
    {
      ChordSteps(c[i], a[i], b[i], table[i], p, coefficient);
    }
  }
}
