// The cubing routine of GF(3^6m) computes x*(x*x): true for the base field, for s and for p, and kept by sums and products.
module TernaryCubes {
  import opened Arith
  import opened Polynomials
  import opened PolynomialDivision
  import opened TernaryField
  import opened TernaryTower

  // ---------------------------------------------------------------- laws of the integer triples

  lemma {:induction false} YMulCommutes(u: Z6, v: Z6)
    ensures YMul(u, v) == YMul(v, u)
  {
    hide ZMul;
    ZMulCommutes(u.c0, v.c0);
    ZMulCommutes(u.c0, v.c1);
    ZMulCommutes(u.c0, v.c2);
    ZMulCommutes(u.c1, v.c0);
    ZMulCommutes(u.c1, v.c1);
    ZMulCommutes(u.c1, v.c2);
    ZMulCommutes(u.c2, v.c0);
    ZMulCommutes(u.c2, v.c1);
    ZMulCommutes(u.c2, v.c2);
  }

  lemma {:induction false} YMulAdd(u: Z6, v: Z6, v': Z6)
    ensures YMul(u, YAdd(v, v')) == YAdd(YMul(u, v), YMul(u, v'))
  {
    hide *;
    YMulCommutes(u, YAdd(v, v'));
    YAddMul(v, v', u);
    YMulCommutes(v, u);
    YMulCommutes(v', u);
  }

  function YCube(u: Z6): Z6
  {
    YMul(u, YMul(u, u))
  }

  function YThree(u: Z6): Z6
  {
    Z6(ZThree(u.c0), ZThree(u.c1), ZThree(u.c2))
  }

  lemma {:induction false} YRotate(u: Z6, v: Z6, w: Z6)
    ensures YMul(u, YMul(v, w)) == YMul(v, YMul(u, w))
  {
    hide *;
    YMulAssociates(u, v, w);
    YMulAssociates(v, u, w);
    YMulCommutes(u, v);
  }

  // (uv)^3 = u^3 v^3
  lemma {:induction false} YCubeMul(u: Z6, v: Z6)
    ensures YCube(YMul(u, v)) == YMul(YCube(u), YCube(v))
  {
    hide YMul;
    YSwapMiddle(u, v, u, v);
    YSwapMiddle(u, v, YMul(u, u), YMul(v, v));
  }

  lemma {:induction false} YSwapMiddle(a: Z6, b: Z6, c: Z6, d: Z6)
    ensures YMul(YMul(a, b), YMul(c, d)) == YMul(YMul(a, c), YMul(b, d))
  {
    hide *;
    YMulAssociates(a, b, YMul(c, d));
    YRotate(b, c, d);
    YMulAssociates(a, c, YMul(b, d));
  }

  // (u + v)^3 = u^3 + v^3 + 3uv(u + v)
  lemma {:induction false} YCubeAdd(u: Z6, v: Z6)
    ensures YCube(YAdd(u, v)) == YAdd(YAdd(YCube(u), YCube(v)), YThree(YMul(YMul(u, v), YAdd(u, v))))
  {
    hide YMul;
    var a, b, c := YMul(u, u), YMul(u, v), YMul(v, v);
    YAddMul(u, v, YAdd(u, v));
    YMulAdd(u, u, v);
    YMulAdd(v, u, v);
    YMulCommutes(v, u);
    var q := YMul(YAdd(u, v), YAdd(u, v));
    assert q == YAdd(YAdd(a, b), YAdd(b, c));
    YAddMul(u, v, q);
    YMulAdd(u, YAdd(a, b), YAdd(b, c));
    YMulAdd(u, a, b);
    YMulAdd(u, b, c);
    YMulAdd(v, YAdd(a, b), YAdd(b, c));
    YMulAdd(v, a, b);
    YMulAdd(v, b, c);
    YMulAdd(b, u, v);
    YMulCommutes(b, u);
    YMulCommutes(b, v);
    YRotate(v, u, u);
    YRotate(u, v, v);
    CubeTerms(YMul(u, a), YMul(u, b), YMul(v, b), YMul(v, c));
  }

  lemma CubeTerms(p: Z6, q: Z6, r: Z6, s: Z6)
    ensures YAdd(YAdd(YAdd(p, q), YAdd(q, r)), YAdd(YAdd(q, r), YAdd(r, s))) == YAdd(YAdd(p, s), YThree(YAdd(q, r)))
  {
  }

  // ---------------------------------------------------------------- the property

  // The cube of L and what the cubing routine makes of it differ by three times W.
  ghost predicate CubesBy(L: K6, W: K6)
  {
    forall X :: Ev6(TMul(L, TMul(L, L)), X) == YAdd(Ev6(TCub(L), X), YThree(Ev6(W, X)))
  }

  ghost predicate Cubes(L: K6)
  {
    exists W :: CubesBy(L, W)
  }

  lemma {:induction false} EvCube(L: K6, X: int)
    ensures Ev6(TMul(L, TMul(L, L)), X) == YCube(Ev6(L, X))
  {
    hide *;
    EvTMul(L, TMul(L, L), X);
    EvTMul(L, L, X);
    CubeIs(Ev6(L, X));
  }

  lemma CubeIs(u: Z6)
    ensures YCube(u) == YMul(u, YMul(u, u))
  {
  }

  ghost function TAdd(L: K6, N: K6): K6
  {
    K6(LAdd(L.a0, N.a0), LAdd(L.a1, N.a1), LAdd(L.a2, N.a2))
  }

  lemma {:induction false} EvTAdd(L: K6, N: K6, X: int)
    ensures Ev6(TAdd(L, N), X) == YAdd(Ev6(L, X), Ev6(N, X))
  {
    hide Ev2, LAdd, ZAdd;
    EvL(L.a0, N.a0, X);
    EvL(L.a1, N.a1, X);
    EvL(L.a2, N.a2, X);
  }

  lemma YThreeAdd(u: Z6, v: Z6)
    ensures YThree(YAdd(u, v)) == YAdd(YThree(u), YThree(v))
    ensures YTau(YConj(YAdd(u, v))) == YAdd(YTau(YConj(u)), YTau(YConj(v)))
  {
  }

  lemma {:induction false} CubesAdd(L: K6, N: K6)
    requires Cubes(L) && Cubes(N)
    ensures Cubes(TAdd(L, N))
  {
    var V :| CubesBy(L, V);
    var W :| CubesBy(N, W);
    var S := TAdd(L, N);
    var Z := TAdd(TAdd(V, W), TMul(TMul(L, N), S));
    forall X ensures Ev6(TMul(S, TMul(S, S)), X) == YAdd(Ev6(TCub(S), X), YThree(Ev6(Z, X))) {
      CubesAddAt(L, N, V, W, X);
    }
    assert CubesBy(S, Z);
  }

  lemma {:induction false} CubesAddAt(L: K6, N: K6, V: K6, W: K6, X: int)
    requires CubesBy(L, V) && CubesBy(N, W)
    ensures var S := TAdd(L, N);
            Ev6(TMul(S, TMul(S, S)), X) == YAdd(Ev6(TCub(S), X), YThree(Ev6(TAdd(TAdd(V, W), TMul(TMul(L, N), S)), X)))
  {
    hide *;
    var S, Y := TAdd(L, N), X * X * X;
    CubesMeans(L, V, X);
    CubesMeans(N, W, X);
    EvCube(S, X);
    EvCube(L, X);
    EvCube(N, X);
    EvTAdd(L, N, X);
    YCubeAdd(Ev6(L, X), Ev6(N, X));
    EvTCub(S, X);
    EvTCub(L, X);
    EvTCub(N, X);
    EvTAdd(L, N, Y);
    YThreeAdd(Ev6(L, Y), Ev6(N, Y));
    EvTAdd(TAdd(V, W), TMul(TMul(L, N), S), X);
    EvTAdd(V, W, X);
    EvTMul(TMul(L, N), S, X);
    EvTMul(L, N, X);
    YThreeAdd(YAdd(Ev6(V, X), Ev6(W, X)), YMul(YMul(Ev6(L, X), Ev6(N, X)), YAdd(Ev6(L, X), Ev6(N, X))));
    YThreeAdd(Ev6(V, X), Ev6(W, X));
    FourSums(Ev6(TCub(L), X), Ev6(TCub(N), X), YThree(Ev6(V, X)), YThree(Ev6(W, X)), YThree(YMul(YMul(Ev6(L, X), Ev6(N, X)), YAdd(Ev6(L, X), Ev6(N, X)))));
  }

  lemma CubesMeans(L: K6, W: K6, X: int)
    requires CubesBy(L, W)
    ensures Ev6(TMul(L, TMul(L, L)), X) == YAdd(Ev6(TCub(L), X), YThree(Ev6(W, X)))
  {
  }

  lemma FourSums(a: Z6, b: Z6, v: Z6, w: Z6, r: Z6)
    ensures YAdd(YAdd(YAdd(a, v), YAdd(b, w)), r) == YAdd(YAdd(a, b), YAdd(YAdd(v, w), r))
  {
  }

  lemma {:induction false} CubesMul(L: K6, N: K6)
    requires Cubes(L) && Cubes(N)
    ensures Cubes(TMul(L, N))
  {
    var V :| CubesBy(L, V);
    var W :| CubesBy(N, W);
    var S := TMul(L, N);
    var Z := MulRest(L, N, V, W);
    forall X ensures Ev6(TMul(S, TMul(S, S)), X) == YAdd(Ev6(TCub(S), X), YThree(Ev6(Z, X))) {
      CubesMulAt(L, N, V, W, X);
    }
    assert CubesBy(S, Z);
  }

  // (C + 3V)(D + 3W) - CD - 3R, over three
  ghost function MulRest(L: K6, N: K6, V: K6, W: K6): K6
  {
    var C, D := TCub(L), TCub(N);
    TAdd(TAdd(TMul(C, W), TMul(V, D)), TAdd(TAdd(TMul(V, W), TAdd(TMul(V, W), TMul(V, W))), TNeg(TRest(L, N))))
  }

  ghost function TNeg(L: K6): K6
  {
    K6(LSub(K2([], []), L.a0), LSub(K2([], []), L.a1), LSub(K2([], []), L.a2))
  }

  function YNeg(u: Z6): Z6
  {
    Z6(ZSub(Z2(0, 0), u.c0), ZSub(Z2(0, 0), u.c1), ZSub(Z2(0, 0), u.c2))
  }

  lemma {:induction false} EvTNeg(L: K6, X: int)
    ensures Ev6(TNeg(L), X) == YNeg(Ev6(L, X))
  {
    hide Ev, LSub, ZSub;
    EvConst(0, X);
    EvL(K2([], []), L.a0, X);
    EvL(K2([], []), L.a1, X);
    EvL(K2([], []), L.a2, X);
  }

  lemma {:induction false} YTauMul6(u: Z6, v: Z6)
    ensures YTau(YMul(u, v)) == YAdd(YMul(YTau(u), YTau(v)), YThree(YRest(u, v)))
  {
    hide ZMul, ZAdd, ZThree, YMul, YTau, YRest;
    YTauMul(u, v);
  }

  lemma {:induction false} YThreeMul(u: Z6, v: Z6)
    ensures YMul(YThree(u), v) == YThree(YMul(u, v)) && YMul(v, YThree(u)) == YThree(YMul(v, u))
  {
    hide *;
    ThreeIsSum(u);
    ThreeIsSum(YMul(u, v));
    ThreeIsSum(YMul(v, u));
    YAddMul(u, YAdd(u, u), v);
    YAddMul(u, u, v);
    YMulAdd(v, u, YAdd(u, u));
    YMulAdd(v, u, u);
  }

  lemma ThreeIsSum(u: Z6)
    ensures YThree(u) == YAdd(u, YAdd(u, u))
  {
  }

  lemma {:induction false} CubesMulAt(L: K6, N: K6, V: K6, W: K6, X: int)
    requires CubesBy(L, V) && CubesBy(N, W)
    ensures var S := TMul(L, N);
            Ev6(TMul(S, TMul(S, S)), X) == YAdd(Ev6(TCub(S), X), YThree(Ev6(MulRest(L, N, V, W), X)))
  {
    hide *;
    var S, Y := TMul(L, N), X * X * X;
    var c, d, v, w := Ev6(TCub(L), X), Ev6(TCub(N), X), Ev6(V, X), Ev6(W, X);
    var r := Ev6(TRest(L, N), X);
    CubesMeans(L, V, X);
    CubesMeans(N, W, X);
    EvCube(S, X);
    EvCube(L, X);
    EvCube(N, X);
    EvTMul(L, N, X);
    YCubeMul(Ev6(L, X), Ev6(N, X));
    EvTCub(S, X);
    EvTMul(L, N, Y);
    YConjMul(Ev6(L, Y), Ev6(N, Y));
    YTauMul6(YConj(Ev6(L, Y)), YConj(Ev6(N, Y)));
    EvTCub(L, X);
    EvTCub(N, X);
    EvTRest(L, N, X);
    EvMulRest(L, N, V, W, X);
    ProductOfSums(c, d, v, w, r);
  }

  lemma {:induction false} EvMulRest(L: K6, N: K6, V: K6, W: K6, X: int)
    ensures var c, d, v, w, r := Ev6(TCub(L), X), Ev6(TCub(N), X), Ev6(V, X), Ev6(W, X), Ev6(TRest(L, N), X);
            Ev6(MulRest(L, N, V, W), X) == YAdd(YAdd(YMul(c, w), YMul(v, d)), YAdd(YThree(YMul(v, w)), YNeg(r)))
  {
    hide Ev6, TMul, TAdd, TCub, TRest, TNeg, YAdd, YMul, YNeg, YThree;
    var C, D, R := TCub(L), TCub(N), TRest(L, N);
    var a, b, e := TMul(C, W), TMul(V, D), TMul(V, W);
    EvTMul(C, W, X);
    EvTMul(V, D, X);
    EvTMul(V, W, X);
    EvTNeg(R, X);
    EvTAdd(e, e, X);
    EvTAdd(e, TAdd(e, e), X);
    ThreeIsSum(Ev6(e, X));
    EvTAdd(TAdd(e, TAdd(e, e)), TNeg(R), X);
    EvTAdd(a, b, X);
    EvTAdd(TAdd(a, b), TAdd(TAdd(e, TAdd(e, e)), TNeg(R)), X);
  }

  // (c + 3v)(d + 3w) = (cd + 3r) + 3(cw + vd + 3vw - r)
  lemma {:induction false} ProductOfSums(c: Z6, d: Z6, v: Z6, w: Z6, r: Z6)
    ensures YMul(YAdd(c, YThree(v)), YAdd(d, YThree(w))) ==
      YAdd(YAdd(YMul(c, d), YThree(r)), YThree(YAdd(YAdd(YMul(c, w), YMul(v, d)), YAdd(YThree(YMul(v, w)), YNeg(r)))))
  {
    hide *;
    YAddMul(c, YThree(v), YAdd(d, YThree(w)));
    YMulAdd(c, d, YThree(w));
    YMulAdd(YThree(v), d, YThree(w));
    YThreeMul(w, c);
    YThreeMul(v, d);
    YThreeMul(v, YThree(w));
    YThreeMul(w, v);
    SumsAgree(YMul(c, d), YMul(c, w), YMul(v, d), YMul(v, w), r);
  }

  lemma SumsAgree(a: Z6, b: Z6, e: Z6, f: Z6, r: Z6)
    ensures YAdd(YAdd(a, YThree(b)), YAdd(YThree(e), YThree(YThree(f)))) ==
      YAdd(YAdd(a, YThree(r)), YThree(YAdd(YAdd(b, e), YAdd(YThree(f), YNeg(r)))))
  {
  }

  // ---------------------------------------------------------------- generators

  ghost function Embed(f: Poly): K6
  {
    K6(K2(f, []), K2([], []), K2([], []))
  }

  const S6: K6 := K6(K2([], [1]), K2([], []), K2([], []))
  const P6: K6 := K6(K2([], []), K2([1], []), K2([], []))

  lemma {:induction false} EvGenerators(f: Poly, X: int)
    ensures Ev6(Embed(f), X) == Z6(Z2(Ev(f, X), 0), Z2(0, 0), Z2(0, 0))
    ensures Ev6(S6, X) == Z6(Z2(0, 1), Z2(0, 0), Z2(0, 0)) && Ev6(P6, X) == Z6(Z2(0, 0), Z2(1, 0), Z2(0, 0))
  {
    hide Ev;
    EvConst(1, X);
  }

  lemma {:induction false} CubesEmbed(f: Poly)
    ensures Cubes(Embed(f))
  {
    var L, W := Embed(f), Embed(CubeRest(f));
    forall X ensures Ev6(TMul(L, TMul(L, L)), X) == YAdd(Ev6(TCub(L), X), YThree(Ev6(W, X))) { EmbedAt(f, X); }
    assert CubesBy(L, W);
  }

  lemma {:induction false} EmbedAt(f: Poly, X: int)
    ensures var L, W := Embed(f), Embed(CubeRest(f));
            Ev6(TMul(L, TMul(L, L)), X) == YAdd(Ev6(TCub(L), X), YThree(Ev6(W, X)))
  {
    hide *;
    EvCube(Embed(f), X);
    EvGenerators(f, X);
    EvTCub(Embed(f), X);
    EvGenerators(f, X * X * X);
    EvGenerators(CubeRest(f), X);
    Frobenius(f, X);
    EvSpreadIs(f, X);
    RealCube(Ev(f, X), Ev(f, X * X * X), Ev(CubeRest(f), X));
  }

  lemma {:induction false} RealCube(y: int, w: int, h: int)
    requires y * y * y == w + 3 * h
    ensures var z := Z2(0, 0); YCube(Z6(Z2(y, 0), z, z)) == YAdd(YTau(YConj(Z6(Z2(w, 0), z, z))), YThree(Z6(Z2(h, 0), z, z)))
  {
    hide YMul, YTau, YConj, YAdd, YThree;
    RealTimes(y, y);
    RealTimes(y, y * y);
    CubeGroups(y);
    RealSum(y * y * y, w, h);
  }

  lemma {:induction false} RealSum(c: int, w: int, h: int)
    requires c == w + 3 * h
    ensures var z := Z2(0, 0); Z6(Z2(c, 0), z, z) == YAdd(YTau(YConj(Z6(Z2(w, 0), z, z))), YThree(Z6(Z2(h, 0), z, z)))
  {
    TauOfReal(w);
    hide YTau, YConj;
    var z := Z2(0, 0);
    assert YThree(Z6(Z2(h, 0), z, z)) == Z6(Z2(3 * h, 0), z, z);
  }

  lemma {:induction false} TauOfReal(w: int)
    ensures var z := Z2(0, 0); YTau(YConj(Z6(Z2(w, 0), z, z))) == Z6(Z2(w, 0), z, z)
  {
    hide ZAdd, ZSub, ZConj, YTau, YConj;
    var z := Z2(0, 0);
    ZZero(z);
    RealConj(w);
    TauOf(Z2(w, 0), z, z, Z2(w, 0), z);
  }

  lemma RealConj(w: int)
    ensures ZConj(Z2(w, 0)) == Z2(w, 0)
  {
  }

  // Conjugation and the substitution, given the conjugates.
  lemma {:induction false} TauOf(x: Z2, y: Z2, z: Z2, x': Z2, y': Z2)
    requires z == Z2(0, 0) && x' == ZConj(x) && y' == ZConj(y)
    ensures YTau(YConj(Z6(x, y, z))) == Z6(ZAdd(x', y'), y', z)
  {
    hide ZAdd, ZSub, ZConj;
    ZZero(z);
  }

  lemma CubeGroups(y: int)
    ensures y * (y * y) == y * y * y
  {
  }

  // Zero in every operation.
  lemma {:induction false} ZZero(z: Z2)
    requires z == Z2(0, 0)
    ensures forall v {:trigger ZMul(z, v)} :: ZMul(z, v) == z
    ensures forall v {:trigger ZMul(v, z)} :: ZMul(v, z) == z
    ensures forall v {:trigger ZAdd(z, v)} :: ZAdd(z, v) == v
    ensures forall v {:trigger ZAdd(v, z)} :: ZAdd(v, z) == v
    ensures forall v {:trigger ZSub(v, z)} :: ZSub(v, z) == v
    ensures ZConj(z) == z && ZThree(z) == z
  {
    forall v {:trigger ZMul(z, v)} ensures ZMul(z, v) == z { ZTimesZero(v.re); ZTimesZero(v.im); }
    forall v {:trigger ZMul(v, z)} ensures ZMul(v, z) == z { ZTimesZero(v.re); ZTimesZero(v.im); }
    hide ZMul;
  }

  lemma {:induction false} ZOne(o: Z2)
    requires o == Z2(1, 0)
    ensures forall v {:trigger ZMul(o, v)} :: ZMul(o, v) == v
    ensures forall v {:trigger ZMul(v, o)} :: ZMul(v, o) == v
  {
    forall v {:trigger ZMul(o, v)} ensures ZMul(o, v) == v { ZTimesZero(v.re); ZTimesZero(v.im); }
    forall v {:trigger ZMul(v, o)} ensures ZMul(v, o) == v { ZTimesZero(v.re); ZTimesZero(v.im); }
  }

  lemma ZTimesZero(a: int)
    ensures a * 0 == 0 && 0 * a == 0 && a * 1 == a
  {
  }

  lemma {:induction false} ZReals(a: int, b: int)
    ensures ZMul(Z2(a, 0), Z2(b, 0)) == Z2(a * b, 0)
  {
    ZTimesZero(a);
    ZTimesZero(b);
  }

  lemma {:induction false} ZImaginaries(a: int)
    ensures ZMul(Z2(a, 0), Z2(0, 1)) == Z2(0, a)
  {
    ZTimesZero(a);
  }

  lemma ZMinusOne()
    ensures ZMul(Z2(0, 1), Z2(0, 1)) == Z2(-1, 0)
  {
  }

  lemma ZMinusI()
    ensures ZMul(Z2(0, 1), Z2(-1, 0)) == Z2(0, -1)
  {
  }

  lemma {:induction false} RealTimes(a: int, b: int)
    ensures var z := Z2(0, 0); YMul(Z6(Z2(a, 0), z, z), Z6(Z2(b, 0), z, z)) == Z6(Z2(a * b, 0), z, z)
  {
    hide ZMul, ZAdd;
    ZZero(Z2(0, 0));
    ZReals(a, b);
  }

  lemma {:induction false} CubesS()
    ensures Cubes(S6)
  {
    var W := Embed([]);
    forall X ensures Ev6(TMul(S6, TMul(S6, S6)), X) == YAdd(Ev6(TCub(S6), X), YThree(Ev6(W, X))) {
      hide *;
      CubeOfSAt(X);
    }
    assert CubesBy(S6, W);
  }

  lemma {:induction false} CubesP()
    ensures Cubes(P6)
  {
    var W := Embed([]);
    forall X ensures Ev6(TMul(P6, TMul(P6, P6)), X) == YAdd(Ev6(TCub(P6), X), YThree(Ev6(W, X))) {
      hide *;
      CubeOfPAt(X);
    }
    assert CubesBy(P6, W);
  }

  lemma {:induction false} CubesGenerators()
    ensures Cubes(S6) && Cubes(P6)
  {
    hide *;
    CubesS();
    CubesP();
  }

  lemma {:induction false} CubeOfSAt(X: int)
    ensures Ev6(TMul(S6, TMul(S6, S6)), X) == YAdd(Ev6(TCub(S6), X), YThree(Ev6(Embed([]), X)))
  {
    hide *;
    EvCube(S6, X);
    EvTCub(S6, X);
    EvGenerators([], X);
    EvGenerators([], X * X * X);
    EvConst(0, X);
    CubeOfS(Z2(0, 0), Z2(0, 1));
  }

  lemma {:induction false} CubeOfPAt(X: int)
    ensures Ev6(TMul(P6, TMul(P6, P6)), X) == YAdd(Ev6(TCub(P6), X), YThree(Ev6(Embed([]), X)))
  {
    hide *;
    EvCube(P6, X);
    EvTCub(P6, X);
    EvGenerators([], X);
    EvGenerators([], X * X * X);
    EvConst(0, X);
    CubeOfP(Z2(0, 0), Z2(1, 0));
  }

  // s^3 = -s and p^3 = p + 1
  lemma {:induction false} CubeOfS(z: Z2, i: Z2)
    requires z == Z2(0, 0) && i == Z2(0, 1)
    ensures var s := Z6(i, z, z); YCube(s) == YAdd(YTau(YConj(s)), YThree(Z6(z, z, z)))
  {
    hide YMul, YTau, YConj, YAdd, YThree, ZMul, ZAdd, ZConj;
    var n, j := Z2(-1, 0), Z2(0, -1);
    ZMinusOne();
    ZMinusI();
    ZConjI();
    ZZero(z);
    SSquared(z, i, n);
    STimes(z, i, n, j);
    TauOf(i, z, z, j, z);
    AddNothing(Z6(j, z, z), z);
  }

  lemma ZConjI()
    ensures ZConj(Z2(0, 1)) == Z2(0, -1)
  {
  }

  // Products of the units, with the digits passed in.
  lemma {:induction false} SSquared(z: Z2, i: Z2, n: Z2)
    requires z == Z2(0, 0) && ZMul(i, i) == n
    ensures YMul(Z6(i, z, z), Z6(i, z, z)) == Z6(n, z, z)
  {
    hide ZMul, ZAdd;
    ZZero(z);
  }

  lemma {:induction false} STimes(z: Z2, i: Z2, n: Z2, j: Z2)
    requires z == Z2(0, 0) && ZMul(i, n) == j
    ensures YMul(Z6(i, z, z), Z6(n, z, z)) == Z6(j, z, z)
  {
    hide ZMul, ZAdd;
    ZZero(z);
  }

  lemma {:induction false} AddNothing(u: Z6, z: Z2)
    requires z == Z2(0, 0)
    ensures YAdd(u, YThree(Z6(z, z, z))) == u
  {
    hide ZAdd, ZThree;
    ZZero(z);
  }

  lemma {:induction false} CubeOfP(z: Z2, o: Z2)
    requires z == Z2(0, 0) && o == Z2(1, 0)
    ensures var p := Z6(z, o, z); YCube(p) == YAdd(YTau(YConj(p)), YThree(Z6(z, z, z)))
  {
    hide YMul, YTau, YConj, YAdd, YThree, ZAdd, ZConj;
    RealConj(1);
    ZZero(z);
    PSquared(z, o);
    PTimes(z, o);
    TauOf(z, o, z, z, o);
    AddNothing(Z6(o, o, z), z);
  }

  lemma {:induction false} PSquared(z: Z2, o: Z2)
    requires z == Z2(0, 0) && o == Z2(1, 0)
    ensures YMul(Z6(z, o, z), Z6(z, o, z)) == Z6(z, z, o)
  {
    hide ZMul, ZAdd;
    ZZero(z);
    ZOne(o);
  }

  lemma {:induction false} PTimes(z: Z2, o: Z2)
    requires z == Z2(0, 0) && o == Z2(1, 0)
    ensures YMul(Z6(z, o, z), Z6(z, z, o)) == Z6(o, o, z)
  {
    hide ZMul, ZAdd;
    ZZero(z);
    ZOne(o);
  }

  lemma {:induction false} CubesSame(L: K6, N: K6)
    requires Cubes(L) && forall X :: Ev6(L, X) == Ev6(N, X)
    ensures Cubes(N)
  {
    var W :| CubesBy(L, W);
    forall X ensures Ev6(TMul(N, TMul(N, N)), X) == YAdd(Ev6(TCub(N), X), YThree(Ev6(W, X))) {
      hide *;
      CubesMeans(L, W, X);
      EvCube(L, X);
      EvCube(N, X);
      EvTCub(L, X);
      EvTCub(N, X);
    }
    assert CubesBy(N, W);
  }

  // x + y*s
  ghost function Pair(a: K2): K6
  {
    TAdd(Embed(a.x0), TMul(Embed(a.x1), S6))
  }

  lemma {:induction false} CubesPair(a: K2)
    ensures Cubes(Pair(a))
  {
    hide Cubes, TAdd, TMul, Embed;
    CubesEmbed(a.x0);
    CubesEmbed(a.x1);
    CubesGenerators();
    CubesMul(Embed(a.x1), S6);
    CubesAdd(Embed(a.x0), TMul(Embed(a.x1), S6));
  }

  lemma {:induction false} EvPair(a: K2, X: int)
    ensures Ev6(Pair(a), X) == Z6(Ev2(a, X), Z2(0, 0), Z2(0, 0))
  {
    hide *;
    EvTAdd(Embed(a.x0), TMul(Embed(a.x1), S6), X);
    EvTMul(Embed(a.x1), S6, X);
    EvGenerators(a.x0, X);
    EvGenerators(a.x1, X);
    PairValue(Ev(a.x0, X), Ev(a.x1, X));
    PairIs(a, X);
  }

  lemma PairIs(a: K2, X: int)
    ensures Pair(a) == TAdd(Embed(a.x0), TMul(Embed(a.x1), S6)) && Ev2(a, X) == Z2(Ev(a.x0, X), Ev(a.x1, X))
  {
  }

  lemma {:induction false} PairValue(x: int, y: int)
    ensures var z := Z2(0, 0); YAdd(Z6(Z2(x, 0), z, z), YMul(Z6(Z2(y, 0), z, z), Z6(Z2(0, 1), z, z))) == Z6(Z2(x, y), z, z)
  {
    TimesS(y);
    hide YMul;
  }

  lemma {:induction false} TimesS(y: int)
    ensures var z := Z2(0, 0); YMul(Z6(Z2(y, 0), z, z), Z6(Z2(0, 1), z, z)) == Z6(Z2(0, y), z, z)
  {
    hide ZMul, ZAdd;
    ZZero(Z2(0, 0));
    ZImaginaries(y);
  }

  // a0 + (a1 + a2*p)*p
  ghost function Assembled(a: K6): K6
  {
    TAdd(Pair(a.a0), TMul(TAdd(Pair(a.a1), TMul(Pair(a.a2), P6)), P6))
  }

  lemma {:induction false} CubesAll(a: K6)
    ensures Cubes(a)
  {
    hide *;
    CubesPair(a.a0);
    CubesPair(a.a1);
    CubesPair(a.a2);
    CubesGenerators();
    CubesMul(Pair(a.a2), P6);
    CubesAdd(Pair(a.a1), TMul(Pair(a.a2), P6));
    CubesMul(TAdd(Pair(a.a1), TMul(Pair(a.a2), P6)), P6);
    CubesAdd(Pair(a.a0), TMul(TAdd(Pair(a.a1), TMul(Pair(a.a2), P6)), P6));
    AssembledIs(a);
    forall X ensures Ev6(Assembled(a), X) == Ev6(a, X) { EvAssembled(a, X); }
    CubesSame(Assembled(a), a);
  }

  lemma AssembledIs(a: K6)
    ensures Assembled(a) == TAdd(Pair(a.a0), TMul(TAdd(Pair(a.a1), TMul(Pair(a.a2), P6)), P6))
  {
  }

  lemma {:induction false} EvAssembled(a: K6, X: int)
    ensures Ev6(Assembled(a), X) == Ev6(a, X)
  {
    hide *;
    AssembledIs(a);
    EvPair(a.a0, X);
    EvPair(a.a1, X);
    EvPair(a.a2, X);
    EvGenerators([], X);
    EvTMul(Pair(a.a2), P6, X);
    EvTAdd(Pair(a.a1), TMul(Pair(a.a2), P6), X);
    EvTMul(TAdd(Pair(a.a1), TMul(Pair(a.a2), P6)), P6, X);
    EvTAdd(Pair(a.a0), TMul(TAdd(Pair(a.a1), TMul(Pair(a.a2), P6)), P6), X);
    AssembledValue(Ev2(a.a0, X), Ev2(a.a1, X), Ev2(a.a2, X));
    Ev6Is(a, X);
  }

  lemma Ev6Is(a: K6, X: int)
    ensures Ev6(a, X) == Z6(Ev2(a.a0, X), Ev2(a.a1, X), Ev2(a.a2, X))
  {
  }

  lemma {:induction false} AssembledValue(x: Z2, y: Z2, w: Z2)
    ensures var z := Z2(0, 0); var p := Z6(z, Z2(1, 0), z);
            YAdd(Z6(x, z, z), YMul(YAdd(Z6(y, z, z), YMul(Z6(w, z, z), p)), p)) == Z6(x, y, w)
  {
    hide ZMul, ZAdd;
    ZZero(Z2(0, 0));
    ZOne(Z2(1, 0));
  }

  // The routine computes the cube.
  lemma {:induction false} CubicIsCube(F: Field, a: K6)
    requires Good(F) && InK6(F, a)
    ensures Sized6(F, a) && Gf33mCubic(F, a) == Gf33mMult(F, a, Gf33mMult(F, a, a))
  {
    hide Rep2, Ev2, InK2, TCub, TMul, Gf33mCubic, Gf33mMult, Cubes, CubesBy;
    Rep6Self(F, a);
    Rep6Cubic(F, a, a);
    Rep6Product(F, a, a, a, a);
    Rep6Product(F, a, a, Gf33mMult(F, a, a), TMul(a, a));
    CubesAll(a);
    var W := Witness(a);
    var L, N := TMul(a, TMul(a, a)), TCub(a);
    CubeParts(a, W);
    var x, y := Gf33mMult(F, a, Gf33mMult(F, a, a)), Gf33mCubic(F, a);
    Rep2Three(F, x.a0, L.a0, y.a0, N.a0, W.a0);
    Rep2Three(F, x.a1, L.a1, y.a1, N.a1, W.a1);
    Rep2Three(F, x.a2, L.a2, y.a2, N.a2, W.a2);
  }

  lemma Witness(a: K6) returns (W: K6)
    requires Cubes(a)
    ensures CubesBy(a, W)
  {
    W :| CubesBy(a, W);
  }

  lemma {:induction false} CubeParts(a: K6, W: K6)
    requires CubesBy(a, W)
    ensures var L, N := TMul(a, TMul(a, a)), TCub(a);
            UpToThree(L.a0, N.a0, W.a0) && UpToThree(L.a1, N.a1, W.a1) && UpToThree(L.a2, N.a2, W.a2)
  {
    hide Ev2, TCub, TMul, ZAdd, ZThree;
    var L, N := TMul(a, TMul(a, a)), TCub(a);
    forall X ensures Ev2(L.a0, X) == ZAdd(Ev2(N.a0, X), ZThree(Ev2(W.a0, X))) && Ev2(L.a1, X) == ZAdd(Ev2(N.a1, X), ZThree(Ev2(W.a1, X)))
      && Ev2(L.a2, X) == ZAdd(Ev2(N.a2, X), ZThree(Ev2(W.a2, X))) {
      CubesMeans(a, W, X);
    }
  }
}
