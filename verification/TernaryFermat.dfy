// GF(3^m) for an irreducible trinomial is a field of 3^m elements: inverses, and a^(3^m) = a.
module TernaryFermat {
  import opened Arith
  import opened Polynomials
  import opened PolynomialDivision
  import opened TernaryField
  import opened TernaryTower
  import opened TernaryIdentities
  import PolynomialBezout
  import EtaPairing

  ghost predicate IsField(F: Field)
  {
    Good(F) && Irreducible(3, Modulus(F))
  }

  // ---------------------------------------------------------------- inverses

  lemma {:induction false} ShortForm(F: Field, a: Poly) returns (r: Poly)
    requires Good(F) && InK(F, a) && a != KZero(F)
    ensures IsPoly(3, r) && 0 < |r| < |Modulus(F)| && SameCoefs(r, a)
  {
    r := PolynomialBezout.Shorten(a);
    if r == [] { NoCoefs(F, a); }
  }

  lemma NoCoefs(F: Field, a: Poly)
    requires |a| == F.m && SameCoefs([], a)
    ensures a == KZero(F)
  {
    forall i | 0 <= i < |a| ensures a[i] == 0 { assert Coef([], i) == Coef(a, i); }
  }

  lemma {:induction false} InverseExists(F: Field, a: Poly) returns (b: Poly)
    requires IsField(F) && InK(F, a) && a != KZero(F)
    ensures InK(F, b) && |a| == |b| == F.m > 0 && KMul(F, b, a) == KOne(F)
  {
    hide Cong, Irreducible, Combo, PMul, KMul, KOne, IsPoly, SameCoefs, Ev, Rep;
    var r := ShortForm(F, a);
    var M := Modulus(F);
    var g, c := PolynomialBezout.BezoutExists(3, r, M);
    var res := PScale(1, g);
    CoefCongSelf(res);
    InverseFound(3, r, M, [1], g, c, 1, res);
    InverseIntro(3, M, r, res);
    EtaPairing.RepConstants(F);
    RepParts(F, KOne(F), [1]);
    KMulRep(F, KOne(F), res);
    b := KMul(F, KOne(F), res);
    RepParts(F, b, PMul(KOne(F), res));
    RepSelf(F, a);
    RepMul(F, b, PMul(KOne(F), res), a, a);
    InverseValue(F, KOne(F), res, a, r);
    RepCong(F, KMul(F, b, a), PMul(PMul(KOne(F), res), a), KOne(F), [1]);
  }

  lemma CoefCongSelf(f: Poly)
    ensures CoefCong(3, f, f)
  {
  }

  lemma RepParts(F: Field, v: Poly, L: Poly)
    ensures Rep(F, v, L) <==> InK(F, v) && Cong(3, Modulus(F), v, L)
  {
  }

  // (1*b)*a is b*r.
  lemma {:induction false} InverseValue(F: Field, o: Poly, b: Poly, a: Poly, r: Poly)
    requires Cong(3, Modulus(F), PMul(b, r), [1]) && SameCoefs(r, a) && Cong(3, Modulus(F), o, [1])
    ensures Cong(3, Modulus(F), PMul(PMul(o, b), a), [1])
  {
    hide Cong, PMul, Ev;
    var M := Modulus(F);
    forall X ensures Ev(PMul(PMul(o, b), a), X) - Ev([1], X) ==
      Ev(PMul(b, a), X) * (Ev(o, X) - Ev([1], X)) + Ev([1], X) * (Ev(PMul(b, r), X) - Ev([1], X)) {
      EvMul(PMul(o, b), a, X);
      EvMul(o, b, X);
      EvMul(b, a, X);
      EvMul(b, r, X);
      EvConst(1, X);
      SameCoefsSameValues(r, a, X);
      InverseParts(Ev(o, X), Ev(b, X), Ev(a, X));
    }
    CongFrom(3, M, PMul(b, a), o, [1], [1], PMul(b, r), [1], PMul(PMul(o, b), a), [1]);
  }

  lemma InverseParts(o: int, b: int, a: int)
    ensures o * b * a - 1 == b * a * (o - 1) + 1 * (b * a - 1)
  {
  }

  lemma {:induction false} CancelFactor(F: Field, a: Poly, b: Poly, c: Poly)
    requires IsField(F) && InK(F, a) && InK(F, b) && InK(F, c) && a != KZero(F)
    requires F.m > 0 ==> KMul(F, a, b) == KMul(F, a, c)
    ensures b == c
  {
    hide Irreducible, KMul, KZero, KOne, InK;
    var i := InverseExists(F, a);
    KMulAssociates(F, i, a, b);
    KMulAssociates(F, i, a, c);
    KUnits(F, b);
    KUnits(F, c);
  }

  lemma {:induction false} ProductNonzero(F: Field, a: Poly, b: Poly)
    requires IsField(F) && InK(F, a) && InK(F, b) && a != KZero(F) && b != KZero(F)
    ensures |a| == |b| == F.m > 0 && KMul(F, a, b) != KZero(F) && InK(F, KMul(F, a, b))
  {
    hide Irreducible, KMul, KZero, KOne;
    KUnits(F, a);
    KCommutes(F, a, b);
    KCommutes(F, a, KZero(F));
    if KMul(F, a, b) == KZero(F) { CancelFactor(F, a, b, KZero(F)); }
  }

  // ---------------------------------------------------------------- the elements, listed

  function Prefixed(d: int, s: seq<Poly>): (r: seq<Poly>)
    ensures |r| == |s| && forall i :: 0 <= i < |s| ==> r[i] == [d] + s[i]
  {
    seq(|s|, i requires 0 <= i < |s| => [d] + s[i])
  }

  function Elements(n: nat): (r: seq<Poly>)
    ensures |r| > 0
  {
    if n == 0 then [[]]
    else
      var s := Elements(n - 1);
      Prefixed(0, s) + Prefixed(1, s) + Prefixed(2, s)
  }

  predicate Distinct(s: seq<Poly>)
  {
    forall i, j :: 0 <= i < j < |s| ==> s[i] != s[j]
  }

  predicate Ternary(a: Poly, n: nat)
  {
    |a| == n && forall i :: 0 <= i < n ==> 0 <= a[i] <= 2
  }

  lemma {:induction false} ElementsListed(n: nat)
    ensures |Elements(n)| == Pow(3, n) && Distinct(Elements(n)) && Elements(n)[0] == Zeros(n)
    ensures forall a :: a in Elements(n) <==> Ternary(a, n)
  {
    if n > 0 {
      ElementsListed(n - 1);
      NextElements(Elements(n - 1), n);
    }
  }

  lemma {:induction false} NextElements(s: seq<Poly>, n: nat)
    requires n > 0 && |s| > 0 && Distinct(s) && s[0] == Zeros(n - 1) && forall a :: a in s <==> Ternary(a, n - 1)
    ensures var r := Prefixed(0, s) + Prefixed(1, s) + Prefixed(2, s);
            |r| == 3 * |s| && Distinct(r) && r[0] == Zeros(n) && forall a :: a in r <==> Ternary(a, n)
  {
    hide Ternary, Distinct, Prefixed;
    PrefixedTails(s, n);
    var r := Prefixed(0, s) + Prefixed(1, s) + Prefixed(2, s);
    assert r[0] == [0] + s[0];
    forall a ensures a in r <==> Ternary(a, n) { MemberOf(s, a, n); }
  }

  lemma {:induction false} PrefixedTails(s: seq<Poly>, n: nat)
    requires Distinct(s)
    ensures Distinct(Prefixed(0, s) + Prefixed(1, s) + Prefixed(2, s))
  {
    var r := Prefixed(0, s) + Prefixed(1, s) + Prefixed(2, s);
    forall i | 0 <= i < |r| ensures r[i] == [i / |s|] + s[i % |s|] {
      var d := if i < |s| then 0 else if i < 2 * |s| then 1 else 2;
      DivModUnique(i, |s|, d, i - d * |s|);
    }
    forall i, j | 0 <= i < j < |r| ensures r[i] != r[j] {
      assert r[i][0] == i / |s| && r[i][1..] == s[i % |s|];
      assert r[j][0] == j / |s| && r[j][1..] == s[j % |s|];
    }
  }

  lemma {:induction false} MemberOf(s: seq<Poly>, a: Poly, n: nat)
    requires n > 0 && forall b :: b in s <==> Ternary(b, n - 1)
    ensures a in Prefixed(0, s) + Prefixed(1, s) + Prefixed(2, s) <==> Ternary(a, n)
  {
    if Ternary(a, n) {
      var b := a[1..];
      assert b in s;
      var i :| 0 <= i < |s| && s[i] == b;
      assert a == [a[0]] + s[i];
      assert a == Prefixed(a[0], s)[i];
    } else if a in Prefixed(0, s) + Prefixed(1, s) + Prefixed(2, s) {
      var d :| 0 <= d <= 2 && a in Prefixed(d, s);
      var i :| 0 <= i < |s| && Prefixed(d, s)[i] == a;
      assert s[i] in s;
      assert Ternary([d] + s[i], n);
    }
  }

  // ---------------------------------------------------------------- products of lists

  function Product(F: Field, s: seq<Poly>): (r: Poly)
    requires Shaped(F, s)
    ensures |r| == F.m
  {
    if s == [] then KOne(F) else KMul(F, s[0], Product(F, s[1..]))
  }

  lemma {:induction false} ProductIn(F: Field, s: seq<Poly>)
    requires Good(F) && AllIn(F, s)
    ensures Shaped(F, s) && InK(F, Product(F, s))
  {
    EtaPairing.RepConstants(F);
    if s != [] {
      ProductIn(F, s[1..]);
      KCommutes(F, s[0], Product(F, s[1..]));
    }
  }

  lemma {:induction false} ProductUnfolds(F: Field, s: seq<Poly>)
    requires Shaped(F, s)
    ensures s == [] ==> Product(F, s) == KOne(F)
    ensures s != [] ==> Product(F, s) == KMul(F, s[0], Product(F, s[1..]))
  {
  }

  // Any factor can be taken out first.
  lemma {:induction false} TakeOut(F: Field, s: seq<Poly>, k: nat)
    requires Good(F) && AllIn(F, s) && k < |s|
    ensures Shaped(F, s) && AllIn(F, s[..k] + s[k + 1..]) && Shaped(F, s[..k] + s[k + 1..])
    ensures Product(F, s) == KMul(F, s[k], Product(F, s[..k] + s[k + 1..]))
  {
    hide KMul, Product, InK, KOne;
    ShapedIn(F, s);
    var r := s[..k] + s[k + 1..];
    ShapedIn(F, r);
    ProductUnfolds(F, s);
    if k == 0 {
      assert r == s[1..];
    } else {
      var t := s[1..];
      var q := t[..k - 1] + t[k..];
      TakeOut(F, t, k - 1);
      assert r[1..] == q && r[0] == s[0] && t[k - 1] == s[k];
      ProductUnfolds(F, r);
      ProductIn(F, q);
      Exchange(F, s[0], s[k], Product(F, q));
    }
  }

  lemma ShapedIn(F: Field, s: seq<Poly>)
    requires Good(F) && AllIn(F, s)
    ensures Shaped(F, s)
  {
  }

  lemma {:induction false} Exchange(F: Field, a: Poly, b: Poly, c: Poly)
    requires Good(F) && InK(F, a) && InK(F, b) && InK(F, c)
    ensures |a| == |b| == |c| == F.m > 0 && KMul(F, a, KMul(F, b, c)) == KMul(F, b, KMul(F, a, c))
  {
    hide InK, KMul, KAdd, KSub, KScale, KOne, KZero;
    HoldsInField(F, Prod(Var(0), Prod(Var(1), Var(2))), Prod(Var(1), Prod(Var(0), Var(2))), Null, [a, b, c]);
  }

  // A list of as many distinct members has the same product.
  lemma {:induction false} SameProduct(F: Field, s: seq<Poly>, t: seq<Poly>)
    requires Good(F) && AllIn(F, s) && |t| == |s| && Distinct(t) && forall i :: 0 <= i < |t| ==> t[i] in s
    ensures AllIn(F, t) && Shaped(F, s) && Shaped(F, t) && Product(F, s) == Product(F, t)
  {
    hide KMul, Product, InK, KOne;
    ShapedIn(F, s);
    ShapedIn(F, t);
    ProductUnfolds(F, s);
    ProductUnfolds(F, t);
    if t != [] {
      var k :| 0 <= k < |s| && s[k] == t[0];
      var r := s[..k] + s[k + 1..];
      forall i | 0 <= i < |t[1..]| ensures t[1..][i] in r {
        var x := t[i + 1];
        assert x in s && x != s[k];
        var j :| 0 <= j < |s| && s[j] == x;
        assert r[if j < k then j else j - 1] == x;
      }
      TakeOut(F, s, k);
      SameProduct(F, r, t[1..]);
    }
  }

  function KPow(F: Field, a: Poly, n: nat): (r: Poly)
    requires |a| == F.m > 0
    ensures |r| == F.m
  {
    if n == 0 then KOne(F) else KMul(F, a, KPow(F, a, n - 1))
  }

  lemma {:induction false} KPowIn(F: Field, a: Poly, n: nat)
    requires Good(F) && InK(F, a)
    ensures |a| == F.m > 0 && InK(F, KPow(F, a, n))
  {
    EtaPairing.RepConstants(F);
    if n > 0 {
      KPowIn(F, a, n - 1);
      KCommutes(F, a, KPow(F, a, n - 1));
    }
  }

  function Multiplied(F: Field, a: Poly, s: seq<Poly>): (r: seq<Poly>)
    requires |a| == F.m > 0 && Shaped(F, s)
    ensures |r| == |s| && Shaped(F, r) && forall i :: 0 <= i < |s| ==> r[i] == KMul(F, a, s[i])
  {
    seq(|s|, i requires 0 <= i < |s| => KMul(F, a, s[i]))
  }

  lemma {:induction false} MultipliedIn(F: Field, a: Poly, s: seq<Poly>)
    requires Good(F) && InK(F, a) && AllIn(F, s)
    ensures |a| == F.m > 0 && Shaped(F, s) && AllIn(F, Multiplied(F, a, s))
  {
    hide KMul, InK;
    ShapedIn(F, s);
    ShapedIn(F, [a]) by { assert [a][0] == a; }
    assert [a][0] == a;
    forall i | 0 <= i < |s| ensures InK(F, Multiplied(F, a, s)[i]) { KCommutes(F, a, s[i]); }
  }

  // Multiplying every factor by a multiplies the product by a power of a.
  lemma {:induction false} MultipliedProduct(F: Field, a: Poly, s: seq<Poly>)
    requires Good(F) && InK(F, a) && AllIn(F, s)
    ensures |a| == F.m > 0 && Shaped(F, s)
    ensures Product(F, Multiplied(F, a, s)) == KMul(F, KPow(F, a, |s|), Product(F, s))
  {
    hide KMul, Product, InK, KOne, KPow;
    MultipliedIn(F, a, s);
    var t := Multiplied(F, a, s);
    ProductUnfolds(F, s);
    ProductUnfolds(F, t);
    KPowUnfolds(F, a, |s|);
    if s == [] {
      KUnits(F, a);
      KUnits(F, KOne(F));
    } else {
      MultipliedProduct(F, a, s[1..]);
      assert t[1..] == Multiplied(F, a, s[1..]);
      KPowIn(F, a, |s| - 1);
      ProductIn(F, s[1..]);
      TwoByTwo(F, a, s[0], KPow(F, a, |s| - 1), Product(F, s[1..]));
    }
  }

  lemma KPowUnfolds(F: Field, a: Poly, n: nat)
    requires |a| == F.m > 0
    ensures KPow(F, a, 0) == KOne(F) && (n > 0 ==> KPow(F, a, n) == KMul(F, a, KPow(F, a, n - 1)))
  {
  }

  lemma {:induction false} TwoByTwo(F: Field, a: Poly, b: Poly, c: Poly, d: Poly)
    requires Good(F) && InK(F, a) && InK(F, b) && InK(F, c) && InK(F, d)
    ensures |a| == |b| == |c| == |d| == F.m > 0
    ensures KMul(F, KMul(F, a, b), KMul(F, c, d)) == KMul(F, KMul(F, a, c), KMul(F, b, d))
  {
    hide InK, KMul, KAdd, KSub, KScale, KOne, KZero;
    HoldsInField(F, Prod(Prod(Var(0), Var(1)), Prod(Var(2), Var(3))), Prod(Prod(Var(0), Var(2)), Prod(Var(1), Var(3))), Null, [a, b, c, d]);
  }

  // ---------------------------------------------------------------- Fermat

  // The number of elements.
  function Size(F: Field): (n: nat)
    ensures n >= 1
  {
    PowPositive(3, F.m);
    Pow(3, F.m)
  }

  ghost function Units(F: Field): seq<Poly>
  {
    if |Elements(F.m)| > 0 then Elements(F.m)[1..] else []
  }

  lemma {:induction false} UnitsListed(F: Field)
    requires Good(F)
    ensures |Units(F)| == Size(F) - 1 && Distinct(Units(F)) && AllIn(F, Units(F)) && KZero(F) !in Units(F)
    ensures forall a :: a in Units(F) <==> InK(F, a) && a != KZero(F)
  {
    ElementsListed(F.m);
    var s, u := Elements(F.m), Units(F);
    assert s == [KZero(F)] + u;
    forall a ensures a in u <==> InK(F, a) && a != KZero(F) {
      assert a in s <==> Ternary(a, F.m);
      assert InK(F, a) <==> Ternary(a, F.m);
      if a in u {
        var i :| 0 <= i < |u| && u[i] == a;
        assert s[i + 1] == a && s[0] != s[i + 1];
      }
    }
    forall i | 0 <= i < |u| ensures InK(F, u[i]) { assert u[i] in u; }
    forall i, j | 0 <= i < j < |u| ensures u[i] != u[j] { assert s[i + 1] != s[j + 1]; }
  }

  lemma {:induction false} UnitsPermuted(F: Field, a: Poly)
    requires IsField(F) && InK(F, a) && a != KZero(F)
    ensures |a| == F.m > 0 && Shaped(F, Units(F)) && AllIn(F, Units(F))
    ensures var t := Multiplied(F, a, Units(F)); Distinct(t) && forall i :: 0 <= i < |t| ==> t[i] in Units(F)
  {
    hide KMul, KZero, Irreducible, Elements, Units, InK;
    UnitsListed(F);
    var u := Units(F);
    MultipliedIn(F, a, u);
    var t := Multiplied(F, a, u);
    forall i | 0 <= i < |t| ensures t[i] in u {
      assert u[i] in u;
      ProductNonzero(F, a, u[i]);
    }
    forall i, j | 0 <= i < j < |t| ensures t[i] != t[j] {
      assert u[i] in u && u[j] in u;
      if t[i] == t[j] { CancelFactor(F, a, u[i], u[j]); }
    }
  }

  lemma {:induction false} NonzeroProduct(F: Field, s: seq<Poly>)
    requires IsField(F) && AllIn(F, s) && KZero(F) !in s
    ensures Shaped(F, s) && Product(F, s) != KZero(F)
  {
    hide KMul, Irreducible;
    ProductIn(F, s);
    if s == [] {
      assert KOne(F)[0] != KZero(F)[0];
    } else {
      assert s[0] in s;
      NonzeroProduct(F, s[1..]);
      ProductIn(F, s[1..]);
      ProductNonzero(F, s[0], Product(F, s[1..]));
    }
  }

  lemma {:induction false} UnitPower(F: Field, a: Poly)
    requires IsField(F) && InK(F, a) && a != KZero(F)
    ensures |a| == F.m > 0 && KPow(F, a, Size(F) - 1) == KOne(F)
  {
    hide *;
    IsGood(F);
    KUnits(F, a);
    UnitsListed(F);
    UnitsPermuted(F, a);
    var u := Units(F);
    SameProduct(F, u, Multiplied(F, a, u));
    MultipliedProduct(F, a, u);
    KPowIn(F, a, |u|);
    NonzeroProduct(F, u);
    ProductIn(F, u);
    SelfMultiple(F, Product(F, u), KPow(F, a, |u|));
  }

  lemma IsGood(F: Field)
    requires IsField(F)
    ensures Good(F)
  {
    hide Irreducible;
  }

  // Only 1 multiplies a nonzero element to itself.
  lemma {:induction false} SelfMultiple(F: Field, p: Poly, k: Poly)
    requires IsField(F) && InK(F, p) && InK(F, k) && p != KZero(F)
    requires |p| == |k| == F.m > 0 ==> KMul(F, k, p) == p
    ensures k == KOne(F)
  {
    hide KMul, KZero, KOne, InK, Irreducible;
    KUnits(F, p);
    KCommutes(F, k, p);
    KCommutes(F, KOne(F), p);
    CancelFactor(F, p, k, KOne(F));
  }

  lemma {:induction false} Fermat(F: Field, a: Poly)
    requires IsField(F) && InK(F, a)
    ensures |a| == F.m > 0 && KPow(F, a, Size(F)) == a
  {
    hide *;
    IsGood(F);
    KUnits(F, a);
    KPowUnfolds(F, a, Size(F));
    KPowIn(F, a, Size(F) - 1);
    if a == KZero(F) {
      KUnits(F, KPow(F, a, Size(F) - 1));
    } else {
      UnitPower(F, a);
      KCommutes(F, a, KOne(F));
    }
  }
}
