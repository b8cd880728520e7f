// Powers and squares modulo an odd prime: Wilson, Fermat and Euler's criterion, by pairing x with g/x.
module Residues {
  import opened Arith
  import opened Fp

  function FPow(p: nat, a: int, n: nat): int
    requires p > 0
  {
    if n == 0 then 1 else Mul(p, a, FPow(p, a, n - 1))
  }

  ghost predicate HasRoot(p: nat, a: int)
    requires p > 0
  {
    exists x :: Elem(p, x) && Mul(p, x, x) == a
  }

  // ---------------------------------------------------------------- laws

  lemma {:induction false} Commutes(p: nat, a: int, b: int)
    requires p > 0
    ensures Mul(p, a, b) == Mul(p, b, a)
  {
    assert a * b == b * a;
  }

  lemma {:induction false} Associates(p: nat, a: int, b: int, c: int)
    requires p > 0
    ensures Mul(p, Mul(p, a, b), c) == Mul(p, a, Mul(p, b, c))
  {
    ModMod(a * b, p);
    ModMod(b * c, p);
    ModMul(a * b % p, a * b, c, c, p);
    ModMul(a, a, b * c % p, b * c, p);
    Reassociate(a, b, c);
  }

  lemma Reassociate(a: int, b: int, c: int)
    ensures a * b * c == a * (b * c)
  {
  }

  lemma {:induction false} OneTimes(p: nat, a: int)
    requires Elem(p, a)
    ensures Mul(p, 1, a) == a && Mul(p, a, 1) == a
  {
    ModSmall(a, p);
  }

  // Swaps the inner factors of a product of two products.
  lemma {:induction false} Shuffle(p: nat, a: int, b: int, c: int, d: int)
    requires p > 0
    ensures Mul(p, Mul(p, a, b), Mul(p, c, d)) == Mul(p, Mul(p, a, c), Mul(p, b, d))
  {
    hide *;
    Associates(p, a, b, Mul(p, c, d));
    Associates(p, a, c, Mul(p, b, d));
    Associates(p, b, c, d);
    Associates(p, c, b, d);
    Commutes(p, b, c);
  }

  lemma {:induction false} PowElem(p: nat, a: int, n: nat)
    requires p > 1
    ensures Elem(p, FPow(p, a, n))
  {
    if n > 0 { MulElem(p, a, FPow(p, a, n - 1)); }
  }

  lemma {:induction false} PowSum(p: nat, a: int, m: nat, n: nat)
    requires p > 1
    ensures FPow(p, a, m + n) == Mul(p, FPow(p, a, m), FPow(p, a, n))
  {
    PowElem(p, a, n);
    if m == 0 {
      OneTimes(p, FPow(p, a, n));
    } else {
      PowSum(p, a, m - 1, n);
      assert FPow(p, a, m + n) == Mul(p, a, FPow(p, a, m - 1 + n));
      Associates(p, a, FPow(p, a, m - 1), FPow(p, a, n));
    }
  }

  lemma {:induction false} PowProduct(p: nat, a: int, b: int, n: nat)
    requires p > 1
    ensures FPow(p, Mul(p, a, b), n) == Mul(p, FPow(p, a, n), FPow(p, b, n))
  {
    if n == 0 {
      OneTimes(p, 1);
    } else {
      PowProduct(p, a, b, n - 1);
      Shuffle(p, a, b, FPow(p, a, n - 1), FPow(p, b, n - 1));
    }
  }

  lemma {:induction false} PowOfOne(p: nat, n: nat)
    requires p > 1
    ensures FPow(p, 1, n) == 1
  {
    if n > 0 {
      PowOfOne(p, n - 1);
      OneTimes(p, 1);
    }
  }

  lemma {:induction false} PowPower(p: nat, a: int, m: nat, n: nat)
    requires p > 1
    ensures FPow(p, FPow(p, a, m), n) == FPow(p, a, m * n)
  {
    if n == 0 {
      assert m * n == 0;
    } else {
      PowPower(p, a, m, n - 1);
      assert m * n == m + m * (n - 1);
      PowSum(p, a, m, m * (n - 1));
    }
  }

  lemma {:induction false} PowOneTwo(p: nat, a: int)
    requires p > 1 && Elem(p, a)
    ensures FPow(p, a, 1) == a && FPow(p, a, 2) == Mul(p, a, a)
  {
    OneTimes(p, a);
    assert FPow(p, a, 1) == Mul(p, a, FPow(p, a, 0));
    assert FPow(p, a, 2) == Mul(p, a, FPow(p, a, 1));
  }

  lemma {:induction false} PowNonzero(p: nat, a: int, n: nat)
    requires IsPrime(p) && Elem(p, a) && a != 0
    ensures FPow(p, a, n) != 0 && Elem(p, FPow(p, a, n))
  {
    if n > 0 {
      PowNonzero(p, a, n - 1);
      ProductNonzero(p, a, FPow(p, a, n - 1));
    }
  }

  lemma {:induction false} CancelLeft(p: nat, a: int, b: int, c: int)
    requires IsPrime(p) && Elem(p, a) && a != 0 && Elem(p, b) && Elem(p, c) && Mul(p, a, b) == Mul(p, a, c)
    ensures b == c
  {
    var i := Inv(p, a);
    hide Mul, Inv, IsPrime;
    Associates(p, i, a, b);
    Associates(p, i, a, c);
    Commutes(p, i, a);
    OneTimes(p, b);
    OneTimes(p, c);
  }

  // A square root of 1 is 1 or -1.
  lemma {:induction false} RootsOfOne(p: nat, x: int)
    requires IsPrime(p) && Elem(p, x) && Mul(p, x, x) == 1
    ensures x == 1 || x == p - 1
  {
    ModSmall(1, p);
    ModAdd(x * x, 1, 1, 1, p);
    assert x * x - 1 == (x - 1) * (x + 1);
    ModSmall(0, p);
    PrimeDivides(x - 1, x + 1, p);
    if (x - 1) % p == 0 {
      if x == 0 { ModIntro(-1, p - 1, -1, p); ModSmall(p - 1, p); } else { ModSmall(x - 1, p); }
    } else {
      if x + 1 < p { ModSmall(x + 1, p); }
    }
  }

  // Two elements with the same square are equal or opposite.
  lemma {:induction false} SameSquare(p: nat, x: int, y: int)
    requires IsPrime(p) && Elem(p, x) && Elem(p, y) && y != 0 && Mul(p, x, x) == Mul(p, y, y)
    ensures x == y || x == p - y
  {
    ModAdd(x * x, y * y, y * y, y * y, p);
    assert x * x - y * y == (x - y) * (x + y);
    ModSmall(0, p);
    PrimeDivides(x - y, x + y, p);
    if (x - y) % p == 0 {
      if x < y { ModIntro(x - y, x - y + p, -1, p); ModSmall(x - y + p, p); } else { ModSmall(x - y, p); }
    } else if x + y < p {
      ModSmall(x + y, p);
    } else {
      ModIntro(x + y, x + y - p, 1, p);
      ModSmall(x + y - p, p);
    }
  }

  lemma {:induction false} OppositeProduct(p: nat, b: int)
    requires p > 1 && Elem(p, b) && b != 0
    ensures Elem(p, p - b) && Mul(p, b, p - b) == Mul(p, p - 1, Mul(p, b, b)) && Mul(p, p - b, p - b) == Mul(p, b, b)
  {
    ModMod(b * b, p);
    ModMul(p - 1, p - 1, b * b % p, b * b, p);
    ModIntro(b * (p - b), -(b * b), b, p) by { assert b * (p - b) == -(b * b) + b * p; }
    ModIntro((p - 1) * (b * b), -(b * b), b * b, p) by { assert (p - 1) * (b * b) == -(b * b) + (b * b) * p; }
    ModIntro((p - b) * (p - b), b * b, p - 2 * b, p) by { assert (p - b) * (p - b) == b * b + (p - 2 * b) * p; }
  }

  // ---------------------------------------------------------------- products over sets

  // The product and the number of the members of S among 1..n.
  ghost function Prod(p: nat, S: set<int>, n: nat): int
    requires p > 0
  {
    if n == 0 then 1 else if n in S then Mul(p, n, Prod(p, S, n - 1)) else Prod(p, S, n - 1)
  }

  ghost function Count(S: set<int>, n: nat): nat
  {
    if n == 0 then 0 else Count(S, n - 1) + if n in S then 1 else 0
  }

  lemma {:induction false} Removed(p: nat, S: set<int>, n: nat, y: int)
    requires p > 1 && y in S && y >= 1
    ensures Count(S, n) == Count(S - {y}, n) + if y <= n then 1 else 0
    ensures Prod(p, S, n) == if y <= n then Mul(p, y, Prod(p, S - {y}, n)) else Prod(p, S - {y}, n)
  {
    if n > 0 {
      Removed(p, S, n - 1, y);
      if n in S && y < n {
        var w := Prod(p, S - {y}, n - 1);
        hide Mul;
        Associates(p, n, y, w);
        Associates(p, y, n, w);
        Commutes(p, n, y);
      }
    }
  }

  lemma {:induction false} Pick(S: set<int>, n: nat) returns (x: int)
    requires Count(S, n) > 0
    ensures x in S && 1 <= x <= n
  {
    if n in S { x := n; } else { x := Pick(S, n - 1); }
  }

  lemma {:induction false} EmptyProduct(p: nat, S: set<int>, n: nat)
    requires p > 0 && Count(S, n) == 0
    ensures Prod(p, S, n) == 1
  {
    if n > 0 { EmptyProduct(p, S, n - 1); }
  }

  ghost function Units(p: nat): set<int>
  {
    set x | 1 <= x < p && Elem(p, x)
  }

  lemma {:induction false} CountUnits(p: nat, n: nat)
    requires n < p
    ensures Count(Units(p), n) == n
  {
    if n > 0 { CountUnits(p, n - 1); }
  }

  function Partner(p: nat, g: int, x: int): int
    requires IsPrime(p) && Elem(p, x) && x != 0
  {
    Mul(p, g, Inv(p, x))
  }

  lemma {:induction false} PartnerMeans(p: nat, g: int, x: int)
    requires IsPrime(p) && Elem(p, g) && g != 0 && Elem(p, x) && x != 0
    ensures var y := Partner(p, g, x); Elem(p, y) && y != 0 && Mul(p, x, y) == g && Partner(p, g, y) == x
  {
    var i := Inv(p, x);
    var y := Mul(p, g, i);
    ProductNonzero(p, g, i);
    assert Mul(p, x, y) == g by {
      hide Mul, Inv, IsPrime;
      Commutes(p, g, i);
      Associates(p, x, i, g);
      OneTimes(p, g);
    }
    PartnerUnique(p, g, y, x);
  }

  lemma {:induction false} PartnerUnique(p: nat, g: int, x: int, y: int)
    requires IsPrime(p) && Elem(p, g) && g != 0 && Elem(p, x) && x != 0 && Elem(p, y) && Mul(p, y, x) == g
    ensures Partner(p, g, x) == y
  {
    var i := Inv(p, x);
    hide Mul, Inv, IsPrime;
    Associates(p, y, x, i);
    OneTimes(p, y);
  }

  ghost predicate Paired(p: nat, g: int, S: set<int>)
    requires IsPrime(p)
  {
    forall x :: x in S ==> PairedAt(p, g, S, x)
  }

  ghost predicate PairedAt(p: nat, g: int, S: set<int>, x: int)
    requires IsPrime(p)
  {
    Elem(p, x) && x != 0 && Partner(p, g, x) in S && Partner(p, g, x) != x
  }

  // Every pair multiplies to g.
  lemma {:induction false} PairProduct(p: nat, g: int, S: set<int>)
    requires IsPrime(p) && Elem(p, g) && g != 0 && Paired(p, g, S)
    ensures Count(S, p - 1) % 2 == 0 && Prod(p, S, p - 1) == FPow(p, g, Count(S, p - 1) / 2)
    decreases Count(S, p - 1)
  {
    hide Partner, Mul, IsPrime, FPow, Prod, Count;
    PowStep(p, g, 0);
    if Count(S, p - 1) == 0 {
      EmptyProduct(p, S, p - 1);
    } else {
      var x := Pick(S, p - 1);
      assert PairedAt(p, g, S, x);
      var y := Partner(p, g, x);
      var T := S - {x} - {y};
      PartnerMeans(p, g, x);
      RemovePair(p, g, S, x);
      Removed(p, S, p - 1, x);
      Removed(p, S - {x}, p - 1, y);
      PairProduct(p, g, T);
      Associates(p, x, y, Prod(p, T, p - 1));
      PowStep(p, g, Count(T, p - 1) / 2);
    }
  }

  lemma PowStep(p: nat, g: int, n: nat)
    requires p > 0
    ensures FPow(p, g, 0) == 1 && FPow(p, g, n + 1) == Mul(p, g, FPow(p, g, n))
  {
  }

  lemma {:induction false} RemovePair(p: nat, g: int, S: set<int>, x: int)
    requires IsPrime(p) && Elem(p, g) && g != 0 && Paired(p, g, S) && x in S && Elem(p, x) && x != 0
    ensures Paired(p, g, S - {x} - {Partner(p, g, x)})
  {
    assert PairedAt(p, g, S, x);
    var y := Partner(p, g, x);
    var T := S - {x} - {y};
    forall z | z in T ensures PairedAt(p, g, T, z) {
      assert PairedAt(p, g, S, z);
      PartnerMeans(p, g, z);
      PartnerMeans(p, g, x);
      hide Partner, Mul, IsPrime;
    }
  }

  lemma {:induction false} ZeroHasRoot(p: nat)
    requires p > 1
    ensures HasRoot(p, 0)
  {
    ModSmall(0, p);
    assert Elem(p, 0) && Mul(p, 0, 0) == 0;
  }

  lemma OddPrime(p: nat)
    requires IsPrime(p) && p > 2
    ensures p % 2 == 1
  {
  }

  // For a non-square the pairing has no fixed point.
  lemma {:induction false} NonSquareProduct(p: nat, g: int)
    requires IsPrime(p) && p > 2 && Elem(p, g) && !HasRoot(p, g)
    ensures Prod(p, Units(p), p - 1) == FPow(p, g, (p - 1) / 2)
  {
    ZeroHasRoot(p);
    var S := Units(p);
    forall x | x in S ensures PairedAt(p, g, S, x) {
      PartnerMeans(p, g, x);
      hide Mul, Partner, IsPrime;
    }
    hide *;
    CountUnits(p, p - 1);
    PairProduct(p, g, S);
  }

  // For the square of b the fixed points are b and -b, whose product is -b^2.
  lemma {:induction false} SquareProduct(p: nat, b: int)
    requires IsPrime(p) && p > 2 && Elem(p, b) && b != 0
    ensures Prod(p, Units(p), p - 1) == Mul(p, p - 1, FPow(p, Mul(p, b, b), (p - 1) / 2))
  {
    hide *;
    ProductNonzero(p, b, b);
    OppositeProduct(p, b);
    SetAside(p, b);
    RestPaired(p, b);
    PairProduct(p, Mul(p, b, b), Units(p) - {b} - {p - b});
    PowStep(p, Mul(p, b, b), (p - 1) / 2 - 1);
    Regroup(p, b, p - b, Mul(p, b, b), FPow(p, Mul(p, b, b), (p - 1) / 2 - 1));
  }

  // Takes b and -b out of the product.
  lemma {:induction false} SetAside(p: nat, b: int)
    requires IsPrime(p) && p > 2 && Elem(p, b) && b != 0
    ensures var T := Units(p) - {b} - {p - b};
            Prod(p, Units(p), p - 1) == Mul(p, b, Mul(p, p - b, Prod(p, T, p - 1))) && Count(T, p - 1) / 2 == (p - 1) / 2 - 1
  {
    var S := Units(p);
    OddPrime(p);
    assert b in S && p - b in S - {b};
    hide *;
    CountUnits(p, p - 1);
    Removed(p, S, p - 1, b);
    Removed(p, S - {b}, p - 1, p - b);
  }

  lemma {:induction false} Regroup(p: nat, b: int, c: int, g: int, w: int)
    requires p > 1 && Mul(p, b, c) == Mul(p, p - 1, g)
    ensures Mul(p, b, Mul(p, c, w)) == Mul(p, p - 1, Mul(p, g, w))
  {
    hide Mul;
    Associates(p, b, c, w);
    Associates(p, p - 1, g, w);
  }

  lemma {:induction false} RestPaired(p: nat, b: int)
    requires IsPrime(p) && p > 2 && Elem(p, b) && b != 0 && Mul(p, b, b) != 0
    ensures Paired(p, Mul(p, b, b), Units(p) - {b} - {p - b})
  {
    var g, c := Mul(p, b, b), p - b;
    var T := Units(p) - {b} - {c};
    OppositeProduct(p, b);
    MulElem(p, b, b);
    PartnerUnique(p, g, b, b);
    PartnerUnique(p, g, c, c);
    forall x | x in T ensures PairedAt(p, g, T, x) {
      PartnerMeans(p, g, x);
      hide Partner, Mul, IsPrime;
      if Partner(p, g, x) == x { SameSquare(p, x, b); }
    }
  }

  lemma {:induction false} Wilson(p: nat)
    requires IsPrime(p) && p > 2
    ensures Prod(p, Units(p), p - 1) == p - 1
  {
    SquareProduct(p, 1);
    OneTimes(p, 1);
    OneTimes(p, p - 1);
    PowOfOne(p, (p - 1) / 2);
  }

  // Euler's criterion.
  lemma {:induction false} Euler(p: nat, a: int)
    requires IsPrime(p) && p > 2 && Elem(p, a) && a != 0
    ensures HasRoot(p, a) ==> FPow(p, a, (p - 1) / 2) == 1
    ensures !HasRoot(p, a) ==> FPow(p, a, (p - 1) / 2) == p - 1
  {
    Wilson(p);
    if HasRoot(p, a) {
      var b :| Elem(p, b) && Mul(p, b, b) == a;
      if b == 0 { ModSmall(0, p); }
      SquareProduct(p, b);
      PowElem(p, a, (p - 1) / 2);
      OneTimes(p, p - 1);
      CancelLeft(p, p - 1, FPow(p, a, (p - 1) / 2), 1);
    } else {
      NonSquareProduct(p, a);
    }
  }

  lemma {:induction false} MinusOneSquared(p: nat)
    requires p > 1
    ensures Mul(p, p - 1, p - 1) == 1
  {
    assert (p - 1) * (p - 1) == 1 + (p - 2) * p;
    ModIntro((p - 1) * (p - 1), 1, p - 2, p);
    ModSmall(1, p);
  }

  lemma {:induction false} Fermat(p: nat, a: int)
    requires IsPrime(p) && p > 2 && Elem(p, a) && a != 0
    ensures FPow(p, a, p - 1) == 1
  {
    var h := (p - 1) / 2;
    assert p % 2 == 1;
    assert p - 1 == h + h;
    Euler(p, a);
    PowSum(p, a, h, h);
    MinusOneSquared(p);
    OneTimes(p, 1);
  }

  // The product of two non-squares, or two squares, is a square.
  lemma {:induction false} ProductHasRoot(p: nat, a: int, b: int)
    requires IsPrime(p) && p > 2 && Elem(p, a) && Elem(p, b) && a != 0 && b != 0
    ensures HasRoot(p, Mul(p, a, b)) <==> (HasRoot(p, a) <==> HasRoot(p, b))
  {
    var h := (p - 1) / 2;
    ProductNonzero(p, a, b);
    Euler(p, a);
    Euler(p, b);
    Euler(p, Mul(p, a, b));
    PowProduct(p, a, b, h);
    MinusOneSquared(p);
    OneTimes(p, 1);
    OneTimes(p, p - 1);
  }

  lemma {:induction false} MinusOnePower(p: nat, n: nat)
    requires p > 1
    ensures FPow(p, p - 1, n) == if n % 2 == 0 then 1 else p - 1
  {
    hide *;
    PowStep(p, p - 1, 0);
    if n > 0 {
      MinusOnePower(p, n - 1);
      PowStep(p, p - 1, n - 1);
      MinusOneTimes(p);
    }
  }

  lemma MinusOneTimes(p: nat)
    requires p > 1
    ensures Mul(p, p - 1, 1) == p - 1 && Mul(p, p - 1, p - 1) == 1
  {
    ModSmall(p - 1, p);
    DivModUnique((p - 1) * (p - 1), p, p - 2, 1);
  }

  // -1 is a square exactly for p = 1 mod 4.
  lemma {:induction false} MinusOneSquareIff(p: nat)
    requires IsPrime(p) && p > 2
    ensures p - 1 >= 0 && (HasRoot(p, p - 1) <==> p % 4 == 1)
  {
    hide HasRoot, FPow, IsPrime;
    OddPrime(p);
    Quarters(p);
    Euler(p, p - 1);
    MinusOnePower(p, (p - 1) / 2);
  }

  lemma Quarters(p: nat)
    requires p % 2 == 1
    ensures (p % 4 == 1 || p % 4 == 3) && ((p - 1) / 2 % 2 == 0 <==> p % 4 == 1)
  {
    var k, r := p / 4, p % 4;
    assert p == 4 * k + r;
    DivModUnique(p, 2, 2 * k + r / 2, r % 2);
    DivModUnique(p - 1, 2, 2 * k + r / 2, 0);
    DivModUnique(2 * k + r / 2, 2, k, r / 2);
  }
}
