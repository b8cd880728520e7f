// Final powering of norm-one elements of F_p[s]/(s^2 - N) by Lucas ladders.
module Lucas {
  import opened Arith
  import opened Fp
  import opened QuadraticField
  import opened Bits

  // The k-th term of the Lucas sequence of a: twice the first coordinate of a^k.
  function V(p: nat, N: int, a: Q2, k: nat): int
    requires p > 0
  {
    Double(p, QPow(p, N, a, k).x)
  }

  ghost predicate NormOne(p: nat, N: int, a: Q2)
    requires p > 0
  {
    In(p, a) && Norm(p, N, a) == 1
  }

  lemma {:induction false} PowNormOne(p: nat, N: int, a: Q2, k: nat)
    requires p > 1 && NormOne(p, N, a)
    ensures NormOne(p, N, QPow(p, N, a, k))
  {
    PowIn(p, N, a, k);
    if k == 0 {
      NormOfOne(p, N);
    } else {
      PowNormOne(p, N, a, k - 1);
      var u := QPow(p, N, a, k - 1);
      NormMultiplies(p, N, u, a);
      hide QPow, QMul, Norm;
      ModSmall(1, p);
    }
  }

  lemma {:induction false} NormOfOne(p: nat, N: int)
    requires p > 1
    ensures NormOne(p, N, One)
  {
    Homomorphism(p);
    assert Elem(p, 1) && Elem(p, 0);
    hide Red, Sub, Mul, Elem;
    assert Minus(Times(1, 1), Times(N, Times(0, 0))) == 1;
  }

  // For norm one u, twice the real part of u^2 is (2 Re u)^2 - 2.
  lemma {:induction false} DoubleSquare(p: nat, N: int, u: Q2)
    requires p > 2 && NormOne(p, N, u)
    ensures Double(p, QMul(p, N, u, u).x) == Sub(p, Square(p, Double(p, u.x)), 2)
  {
    Homomorphism(p);
    assert Elem(p, 1) && Elem(p, 2);
    var t := Plus(Times(u.x, u.x), Times(N, Times(u.y, u.y)));
    var n := Minus(Times(u.x, u.x), Times(N, Times(u.y, u.y)));
    hide Sub, Mul, Add, Red, Elem, Plus, Minus, Times;
    RedLinear(p, Minus(Plus(t, t), 2), 2, n, 1);
    DoubleSquarePoly(N, u.x, u.y);
  }

  lemma DoubleSquarePoly(N: int, x: int, y: int)
    ensures var t, n := Plus(Times(x, x), Times(N, Times(y, y))), Minus(Times(x, x), Times(N, Times(y, y)));
            && Minus(Times(Plus(x, x), Plus(x, x)), 2) == Plus(Minus(Plus(t, t), 2), Times(2, n))
            && Plus(Minus(Plus(t, t), 2), Times(2, 1)) == Plus(t, t)
  {
  }

  // For w = u*a with u of norm one, twice the real part of u*w is 2 Re u * 2 Re w - 2 Re a.
  lemma {:induction false} DoubleProduct(p: nat, N: int, u: Q2, a: Q2)
    requires p > 2 && NormOne(p, N, u) && In(p, a)
    ensures var w := QMul(p, N, u, a);
            Double(p, QMul(p, N, u, w).x) == Sub(p, Mul(p, Double(p, u.x), Double(p, w.x)), Double(p, a.x))
  {
    Homomorphism(p);
    assert Elem(p, 1);
    var wx := Plus(Times(u.x, a.x), Times(N, Times(u.y, a.y)));
    var wy := Plus(Times(u.x, a.y), Times(u.y, a.x));
    var t := Plus(Times(u.x, wx), Times(N, Times(u.y, wy)));
    var n := Minus(Times(u.x, u.x), Times(N, Times(u.y, u.y)));
    hide Sub, Mul, Add, Red, Elem, Plus, Minus, Times;
    RedLinear(p, Minus(Plus(t, t), Plus(a.x, a.x)), Plus(a.x, a.x), n, 1);
    DoubleProductPoly(N, u.x, u.y, a.x, a.y, wx, wy, t, n);
  }

  lemma DoubleProductPoly(N: int, x: int, y: int, b: int, c: int, wx: int, wy: int, t: int, n: int)
    requires wx == Plus(Times(x, b), Times(N, Times(y, c))) && wy == Plus(Times(x, c), Times(y, b))
    requires t == Plus(Times(x, wx), Times(N, Times(y, wy))) && n == Minus(Times(x, x), Times(N, Times(y, y)))
    ensures Minus(Times(Plus(x, x), Plus(wx, wx)), Plus(b, b)) == Plus(Minus(Plus(t, t), Plus(b, b)), Times(Plus(b, b), n))
    ensures Plus(Minus(Plus(t, t), Plus(b, b)), Times(Plus(b, b), 1)) == Plus(t, t)
  {
    RealPartPoly(N, x, y, b, c);
    assert Times(Plus(x, x), Plus(wx, wx)) == 4 * (x * wx);
    assert Times(Plus(b, b), n) == 2 * (b * n);
  }

  lemma RealPartPoly(N: int, x: int, y: int, b: int, c: int)
    ensures x * (x * b + N * (y * c)) - N * (y * (x * c + y * b)) == b * (x * x - N * (y * y))
  {
  }

  // The two ladder steps.
  lemma {:induction false} LadderStep(p: nat, N: int, a: Q2, m: nat)
    requires p > 2 && NormOne(p, N, a)
    ensures V(p, N, a, 2 * m) == Sub(p, Square(p, V(p, N, a, m)), 2)
    ensures V(p, N, a, 2 * m + 1) == Sub(p, Mul(p, V(p, N, a, m), V(p, N, a, m + 1)), Double(p, a.x))
  {
    PowNormOne(p, N, a, m);
    QPowAdd(p, N, a, m, m);
    QPowAdd(p, N, a, m, m + 1);
    assert m + m == 2 * m && m + (m + 1) == 2 * m + 1;
    assert QPow(p, N, a, m + 1) == QMul(p, N, QPow(p, N, a, m), a);
    DoubleSquare(p, N, QPow(p, N, a, m));
    DoubleProduct(p, N, QPow(p, N, a, m), a);
  }

  // ---------------------------------------------------------------- the ladder

  // The loop both routines share. It leaves V at the cofactor with its lowest bit dropped, and the term after it.
  method Ladder(p: nat, N: int, t0: int, t1: int, cofactor: nat, ghost a: Q2) returns (v0: int, v1: int)
    requires p > 2 && NormOne(p, N, a) && t0 == 2 && t1 == Double(p, a.x)
    ensures v0 == V(p, N, a, 2 * (cofactor / 2)) && v1 == V(p, N, a, 2 * (cofactor / 2) + 1)
  {
    FirstTerms(p, N, a);
    hide V, QPow, QMul, Sub, Mul, Double, Square, TstBit, SizeInBase2, NormOne, Pow, Shift;
    v0, v1 := t0, t1;
    var j := SizeInBase2(cofactor) - 1;
    TopIsZero(cofactor);
    while true
      invariant 0 <= j
      invariant v0 == V(p, N, a, Shift(cofactor, j + 1)) && v1 == V(p, N, a, Shift(cofactor, j + 1) + 1)
      decreases j
    {
      ghost var m := Shift(cofactor, j + 1);
      LadderStep(p, N, a, m);
      LadderStep(p, N, a, m + 1);
      NextBit(cofactor, j);
      assert 2 * (m + 1) == 2 * m + 1 + 1;
      if j == 0 {
        ShiftEnds(cofactor);
        v1 := Mul(p, v0, v1);
        v1 := Sub(p, v1, t1);
        v0 := Square(p, v0);
        v0 := Sub(p, v0, t0);
        break;
      }
      if TstBit(cofactor, j) {
        v0 := Mul(p, v0, v1);
        v0 := Sub(p, v0, t1);
        v1 := Square(p, v1);
        v1 := Sub(p, v1, t0);
      } else {
        v1 := Mul(p, v0, v1);
        v1 := Sub(p, v1, t1);
        v0 := Square(p, v0);
        v0 := Sub(p, v0, t0);
      }
      j := j - 1;
    }
  }

  lemma {:induction false} FirstTerms(p: nat, N: int, a: Q2)
    requires p > 2 && In(p, a)
    ensures V(p, N, a, 0) == 2 && V(p, N, a, 1) == Double(p, a.x)
  {
    MulOne(p, N, a);
    assert QPow(p, N, a, 1) == QMul(p, N, QPow(p, N, a, 0), a);
    ModSmall(2, p);
  }

  // ---------------------------------------------------------------- closing formulas

  // P^2 - 4 for P = 2x: four times N*y^2 when (x,y) has norm one, so nonzero with y and N.
  lemma {:induction false} DiscriminantValue(p: nat, N: int, a: Q2)
    requires p > 2 && NormOne(p, N, a)
    ensures Sub(p, Sub(p, Square(p, Double(p, a.x)), 2), 2) == Mul(p, 2, Mul(p, 2, Mul(p, Red(p, N), Square(p, a.y))))
  {
    Homomorphism(p);
    assert Elem(p, 1) && Elem(p, 2);
    hide Red, Add, Sub, Mul, Elem, Plus, Minus, Times;
    var n := Minus(Times(a.x, a.x), Times(N, Times(a.y, a.y)));
    var four := Times(2, Times(2, Times(N, Times(a.y, a.y))));
    RedLinear(p, Minus(four, 4), 4, n, 1);
    DiscriminantPoly(N, a.x, a.y);
  }

  lemma {:induction false} Discriminant(p: nat, N: int, a: Q2)
    requires IsPrime(p) && p > 2 && NormOne(p, N, a)
    ensures var t := Sub(p, Sub(p, Square(p, Double(p, a.x)), 2), 2);
            && t == Mul(p, 2, Mul(p, 2, Mul(p, Red(p, N), Square(p, a.y)))) && Elem(p, t)
            && (a.y != 0 && Red(p, N) != 0 ==> t != 0)
  {
    DiscriminantValue(p, N, a);
    FourTimesNonzero(p, N, a.y);
    OperationsReduce(p, Sub(p, Square(p, Double(p, a.x)), 2) - 2, 0);
  }

  lemma {:induction false} FourTimesNonzero(p: nat, N: int, y: int)
    requires IsPrime(p) && p > 2 && Elem(p, y)
    ensures y != 0 && Red(p, N) != 0 ==> Mul(p, 2, Mul(p, 2, Mul(p, Red(p, N), Square(p, y)))) != 0
  {
    if y != 0 && Red(p, N) != 0 {
      hide Mul;
      ProductNonzero(p, y, y);
      ProductNonzero(p, Red(p, N), Square(p, y));
      ProductNonzero(p, 2, Mul(p, Red(p, N), Square(p, y)));
      ProductNonzero(p, 2, Mul(p, 2, Mul(p, Red(p, N), Square(p, y))));
    }
  }

  lemma DiscriminantPoly(N: int, x: int, y: int)
    ensures var n, four := Minus(Times(x, x), Times(N, Times(y, y))), Times(2, Times(2, Times(N, Times(y, y))));
            && Minus(Minus(Times(Plus(x, x), Plus(x, x)), 2), 2) == Plus(Minus(four, 4), Times(4, n))
            && Plus(Minus(four, 4), Times(4, 1)) == four
  {
  }

  // 2 V_(k+1) - P V_k is four times N * Im(a^k) * Im(a).
  lemma {:induction false} NextNumerator(p: nat, N: int, u: Q2, a: Q2)
    requires p > 2 && In(p, u) && In(p, a)
    ensures Sub(p, Double(p, Double(p, QMul(p, N, u, a).x)), Mul(p, Double(p, u.x), Double(p, a.x)))
         == Mul(p, 2, Mul(p, 2, Mul(p, Red(p, N), Mul(p, u.y, a.y))))
  {
    Homomorphism(p);
    assert Elem(p, 2);
    NextNumeratorPoly(N, u.x, u.y, a.x, a.y);
    hide Red, Add, Sub, Mul, Elem, Plus, Minus, Times;
  }

  lemma NextNumeratorPoly(N: int, x: int, y: int, b: int, c: int)
    ensures var w := Plus(Times(x, b), Times(N, Times(y, c)));
            Minus(Plus(Plus(w, w), Plus(w, w)), Times(Plus(x, x), Plus(b, b))) == Times(2, Times(2, Times(N, Times(y, c))))
  {
  }

  // P V_k - 2 V_(k-1) is the same, with k = (k-1) + 1.
  lemma {:induction false} PreviousNumerator(p: nat, N: int, u: Q2, a: Q2)
    requires p > 2 && In(p, u) && NormOne(p, N, a)
    ensures var w := QMul(p, N, u, a);
            Sub(p, Mul(p, Double(p, a.x), Double(p, w.x)), Double(p, Double(p, u.x))) ==
            Mul(p, 2, Mul(p, 2, Mul(p, Red(p, N), Mul(p, w.y, a.y))))
  {
    Homomorphism(p);
    assert Elem(p, 1) && Elem(p, 2);
    var wx := Plus(Times(u.x, a.x), Times(N, Times(u.y, a.y)));
    var wy := Plus(Times(u.x, a.y), Times(u.y, a.x));
    var n := Minus(Times(a.x, a.x), Times(N, Times(a.y, a.y)));
    var four := Times(2, Times(2, Times(N, Times(wy, a.y))));
    var k := Times(4, u.x);
    hide Red, Add, Sub, Mul, Elem, Plus, Minus, Times;
    RedLinear(p, Minus(four, k), k, n, 1);
    PreviousNumeratorPoly(N, u.x, u.y, a.x, a.y);
  }

  lemma PreviousNumeratorPoly(N: int, x: int, y: int, b: int, c: int)
    ensures var wx, wy := Plus(Times(x, b), Times(N, Times(y, c))), Plus(Times(x, c), Times(y, b));
            var n, k := Minus(Times(b, b), Times(N, Times(c, c))), Times(4, x);
            var four := Times(2, Times(2, Times(N, Times(wy, c))));
            && Minus(Times(Plus(b, b), Plus(wx, wx)), Plus(Plus(x, x), Plus(x, x))) == Plus(Minus(four, k), Times(k, n))
            && Plus(Minus(four, k), Times(k, 1)) == four
  {
    PreviousExpand(N, x, y, b, c);
  }

  lemma PreviousExpand(N: int, x: int, y: int, b: int, c: int)
    ensures 4 * (b * (x * b + N * (y * c))) - 4 * x
         == 4 * (N * ((x * c + y * b) * c)) - 4 * x + 4 * x * (b * b - N * (c * c))
  {
  }

  // Dividing the numerator by P^2 - 4 and multiplying by Im(a) recovers Im(a^k).
  lemma {:induction false} RecoverImaginary(p: nat, N: int, y: int, a: Q2, num: int, t: int)
    requires IsPrime(p) && p > 2 && In(p, a) && Elem(p, y) && Elem(p, t) && t != 0
    requires num == Mul(p, 2, Mul(p, 2, Mul(p, Red(p, N), Mul(p, y, a.y))))
    requires t == Mul(p, 2, Mul(p, 2, Mul(p, Red(p, N), Square(p, a.y))))
    ensures Mul(p, Div(p, num, t), a.y) == y
  {
    Homomorphism(p);
    assert Elem(p, 2);
    RecoverPoly(N, y, a.y);
    assert Mul(p, t, y) == Mul(p, num, a.y) && Elem(p, num) by {
      hide Red, Mul, Elem, Times, IsPrime;
    }
    hide Red, Mul, Times, IsPrime;
    QuotientTimes(p, num, t, a.y, y);
  }

  lemma RecoverPoly(N: int, y: int, c: int)
    ensures Times(Times(2, Times(2, Times(N, Times(c, c)))), y) == Times(Times(2, Times(2, Times(N, Times(y, c)))), c)
  {
  }

  // element_div: left is whatever the inversion of zero leaves behind.
  function DivOr(p: nat, a: int, b: int, left: int): int
    requires IsPrime(p) && Elem(p, b)
  {
    if b == 0 then left else Div(p, a, b)
  }

  // Powers of real elements are real.
  lemma {:induction false} RealPower(p: nat, N: int, a: Q2, k: nat)
    requires p > 1 && a.y == 0
    ensures QPow(p, N, a, k).y == 0
  {
    if k > 0 {
      RealPower(p, N, a, k - 1);
      RealProduct(p, QPow(p, N, a, k - 1).x, a.x);
    }
  }

  lemma RealProduct(p: nat, x: int, y: int)
    requires p > 1
    ensures Add(p, Mul(p, x, 0), Mul(p, 0, y)) == 0
  {
    ModSmall(0, p);
  }

  // Where P^2 - 4 is zero, what the division leaves is multiplied by zero.
  lemma {:induction false} RecoverOrZero(p: nat, N: int, a: Q2, k: nat, num: int, t: int, left: int)
    requires IsPrime(p) && p > 2 && Red(p, N) != 0 && NormOne(p, N, a) && Elem(p, t)
    requires num == Mul(p, 2, Mul(p, 2, Mul(p, Red(p, N), Mul(p, QPow(p, N, a, k).y, a.y))))
    requires t == Mul(p, 2, Mul(p, 2, Mul(p, Red(p, N), Square(p, a.y))))
    requires a.y != 0 ==> t != 0
    ensures Mul(p, DivOr(p, num, t, left), a.y) == QPow(p, N, a, k).y
  {
    hide QPow, Red, Mul, IsPrime, Square, Div;
    PowNormOne(p, N, a, k);
    if a.y == 0 {
      RealPower(p, N, a, k);
      TimesZero(p, DivOr(p, num, t, left));
    } else {
      RecoverImaginary(p, N, QPow(p, N, a, k).y, a, num, t);
    }
  }

  lemma TimesZero(p: nat, x: int)
    requires p > 1
    ensures Mul(p, x, 0) == 0
  {
    ModSmall(0, p);
  }

  // The conjugate of a norm-one element is its inverse.
  lemma {:induction false} ConjugateInverts(p: nat, N: int, u: Q2)
    requires p > 1 && NormOne(p, N, u)
    ensures In(p, Conj(p, u)) && QMul(p, N, Conj(p, u), u) == One
  {
    Homomorphism(p);
    assert Elem(p, 0) && Elem(p, 1);
    ConjugatePoly(N, u.x, u.y);
    hide Red, Add, Sub, Mul, Neg, Elem, Plus, Minus, Times, Opp;
  }

  lemma ConjugatePoly(N: int, x: int, y: int)
    ensures Plus(Times(x, x), Times(N, Times(Opp(y), y))) == Minus(Times(x, x), Times(N, Times(y, y)))
    ensures Plus(Times(x, y), Times(Opp(y), x)) == 0
  {
    assert (0 - y) * y == -(y * y) && N * -(y * y) == -(N * (y * y));
  }

  // Neighbouring powers of an element other than 1 differ.
  lemma {:induction false} NextPowerDiffers(p: nat, N: int, u: Q2, a: Q2)
    requires p > 1 && NormOne(p, N, u) && In(p, a) && a != One
    ensures QMul(p, N, u, a) != u
  {
    var c := Conj(p, u);
    ConjugateInverts(p, N, u);
    MulAssociates(p, N, c, u, a);
    MulOne(p, N, a);
  }

  // For even cofactors: in^cofactor. An odd cofactor loses its last bit. A real operand divides by zero, harmlessly.
  // a is the operand itself, or, when the operand is real, any element of norm one with the same first coordinate.
  method LucasOdd(out: Element, in_: Element, temp: Element, cofactor: nat, p: nat, N: int, left: int, ghost a: Q2)
    requires IsPrime(p) && p > 2 && Red(p, N) != 0 && out != in_ && out != temp && in_ != temp
    requires NormOne(p, N, a) && in_.x == a.x && (in_.y == a.y || in_.y == 0)
    modifies out, in_, temp
    ensures out.Valid(p)
    ensures old(in_.y) == a.y ==> out.Value() == QPow(p, N, a, 2 * (cofactor / 2))
    ensures old(in_.y) == a.y ==> (cofactor % 2 == 0 || a == One <==> out.Value() == QPow(p, N, a, cofactor))
    ensures old(in_.y) == 0 ==> out.Value() == Q2(QPow(p, N, a, 2 * (cofactor / 2)).x, 0)
  {
    ghost var k := 2 * (cofactor / 2);
    ghost var u := QPow(p, N, a, k);
    PowNormOne(p, N, a, k);
    Discriminant(p, N, a);
    NextNumerator(p, N, u, a);
    HalveDouble(p, u.x);
    NeighbourIff(p, N, a, cofactor);
    assert QPow(p, N, a, k + 1) == QMul(p, N, u, a);
    hide QPow, QMul, Red, Add, Sub, Mul, IsPrime, Halve, Div, DivOr;
    temp.x := 2;
    temp.y := Double(p, in_.x);
    ghost var t1 := temp.y;
    out.x, out.y := Ladder(p, N, temp.x, temp.y, cofactor, a);
    assert out.x == Double(p, u.x) && out.y == Double(p, QMul(p, N, u, a).x);
    in_.x := Mul(p, out.x, temp.y);
    out.y := Double(p, out.y);
    out.y := Sub(p, out.y, in_.x);
    temp.y := Square(p, temp.y);
    temp.y := Sub(p, temp.y, temp.x);
    temp.y := Sub(p, temp.y, temp.x);
    RecoverOrZero(p, N, a, k, out.y, temp.y, left);
    out.y := DivOr(p, out.y, temp.y, left);
    out.x := Halve(p, out.x);
    TimesZero(p, out.y);
    out.y := Mul(p, out.y, in_.y);
  }

  // Dropping or setting the last bit changes the power unless the bit was right or the element is 1.
  lemma {:induction false} NeighbourIff(p: nat, N: int, a: Q2, cofactor: nat)
    requires p > 1 && NormOne(p, N, a)
    ensures var k := 2 * (cofactor / 2);
            && (cofactor % 2 == 0 || a == One <==> QPow(p, N, a, k) == QPow(p, N, a, cofactor))
            && (cofactor % 2 == 1 || a == One <==> QPow(p, N, a, k + 1) == QPow(p, N, a, cofactor))
  {
    var k := 2 * (cofactor / 2);
    PowNormOne(p, N, a, k);
    if a == One {
      PowersOfOne(p, N, k);
      PowersOfOne(p, N, k + 1);
      PowersOfOne(p, N, cofactor);
    } else {
      NextPowerDiffers(p, N, QPow(p, N, a, k), a);
      assert QPow(p, N, a, k + 1) == QMul(p, N, QPow(p, N, a, k), a);
    }
  }

  // For odd cofactors: in^cofactor. An even cofactor gains a last bit.
  method LucasEven(out: Element, in_: Element, cofactor: nat, p: nat, N: int, left: int)
    requires IsPrime(p) && p > 2 && Red(p, N) != 0 && out != in_
    requires NormOne(p, N, in_.Value())
    modifies out, in_
    ensures out.Value() == old(QPow(p, N, in_.Value(), 2 * (cofactor / 2) + 1)) && out.Valid(p)
    ensures cofactor % 2 == 1 || old(in_.Value() == One) <==> out.Value() == old(QPow(p, N, in_.Value(), cofactor))
  {
    ghost var a := in_.Value();
    NeighbourIff(p, N, a, cofactor);
    if in_.x == 1 && in_.y == 0 {
      out.x, out.y := in_.x, in_.y;
      PowersOfOne(p, N, 2 * (cofactor / 2) + 1);
      return;
    }
    ghost var k := 2 * (cofactor / 2);
    ghost var u := QPow(p, N, a, k);
    ghost var w := QPow(p, N, a, k + 1);
    PowNormOne(p, N, a, k);
    PowNormOne(p, N, a, k + 1);
    Discriminant(p, N, a);
    PreviousNumerator(p, N, u, a);
    HalveDouble(p, w.x);
    assert w == QMul(p, N, u, a);
    hide QPow, QMul, Red, Add, Sub, Mul, IsPrime, Halve, Div, DivOr;
    var t0 := 2;
    var t1 := Double(p, in_.x);
    out.x, out.y := Ladder(p, N, t0, t1, cofactor, a);
    assert out.x == Double(p, u.x) && out.y == Double(p, w.x);
    out.x := Double(p, out.x);
    in_.x := Mul(p, t1, out.y);
    in_.x := Sub(p, in_.x, out.x);
    t1 := Square(p, t1);
    t1 := Sub(p, t1, t0);
    t1 := Sub(p, t1, t0);
    RecoverOrZero(p, N, a, k + 1, in_.x, t1, left);
    out.x := Halve(p, out.y);
    out.y := DivOr(p, in_.x, t1, left);
    out.y := Mul(p, out.y, in_.y);
  }

  lemma {:induction false} PowersOfOne(p: nat, N: int, k: nat)
    requires p > 1
    ensures QPow(p, N, One, k) == One
  {
    if k > 0 {
      PowersOfOne(p, N, k - 1);
      assert In(p, One);
      MulOne(p, N, One);
    }
  }
}
