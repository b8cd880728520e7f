// Which moduli make every Montgomery product right, the carries that mont_mul drops included.
module MontgomeryModuli {
  import opened Arith
  import opened Limbs
  import opened Montgomery

  // ---------------------------------------------------------------- the exact condition on the modulus

  // The product of a number whose low limbs are B^j - x and whose limb j is B-1 with p - d drops a carry in round j:
  // B^j - z is what the rounds before add of p, as the congruence says, and the inequality is the total of round j.
  ghost predicate Collides(pr: Params, j: nat, x: int, z: int, d: int)
  {
    && j < pr.limbs && (j + 1 == pr.limbs ==> BPow(pr.limbs) - x < pr.P())
    && Overflows(pr.P(), BPow(j), BPow(pr.limbs + 1), x, z, d)
  }

  // With m = B^j.
  ghost predicate Overflows(p: int, m: int, top: int, x: int, z: int, d: int)
    requires m > 0
  {
    && 1 <= x <= m && 1 <= z <= m && 1 <= d <= p && ((x + z) * p - x * d) % m == 0
    && (B * m + m - x - z) * p >= m * top + (B * m - x) * d
  }

  ghost predicate HasCollision(pr: Params)
  {
    exists j, x, z, d :: Collides(pr, j, x, z, d)
  }

  // The multiples of p added in i rounds take i limbs.
  lemma {:induction false} AddedBound(a: seq<Limb>, b: nat, pr: Params, i: nat)
    requires i <= |a|
    ensures Added(a, b, pr, i) < BPow(i)
  {
    hide *;
    WindowBegins(a, b, pr);
    BPowNone();
    if i > 0 {
      AddedBound(a, b, pr, i - 1);
      LostUnfolds(a, b, pr, i);
      DigitBound(Added(a, b, pr, i - 1), Factor(Total(a, b, pr, i - 1) % BPow(|a| + 1), pr.negpinv), BPow(i - 1));
    }
  }

  lemma {:induction false} DigitBound(m: int, u: int, pw: int)
    requires 0 <= m < pw && 0 <= u < B
    ensures m + pw * u < B * pw
  {
    MulLe(u, B - 1, pw);
  }

  // p is a unit modulo B^n.
  lemma {:induction false} ModulusCancels(x: int, p: int, ninv: int, n: nat)
    requires (p * ninv + 1) % B == 0 && p * x % BPow(n) == 0
    ensures x % BPow(n) == 0
    decreases n
  {
    if n > 0 {
      var pw := BPow(n - 1);
      assert BPow(n) == B * pw;
      var k, m := p * x / BPow(n), (p * ninv + 1) / B;
      hide BPow;
      assert p * x == k * (B * pw);
      var y := m * x - k * pw * ninv;
      UnitPart(x, p, ninv, k, m, pw);
      assert p * y * B == k * pw * B by { assert p * (B * y) == p * x == k * (B * pw); }
      SameFactors(p * y, k * pw, B);
      ModZero(k, pw);
      ModulusCancels(y, p, ninv, n - 1);
      var z := y / pw;
      assert y == z * pw;
      assert x == z * (B * pw);
      ModZero(z, B * pw);
    }
  }

  lemma UnitPart(x: int, p: int, ninv: int, k: int, m: int, pw: int)
    requires p * ninv + 1 == B * m && p * x == k * (B * pw)
    ensures x == B * (m * x - k * pw * ninv)
  {
    assert (p * ninv + 1) * x == p * x * ninv + x;
    assert B * m * x == B * (m * x) && k * (B * pw) * ninv == B * (k * pw * ninv);
  }

  lemma SameFactors(s: int, t: int, k: int)
    requires k > 0 && s * k == t * k
    ensures s == t
  {
    if s < t { MulLe(s + 1, t, k); }
    if t < s { MulLe(t + 1, s, k); }
  }

  lemma {:induction false} SmallMultiple(x: int, m: int, h: int)
    requires x == m * h && -h < x < h
    ensures x == 0
  {
    if m >= 1 { MulLe(1, m, h); }
    if m <= -1 { MulLe(m, -1, h); }
  }

  // The low limbs and d fix the multiple of p.
  lemma {:induction false} AddedIs(w: int, m: int, p: int, x: int, z: int, d: int, a: int, ninv: int, j: nat)
    requires m == BPow(j) && w * m == (m - x) * (p - d) + a * p && ((x + z) * p - x * d) % m == 0
    requires 1 <= z <= m && 0 <= a < m && (p * ninv + 1) % B == 0
    ensures a == m - z
  {
    var y, e := a - (m - z), ((x + z) * p - x * d) / m;
    assert p * y == (w - 2 * p + d + e) * m by { AddedPoly(m, p, x, z, d, a, y); }
    hide BPow;
    ModZero(w - 2 * p + d + e, m);
    ModulusCancels(y, p, ninv, j);
    assert y == y / m * m;
    SmallMultiple(y, y / m, m);
  }

  lemma AddedPoly(m: int, p: int, x: int, z: int, d: int, a: int, y: int)
    requires y == a - (m - z)
    ensures p * y == (m - x) * (p - d) + a * p - 2 * p * m + d * m + ((x + z) * p - x * d)
  {
    assert p * y == a * p - p * m + p * z;
    assert (m - x) * (p - d) == p * m - d * m - x * p + x * d;
    assert (x + z) * p == x * p + z * p;
  }

  // The total of a round, scaled.
  lemma {:induction false} ScaledTotal(w: int, m: int, p: int, x: int, z: int, d: int)
    requires w * m == (m - x) * (p - d) + (m - z) * p
    ensures (w + (B - 1) * (p - d)) * m == (B * m + m - x - z) * p - (B * m - x) * d
  {
    assert (w + (B - 1) * (p - d)) * m == w * m + (B * m - m) * (p - d);
  }

  lemma {:induction false} AtLeastScaled(s: int, m: int, top: int)
    requires m > 0
    ensures s >= top <==> s * m >= m * top
  {
    if s >= top { MulLe(top, s, m); } else { MulLe(s, top - 1, m); }
  }

  // An operand with low limbs of value v, then B-1, then zeros.
  function Operand(v: nat, j: nat, t: nat): (a: seq<Limb>)
    requires j < t && v < BPow(j)
    ensures |a| == t && a[j] == B - 1 && Val(a[..j]) == v
  {
    var low := ToLimbs(v, j);
    var a := low + [B - 1] + seq(t - j - 1, i => 0);
    assert a[..j] == low;
    a
  }

  lemma {:induction false} OperandValue(v: nat, j: nat, t: nat)
    requires j < t && v < BPow(j)
    ensures Val(Operand(v, j, t)) == v + BPow(j) * (B - 1)
  {
    var a := Operand(v, j, t);
    ValZeros(a[j + 1..]);
    hide Val, BPow;
    ValSnoc(a, j);
    ValSplit(a, j + 1);
    assert BPow(j + 1) * 0 == 0;
  }

  // Round j when no round before loses anything.
  lemma {:induction false} UntilRound(pr: Params, a: seq<Limb>, b: nat, j: nat)
    requires pr.Ready() && |a| == pr.limbs && b < pr.P() && j < pr.limbs
    requires forall i :: 0 <= i < j ==> Total(a, b, pr, i) < BPow(|a| + 1)
    ensures var w := Window(a, b, pr.P(), pr.negpinv, pr.limbs, j);
            w * BPow(j) == Val(a[..j]) * b + Added(a, b, pr, j) * pr.P() && w < b + pr.P() && Total(a, b, pr, j) == w + a[j] * b
    ensures Added(a, b, pr, j) < BPow(j)
  {
    hide BPow, Val, Added, Window, Lost;
    LostDigits(a, b, pr, j);
    WindowExact(a, b, pr, j);
    AddedBound(a, b, pr, j);
    assert BPow(pr.limbs + 1) * 0 == 0;
  }

  // Only a modulus within one limb of B^t has a collision.
  lemma {:induction false} LargeModulus(pr: Params, j: nat, x: int, z: int, d: int)
    requires pr.Ready() && Collides(pr, j, x, z, d) && j + 1 < pr.limbs
    ensures BPow(j + 1) <= pr.P()
  {
    var t, p, m := pr.limbs, pr.P(), BPow(j);
    assert BPow(t + 1) == B * BPow(t) && BPow(t) == B * BPow(t - 1);
    BPowMonotone(j + 1, t - 1);
    hide BPow, Val;
    OverflowBound(p, m, BPow(t + 1), x, z, d);
  }

  lemma {:induction false} OverflowBound(p: int, m: int, top: int, x: int, z: int, d: int)
    requires m > 0 && p > 0 && Overflows(p, m, top, x, z, d)
    ensures (B + 1) * p >= top
  {
    MulLe(0, B * m - x, d);
    MulLe(B * m + m - x - z, (B + 1) * m, p);
    assert (B + 1) * m * p == ((B + 1) * p) * m;
    AtLeastScaled((B + 1) * p, m, top);
  }

  lemma CollidesMeans(pr: Params, j: nat, x: int, z: int, d: int)
    requires Collides(pr, j, x, z, d)
    ensures j < pr.limbs && BPow(j) > 0 && Overflows(pr.P(), BPow(j), BPow(pr.limbs + 1), x, z, d)
    ensures 1 <= x <= BPow(j) && 1 <= d <= pr.P()
    ensures j + 1 == pr.limbs ==> BPow(pr.limbs) - x < pr.P()
  {
  }

  lemma {:induction false} CollisionOperand(pr: Params, j: nat, x: int, z: int, d: int)
    requires pr.Ready() && Collides(pr, j, x, z, d)
    ensures 0 <= BPow(j) - x < BPow(j) && j < pr.limbs && Val(Operand(BPow(j) - x, j, pr.limbs)) < pr.P()
  {
    hide *;
    CollidesMeans(pr, j, x, z, d);
    if j + 1 < pr.limbs { LargeModulus(pr, j, x, z, d); }
    BPowStep(j);
    OperandBound(pr, j, x);
  }

  lemma {:induction false} OperandBound(pr: Params, j: nat, x: int)
    requires j < pr.limbs && 1 <= x <= BPow(j) && BPow(j + 1) == B * BPow(j)
    requires if j + 1 == pr.limbs then BPow(pr.limbs) - x < pr.P() else BPow(j + 1) <= pr.P()
    ensures Val(Operand(BPow(j) - x, j, pr.limbs)) < pr.P()
  {
    hide Val, BPow, Operand;
    OperandValue(BPow(j) - x, j, pr.limbs);
  }

  lemma BPowStep(j: nat)
    ensures BPow(j + 1) == B * BPow(j)
  {
  }

  // What the operands of a collision give in round j.
  lemma {:induction false} OverflowTotal(p: int, m: int, top: int, x: int, z: int, d: int, w: int, a: int, ninv: int, j: nat)
    requires m == BPow(j) && Overflows(p, m, top, x, z, d) && w * m == (m - x) * (p - d) + a * p && 0 <= a < m && (p * ninv + 1) % B == 0
    ensures w + (B - 1) * (p - d) >= top
  {
    hide BPow;
    AddedIs(w, m, p, x, z, d, a, ninv, j);
    ScaledTotal(w, m, p, x, z, d);
    AtLeastScaled(w + (B - 1) * (p - d), m, top);
  }

  lemma {:induction false} CollisionLoses(pr: Params, j: nat, x: int, z: int, d: int)
    requires pr.Ready() && Collides(pr, j, x, z, d)
    ensures !Multiplies(pr)
  {
    hide *;
    ReadyMeans(pr);
    CollidesMeans(pr, j, x, z, d);
    CollisionOperand(pr, j, x, z, d);
    var t, p, m := pr.limbs, pr.P(), BPow(j);
    var a, b := Operand(m - x, j, t), p - d;
    if KeepsCarries(a, b, pr) {
      KeepsMeans(a, b, pr);
      UntilRound(pr, a, b, j);
      OverflowTotal(p, m, BPow(t + 1), x, z, d, Window(a, b, p, pr.negpinv, t, j), Added(a, b, pr, j), pr.negpinv, j);
    }
    WrongMeans(a, b, pr);
  }

  lemma KeepsMeans(a: seq<Limb>, b: nat, pr: Params)
    requires KeepsCarries(a, b, pr)
    ensures forall i :: 0 <= i < |a| ==> Total(a, b, pr, i) < BPow(|a| + 1)
  {
    hide Total, BPow;
  }

  // Reduced operands whose product comes out wrong settle the modulus.
  lemma {:induction false} WrongMeans(a: seq<Limb>, b: nat, pr: Params)
    requires pr.Ready() && |a| == pr.limbs && Val(a) < pr.P() && b < pr.P() && !KeepsCarries(a, b, pr)
    ensures !Multiplies(pr)
  {
    hide Right, KeepsCarries, BPow, Val;
    ProductIff(a, b, pr);
  }

  // The limb of a round that loses a carry is B-1.
  lemma {:induction false} FullLimb(w: int, x: int, b: int, p: int, top: int)
    requires 0 <= w < b + p && 0 <= x < B && 0 <= b < p && B * p <= top && w + x * b >= top
    ensures x == B - 1
  {
    if x <= B - 2 { MulLe(x, B - 2, b); }
  }

  lemma {:induction false} LossOverflows(p: int, m: int, top: int, v: int, a: int, b: int, w: int, limb: int)
    requires 0 <= v < m && 0 <= a < m && 0 <= b < p && w * m == v * b + a * p && 0 <= w < b + p && B * p <= top
    requires 0 <= limb < B && w + limb * b >= top
    ensures limb == B - 1 && Overflows(p, m, top, m - v, m - a, p - b)
  {
    FullLimb(w, limb, b, p, top);
    var x, z, d := m - v, m - a, p - b;
    ScaledTotal(w, m, p, x, z, d);
    AtLeastScaled(w + (B - 1) * b, m, top);
    LossCongruence(w, m, p, x, z, d);
  }

  lemma {:induction false} LossCongruence(w: int, m: int, p: int, x: int, z: int, d: int)
    requires w * m == (m - x) * (p - d) + (m - z) * p && m > 0
    ensures ((x + z) * p - x * d) % m == 0
  {
    AddedPoly(m, p, x, z, d, m - z, 0);
    ModZero(2 * p - d - w, m);
    assert (2 * p - d - w) * m == 2 * p * m - d * m - w * m;
  }

  lemma {:induction false} LossCollides(pr: Params, a: seq<Limb>, b: nat, j: nat)
    requires pr.Ready() && |a| == pr.limbs && Val(a) < pr.P() && b < pr.P() && j < pr.limbs
    requires forall i :: 0 <= i < j ==> Total(a, b, pr, i) < BPow(|a| + 1)
    requires Total(a, b, pr, j) >= BPow(|a| + 1)
    ensures Collides(pr, j, BPow(j) - Val(a[..j]), BPow(j) - Added(a, b, pr, j), pr.P() - b)
  {
    hide *;
    ReadyMeans(pr);
    LowLimbs(a, j);
    UntilRound(pr, a, b, j);
    RadixRoom(pr);
    var t, m := pr.limbs, BPow(j);
    LossOverflows(pr.P(), m, BPow(t + 1), Val(a[..j]), Added(a, b, pr, j), b, Window(a, b, pr.P(), pr.negpinv, t, j), a[j]);
    CollidesIs(pr, j, m - Val(a[..j]), m - Added(a, b, pr, j), pr.P() - b);
  }

  lemma CollidesIs(pr: Params, j: nat, x: int, z: int, d: int)
    requires j < pr.limbs && (j + 1 == pr.limbs ==> BPow(pr.limbs) - x < pr.P()) && BPow(j) > 0
    requires Overflows(pr.P(), BPow(j), BPow(pr.limbs + 1), x, z, d)
    ensures Collides(pr, j, x, z, d)
  {
    hide Overflows;
  }

  lemma {:induction false} LowLimbs(a: seq<Limb>, j: nat)
    requires j < |a|
    ensures 0 <= Val(a[..j]) < BPow(j)
    ensures j + 1 == |a| && a[j] == B - 1 ==> Val(a) == Val(a[..j]) + BPow(|a|) - BPow(j)
  {
    ValBound(a[..j]);
    ValSnoc(a, j);
    assert a[..|a|] == a;
  }

  lemma {:induction false} FirstLoss(pr: Params, a: seq<Limb>, b: nat) returns (j: nat)
    requires |a| == pr.limbs && !KeepsCarries(a, b, pr)
    ensures j < pr.limbs && Total(a, b, pr, j) >= BPow(|a| + 1) && forall i :: 0 <= i < j ==> Total(a, b, pr, i) < BPow(|a| + 1)
  {
    hide Total, BPow;
    var k :| 0 <= k < |a| && Total(a, b, pr, k) >= BPow(|a| + 1);
    j := 0;
    while Total(a, b, pr, j) < BPow(|a| + 1)
      invariant j <= k && forall i :: 0 <= i < j ==> Total(a, b, pr, i) < BPow(|a| + 1)
      decreases k - j
    {
      j := j + 1;
    }
  }

  // Main result: every product of operands below p is right if and only if the modulus has no collision.
  lemma {:induction false} ModulusIff(pr: Params)
    requires pr.Ready()
    ensures Multiplies(pr) <==> !HasCollision(pr)
  {
    hide Right, KeepsCarries, Val, Collides, BPow;
    if HasCollision(pr) {
      var j, x, z, d :| Collides(pr, j, x, z, d);
      CollisionLoses(pr, j, x, z, d);
    } else {
      forall a: seq<Limb>, b | |a| == pr.limbs && Val(a) < pr.P() && 0 <= b < pr.P() ensures Right(a, b, pr) {
        ProductIff(a, b, pr);
        if !KeepsCarries(a, b, pr) {
          var j := FirstLoss(pr, a, b);
          LossCollides(pr, a, b, j);
        }
      }
    }
  }

  // ---------------------------------------------------------------- two limbs

  lemma {:induction false} TwoLimbs(s: seq<Limb>)
    requires |s| == 2
    ensures Val(s) == s[0] + B * s[1] && BPow(1) == B && BPow(2) == B * B && BPow(3) == B * B * B
  {
    ValOne(s[1]);
    assert s[1..] == [s[1]];
    assert BPow(1) == B * BPow(0) && BPow(2) == B * BPow(1) && BPow(3) == B * BPow(2);
  }

  // A collision on two limbs, for p = B^2 - r: u is B - z, y is r + d, and c the quotient of the congruence.
  ghost predicate Pair(r: int, x: int, y: int, u: int, c: int)
  {
    r < x <= B && r < y <= B * B && 0 <= u < B && u * r == x * y + c * B && c <= (u - x - y) * B
  }

  ghost predicate HasPair(r: int)
  {
    exists x, y, u, c :: Pair(r, x, y, u, c)
  }

  lemma PairPoly(x: int, y: int, u: int, r: int)
    ensures (B * B + B - x - (B - u)) * (B * B - r) - (B * B - x) * (y - r) == B * (B * B * B) + (u - x - y) * (B * B) - (u * r - x * y)
    ensures (x + (B - u)) * (B * B - r) - x * (y - r) == (u * r - x * y) + (B * (x + (B - u)) - r) * B
  {
  }

  // The congruence and the inequality in terms of r.
  lemma {:induction false} PairIs(x: int, y: int, u: int, r: int, c: int)
    ensures u * r == x * y + c * B ==> ((x + (B - u)) * (B * B - r) - x * (y - r)) % B == 0
    ensures u * r == x * y + c * B ==>
      ((B * B + B - x - (B - u)) * (B * B - r) >= B * (B * B * B) + (B * B - x) * (y - r) <==> c <= (u - x - y) * B)
  {
    PairPoly(x, y, u, r);
    if u * r == x * y + c * B {
      ModZero(B * (x + (B - u)) - r + c, B);
      assert (u - x - y) * (B * B) == ((u - x - y) * B) * B;
    }
  }

  lemma {:induction false} PairQuotient(x: int, y: int, u: int, r: int) returns (c: int)
    requires ((x + (B - u)) * (B * B - r) - x * (y - r)) % B == 0
    ensures u * r == x * y + c * B
  {
    PairPoly(x, y, u, r);
    var k := ((x + (B - u)) * (B * B - r) - x * (y - r)) / B;
    c := k - (B * (x + (B - u)) - r);
  }

  lemma {:induction false} TwoLimbsCollision(pr: Params, r: nat, j: nat, x: int, z: int, d: int)
    requires pr.Ready() && pr.limbs == 2 && pr.primelimbs == [B - r, B - 1] && Collides(pr, j, x, z, d)
    ensures HasPair(r)
  {
    hide Val, HasPair, BPow;
    TwoLimbs(pr.primelimbs);
    BPowNone();
    if j == 0 { MulLe(0, B - 1, d); }
    var y, u := r + d, B - z;
    var c := PairQuotient(x, y, u, r);
    PairIs(x, y, u, r, c);
    assert Pair(r, x, y, u, c);
    PairMeans(r, x, y, u, c);
  }

  lemma PairMeans(r: int, x: int, y: int, u: int, c: int)
    requires Pair(r, x, y, u, c)
    ensures HasPair(r)
  {
  }

  lemma {:induction false} PairCollides(pr: Params, r: nat, x: int, y: int, u: int, c: int)
    requires pr.Ready() && pr.limbs == 2 && pr.primelimbs == [B - r, B - 1] && Pair(r, x, y, u, c)
    ensures Collides(pr, 1, x, B - u, y - r)
  {
    hide Val, BPow;
    TwoLimbs(pr.primelimbs);
    PairIs(x, y, u, r, c);
  }

  // Two limbs with the top one all ones.
  lemma {:induction false} TwoLimbsIff(pr: Params, r: nat)
    requires pr.Ready() && pr.limbs == 2 && pr.primelimbs == [B - r, B - 1]
    ensures Multiplies(pr) <==> !HasPair(r)
  {
    hide Val, Multiplies, Collides, Pair;
    ModulusIff(pr);
    if HasPair(r) {
      var x, y, u, c :| Pair(r, x, y, u, c);
      PairCollides(pr, r, x, y, u, c);
    } else if HasCollision(pr) {
      var j, x, z, d :| Collides(pr, j, x, z, d);
      TwoLimbsCollision(pr, r, j, x, z, d);
    }
  }

  // The operands are short of B^2 by less than B, and u makes up for both.
  lemma {:induction false} CollisionBounds(r: nat, x: int, y: int, u: int, c: int)
    requires Pair(r, x, y, u, c)
    ensures x + y <= u
  {
    var k := u - x - y;
    MulLe(c, k * B, B);
    assert k * B * B == k * (B * B) && k * (B * B) == u * (B * B) - x * (B * B) - y * (B * B);
    MulLe(0, u, r);
    MulLe(u, B - 1, B * B);
    ShortOperand(x, y);
    MulLe(x, B, y);
    if k <= -1 { MulLe(k, -1, B * B); }
  }

  lemma {:induction false} ShortOperand(x: int, y: int)
    requires 0 < x <= B && x * (B * B) + y * (B * B) - x * y <= (B - 1) * (B * B)
    ensures y < B
  {
    if y >= B { MulLe(B, y, B * B - x); }
  }

  // A low limb of at most B/2.
  lemma {:induction false} LargeNoCollision(r: nat)
    requires 2 * r >= B
    ensures !HasPair(r)
  {
    forall x, y, u, c ensures !Pair(r, x, y, u, c) {
      if Pair(r, x, y, u, c) { CollisionBounds(r, x, y, u, c); }
    }
  }

  // A low limb above 3B/4.
  lemma {:induction false} SmallCollision(r: nat)
    requires 0 < r && 4 * r < B
    ensures HasPair(r)
  {
    assert (4 * r) * r == (2 * r) * (2 * r);
    assert Pair(r, 2 * r, 2 * r, 4 * r, 0);
  }

  // Between them, the low limb B/2 + k with k composite.
  lemma {:induction false} CompositeCollision(k: nat, a: int, b: int)
    requires k < B / 2 && k % 2 == 1 && k == a * b && a >= 2 && b >= 2
    ensures HasPair(B / 2 - k)
  {
    var h := B / 2;
    var r, u, c := h - k, B - k - 1 + a + b, (h - k - 1) / 2;
    SumBelowProduct(a, b);
    assert 2 * c == h - k - 1;
    CompositePoly(h, a, b, k, c);
    MulLe(1, u - (r + a) - (r + b), B);
    assert Pair(r, r + a, r + b, u, c);
  }

  lemma {:induction false} SumBelowProduct(a: int, b: int)
    requires a >= 2 && b >= 2
    ensures a + b <= a * b && a * b >= 4
  {
    MulLe(2, a, b);
    MulLe(1, a - 1, b - 1);
    assert (a - 1) * (b - 1) == a * b - a - b + 1;
  }

  lemma CompositePoly(h: int, a: int, b: int, k: int, c: int)
    requires k == a * b && 2 * c == h - k - 1
    ensures (2 * h - k - 1 + a + b) * (h - k) == (h - k + a) * (h - k + b) + c * (2 * h)
  {
    assert c * (2 * h) == h * (h - k - 1);
    assert (h - k + a) * (h - k + b) == (h - k) * (h - k) + (a + b) * (h - k) + k;
  }

  // With k = 1 or k prime and small there is none.
  lemma {:induction false} PrimeNoCollision(k: nat)
    requires (k == 1 || IsPrime(k)) && 2 * (k * k) <= B
    ensures 2 * k < B && !HasPair(B / 2 - k)
  {
    if 2 * k >= B { MulLe(B, 2 * k, k); }
    var r := B / 2 - k;
    forall x, y, u, c ensures !Pair(r, x, y, u, c) {
      if Pair(r, x, y, u, c) {
        CollisionBounds(r, x, y, u, c);
        PrimeExcludes(k, x - r, y - r, u, c);
      }
    }
  }

  lemma {:induction false} PrimeExcludes(k: nat, a: int, b: int, u: int, c: int)
    requires (k == 1 || IsPrime(k)) && 2 * (k * k) <= B && 2 * k < B && a >= 1 && b >= 1 && u < B
    requires var r := B / 2 - k; u * r == (r + a) * (r + b) + c * B
    ensures u < (B / 2 - k + a) + (B / 2 - k + b)
  {
    hide IsPrime;
    var h := B / 2;
    var i := h - (u - (h - k) - a - b);
    if a + b + 1 <= k + i {
      CollisionPoly(h, k, a, b, u, c, i);
      if i <= k {
        CofactorBounds(k, a, b, i);
        SmallMultiple(a * b - i * k, h - k - i - 2 * c, h);
        NoSplit(k, a, b, i);
      }
    }
  }

  lemma {:induction false} CollisionPoly(h: int, k: int, a: int, b: int, u: int, c: int, i: int)
    requires u == (h - k) + a + b + h - i && u * (h - k) == (h - k + a) * (h - k + b) + c * (2 * h)
    ensures a * b - i * k == (h - k - i - 2 * c) * h
  {
    ShiftedProducts(h - k, a, b, h - i);
    CrossProduct(h, k, i, c);
  }

  lemma ShiftedProducts(r: int, a: int, b: int, v: int)
    ensures (r + a) * (r + b) == r * r + a * r + b * r + a * b && (r + a + b + v) * r == r * r + a * r + b * r + v * r
  {
  }

  lemma CrossProduct(h: int, k: int, i: int, c: int)
    ensures (h - i) * (h - k) - i * k - c * (2 * h) == (h - k - i - 2 * c) * h
  {
  }

  lemma {:induction false} CofactorBounds(k: int, a: int, b: int, i: int)
    requires a >= 1 && b >= 1 && i <= k && a + b + 1 <= k + i
    ensures -(k * k) < a * b - i * k < k * k
  {
    MulLe(i, k, k);
    MulLe(1, a, b);
    MulLe(a + b + 1 - k, i, k);
    Complements(k, a, b);
    ComplementProduct(k - a, k - b, k);
  }

  lemma Complements(k: int, a: int, b: int)
    ensures (k - a) * (k - b) == k * k - (a + b) * k + a * b && (a + b + 1 - k) * k == (a + b) * k + k - k * k
  {
  }

  lemma {:induction false} ComplementProduct(s: int, t: int, k: int)
    requires s < k && t < k && s + t >= 0 && k >= 1
    ensures s * t < k * k
  {
    if s >= 0 && t >= 0 {
      MulLe(s, k - 1, t);
      MulLe(t, k - 1, k - 1);
      assert (k - 1) * (k - 1) == k * k - 2 * k + 1;
    } else {
      MulLe(1, k, k);
      if s < 0 { MulLe(s, 0, t); } else { MulLe(t, 0, s); }
    }
  }

  // a*b = i*k with k prime and i <= k keeps a + b large.
  lemma {:induction false} NoSplit(k: int, a: int, b: int, i: int)
    requires (k == 1 || IsPrime(k)) && a >= 1 && b >= 1 && a * b == i * k && i <= k
    ensures k + i <= a + b
  {
    if k == 1 {
      assert i * k == i;
    } else {
      ModZero(i, k);
      PrimeDivides(a, b, k);
      hide IsPrime;
      if a % k == 0 { OneMultiple(k, a, b, i, a / k); } else { OneMultiple(k, b, a, i, b / k); }
    }
  }

  lemma {:induction false} OneMultiple(k: int, a: int, b: int, i: int, m: int)
    requires k >= 2 && a == m * k && a >= 1 && b >= 1 && a * b == i * k && i <= k
    ensures k + i <= a + b
  {
    if m <= 0 { MulLe(m, 0, k); }
    assert m * k * b == (m * b) * k;
    SameFactors(m * b, i, k);
    MulLe(1, m, b);
    MulLe(0, m - 1, k - b);
    assert (m - 1) * (k - b) == m * k - m * b - k + b;
  }

  // p = B^2 - r with two limbs: right for r at least B/2, wrong for r below B/4, and in between, with k = B/2 - r,
  // wrong for every composite k and right for k prime or 1 as long as 2k^2 is at most B.
  lemma {:induction false} TwoLimbsDecided(pr: Params, r: nat)
    requires pr.Ready() && pr.limbs == 2 && pr.primelimbs == [B - r, B - 1]
    ensures 2 * r >= B ==> Multiplies(pr)
    ensures 4 * r < B ==> !Multiplies(pr)
    ensures var k := B / 2 - r;
            && (k > 1 && !IsPrime(k) ==> !Multiplies(pr))
            && ((k == 1 || IsPrime(k)) && 2 * (k * k) <= B ==> Multiplies(pr))
  {
    hide *;
    TwoLimbsIff(pr, r);
    OddRest(pr, r);
    PairsDecided(r);
  }

  lemma {:induction false} OddRest(pr: Params, r: nat)
    requires pr.Ready() && pr.primelimbs == [B - r, B - 1]
    ensures r % 2 == 1
  {
    hide Val, BPow;
    OddModulus(pr);
  }

  lemma {:induction false} PairsDecided(r: nat)
    requires r % 2 == 1
    ensures 2 * r >= B ==> !HasPair(r)
    ensures 4 * r < B ==> HasPair(r)
    ensures var k := B / 2 - r;
            && (k > 1 && !IsPrime(k) ==> HasPair(r))
            && ((k == 1 || IsPrime(k)) && 2 * (k * k) <= B ==> !HasPair(r))
  {
    hide HasPair, IsPrime;
    if 2 * r >= B { LargeNoCollision(r); }
    if 4 * r < B { SmallCollision(r); }
    var k := B / 2 - r;
    if k > 1 && !IsPrime(k) {
      var d := ProperDivisor(k);
      CompositeCollision(k, d, k / d);
    }
    if (k == 1 || IsPrime(k)) && 2 * (k * k) <= B {
      if k != 1 { PrimePositive(k); }
      PrimeNoCollision(k);
    }
  }

  lemma PrimePositive(k: int)
    requires IsPrime(k)
    ensures k >= 2
  {
  }

  lemma {:induction false} ProperDivisor(k: int) returns (d: int)
    requires k > 1 && !IsPrime(k)
    ensures d >= 2 && k / d >= 2 && k == d * (k / d)
  {
    d :| 2 <= d < k && k % d == 0;
    assert k == d * (k / d);
    if k / d <= 1 { MulLe(k / d, 1, d); }
  }

  lemma {:induction false} OddModulus(pr: Params)
    requires pr.Ready()
    ensures pr.primelimbs[0] % 2 == 1
  {
    hide *;
    ReadyMeans(pr);
    LowOfModulus(pr);
    OddLow(pr.P(), pr.negpinv, pr.primelimbs[0]);
  }

  lemma LowOfModulus(pr: Params)
    requires |pr.primelimbs| > 0
    ensures pr.P() % B == pr.primelimbs[0]
  {
  }

  lemma {:induction false} OddLow(p: int, n: int, f: int)
    requires (p * n + 1) % B == 0 && p % B == f
    ensures f % 2 == 1
  {
    var m, k := (p * n + 1) / B, p / B;
    assert p * n == 2 * (B / 2 * m - 1) + 1;
    ModIntro(p * n, 1, B / 2 * m - 1, 2);
    OddFactor(p, n);
    ModIntro(p, f, B / 2 * k, 2);
  }

  lemma {:induction false} OddFactor(r: int, n: int)
    requires r * n % 2 == 1
    ensures r % 2 == 1
  {
    if r % 2 == 0 { ModMul(r, 0, n, n, 2); }
  }

  // ---------------------------------------------------------------- three limbs or more

  // 2p is no multiple of B, let alone of a power of it.
  lemma {:induction false} DoubledNotZero(p: int, n: int)
    requires (p * n + 1) % B == 0
    ensures 2 * p % B != 0
  {
    var k, r := (p * n + 1) / B, 2 * p % B;
    assert p * n + 1 == B * k;
    ModMod(2 * p, B);
    ModMul(r, 2 * p, n, n, B);
    assert 2 * p * n == 2 * (p * n);
    ModIntro(2 * p * n, B - 2, 2 * k - 1, B);
    ModSmall(B - 2, B);
    ModSmall(0, B);
  }

  lemma {:induction false} TwiceNotZero(p: int, n: int, j: nat)
    requires (p * n + 1) % B == 0 && j >= 1
    ensures 2 * p % BPow(j) != 0
  {
    DoubledNotZero(p, n);
    if 2 * p % BPow(j) == 0 {
      var e := 2 * p / BPow(j);
      assert BPow(j) == B * BPow(j - 1);
      hide BPow;
      assert 2 * p == e * BPow(j - 1) * B by { assert e * (B * BPow(j - 1)) == e * BPow(j - 1) * B; }
      ModZero(e * BPow(j - 1), B);
    }
  }

  // The collision of all ones in round j with p - (2p mod B^j).
  ghost predicate Crowded(pr: Params, j: nat)
  {
    Collides(pr, j, 1, 1, 2 * pr.P() % BPow(j))
  }

  // The value between the bounds its upper limbs give.
  lemma {:induction false} TopLimbs(s: seq<Limb>)
    requires |s| >= 3
    ensures var t, q := |s|, BPow(|s| - 3);
            (s[t - 3] + B * s[t - 2] + B * B * s[t - 1]) * q <= Val(s) < (s[t - 3] + 1 + B * s[t - 2] + B * B * s[t - 1]) * q
  {
    hide BPow, Val;
    var t, q := |s|, BPow(|s| - 3);
    TopPowers(t);
    ValSnoc(s, t - 1);
    ValSnoc(s, t - 2);
    ValSnoc(s, t - 3);
    ValBound(s[..t - 3]);
    assert s[..t] == s && s[..t - 1] == s[..t - 2 + 1] && s[..t - 2] == s[..t - 3 + 1];
    TopSum(s[t - 3], s[t - 2], s[t - 1], q);
  }

  lemma TopSum(x: int, y: int, z: int, q: int)
    ensures (x + B * y + B * B * z) * q == q * x + (B * q) * y + (B * B * q) * z
    ensures (x + 1 + B * y + B * B * z) * q == q * x + (B * q) * y + (B * B * q) * z + q
  {
  }

  lemma {:induction false} TopPowers(t: nat)
    requires t >= 3
    ensures var q := BPow(t - 3); q >= 1 && BPow(t - 2) == B * q && BPow(t - 1) == B * B * q && BPow(t + 1) == B * B * B * B * q
  {
    BPowAdd(t - 3, 1);
    BPowAdd(t - 3, 2);
    BPowAdd(t - 3, 4);
    SmallPowers();
  }

  lemma SmallPowers()
    ensures BPow(1) == B && BPow(2) == B * B && BPow(3) == B * B * B && BPow(4) == B * B * B * B
  {
    assert BPow(1) == B * BPow(0) && BPow(2) == B * BPow(1) && BPow(3) == B * BPow(2) && BPow(4) == B * BPow(3);
  }

  lemma BPowNone()
    ensures BPow(0) == 1
  {
  }

  // Top limb B-1, next limb 0 and the one after that below B-1: there is room.
  lemma {:induction false} ZeroLimbGivesRoom(pr: Params)
    requires pr.Sized() && pr.limbs >= 3 && pr.primelimbs[pr.limbs - 2] == 0 && pr.primelimbs[pr.limbs - 3] < B - 1
    ensures pr.Roomy()
  {
    hide BPow, Val;
    var q := BPow(pr.limbs - 3);
    TopLimbs(pr.primelimbs);
    TopPowers(pr.limbs);
    MulLe(pr.primelimbs[pr.limbs - 3] + 1 + B * B * pr.primelimbs[pr.limbs - 1], B - 1 + B * B * (B - 1), q);
    assert (B + 1) * ((B - 1 + B * B * (B - 1)) * q) == (B * B * B * B - 1) * q;
  }

  // The excess over the room, if large enough.
  lemma {:induction false} ExcessCrowds(pr: Params, j: nat)
    requires pr.Ready() && 1 <= j && j + 2 <= pr.limbs
    requires (B + 1) * pr.P() >= BPow(pr.limbs + 1) + BPow(j + 1) + 2 * BPow(pr.limbs - j)
    ensures Crowded(pr, j)
  {
    var t, m := pr.limbs, BPow(j);
    assert BPow(j + 1) == B * m;
    ExcessBelow(pr, j);
    TwiceNotZero(pr.P(), pr.negpinv, j);
    hide BPow, Val, Overflows;
    ExcessOverflows(pr.P(), m, 2 * pr.P() % m, BPow(t + 1), BPow(t - j));
  }

  lemma {:induction false} ExcessOverflows(p: int, m: int, d: int, top: int, q: int)
    requires 0 < m <= p <= m * q && d == 2 * p % m && d != 0 && (B + 1) * p >= top + B * m + 2 * q
    ensures Overflows(p, m, top, 1, 1, d)
  {
    ExcessInequality(p, m, d, top, q);
    ModZero(2 * p / m, m);
    assert (1 + 1) * p - 1 * d == 2 * p / m * m;
  }

  lemma {:induction false} ExcessBelow(pr: Params, j: nat)
    requires pr.Ready() && 1 <= j && j + 2 <= pr.limbs && (B + 1) * pr.P() >= BPow(pr.limbs + 1)
    ensures BPow(j) <= pr.P() <= BPow(j) * BPow(pr.limbs - j)
  {
    var t := pr.limbs;
    BPowAdd(j, t - j);
    BPowMonotone(j, t - 1);
    ValBound(pr.primelimbs);
    assert BPow(t + 1) == B * BPow(t) && BPow(t) == B * BPow(t - 1);
    hide BPow, Val;
  }

  lemma {:induction false} ExcessInequality(p: int, m: int, d: int, top: int, q: int)
    requires m > 0 && 0 <= d < m && p <= m * q && (B + 1) * p >= top + B * m + 2 * q
    ensures (B * m + m - 1 - 1) * p >= m * top + (B * m - 1) * d
  {
    MulLe(top + B * m + 2 * q, (B + 1) * p, m);
    MulLe(d, m, B * m - 1) by { MulLe(1, m, B); }
    assert (B * m + m - 1 - 1) * p == (B + 1) * p * m - 2 * p;
    assert (top + B * m + 2 * q) * m == m * top + B * m * m + 2 * (m * q);
    assert m * (B * m - 1) == B * m * m - m;
  }

  lemma {:induction false} NextLimbExcess(pr: Params)
    requires pr.Sized() && pr.limbs >= 3 && pr.primelimbs[pr.limbs - 1] == B - 1
    ensures var e := pr.primelimbs[pr.limbs - 2];
            (B + 1) * pr.P() >= BPow(pr.limbs + 1) + ((e - 1) * B * B + e * B) * BPow(pr.limbs - 3)
  {
    hide BPow, Val;
    var t := pr.limbs;
    var q, e := BPow(t - 3), pr.primelimbs[t - 2];
    TopLimbs(pr.primelimbs);
    TopPowers(t);
    MulLe(B * e + B * B * (B - 1), pr.primelimbs[t - 3] + B * e + B * B * (B - 1), q);
    Excess(pr.P(), e, q);
  }

  // Top limb B-1: from which next limb on the excess suffices, by the number of limbs.
  lemma {:induction false} NextLimbLoses(pr: Params)
    requires pr.Ready() && pr.limbs >= 3 && pr.primelimbs[pr.limbs - 1] == B - 1
    requires pr.primelimbs[pr.limbs - 2] >= if pr.limbs == 3 then 4 else if pr.limbs < 7 then 2 else 1
    ensures !Multiplies(pr)
  {
    hide BPow, Val, Multiplies;
    var t, e := pr.limbs, pr.primelimbs[pr.limbs - 2];
    var j := if t == 3 then 1 else if t < 7 then 2 else 3;
    NextLimbExcess(pr);
    ExcessCovers(t, j, e);
    ExcessCrowds(pr, j);
    CollisionLoses(pr, j, 1, 1, 2 * pr.P() % BPow(j));
  }

  lemma {:induction false} ExcessCovers(t: nat, j: nat, e: int)
    requires (t == 3 && j == 1 && e >= 4) || (t >= 4 && j == 2 && e >= 2) || (t >= 7 && j == 3 && e >= 1)
    ensures ((e - 1) * B * B + e * B) * BPow(t - 3) >= BPow(j + 1) + 2 * BPow(t - j)
  {
    hide BPow;
    var q := BPow(t - 3);
    TopPowers(t);
    SmallPowers();
    if j == 1 {
      MulLe(3 * B * B + 4 * B, (e - 1) * B * B + e * B, q);
      BPowNone();
    } else if j == 2 {
      BPowMonotone(1, t - 3);
      MulLe(B * B + 2 * B, (e - 1) * B * B + e * B, q);
    } else {
      BPowMonotone(4, t - 3);
      MulLe(B, (e - 1) * B * B + e * B, q);
    }
  }

  lemma Excess(p: int, e: int, q: int)
    requires p >= (B * e + B * B * (B - 1)) * q
    ensures (B + 1) * p >= B * B * B * B * q + ((e - 1) * B * B + e * B) * q
  {
    assert (B + 1) * ((B * e + B * B * (B - 1)) * q) == B * B * B * B * q + ((e - 1) * B * B + e * B) * q;
  }

  // ---------------------------------------------------------------- three limbs, decided

  lemma {:induction false} CrowdedThree(pr: Params)
    requires pr.Ready() && pr.limbs == 3
    ensures Crowded(pr, 1) <==> pr.P() >= 2 * pr.P() % B && (B * B + B - 2) * pr.P() >= B * (B * B * B * B) + (B * B - 1) * (2 * pr.P() % B)
  {
    var p := pr.P();
    SmallPowers();
    TwiceNotZero(p, pr.negpinv, 1);
    hide BPow, Val;
    ModZero(2 * p / B, B);
    assert (1 + 1) * p - 1 * (2 * p % B) == 2 * p / B * B;
  }

  lemma {:induction false} ThreeCollision(pr: Params, j: nat, x: int, z: int, d: int)
    requires pr.Ready() && pr.limbs == 3 && pr.primelimbs[2] == B - 1 && Collides(pr, j, x, z, d)
    ensures Crowded(pr, 1)
  {
    hide *;
    ReadyMeans(pr);
    BPowNone();
    SmallPowers();
    CollidesMeans(pr, j, x, z, d);
    CrowdedThree(pr);
    ThreeBounds(pr);
    var p, d0 := pr.P(), 2 * pr.P() % B;
    if j == 0 {
      NoZerothCollision(p, x, z, d);
    } else if j == 1 {
      FirstOverflow(p, x, z, d, d0);
    } else {
      SecondOverflow(p, x, z, d, d0);
    }
  }

  lemma {:induction false} ThreeBounds(pr: Params)
    requires pr.Sized() && pr.limbs == 3 && pr.primelimbs[2] == B - 1
    ensures B * B * (B - 1) <= pr.P() < B * B * B
  {
    hide Val;
    ThreeValue(pr);
  }

  lemma {:induction false} NoZerothCollision(p: int, x: int, z: int, d: int)
    requires Overflows(p, 1, B * B * B * B, x, z, d)
    ensures p >= B * B * B
  {
    MulLe(0, B - 1, d);
  }

  lemma {:induction false} FirstOverflow(p: int, x: int, z: int, d: int, d0: int)
    requires p >= B * B * (B - 1) && d0 == 2 * p % B && Overflows(p, B, B * B * B * B, x, z, d)
    ensures p >= d0 && (B * B + B - 2) * p >= B * (B * B * B * B) + (B * B - 1) * d0
  {
    SameLow(p, x, z, d);
    FirstCollision(p, x, z, d, d0);
  }

  lemma {:induction false} SecondOverflow(p: int, x: int, z: int, d: int, d0: int)
    requires B * B * (B - 1) <= p < B * B * B && B * B * B - x < p && 0 <= d0 < B && Overflows(p, B * B, B * B * B * B, x, z, d)
    ensures p >= d0 && (B * B + B - 2) * p >= B * (B * B * B * B) + (B * B - 1) * d0
  {
    SecondCollision(p, x, z, d, d0);
  }

  lemma {:induction false} ThreeValue(pr: Params)
    requires pr.Sized() && pr.limbs == 3
    ensures pr.P() == pr.primelimbs[0] + B * pr.primelimbs[1] + B * B * pr.primelimbs[2]
  {
    hide Val, BPow;
    TopLimbs(pr.primelimbs);
    BPowNone();
  }

  lemma {:induction false} SameLow(p: int, x: int, z: int, d: int)
    requires d >= 1 && ((x + z) * p - x * d) % B == 0
    ensures x == 1 && z == 1 ==> 2 * p % B <= d
  {
    if x == 1 && z == 1 {
      var k := (2 * p - d) / B;
      assert (x + z) * p - x * d == 2 * p - d;
      ModIntro(2 * p, d, k, B);
      if d < B { ModSmall(d, B); }
    }
  }

  lemma {:induction false} FirstCollision(p: int, x: int, z: int, d: int, d0: int)
    requires p >= B * B * (B - 1) && 1 <= x <= B && 1 <= z && 0 <= d0 < B && d >= 1 && (x == 1 && z == 1 ==> d0 <= d)
    requires (B * B + B - x - z) * p >= B * (B * B * B * B) + (B * B - x) * d
    ensures (B * B + B - 2) * p >= B * (B * B * B * B) + (B * B - 1) * d0
  {
    if x == 1 && z == 1 {
      MulLe(d0, d, B * B - 1);
    } else {
      MulLe(B * B + B - x - z, B * B + B - 3, p);
      MulLe(0, B * B - x, d);
      MulLe(d0, B - 1, B * B - 1);
    }
  }

  lemma {:induction false} SecondCollision(p: int, x: int, z: int, d: int, d0: int)
    requires 0 < p < B * B * B && B * B * B - x < p && 1 <= x <= B * B && 1 <= z && 0 <= d0 < B && 1 <= d
    requires (B * B * B + B * B - x - z) * p >= B * B * (B * B * B * B) + (B * B * B - x) * d
    ensures (B * B + B - 2) * p >= B * (B * B * B * B) + (B * B - 1) * d0
  {
    MulLe(0, B * B * B - x, d);
    MulLe(B * B * B + B * B - x - z, B * B + p, p);
    if p < B * B * B - B * B + 5 * B {
      MulLe(B * B + p, B * B * B + 5 * B, p);
      MulLe(p, B * B * B - B * B + 5 * B, B * B * B + 5 * B);
    }
    MulLe(d0, B - 1, B * B - 1);
  }

  // Three limbs with the top one B-1, the next one e and the low one f: every product is right if and only if e is at
  // most 2, or 3 with f at least 5 and below B/2.
  lemma {:induction false} ThreeLimbsDecided(pr: Params)
    requires pr.Ready() && pr.limbs == 3 && pr.primelimbs[2] == B - 1
    ensures var e, f := pr.primelimbs[1], pr.primelimbs[0]; Multiplies(pr) <==> e < 3 || (e == 3 && 5 <= f && 2 * f < B)
  {
    hide Val, Crowded, Multiplies, Collides, BPow;
    ModulusIff(pr);
    CrowdedThree(pr);
    ThreeValue(pr);
    OddModulus(pr);
    var p, e, f := pr.P(), pr.primelimbs[1], pr.primelimbs[0];
    TwiceLow(p, e, f);
    ThreeInequality(p, e, f, 2 * p % B);
    if HasCollision(pr) {
      var j, x, z, d :| Collides(pr, j, x, z, d);
      ThreeCollision(pr, j, x, z, d);
    }
    CrowdedMeans(pr, 1);
  }

  lemma CrowdedMeans(pr: Params, j: nat)
    ensures Crowded(pr, j) ==> HasCollision(pr)
  {
    hide Collides;
  }

  lemma {:induction false} TwiceLow(p: int, e: int, f: int)
    requires p == f + B * e + B * B * (B - 1) && 0 <= f < B
    ensures 2 * p % B == if 2 * f < B then 2 * f else 2 * f - B
  {
    var k := 2 * (e + B * (B - 1));
    assert 2 * p == 2 * f + k * B;
    if 2 * f < B { DivModUnique(2 * p, B, k, 2 * f); } else { DivModUnique(2 * p, B, k + 1, 2 * f - B); }
  }

  lemma {:induction false} ThreeInequality(p: int, e: int, f: int, d: int)
    requires p == f + B * e + B * B * (B - 1) && 0 <= e < B && 0 <= f < B && f % 2 == 1
    requires d == if 2 * f < B then 2 * f else 2 * f - B
    ensures (B * B + B - 2) * p >= B * (B * B * B * B) + (B * B - 1) * d <==> !(e < 3 || (e == 3 && 5 <= f && 2 * f < B))
  {
  }
}
