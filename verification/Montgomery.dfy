// Montgomery reduction and multiplication on limb arrays.
module Montgomery {
  import opened Arith
  import opened Limbs

  // Per-field data: the modulus and -p^-1 modulo the limb base, R and R^3 modulo p.
  datatype Params = Params(limbs: nat, primelimbs: seq<Limb>, negpinv: Limb, R: seq<Limb>, R3: seq<Limb>)
  {
    ghost predicate Sized()
    {
      |primelimbs| == limbs > 0 && Val(primelimbs) > 1
    }

    function P(): nat
    {
      Val(primelimbs)
    }

    ghost predicate Ready()
    {
      Sized() && (P() * negpinv + 1) % B == 0
    }

    // No modulus limb pattern lets the first carry addition of a round wrap.
    ghost predicate Roomy()
    {
      limbs == 1 || (B + 1) * P() <= BPow(limbs + 1)
    }
  }

  // ---------------------------------------------------------------- what mont_mul computes, wrap-around included

  // The t+1 limb window after i rounds. The reduction modulo B^(t+1) is the carry the code does not look at.
  function Window(a: seq<Limb>, b: nat, p: nat, ninv: Limb, t: nat, i: nat): nat
    requires i <= |a|
  {
    if i == 0 then 0
    else Round((Window(a, b, p, ninv, t, i - 1) + a[i - 1] * b) % BPow(t + 1), p, ninv)
  }

  // The multiplier of p that clears the low limb of w.
  function Factor(w: int, ninv: Limb): Limb
  {
    (w % B) * ninv % B
  }

  function Round(w: nat, p: nat, ninv: Limb): nat
  {
    (w + Factor(w, ninv) * p) / B
  }

  // The conditional subtraction that ends both routines, on t limbs.
  function Finish(w: nat, p: nat, t: nat): nat
  {
    if w >= p then (w - p) % BPow(t) else w
  }

  function Product(a: seq<Limb>, b: nat, p: nat, ninv: Limb): nat
  {
    Finish(Window(a, b, p, ninv, |a|, |a|), p, |a|)
  }

  // ---------------------------------------------------------------- one round on the limbs

  lemma {:induction false} WindowLimbs(z: array<Limb>, lo: nat, t: nat)
    requires lo + t < z.Length
    ensures Val(z[lo..lo + t + 1]) == Val(z[lo..lo + t]) + BPow(t) * z[lo + t]
  {
    ValPush(z[lo..lo + t], z[lo + t]);
    assert z[lo..lo + t + 1] == z[lo..lo + t] + [z[lo + t]];
  }

  lemma {:induction false} LowLimb(s: seq<Limb>)
    requires |s| > 0
    ensures Val(s) % B == s[0] && Val(s) / B == Val(s[1..])
  {
  }

  lemma {:induction false} RoundSum(t: nat, l1: int, v: int, c: int, l2: int, v2: int, f: int, total: int)
    requires l2 + BPow(t) * c == total
    requires v2 + B * f == v + c
    ensures l2 + BPow(t) * v2 + BPow(t + 1) * f == total + BPow(t) * v
  {
    var pw := BPow(t);
    assert BPow(t + 1) == B * pw;
    hide BPow;
    assert pw * (v2 + B * f) == pw * (v + c);
    assert pw * (B * f) == B * pw * f;
  }

  // z[i+t] already holds its new top limb v; add u * p and record the overflow above it.
  method AddMultipleOfP(z: array<Limb>, i: nat, pr: Params, u: Limb)
    requires pr.Sized() && i + pr.limbs + 1 < z.Length
    modifies z
    ensures Val(z[i..i + pr.limbs + 2]) == old(Val(z[i..i + pr.limbs + 1])) + u * pr.P()
    ensures z[i + pr.limbs + 1] <= 1
  {
    hide Val, BPow;
    var t := pr.limbs;
    ghost var l1 := Val(z[i..i + t]);
    WindowLimbs(z, i, t);
    var v := z[t + i];
    var carry := AddMul1(z, i, pr.primelimbs, t, u);
    assert v == z[i + t..][0];
    assert pr.primelimbs[..t] == pr.primelimbs;
    ghost var l2 := Val(z[i..i + t]);
    z[t + i] := (v + carry) % B;
    z[t + i + 1] := if z[t + i] < v then 1 else 0;
    RoundSum(t, l1, v, carry, l2, z[t + i], z[t + i + 1], l1 + pr.P() * u);
    WindowLimbs(z, i, t);
    WindowLimbs(z, i, t + 1);
  }

  lemma {:induction false} WrapSum(t: nat, l: int, f: int, c: int, l1: int, v: int, total: int)
    requires l1 + BPow(t) * c == total + l
    requires v == (f + c) % B && 0 <= l1 < BPow(t)
    ensures l1 + BPow(t) * v == (l + BPow(t) * f + total) % BPow(t + 1)
  {
    var pw := BPow(t);
    assert BPow(t + 1) == B * pw;
    hide BPow;
    var k := (f + c) / B;
    assert f + c == B * k + v;
    assert pw * (B * k + v) == pw * (f + c);
    assert l + pw * f + total == l1 + pw * v + k * (B * pw);
    MulLe(v + 1, B, pw);
    MulLe(0, v, pw);
    DivModUnique(l + pw * f + total, B * pw, k, l1 + pw * v);
  }

  lemma {:induction false} FactorModB(z0: int, a: int, b: int, b0: int, w: int, t: nat)
    requires w % B == z0 && b % B == b0
    ensures (z0 + a * b0) % B == (w + a * b) % BPow(t + 1) % B
  {
    var x := w + a * b;
    ModMul(a, a, b, b0, B) by { ModSmall(b0, B); }
    ModSmall(z0, B);
    ModAdd(w, z0, a * b, a * b0, B);
    assert BPow(t + 1) == B * BPow(t);
    var k := x / BPow(t + 1);
    assert x == BPow(t + 1) * k + x % BPow(t + 1);
    hide BPow;
    assert B * BPow(t) * k == (BPow(t) * k) * B;
    ModIntro(x, x % (B * BPow(t)), BPow(t) * k, B);
  }

  lemma {:induction false} FirstRound(a: seq<Limb>, b: seq<Limb>, p: nat, n: Limb)
    requires |a| == |b| > 0
    ensures Window(a, Val(b), p, n, |a|, 1) == (a[0] * Val(b) + Factor((a[0] as int) * b[0], n) * p) / B
  {
    assert Window(a, Val(b), p, n, |a|, 0) == 0;
    assert Window(a, Val(b), p, n, |a|, 1) == Round((0 + a[0] * Val(b)) % BPow(|a| + 1), p, n);
    hide Window;
    LowLimb(b);
    FactorModB(0, a[0], Val(b), b[0], 0, |a|);
    ValBound(b);
    assert BPow(|a| + 1) == B * BPow(|a|);
    hide Val, BPow;
    SmallProduct(a[0], Val(b), BPow(|a|));
  }

  lemma {:induction false} SmallProduct(a: int, v: int, r: int)
    requires 0 <= a < B && 0 <= v < r
    ensures a * v % (B * r) == a * v
  {
    MulLe(a, B, v);
    MulLe(0, a, v);
    ModSmall(a * v, B * r);
  }

  lemma {:induction false} NextRound(a: seq<Limb>, b: seq<Limb>, p: nat, n: Limb, i: nat, zi: Limb)
    requires i < |a| == |b| && Window(a, Val(b), p, n, |a|, i) % B == zi
    ensures var v := (Window(a, Val(b), p, n, |a|, i) + a[i] * Val(b)) % BPow(|a| + 1);
            Window(a, Val(b), p, n, |a|, i + 1) == Round(v, p, n) && Factor((zi as int) + (a[i] as int) * b[0], n) == Factor(v, n)
  {
    hide *;
    var w := Window(a, Val(b), p, n, |a|, i);
    WindowUnfolds(a, Val(b), p, n, i);
    LowLimb(b);
    FactorModB(zi, a[i], Val(b), b[0], w, |a|);
    SameFactor((w + a[i] * Val(b)) % BPow(|a| + 1), (zi as int) + (a[i] as int) * b[0], n);
  }

  lemma WindowUnfolds(a: seq<Limb>, b: nat, p: nat, n: Limb, i: nat)
    requires i < |a|
    ensures BPow(|a| + 1) > 0
    ensures Window(a, b, p, n, |a|, i + 1) == Round((Window(a, b, p, n, |a|, i) + a[i] * b) % BPow(|a| + 1), p, n)
  {
    hide BPow, Round;
  }

  lemma RoundIs(v: nat, p: nat, n: Limb)
    ensures Round(v, p, n) == (v + Factor(v, n) * p) / B
  {
    hide Factor;
  }

  lemma SameFactor(v: int, u: int, n: Limb)
    requires u % B == v % B
    ensures Factor(u, n) == Factor(v, n)
  {
  }

  lemma {:induction false} LastSubtraction(low: int, top: int, p: int, pw: int, r: int, borrow: int)
    requires 0 <= low < pw && 0 <= top <= 1 && p <= low + pw * top && 0 <= r < pw
    requires r == low - p + pw * borrow
    ensures (low + pw * top - p) % pw == r
  {
    assert low + pw * top - p == (top - borrow) * pw + r;
    DivModUnique(low + pw * top - p, pw, top - borrow, r);
  }

  // The closing step of both routines: subtract p from z[zo..] once if it, with its overflow, is at least p.
  method SubtractOnce(c: array<Limb>, z: array<Limb>, zo: nat, overflow: Limb, pr: Params)
    requires pr.Sized() && c.Length == pr.limbs && zo + pr.limbs <= z.Length && c != z && overflow <= 1
    modifies c
    ensures Val(c[..]) == Finish(old(Val(z[zo..zo + pr.limbs])) + BPow(pr.limbs) * overflow, pr.P(), pr.limbs)
  {
    hide Val, BPow;
    var t := pr.limbs;
    ValBound(z[zo..zo + t]);
    ValBound(pr.primelimbs);
    var cmp := Cmp(z[zo..zo + t], pr.primelimbs);
    if overflow != 0 || cmp >= 0 {
      var borrow := SubN(c, z[zo..zo + t], pr.primelimbs);
      ValBound(c[..]);
      LastSubtraction(Val(z[zo..zo + t]), overflow, pr.P(), BPow(t), Val(c[..]), borrow);
    } else {
      forall k | 0 <= k < t { c[k] := z[zo + k]; }
      assert c[..] == z[zo..zo + t] == old(z[zo..zo + t]);
      assert BPow(t) * overflow == 0;
    }
  }

  // The first round, which fills z instead of adding to it.
  method MontStart(z: array<Limb>, a: seq<Limb>, b: seq<Limb>, pr: Params)
    requires pr.Sized() && |a| == |b| == pr.limbs && z.Length == 2 * pr.limbs + 1
    modifies z
    ensures Val(z[1..pr.limbs + 2]) == Window(a, Val(b), pr.P(), pr.negpinv, pr.limbs, 1)
    ensures z[pr.limbs + 1] <= 1
  {
    hide Val, BPow, Window, Factor;
    var t := pr.limbs;
    var u := Factor((a[0] as int) * b[0], pr.negpinv);
    var carry := Mul1(z, 0, b, t, a[0]);
    assert b[..t] == b;
    z[t] := carry;
    WindowLimbs(z, 0, t);
    FirstRound(a, b, pr.P(), pr.negpinv);
    AddMultipleOfP(z, 0, pr, u);
    LowLimb(z[0..t + 2]);
    assert z[0..t + 2][1..] == z[1..t + 2];
  }

  lemma Swap(x: int, y: int)
    ensures x * y == y * x
  {
  }

  // One pass of the loop of mont_mul: z[i..i+t+1] holds the window after i rounds.
  method MontRound(z: array<Limb>, i: nat, a: seq<Limb>, b: seq<Limb>, pr: Params)
    requires pr.Sized() && |a| == |b| == pr.limbs && i < pr.limbs && z.Length == 2 * pr.limbs + 1
    requires Val(z[i..i + pr.limbs + 1]) == Window(a, Val(b), pr.P(), pr.negpinv, pr.limbs, i)
    modifies z
    ensures Val(z[i + 1..i + pr.limbs + 2]) == Window(a, Val(b), pr.P(), pr.negpinv, pr.limbs, i + 1)
    ensures z[i + pr.limbs + 1] <= 1
  {
    hide Val, BPow, Window, Factor, Round;
    var t := pr.limbs;
    LowLimb(z[i..i + t + 1]);
    var u := Factor((z[i] as int) + (a[i] as int) * b[0], pr.negpinv);
    NextRound(a, b, pr.P(), pr.negpinv, i, z[i]);
    RoundIs((Val(z[i..i + t + 1]) + a[i] * Val(b)) % BPow(t + 1), pr.P(), pr.negpinv);
    ghost var f := z[i + t];
    ghost var l := Val(z[i..i + t]);
    WindowLimbs(z, i, t);
    var carry := AddMul1(z, i, b, t, a[i]);
    assert f == z[i + t..][0] && b[..t] == b;
    ghost var l1 := Val(z[i..i + t]);
    ValBound(z[i..i + t]);
    z[t + i] := (z[t + i] + carry) % B;
    assert Val(z[i..i + t]) == l1;
    Swap(Val(b), a[i]);
    WrapSum(t, l, f, carry, l1, z[t + i], a[i] * Val(b));
    WindowLimbs(z, i, t);
    AddMultipleOfP(z, i, pr, u);
    LowLimb(z[i..i + t + 2]);
    assert z[i..i + t + 2][1..] == z[i + 1..i + t + 2];
  }

  method MontMul(c: array<Limb>, a: array<Limb>, b: array<Limb>, pr: Params)
    requires pr.Sized() && a.Length == b.Length == c.Length == pr.limbs
    modifies c
    ensures Val(c[..]) == old(Product(a[..], Val(b[..]), pr.P(), pr.negpinv))
  {
    hide Val, BPow, Window, Factor, Finish;
    var t := pr.limbs;
    ghost var av, bv := a[..], b[..];
    var z := new Limb[2 * t + 1];
    MontStart(z, a[..], b[..], pr);
    for i := 1 to t
      invariant a[..] == av && b[..] == bv
      invariant Val(z[i..i + t + 1]) == Window(av, Val(bv), pr.P(), pr.negpinv, t, i) && z[i + t] <= 1
    {
      MontRound(z, i, a[..], b[..], pr);
    }
    WindowLimbs(z, t, t);
    assert Val(z[t..t + t]) + BPow(t) * z[t * 2] == Window(av, Val(bv), pr.P(), pr.negpinv, t, t);
    SubtractOnce(c, z, t, z[t * 2], pr);
  }

  // ---------------------------------------------------------------- what the computed value means

  // A round divides exactly: the multiple of p it adds clears the low limb.
  lemma {:induction false} RoundExact(w: nat, p: nat, ninv: Limb)
    requires (p * ninv + 1) % B == 0
    ensures Round(w, p, ninv) * B == w + Factor(w, ninv) * p
  {
    var u := Factor(w, ninv);
    ModMod(w, B);
    ModMod((w % B) * ninv, B);
    ModMul(w % B, w, ninv, ninv, B);
    ModMul(u, w * ninv, p, p, B);
    ModAdd(w, w, u * p, w * ninv * p, B);
    assert w + w * ninv * p == w * (p * ninv + 1);
    ModSmall(0, B);
    ModMul(w, w, p * ninv + 1, 0, B);
  }

  lemma {:induction false} NoWrap(w: nat, x: int, b: nat, pr: Params, i: nat)
    requires pr.Sized() && (pr.Roomy() || i == 0) && b < pr.P() && 0 <= x < B
    requires if i == 0 then w == 0 else w < b + pr.P()
    requires i < pr.limbs
    ensures w + x * b < BPow(pr.limbs + 1)
  {
    ValBound(pr.primelimbs);
    assert BPow(pr.limbs + 1) == B * BPow(pr.limbs);
    var p, pw := pr.P(), BPow(pr.limbs);
    hide Val, BPow;
    MulLe(x, B - 1, b);
    MulLe(b, p - 1, B);
    MulLe(p, pw, B);
  }

  lemma {:induction false} WindowMeans(a: seq<Limb>, b: nat, pr: Params, i: nat)
    requires pr.Ready() && pr.Roomy() && |a| == pr.limbs && b < pr.P() && i <= |a|
    ensures var w := Window(a, b, pr.P(), pr.negpinv, pr.limbs, i);
            w < b + pr.P() && w * BPow(i) % pr.P() == Val(a[..i]) * b % pr.P()
  {
    hide *;
    ReadyMeans(pr);
    RoomKeepsCarries(a, b, pr);
    WindowExact(a, b, pr, i);
    LostNothing(a, b, pr, i);
    NothingLost(Window(a, b, pr.P(), pr.negpinv, pr.limbs, i) * BPow(i), Val(a[..i]) * b, BPow(pr.limbs + 1), Added(a, b, pr, i), pr.P());
  }

  // The closing subtraction leaves the residue class alone and ends below p.
  lemma {:induction false} FinishMeans(w: nat, pr: Params)
    requires pr.Sized() && w < 2 * pr.P()
    ensures var c := Finish(w, pr.P(), pr.limbs);
            c < pr.P() && c * BPow(pr.limbs) % pr.P() == w * BPow(pr.limbs) % pr.P()
  {
    var p, pw: int := pr.P(), BPow(pr.limbs);
    ValBound(pr.primelimbs);
    hide Val, BPow;
    if w >= p {
      ModSmall(w - p, pw);
      assert (w - p) * pw == w * pw + (0 - pw) * p;
      ModIntro((w - p) * pw, w * pw, 0 - pw, p);
    }
  }

  // Main result on mont_mul: a product reduced below p, with one factor B^t divided out.
  lemma {:induction false} ProductMeans(a: seq<Limb>, b: nat, pr: Params)
    requires pr.Ready() && pr.Roomy() && |a| == pr.limbs && b < pr.P()
    ensures var c := Product(a, b, pr.P(), pr.negpinv);
            c < pr.P() && c * BPow(pr.limbs) % pr.P() == Val(a) * b % pr.P()
  {
    WindowMeans(a, b, pr, |a|);
    assert a[..|a|] == a;
    FinishMeans(Window(a, b, pr.P(), pr.negpinv, |a|, |a|), pr);
  }

  // A top limb below B-1 leaves the room the previous lemma asks for.
  lemma {:induction false} TopLimbGivesRoom(pr: Params)
    requires pr.Sized() && pr.primelimbs[pr.limbs - 1] < B - 1
    ensures pr.Roomy()
  {
    var t := pr.limbs;
    ValSnoc(pr.primelimbs, t - 1);
    assert pr.primelimbs[..t] == pr.primelimbs;
    ValBound(pr.primelimbs[..t - 1]);
    assert BPow(t) == B * BPow(t - 1) && BPow(t + 1) == B * BPow(t);
    hide Val, BPow;
    RoomBelowTop(pr.P(), BPow(t - 1), pr.primelimbs[t - 1]);
  }

  lemma {:induction false} RoomBelowTop(p: int, pw: int, top: int)
    requires 0 < pw && p < pw + pw * top && top <= B - 2
    ensures (B + 1) * p <= B * (B * pw)
  {
    MulLe(top, B - 2, pw);
  }

  // ---------------------------------------------------------------- exactly when no carry is lost

  ghost predicate Right(a: seq<Limb>, b: nat, pr: Params)
    requires pr.Sized() && |a| == pr.limbs
  {
    var c := Product(a, b, pr.P(), pr.negpinv);
    c < pr.P() && c * BPow(pr.limbs) % pr.P() == Val(a) * b % pr.P()
  }

  // The total of a round, before the limb above the window is dropped.
  function Total(a: seq<Limb>, b: nat, pr: Params, i: nat): nat
    requires i < |a|
  {
    Window(a, b, pr.P(), pr.negpinv, |a|, i) + a[i] * b
  }

  ghost predicate KeepsCarries(a: seq<Limb>, b: nat, pr: Params)
  {
    forall i :: 0 <= i < |a| ==> Total(a, b, pr, i) < BPow(|a| + 1)
  }

  // The carries lost in the first i rounds, one binary digit a round, to the base B.
  function Lost(a: seq<Limb>, b: nat, pr: Params, i: nat): nat
    requires i <= |a|
  {
    if i == 0 then 0 else Lost(a, b, pr, i - 1) + if Total(a, b, pr, i - 1) < BPow(|a| + 1) then 0 else BPow(i - 1)
  }

  // The multiples of p added in the first i rounds.
  function Added(a: seq<Limb>, b: nat, pr: Params, i: nat): nat
    requires i <= |a|
  {
    if i == 0 then 0
    else Added(a, b, pr, i - 1) + BPow(i - 1) * Factor(Total(a, b, pr, i - 1) % BPow(|a| + 1), pr.negpinv)
  }

  lemma {:induction false} OneCarry(w: int, x: int, b: int, p: int, top: int)
    requires 0 <= w < b + p && 0 <= x < B && 0 <= b < p && B * p <= top
    ensures 0 <= w + x * b < 2 * top
    ensures (w + x * b) % top == w + x * b - if w + x * b < top then 0 else top
  {
    MulLe(x, B - 1, b);
    MulLe(0, x, b);
    var n := w + x * b;
    if n < top { ModSmall(n, top); } else { DivModUnique(n, top, 1, n - top); }
  }

  lemma {:induction false} RadixRoom(pr: Params)
    requires pr.Sized()
    ensures B * pr.P() <= BPow(pr.limbs + 1)
  {
    ValBound(pr.primelimbs);
    assert BPow(pr.limbs + 1) == B * BPow(pr.limbs);
    hide Val, BPow;
    MulLe(pr.P(), BPow(pr.limbs), B);
  }

  // The window, exactly: what was lost and what was added account for the difference.
  lemma {:induction false} WindowExact(a: seq<Limb>, b: nat, pr: Params, i: nat)
    requires pr.Ready() && |a| == pr.limbs && b < pr.P() && i <= |a|
    ensures var w := Window(a, b, pr.P(), pr.negpinv, pr.limbs, i);
            w < b + pr.P() && w * BPow(i) + BPow(pr.limbs + 1) * Lost(a, b, pr, i) == Val(a[..i]) * b + Added(a, b, pr, i) * pr.P()
  {
    hide *;
    ReadyMeans(pr);
    WindowBegins(a, b, pr);
    if i > 0 {
      WindowExact(a, b, pr, i - 1);
      RadixRoom(pr);
      ScaledSnoc(a, i - 1, b);
      WindowUnfolds(a, b, pr.P(), pr.negpinv, i - 1);
      LostUnfolds(a, b, pr, i);
      var p, top := pr.P(), BPow(pr.limbs + 1);
      var w := Window(a, b, p, pr.negpinv, pr.limbs, i - 1);
      var x: int, v := a[i - 1], Total(a, b, pr, i - 1) % top;
      var u, r := Factor(v, pr.negpinv), Round(v, p, pr.negpinv);
      var k := if Total(a, b, pr, i - 1) < top then 0 else 1;
      RoundExact(v, p, pr.negpinv);
      OneCarry(w, x, b, p, top);
      ExactBound(r, w, x, b, u, p, k, top);
      ExactStep(r, w, x, b, u, p, k, top, BPow(i - 1), Lost(a, b, pr, i - 1), Added(a, b, pr, i - 1), Val(a[..i - 1]));
    }
  }

  lemma ReadyMeans(pr: Params)
    requires pr.Ready()
    ensures pr.Sized() && pr.limbs == |pr.primelimbs| > 0 && pr.P() > 1 && (pr.P() * pr.negpinv + 1) % B == 0
  {
    hide Val;
  }

  lemma WindowBegins(a: seq<Limb>, b: nat, pr: Params)
    ensures Window(a, b, pr.P(), pr.negpinv, pr.limbs, 0) == 0 && Lost(a, b, pr, 0) == 0 && Added(a, b, pr, 0) == 0 && Val(a[..0]) == 0
  {
  }

  lemma LostUnfolds(a: seq<Limb>, b: nat, pr: Params, i: nat)
    requires 0 < i <= |a|
    ensures BPow(i) == B * BPow(i - 1) && Total(a, b, pr, i - 1) == Window(a, b, pr.P(), pr.negpinv, |a|, i - 1) + a[i - 1] * b
    ensures Lost(a, b, pr, i) == Lost(a, b, pr, i - 1) + (if Total(a, b, pr, i - 1) < BPow(|a| + 1) then 0 else 1) * BPow(i - 1)
    ensures Added(a, b, pr, i) == Added(a, b, pr, i - 1) + BPow(i - 1) * Factor(Total(a, b, pr, i - 1) % BPow(|a| + 1), pr.negpinv)
  {
    hide Val, Window, Factor;
  }

  lemma {:induction false} ExactBound(r: int, w: int, x: int, b: int, u: int, p: int, k: int, top: int)
    requires r * B == w + x * b - k * top + u * p && w < b + p && 0 <= k && 0 <= top
    requires 0 <= x < B && 0 <= u < B && 0 <= b && 0 < p
    ensures r < b + p
  {
    MulLe(x, B - 1, b);
    MulLe(u, B - 1, p);
    MulLe(0, k, top);
  }

  lemma {:induction false} ExactStep(r: int, w: int, x: int, b: int, u: int, p: int, k: int, top: int, pw: int, l: int, m: int, v: int)
    requires r * B == w + x * b - k * top + u * p && w * pw + top * l == v * b + m * p
    ensures r * (B * pw) + top * (l + k * pw) == (v * b + pw * x * b) + (m + pw * u) * p
  {
    assert r * (B * pw) == (r * B) * pw;
    ExactTerms(w, x * b, k * top, u * p, pw);
    assert x * b * pw == pw * x * b && k * top * pw == top * (k * pw) && u * p * pw == pw * u * p;
    assert (m + pw * u) * p == m * p + pw * u * p && top * (l + k * pw) == top * l + top * (k * pw);
  }

  lemma ExactTerms(w: int, x: int, k: int, u: int, pw: int)
    ensures (w + x - k + u) * pw == w * pw + x * pw - k * pw + u * pw
  {
  }

  // Nothing is lost exactly when every total fits; and a sum of lost carries is small.
  lemma {:induction false} LostDigits(a: seq<Limb>, b: nat, pr: Params, i: nat)
    requires i <= |a|
    ensures Lost(a, b, pr, i) == 0 <==> forall j :: 0 <= j < i ==> Total(a, b, pr, j) < BPow(|a| + 1)
    ensures (B - 1) * Lost(a, b, pr, i) < BPow(i)
  {
    if i > 0 {
      LostDigits(a, b, pr, i - 1);
      assert BPow(i) == B * BPow(i - 1);
    }
  }

  // B is a unit modulo p.
  lemma {:induction false} RadixCancels(x: int, n: nat, pr: Params)
    requires pr.Ready() && BPow(n) * x % pr.P() == 0
    ensures x % pr.P() == 0
  {
    if n == 0 {
      assert BPow(n) * x == x;
    } else {
      assert BPow(n) == B * BPow(n - 1);
      var y, k, q := BPow(n - 1) * x, (pr.P() * pr.negpinv + 1) / B, BPow(n) * x / pr.P();
      assert pr.P() * pr.negpinv + 1 == B * k && BPow(n) * x == q * pr.P();
      hide BPow, Val;
      RadixCancelsOnce(y, pr.P(), pr.negpinv, k, q) by { assert B * BPow(n - 1) * x == B * y; }
      RadixCancels(x, n - 1, pr);
    }
  }

  lemma {:induction false} RadixCancelsOnce(y: int, p: int, n: int, k: int, q: int)
    requires p > 0 && B * y == q * p && p * n + 1 == B * k
    ensures y % p == 0
  {
    UnitTimes(y, p, n, k, q);
    Difference(k * q, n * y, p);
    ModZero(k * q - n * y, p);
  }

  lemma UnitTimes(y: int, p: int, n: int, k: int, q: int)
    requires B * y == q * p && p * n + 1 == B * k
    ensures y == (k * q) * p - (n * y) * p
  {
    assert (B * k) * y == k * (B * y) == k * (q * p) == (k * q) * p;
    assert (p * n + 1) * y == (n * y) * p + y;
  }

  lemma {:induction false} RightByWindow(a: seq<Limb>, b: nat, pr: Params)
    requires pr.Ready() && |a| == pr.limbs && b < pr.P()
    ensures var w := Window(a, b, pr.P(), pr.negpinv, pr.limbs, pr.limbs);
            Right(a, b, pr) <==> w * BPow(pr.limbs) % pr.P() == Val(a) * b % pr.P()
  {
    hide Val, BPow, Window, Lost, Added, Finish;
    WindowExact(a, b, pr, pr.limbs);
    FinishMeans(Window(a, b, pr.P(), pr.negpinv, pr.limbs, pr.limbs), pr);
  }

  lemma {:induction false} LostDecides(a: seq<Limb>, b: nat, pr: Params)
    requires |a| == pr.limbs
    ensures Lost(a, b, pr, pr.limbs) == 0 <==> KeepsCarries(a, b, pr)
    ensures (B - 1) * Lost(a, b, pr, pr.limbs) < BPow(pr.limbs)
  {
    hide Val, BPow, Window, Lost, Total;
    LostDigits(a, b, pr, pr.limbs);
  }

  lemma {:induction false} WindowWhole(a: seq<Limb>, b: nat, pr: Params)
    requires pr.Ready() && |a| == pr.limbs && b < pr.P()
    ensures Window(a, b, pr.P(), pr.negpinv, pr.limbs, pr.limbs) * BPow(pr.limbs) + BPow(pr.limbs + 1) * Lost(a, b, pr, pr.limbs) ==
      Val(a) * b + Added(a, b, pr, pr.limbs) * pr.P()
  {
    hide Val, BPow, Window, Lost, Added;
    WindowExact(a, b, pr, pr.limbs);
    assert a[..pr.limbs] == a;
  }

  // mont_mul is right exactly when no total of a round needs a limb more than the window has.
  lemma {:induction false} ProductIff(a: seq<Limb>, b: nat, pr: Params)
    requires pr.Ready() && |a| == pr.limbs && b < pr.P()
    ensures Right(a, b, pr) <==> KeepsCarries(a, b, pr)
  {
    hide Val, BPow, Window, Lost, Added, Right, KeepsCarries, Pow;
    var t, p, lost := pr.limbs, pr.P(), Lost(a, b, pr, pr.limbs);
    RightByWindow(a, b, pr);
    WindowWhole(a, b, pr);
    LostDecides(a, b, pr);
    var x, y := Window(a, b, p, pr.negpinv, t, t) * BPow(t), Val(a) * b;
    if lost == 0 {
      NothingLost(x, y, BPow(t + 1), Added(a, b, pr, t), p);
    } else {
      if pr.Roomy() { RoomKeepsCarries(a, b, pr); }
      LostBelowModulus(lost, pr);
      if x % p == y % p {
        LostVanishes(x, y, BPow(t + 1) * lost, Added(a, b, pr, t), p);
        RadixCancels(lost, t + 1, pr);
        ModSmall(lost, p);
      }
    }
  }

  lemma {:induction false} NothingLost(x: int, y: int, top: int, m: int, p: int)
    requires p > 0 && x + top * 0 == y + m * p
    ensures x % p == y % p
  {
    ModIntro(x, y, m, p);
  }

  lemma {:induction false} LostVanishes(x: int, y: int, z: int, m: int, p: int)
    requires p > 0 && x + z == y + m * p && x % p == y % p
    ensures z % p == 0
  {
    var k := ModElim(x, y, p);
    Difference(m, k, p);
    ModZero(m - k, p);
  }

  lemma Difference(m: int, k: int, p: int)
    ensures (m - k) * p == m * p - k * p
  {
  }

  lemma {:induction false} LostBelowModulus(lost: nat, pr: Params)
    requires pr.Sized() && !pr.Roomy() && (B - 1) * lost < BPow(pr.limbs)
    ensures lost < pr.P()
  {
    assert BPow(pr.limbs + 1) == B * BPow(pr.limbs);
    hide BPow, Val;
  }

  lemma LostNothing(a: seq<Limb>, b: nat, pr: Params, i: nat)
    requires i <= |a| && KeepsCarries(a, b, pr)
    ensures Lost(a, b, pr, i) == 0
  {
    hide Total, BPow, Lost;
    LostDigits(a, b, pr, i);
  }

  lemma {:induction false} RoomKeepsCarries(a: seq<Limb>, b: nat, pr: Params)
    requires pr.Ready() && |a| == pr.limbs && b < pr.P() && pr.Roomy()
    ensures KeepsCarries(a, b, pr)
  {
    hide Val, BPow, Window, Lost, Added;
    WindowBegins(a, b, pr);
    forall i | 0 <= i < |a| ensures Total(a, b, pr, i) < BPow(|a| + 1) {
      WindowExact(a, b, pr, i);
      NoWrap(Window(a, b, pr.P(), pr.negpinv, pr.limbs, i), a[i], b, pr, i);
    }
  }

  // ---------------------------------------------------------------- which moduli multiply right

  // Every product of operands below p is right.
  ghost predicate Multiplies(pr: Params)
  {
    pr.Sized() && forall a, b :: |a| == pr.limbs && Val(a) < pr.P() && 0 <= b < pr.P() ==> Right(a, b, pr)
  }

  lemma {:induction false} RoomMultiplies(pr: Params)
    requires pr.Ready() && pr.Roomy()
    ensures Multiplies(pr)
  {
    hide Right, KeepsCarries;
    forall a: seq<Limb>, b | |a| == pr.limbs && Val(a) < pr.P() && 0 <= b < pr.P() ensures Right(a, b, pr) {
      RoomKeepsCarries(a, b, pr);
      ProductIff(a, b, pr);
    }
  }

  lemma ProductRight(a: seq<Limb>, b: nat, pr: Params)
    requires Multiplies(pr) && |a| == pr.limbs && Val(a) < pr.P() && b < pr.P()
    ensures var c := Product(a, b, pr.P(), pr.negpinv);
            c < pr.P() && c * BPow(pr.limbs) % pr.P() == Val(a) * b % pr.P()
  {
    hide Val, BPow, Product;
    assert Right(a, b, pr);
  }

  // ---------------------------------------------------------------- reduction of a double-length value

  lemma {:induction false} ThreeParts(y: seq<Limb>, i: nat, t: nat)
    requires |y| == 2 * t && i < t
    ensures Val(y) == Val(y[..i]) + BPow(i) * (Val(y[i..i + t]) + BPow(t) * Val(y[i + t..]))
  {
    hide Val, BPow;
    ValSplit(y, i);
    ValSplit(y[i..], t);
    assert y[i..][..t] == y[i..i + t] && y[i..][t..] == y[i + t..];
  }

  lemma {:induction false} ReduceSum(p: int, q: int, s: int, x: int, z: int, x1: int, z1: int, c: int, f: int, up: int)
    requires x1 + q * c == x + up
    requires z1 + s * f == z + c
    ensures p * (x1 + q * z1) + f * (p * q * s) == p * (x + q * z) + p * up
  {
    assert q * (z1 + s * f) == q * (z + c);
    assert x1 + q * z1 + f * (q * s) == x + q * z + up;
    assert p * (x1 + q * z1 + f * (q * s)) == p * (x + q * z + up);
    assert p * (f * (q * s)) == f * (p * q * s);
  }

  lemma ThreeFactors(a: int, b: int, c: int)
    ensures a * (b * c) == a * c * b
  {
  }

  // What one pass does to the whole array: y0 before, y1 after the multiply-add, y2 after the carry.
  lemma {:induction false} ReduceRoundMeans(y0: seq<Limb>, y1: seq<Limb>, y2: seq<Limb>, i: nat, pr: Params, u: int, c: int, f: int)
    requires pr.Ready() && |y0| == |y1| == |y2| == 2 * pr.limbs && i < pr.limbs
    requires u == Factor(y0[i], pr.negpinv)
    requires y1[..i] == y0[..i] && y1[i + pr.limbs..] == y0[i + pr.limbs..] && y2[..i + pr.limbs] == y1[..i + pr.limbs]
    requires Val(y1[i..i + pr.limbs]) + BPow(pr.limbs) * c == Val(y0[i..i + pr.limbs]) + pr.P() * u
    requires Val(y2[i + pr.limbs..]) + BPow(pr.limbs - i) * f == Val(y1[i + pr.limbs..]) + c
    ensures Val(y2) + f * BPow(2 * pr.limbs) == Val(y0) + BPow(i) * u * pr.P()
    ensures y2[i] == 0 && y2[..i] == y0[..i]
  {
    hide Val, BPow, Factor;
    var t := pr.limbs;
    ThreeParts(y0, i, t);
    ThreeParts(y2, i, t);
    assert y2[..i] == y2[..i + t][..i] == y1[..i + t][..i] == y1[..i];
    assert y2[i..i + t] == y2[..i + t][i..] == y1[..i + t][i..] == y1[i..i + t];
    BPowAdd(i, t);
    BPowAdd(i + t, t - i);
    LowLimbCleared(y0[i..i + t], y1[i..i + t], pr, c, u);
    assert y2[i] == y1[i..i + t][0];
    var up := pr.P() * u;
    ThreeFactors(BPow(i), pr.P(), u);
    ReduceSum(BPow(i), BPow(t), BPow(t - i), Val(y0[i..i + t]), Val(y0[i + t..]), Val(y1[i..i + t]), Val(y2[i + t..]), c, f, up);
  }

  // One pass of the loop of mont_reduce.
  method ReduceRound(y: array<Limb>, i: nat, pr: Params) returns (ghost u: Limb, f: Limb)
    requires pr.Ready() && y.Length == 2 * pr.limbs && i < pr.limbs
    modifies y
    ensures y[..i] == old(y[..i]) && y[i] == 0
    ensures f <= 1
    ensures Val(y[..]) + f * BPow(2 * pr.limbs) == old(Val(y[..])) + BPow(i) * u * pr.P()
  {
    hide Val, BPow, Factor;
    var t := pr.limbs;
    ghost var y0 := y[..];
    var uu := Factor(y[i], pr.negpinv);
    u := uu;
    var carry := AddMul1(y, i, pr.primelimbs, t, uu);
    ghost var y1 := y[..];
    assert pr.primelimbs[..t] == pr.primelimbs;
    assert y1[i..i + t] == y[i..i + t] && y0[i..i + t] == old(y[i..i + t]);
    assert y1[..i] == y[..i] && y0[..i] == old(y[..i]) && y1[i + t..] == y[i + t..] && y0[i + t..] == old(y[i + t..]);
    label middle:
    f := Add1(y, i + t, t - i, carry);
    ghost var y2 := y[..];
    assert y2[i + t..] == y[i + t..i + t + (t - i)] && y1[i + t..] == old@middle(y[i + t..i + t + (t - i)]);
    assert y2[..i + t] == y[..i + t] && y1[..i + t] == old@middle(y[..i + t]);
    ReduceRoundMeans(y0, y1, y2, i, pr, uu, carry, f);
    assert y2[..i] == y[..i];
  }

  lemma {:induction false} FactorOfLowLimb(x: seq<Limb>, n: Limb)
    requires |x| > 0
    ensures Factor(Val(x), n) == Factor(x[0], n)
  {
    LowLimb(x);
    ModMod(Val(x), B);
  }

  lemma {:induction false} LowLimbCleared(x: seq<Limb>, x1: seq<Limb>, pr: Params, carry: int, u: int)
    requires pr.Ready() && |x| == |x1| == pr.limbs && u == Factor(x[0], pr.negpinv)
    requires Val(x1) + BPow(pr.limbs) * carry == Val(x) + pr.P() * u
    ensures x1[0] == 0
  {
    var q := BPow(pr.limbs - 1);
    assert BPow(pr.limbs) == B * q;
    hide Val, BPow, Factor, Round;
    FactorOfLowLimb(x, pr.negpinv);
    RoundExact(Val(x), pr.P(), pr.negpinv);
    LowLimb(x1);
    MultipleOfB(Val(x1), Round(Val(x), pr.P(), pr.negpinv), q, carry, Val(x) + u * pr.P());
  }

  lemma {:induction false} MultipleOfB(x1: int, r: int, q: int, c: int, s: int)
    requires x1 + B * q * c == s && r * B == s
    ensures x1 % B == 0
  {
    assert B * q * c == (q * c) * B;
    ModZero(r - q * c, B);
  }

  lemma {:induction false} BPowMonotone(i: nat, j: nat)
    requires i <= j
    ensures BPow(i) <= BPow(j)
  {
    BPowAdd(i, j - i);
    MulLe(1, BPow(j - i), BPow(i));
  }

  lemma {:induction false} FlagBound(y0: nat, us: int, u: int, pr: Params, i: nat, flag: int, y: nat)
    requires pr.Ready() && i < pr.limbs && 0 <= us < BPow(i) && 0 <= u < B
    requires y0 < pr.P() * BPow(pr.limbs)
    requires y + flag * BPow(2 * pr.limbs) == y0 + us * pr.P() + BPow(i) * u * pr.P()
    ensures us + BPow(i) * u < BPow(i + 1)
    ensures flag <= 1
    ensures y + flag * BPow(2 * pr.limbs) == y0 + (us + BPow(i) * u) * pr.P()
  {
    var t := pr.limbs;
    ValBound(pr.primelimbs);
    BPowAdd(t, t);
    BPowMonotone(i + 1, t);
    assert BPow(i + 1) == B * BPow(i);
    hide Val, BPow;
    FlagBoundInt(y0, us, u, pr.P(), BPow(t), BPow(i), flag, y);
  }

  lemma {:induction false} FlagBoundInt(y0: int, us: int, u: int, p: int, pw: int, q: int, flag: int, y: int)
    requires 0 < p < pw && 0 <= us < q && 0 <= u < B && B * q <= pw && y0 < p * pw && 0 <= y
    requires y + flag * (pw * pw) == y0 + us * p + q * u * p
    ensures us + q * u < B * q
    ensures flag <= 1
    ensures y + flag * (pw * pw) == y0 + (us + q * u) * p
  {
    MulLe(u, B - 1, q);
    var v := us + q * u;
    assert v * p == us * p + q * u * p;
    MulLe(v, pw, p);
    MulLe(p, pw, pw);
    if flag >= 2 { MulLe(2, flag, pw * pw); }
  }

  lemma {:induction false} ReducedMeans(y0: nat, us: int, w: nat, pr: Params)
    requires pr.Ready() && 0 <= us < BPow(pr.limbs) && y0 < pr.P() * BPow(pr.limbs)
    requires w * BPow(pr.limbs) == y0 + us * pr.P()
    ensures var c := Finish(w, pr.P(), pr.limbs); c < pr.P() && c * BPow(pr.limbs) % pr.P() == y0 % pr.P()
  {
    var p, pw := pr.P(), BPow(pr.limbs);
    if w >= 2 * p {
      hide *;
      MulLe(us, pw, p);
      MulLe(2 * p, w, pw);
    }
    FinishMeans(w, pr);
    ModMultiple(y0, us, p);
  }

  lemma {:induction false} UpperHalf(y: seq<Limb>, t: nat, flag: int)
    requires |y| == 2 * t && forall k :: 0 <= k < t ==> y[k] == 0
    ensures (Val(y[t..t + t]) + BPow(t) * flag) * BPow(t) == Val(y) + flag * BPow(2 * t)
  {
    hide Val, BPow;
    ValSplit(y, t);
    assert y[t..] == y[t..t + t];
    ValZeros(y[..t]);
    BPowAdd(t, t);
    HalvesMultiply(Val(y[t..t + t]), BPow(t), flag);
  }

  lemma HalvesMultiply(v: int, pw: int, flag: int)
    ensures (v + pw * flag) * pw == pw * v + flag * (pw * pw)
  {
  }

  // The state after i passes: us*p has been added, the i low limbs are zero, flag is the limb above the array.
  ghost predicate Reducing(y: seq<Limb>, i: nat, us: int, flag: int, y0: int, pr: Params)
  {
    && |y| == 2 * pr.limbs && i <= pr.limbs && 0 <= us < BPow(i) && 0 <= flag <= 1
    && (forall k :: 0 <= k < i ==> y[k] == 0)
    && Val(y) + flag * BPow(2 * pr.limbs) == y0 + us * pr.P()
  }

  lemma ReducingStart(y: seq<Limb>, pr: Params)
    requires |y| == 2 * pr.limbs
    ensures Reducing(y, 0, 0, 0, Val(y), pr)
  {
    hide Val;
  }

  lemma {:induction false} ReducingStep(y: seq<Limb>, y': seq<Limb>, i: nat, us: int, flag: int, u: int, f: int, y0: nat, pr: Params)
    requires pr.Ready() && Reducing(y, i, us, flag, y0, pr) && i < pr.limbs && 0 <= u < B && 0 <= f <= 1 && y0 < pr.P() * BPow(pr.limbs)
    requires |y'| == |y| && y'[..i] == y[..i] && y'[i] == 0
    requires Val(y') + f * BPow(2 * pr.limbs) == Val(y) + BPow(i) * u * pr.P()
    ensures flag + f <= 1 && Reducing(y', i + 1, us + BPow(i) * u, flag + f, y0, pr)
  {
    hide Val, BPow;
    Distribute(flag, f, BPow(2 * pr.limbs));
    FlagBound(y0, us, u, pr, i, flag + f, Val(y'));
    UsGrows(us, BPow(i), u);
    forall k | 0 <= k < i + 1 ensures y'[k] == 0 {
      if k < i { assert y'[k] == y'[..i][k] == y[..i][k]; }
    }
  }

  lemma UsGrows(us: int, pw: int, u: int)
    requires us >= 0 && pw >= 0 && u >= 0
    ensures us + pw * u >= 0
  {
    MulLe(0, pw, u);
  }

  lemma ReducingMeans(y: seq<Limb>, us: int, flag: int, y0: int, pr: Params)
    requires Reducing(y, pr.limbs, us, flag, y0, pr)
    ensures |y| == 2 * pr.limbs && 0 <= us < BPow(pr.limbs) && 0 <= flag <= 1
    ensures (forall k :: 0 <= k < pr.limbs ==> y[k] == 0) && Val(y) + flag * BPow(2 * pr.limbs) == y0 + us * pr.P()
  {
    hide Val, BPow;
  }

  lemma {:induction false} ReducingEnd(y: seq<Limb>, us: int, flag: int, y0: nat, pr: Params)
    requires pr.Ready() && Reducing(y, pr.limbs, us, flag, y0, pr) && y0 < pr.P() * BPow(pr.limbs)
    ensures |y| == 2 * pr.limbs && Val(y[pr.limbs..pr.limbs + pr.limbs]) + BPow(pr.limbs) * flag >= 0
    ensures var c := Finish(Val(y[pr.limbs..pr.limbs + pr.limbs]) + BPow(pr.limbs) * flag, pr.P(), pr.limbs);
            c < pr.P() && c * BPow(pr.limbs) % pr.P() == y0 % pr.P()
  {
    hide *;
    ReadyMeans(pr);
    ReducingMeans(y, us, flag, y0, pr);
    var t := pr.limbs;
    UpperHalf(y, t, flag);
    UsGrows(Val(y[t..t + t]), BPow(t), flag);
    ReducedMeans(y0, us, Val(y[t..t + t]) + BPow(t) * flag, pr);
  }

  method MontReduce(x: array<Limb>, y: array<Limb>, pr: Params)
    requires pr.Ready() && x.Length == pr.limbs && y.Length == 2 * pr.limbs && x != y
    requires Val(y[..]) < pr.P() * BPow(pr.limbs)
    modifies x, y
    ensures Val(x[..]) < pr.P()
    ensures Val(x[..]) * BPow(pr.limbs) % pr.P() == old(Val(y[..])) % pr.P()
  {
    hide *;
    ReadyMeans(pr);
    var t := pr.limbs;
    ghost var y0 := Val(y[..]);
    ghost var us := 0;
    var flag: Limb := 0;
    ReducingStart(y[..], pr);
    for i := 0 to t
      invariant flag <= 1 && Reducing(y[..], i, us, flag, y0, pr)
    {
      ghost var u;
      var f;
      ghost var before := y[..];
      u, f := ReduceRound(y, i, pr);
      assert y[..][..i] == y[..i] && before[..i] == before[..][..i];
      ReducingStep(before, y[..], i, us, flag, u, f, y0, pr);
      us := us + BPow(i) * u;
      flag := flag + f;
    }
    ReducingEnd(y[..], us, flag, y0, pr);
    assert y[..][t..t + t] == y[t..t + t];
    SubtractOnce(x, y, t, flag, pr);
  }
}
