// Natural numbers as arrays of machine words, least significant limb first, and the mpn_* loops on them.
module Limbs {
  import opened Arith

  const B: int := 0x1_0000_0000_0000_0000

  type Limb = x: int | 0 <= x < B

  function Val(s: seq<Limb>): nat
  {
    if |s| == 0 then 0 else s[0] + B * Val(s[1..])
  }

  function BPow(n: nat): nat
    ensures BPow(n) > 0
  {
    if n == 0 then 1 else B * BPow(n - 1)
  }

  // ---------------------------------------------------------------- positional value

  lemma {:induction false} ValConcat(s: seq<Limb>, u: seq<Limb>)
    ensures Val(s + u) == Val(s) + BPow(|s|) * Val(u)
  {
    if |s| == 0 {
      assert s + u == u;
    } else {
      ValConcat(s[1..], u);
      assert (s + u)[1..] == s[1..] + u;
      assert B * (Val(s[1..]) + BPow(|s| - 1) * Val(u)) == B * Val(s[1..]) + BPow(|s|) * Val(u);
    }
  }

  lemma {:induction false} ValPush(s: seq<Limb>, x: Limb)
    ensures Val(s + [x]) == Val(s) + BPow(|s|) * x
  {
    ValConcat(s, [x]);
    assert Val([x]) == x + B * Val([]);
  }

  lemma ValNone(s: seq<Limb>)
    requires |s| == 0
    ensures Val(s) == 0
  {
  }

  lemma {:induction false} ValOne(x: Limb)
    ensures Val([x]) == x && BPow(1) == B
  {
    ValPush([], x);
    assert BPow(1) == B * BPow(0);
  }

  lemma {:induction false} ValSnoc(s: seq<Limb>, i: nat)
    requires i < |s|
    ensures Val(s[..i + 1]) == Val(s[..i]) + BPow(i) * s[i]
  {
    ValPush(s[..i], s[i]);
    assert s[..i + 1] == s[..i] + [s[i]];
  }

  lemma {:induction false} ValSplit(s: seq<Limb>, i: nat)
    requires i <= |s|
    ensures Val(s) == Val(s[..i]) + BPow(i) * Val(s[i..])
  {
    hide Val, BPow;
    ValConcat(s[..i], s[i..]);
    assert s == s[..i] + s[i..];
  }

  lemma {:induction false} ValBound(s: seq<Limb>)
    ensures Val(s) < BPow(|s|)
  {
    if |s| > 0 {
      ValBound(s[1..]);
      MulLe(Val(s[1..]) + 1, BPow(|s| - 1), B);
    }
  }

  // Equal lengths and equal values mean equal limbs.
  lemma {:induction false} ValInjective(s: seq<Limb>, u: seq<Limb>)
    requires |s| == |u| && Val(s) == Val(u)
    ensures s == u
  {
    if |s| > 0 {
      assert s[0] == u[0] && Val(s[1..]) == Val(u[1..]);
      ValInjective(s[1..], u[1..]);
      assert s == [s[0]] + s[1..] && u == [u[0]] + u[1..];
    }
  }

  lemma {:induction false} ValZeros(s: seq<Limb>)
    requires forall k :: 0 <= k < |s| ==> s[k] == 0
    ensures Val(s) == 0
  {
    if |s| > 0 { ValZeros(s[1..]); }
  }

  lemma BPowAdd(m: nat, n: nat)
    ensures BPow(m + n) == BPow(m) * BPow(n)
  {
    if m > 0 {
      BPowAdd(m - 1, n);
      assert BPow(m + n) == B * BPow(m - 1 + n);
    }
  }

  // The limbs of v: mpz_export followed by the zeroing of the leading limbs.
  function ToLimbs(v: nat, n: nat): (s: seq<Limb>)
    requires v < BPow(n)
    ensures |s| == n && Val(s) == v
  {
    if n == 0 then [] else [v % B] + ToLimbs(v / B, n - 1)
  }

  // ---------------------------------------------------------------- mpn loops

  // One limb of a carry loop: the new limb lo and the new carry hi absorb x * y + u.
  lemma {:induction false} CarryStep(done: seq<Limb>, carry: int, x: int, y: int, u: int, lo: Limb, hi: int, total: int)
    requires Val(done) + BPow(|done|) * carry == total
    requires lo + B * hi == x * y + u + carry
    ensures Val(done + [lo]) + BPow(|done| + 1) * hi == total + BPow(|done|) * x * y + BPow(|done|) * u
  {
    ValPush(done, lo);
    hide Val;
    var pw := BPow(|done|);
    assert BPow(|done| + 1) == B * pw;
    hide BPow;
    assert pw * (lo + B * hi) == pw * (x * y + u + carry);
    assert pw * (B * hi) == B * pw * hi;
  }

  lemma {:induction false} MulBound(x: int, y: int)
    requires 0 <= x < B && 0 <= y < B
    ensures 0 <= x * y <= B * B - 2 * B + 1
  {
    MulLe(0, x, y);
    MulLe(x, B - 1, y);
    MulLe(y, B - 1, B - 1);
    assert (B - 1) * y == y * (B - 1);
    assert (B - 1) * (B - 1) == B * B - 2 * B + 1;
  }

  // The value of b[..i+1] times x, unfolded at its top limb.
  lemma {:induction false} ScaledSnoc(b: seq<Limb>, i: nat, x: int)
    requires i < |b|
    ensures Val(b[..i + 1]) * x == Val(b[..i]) * x + BPow(i) * b[i] * x
  {
    hide Val, BPow;
    ValSnoc(b, i);
    Distribute(Val(b[..i]), BPow(i) * b[i], x);
  }

  lemma Distribute(a: int, b: int, x: int)
    ensures (a + b) * x == a * x + b * x
  {
  }

  // One limb of the multiply-add loop; z0 holds what is added to.
  lemma {:induction false} MulStep(done: seq<Limb>, carry: Limb, b: seq<Limb>, i: nat, x: Limb, z0: seq<Limb>)
    requires i < |b| && i < |z0| && |done| == i && Val(done) + BPow(i) * carry == Val(z0[..i]) + Val(b[..i]) * x
    ensures var prod := b[i] * x + carry + z0[i];
            0 <= prod < B * B && Val(done + [prod % B]) + BPow(i + 1) * (prod / B) == Val(z0[..i + 1]) + Val(b[..i + 1]) * x
  {
    hide Val, BPow;
    MulBound(b[i], x);
    var prod := b[i] * x + carry + z0[i];
    CarryStep(done, carry, b[i], x, z0[i], prod % B, prod / B, Val(z0[..i]) + Val(b[..i]) * x);
    ScaledSnoc(b, i, x);
    ValSnoc(z0, i);
  }

  // z[zo..zo+n] := b[..n] * x, returning the carry limb.
  method Mul1(z: array<Limb>, zo: nat, b: seq<Limb>, n: nat, x: Limb) returns (carry: Limb)
    requires zo + n <= z.Length && n <= |b|
    modifies z
    ensures Val(z[zo..zo + n]) + BPow(n) * carry == Val(b[..n]) * x
    ensures z[..zo] == old(z[..zo]) && z[zo + n..] == old(z[zo + n..])
  {
    hide Val, BPow;
    ValNone(z[zo..zo]);
    ValNone(b[..0]);
    carry := 0;
    for i := 0 to n
      invariant Val(z[zo..zo + i]) + BPow(i) * carry == Val(b[..i]) * x
      invariant z[..zo] == old(z[..zo]) && z[zo + i..] == old(z[zo + i..])
    {
      MulBound(b[i], x);
      var prod := b[i] * x + carry;
      ghost var before := z[zo..zo + i];
      z[zo + i] := prod % B;
      assert z[zo..zo + i + 1] == before + [prod % B];
      CarryStep(before, carry, b[i], x, 0, prod % B, prod / B, Val(b[..i]) * x);
      ScaledSnoc(b, i, x);
      carry := prod / B;
    }
  }

  // z[zo..zo+n] := z[zo..zo+n] + b[..n] * x, returning the carry limb.
  method AddMul1(z: array<Limb>, zo: nat, b: seq<Limb>, n: nat, x: Limb) returns (carry: Limb)
    requires zo + n <= z.Length && n <= |b|
    modifies z
    ensures Val(z[zo..zo + n]) + BPow(n) * carry == old(Val(z[zo..zo + n])) + Val(b[..n]) * x
    ensures z[..zo] == old(z[..zo]) && z[zo + n..] == old(z[zo + n..])
  {
    hide Val, BPow;
    ghost var z0 := z[zo..zo + n];
    ValNone(z[zo..zo]);
    ValNone(b[..0]);
    ValNone(z0[..0]);
    carry := 0;
    for i := 0 to n
      invariant Val(z[zo..zo + i]) + BPow(i) * carry == Val(z0[..i]) + Val(b[..i]) * x
      invariant z[..zo] == old(z[..zo]) && z[zo + i..] == old(z[zo + i..])
    {
      assert z[zo + i] == z[zo + i..][0] == old(z[zo + i..])[0] == z0[i];
      ghost var before := z[zo..zo + i];
      MulStep(before, carry, b, i, x, z0);
      var prod := b[i] * x + carry + z[zo + i];
      z[zo + i] := prod % B;
      assert z[zo + (i + 1)..] == old(z[zo + i..])[1..];
      assert z[zo..zo + i + 1] == before + [prod % B];
      carry := prod / B;
    }
    assert z0[..n] == z0;
  }

  // The state of a carry of one that has come to limb k: w is being turned into z0 + v.
  ghost predicate Carrying(w: seq<Limb>, z0: seq<Limb>, k: nat, cout: int, v: int)
  {
    k <= |w| == |z0| && w[k..] == z0[k..] && Val(w[..k]) + BPow(k) * cout == Val(z0[..k]) + v
  }

  lemma {:induction false} CarryStart(z0: seq<Limb>, v: Limb)
    requires |z0| > 0
    ensures var r: Limb := (z0[0] + v) % B; Carrying(z0[0 := r], z0, 1, if r < v then 1 else 0, v)
  {
    var r: Limb := (z0[0] + v) % B;
    ValOne(r);
    ValOne(z0[0]);
    assert z0[0 := r][..1] == [r] && z0[..1] == [z0[0]];
  }

  lemma {:induction false} CarryOn(w: seq<Limb>, z0: seq<Limb>, k: nat, v: int)
    requires Carrying(w, z0, k, 1, v) && k < |w|
    ensures w[k] == z0[k]
    ensures var r: Limb := (w[k] + 1) % B; Carrying(w[k := r], z0, k + 1, if r < 1 then 1 else 0, v)
  {
    hide Val, BPow;
    var r: Limb := (w[k] + 1) % B;
    assert w[k] == w[k..][0] && z0[k] == z0[k..][0];
    assert w[k := r][..k + 1] == w[..k] + [r] && w[k := r][k + 1..] == w[k..][1..];
    CarryStep(w[..k], 1, 0, 0, w[k], r, if r < 1 then 1 else 0, Val(z0[..k]) + v);
    ValSnoc(z0, k);
  }

  // z[zo..zo+n] := z[zo..zo+n] + v, stopping at the first limb that does not carry.
  method Add1(z: array<Limb>, zo: nat, n: nat, v: Limb) returns (cout: Limb)
    requires zo + n <= z.Length && n >= 1
    modifies z
    ensures cout <= 1
    ensures Val(z[zo..zo + n]) + BPow(n) * cout == old(Val(z[zo..zo + n])) + v
    ensures z[..zo] == old(z[..zo]) && z[zo + n..] == old(z[zo + n..])
  {
    hide *;
    ghost var z0 := z[zo..zo + n];
    CarryStart(z0, v);
    var x := z[zo];
    var r: Limb := (x + v) % B;
    z[zo] := r;
    assert z[zo..zo + n] == z0[0 := r];
    cout := if r < v then 1 else 0;
    var k := 1;
    while k < n && cout == 1
      invariant 1 <= k <= n && cout <= 1 && Carrying(z[zo..zo + n], z0, k, cout, v)
      invariant z[..zo] == old(z[..zo]) && z[zo + n..] == old(z[zo + n..])
      decreases n - k
    {
      ghost var w := z[zo..zo + n];
      CarryOn(w, z0, k, v);
      x := z[zo + k];
      r := (x + 1) % B;
      z[zo + k] := r;
      assert z[zo..zo + n] == w[k := r];
      k := k + 1;
      cout := if r < 1 then 1 else 0;
    }
    CarryStopped(z[zo..zo + n], z0, k, cout, v);
  }

  // Limbs above the point where the carry died are unchanged.
  lemma {:induction false} CarryStopped(w: seq<Limb>, z0: seq<Limb>, k: nat, cout: int, v: int)
    requires Carrying(w, z0, k, cout, v) && (cout == 0 || k == |w|)
    ensures Val(w) + BPow(|w|) * cout == Val(z0) + v
  {
    hide Val, BPow;
    if k == |w| {
      assert w[..k] == w && z0[..k] == z0;
    } else {
      ValSplit(w, k);
      ValSplit(z0, k);
    }
  }

  // c[..n] := a + b, returning the carry.
  method AddN(c: array<Limb>, a: seq<Limb>, b: seq<Limb>) returns (carry: Limb)
    requires c.Length == |a| == |b|
    modifies c
    ensures carry <= 1
    ensures Val(c[..]) + BPow(c.Length) * carry == Val(a) + Val(b)
  {
    hide Val, BPow;
    ValNone(c[..0]);
    ValNone(a[..0]);
    ValNone(b[..0]);
    carry := 0;
    for i := 0 to c.Length
      invariant carry <= 1
      invariant Val(c[..i]) + BPow(i) * carry == Val(a[..i]) + Val(b[..i])
    {
      var sum := a[i] + b[i] + carry;
      ghost var before := c[..i];
      c[i] := sum % B;
      assert c[..i + 1] == before + [sum % B];
      CarryStep(before, carry, a[i], 1, b[i], sum % B, sum / B, Val(a[..i]) + Val(b[..i]));
      ValSnoc(a, i);
      ValSnoc(b, i);
      assert BPow(i) * a[i] * 1 == BPow(i) * a[i];
      carry := sum / B;
    }
    assert c[..] == c[..c.Length] && a[..c.Length] == a && b[..c.Length] == b;
  }

  // One limb of a borrow loop.
  lemma {:induction false} BorrowOne(done: seq<Limb>, borrow: int, x: Limb, y: Limb, total: int)
    requires 0 <= borrow <= 1 && Val(done) + BPow(|done|) * (0 - borrow) == total
    ensures var diff := x - y - borrow;
            var next := if diff < 0 then 1 else 0;
            Val(done + [diff + B * next]) + BPow(|done| + 1) * (0 - next) == total + BPow(|done|) * x - BPow(|done|) * y
  {
    hide Val, BPow;
    var diff := x - y - borrow;
    var next := if diff < 0 then 1 else 0;
    CarryStep(done, 0 - borrow, y, -1, x, diff + B * next, 0 - next, total);
    MinusProduct(BPow(|done|), y);
    assert y * -1 + x - borrow == diff;
  }

  lemma MinusProduct(a: int, b: int)
    ensures a * b * -1 == -(a * b)
  {
  }

  // c[..n] := a - b, returning the borrow.
  method SubN(c: array<Limb>, a: seq<Limb>, b: seq<Limb>) returns (borrow: Limb)
    requires c.Length == |a| == |b|
    modifies c
    ensures borrow <= 1
    ensures Val(c[..]) == Val(a) - Val(b) + BPow(c.Length) * borrow
  {
    hide Val, BPow;
    ValNone(c[..0]);
    ValNone(a[..0]);
    ValNone(b[..0]);
    borrow := 0;
    for i := 0 to c.Length
      invariant borrow <= 1
      invariant Val(c[..i]) + BPow(i) * (0 - borrow) == Val(a[..i]) - Val(b[..i])
    {
      var diff := a[i] - b[i] - borrow;
      ghost var before := c[..i];
      var next := if diff < 0 then 1 else 0;
      c[i] := diff + B * next;
      assert c[..i + 1] == before + [diff + B * next];
      BorrowOne(before, borrow, a[i], b[i], Val(a[..i]) - Val(b[..i]));
      ValSnoc(a, i);
      ValSnoc(b, i);
      borrow := next;
    }
    assert c[..] == c[..c.Length] && a[..c.Length] == a && b[..c.Length] == b;
    assert BPow(c.Length) * (0 - borrow) == -(BPow(c.Length) * borrow);
  }

  // Three-way comparison from the most significant limb down.
  method Cmp(a: seq<Limb>, b: seq<Limb>) returns (r: int)
    requires |a| == |b|
    ensures r == if Val(a) > Val(b) then 1 else if Val(a) < Val(b) then -1 else 0
  {
    var i := |a|;
    while i > 0
      invariant 0 <= i <= |a|
      invariant a[i..] == b[i..]
    {
      i := i - 1;
      if a[i] != b[i] {
        TopLimbDecides(a, b, i);
        return if a[i] > b[i] then 1 else -1;
      }
      assert a[i..] == [a[i]] + a[i + 1..] && b[i..] == [b[i]] + b[i + 1..];
    }
    assert a[0..] == a && b[0..] == b;
    return 0;
  }

  lemma {:induction false} TopLimbDecides(a: seq<Limb>, b: seq<Limb>, i: nat)
    requires i < |a| == |b| && a[i + 1..] == b[i + 1..] && a[i] != b[i]
    ensures a[i] > b[i] <==> Val(a) > Val(b)
    ensures a[i] < b[i] <==> Val(a) < Val(b)
  {
    ValSplit(a, i + 1);
    ValSplit(b, i + 1);
    ValSnoc(a, i);
    ValSnoc(b, i);
    ValBound(a[..i]);
    ValBound(b[..i]);
    hide Val, BPow;
    DigitGap(BPow(i), a[i], b[i]);
  }

  lemma DigitGap(pw: int, x: int, y: int)
    requires pw > 0 && x != y
    ensures x > y ==> pw * x >= pw * y + pw
    ensures x < y ==> pw * y >= pw * x + pw
  {
    if x > y { MulLe(y + 1, x, pw); } else { MulLe(x + 1, y, pw); }
  }

  // c[..n] := a << 1, returning the bit shifted out.
  method LShift1(c: array<Limb>, a: seq<Limb>) returns (out: Limb)
    requires c.Length == |a|
    modifies c
    ensures out <= 1
    ensures Val(c[..]) + BPow(c.Length) * out == 2 * Val(a)
  {
    hide Val, BPow;
    ValNone(c[..0]);
    ValNone(a[..0]);
    out := 0;
    for i := 0 to c.Length
      invariant out <= 1
      invariant Val(c[..i]) + BPow(i) * out == 2 * Val(a[..i])
    {
      ghost var before := c[..i];
      var low := 2 * a[i] % B + out;
      c[i] := low;
      assert c[..i + 1] == before + [low];
      CarryStep(before, out, a[i], 2, 0, low, 2 * a[i] / B, 2 * Val(a[..i]));
      ValSnoc(a, i);
      assert BPow(i) * a[i] * 2 == 2 * (BPow(i) * a[i]);
      out := 2 * a[i] / B;
    }
    assert c[..] == c[..c.Length] && a[..c.Length] == a;
  }

  // c[..n] := a >> 1; the bit shifted out is the parity of a.
  method RShift1(c: array<Limb>, a: seq<Limb>)
    requires c.Length == |a| > 0
    modifies c
    ensures 2 * Val(c[..]) + a[0] % 2 == Val(a)
    ensures c[c.Length - 1] < B / 2
  {
    assert Val(c[..0]) == 0 && Val(a[..0]) == 0 && BPow(0) == 1;
    hide Val, BPow;
    for i := 0 to c.Length
      invariant i == c.Length ==> c[i - 1] < B / 2
      invariant 2 * Val(c[..i]) + a[0] % 2 == Val(a[..i]) + BPow(i) * (if i < |a| then a[i] % 2 else 0)
    {
      ghost var before := c[..i];
      var next := if i + 1 < c.Length then a[i + 1] % 2 else 0;
      c[i] := a[i] / 2 + next * (B / 2);
      assert c[..i + 1] == before + [c[i]];
      ValPush(before, c[i]);
      ValSnoc(a, i);
      ShiftStep(i, a[i], next, c[i]);
    }
    assert c[..] == c[..c.Length] && a[..c.Length] == a;
  }

  lemma {:induction false} ShiftStep(i: nat, x: int, next: int, y: int)
    requires y == x / 2 + next * (B / 2)
    ensures 2 * (BPow(i) * y) + BPow(i) * (x % 2) == BPow(i) * x + BPow(i + 1) * next
  {
    var pw := BPow(i);
    assert BPow(i + 1) == B * pw;
    hide BPow;
    assert 2 * y + x % 2 == x + B * next;
    assert pw * (2 * y + x % 2) == 2 * (pw * y) + pw * (x % 2);
    assert pw * (x + B * next) == pw * x + B * pw * next;
  }
}
