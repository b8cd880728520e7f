// F_p elements in Montgomery form: limb arrays with a zero flag, updated in place.
module MontgomeryField {
  import opened Arith
  import opened Limbs
  import opened Montgomery
  import opened MontgomeryModuli

  ghost predicate IsField(pr: Params)
  {
    && pr.Ready() && Multiplies(pr) && IsPrime(pr.P())
    && |pr.R| == |pr.R3| == pr.limbs
    && Val(pr.R) == BPow(pr.limbs) % pr.P()
    && Val(pr.R3) == BPow(pr.limbs) * BPow(pr.limbs) * BPow(pr.limbs) % pr.P()
  }

  // The limb array is meaningless while flag is 0.
  ghost predicate Stored(flag: int, d: seq<Limb>, pr: Params)
  {
    |d| == pr.limbs && (flag == 0 || (flag == 2 && 0 < Val(d) < pr.P()))
  }

  // The field element that a stored value stands for.
  ghost function Decode(flag: int, d: seq<Limb>, pr: Params): (v: nat)
    requires IsField(pr) && Stored(flag, d, pr)
    ensures v < pr.P()
    ensures (v == 0) == (flag == 0)
    ensures flag != 0 ==> v * BPow(pr.limbs) % pr.P() == Val(d)
  {
    if flag == 0 then 0
    else
      RadixInvertible(pr);
      DecodeExists(Val(d), pr);
      Val(d) * Inverse(BPow(pr.limbs), pr.P()) % pr.P()
  }

  lemma {:induction false} RadixPower(n: nat, pr: Params)
    requires pr.Ready() && IsPrime(pr.P())
    ensures BPow(n) % pr.P() != 0
  {
    var p := pr.P();
    if n == 0 {
      ModSmall(1, p);
    } else {
      RadixPower(n - 1, pr);
      assert BPow(n) == B * BPow(n - 1);
      if BPow(n) % p == 0 {
        PrimeDivides(B, BPow(n - 1), p);
        var k := (p * pr.negpinv + 1) / B;
        assert p * pr.negpinv + 1 == k * B;
        ModSmall(0, p);
        ModMul(B, 0, k, k, p);
        ModIntro(k * B, 1, pr.negpinv, p);
        ModSmall(1, p);
      }
    }
  }

  lemma {:induction false} RadixInvertible(pr: Params)
    requires pr.Ready() && IsPrime(pr.P())
    ensures Coprime(BPow(pr.limbs), pr.P())
  {
    RadixPower(pr.limbs, pr);
    PrimeCoprime(BPow(pr.limbs), pr.P());
  }

  lemma {:induction false} DecodeExists(x: nat, pr: Params)
    requires IsField(pr) && 0 < x < pr.P() && Coprime(BPow(pr.limbs), pr.P())
    ensures var v := x * Inverse(BPow(pr.limbs), pr.P()) % pr.P();
            v * BPow(pr.limbs) % pr.P() == x && v != 0
  {
    var p, r := pr.P(), BPow(pr.limbs);
    var i := Inverse(r, p);
    hide *;
    ScaledBack(x, r, i, p);
    ModSmall(0, p);
  }

  lemma {:induction false} ScaledBack(x: nat, r: int, i: int, p: int)
    requires 0 <= x < p && 1 < p && r * i % p == 1
    ensures (x * i % p) * r % p == x
  {
    ModMod(x * i, p);
    ModMul(x * i % p, x * i, r, r, p);
    ModSmall(1, p);
    ModMul(r * i, 1, x, x, p);
    ModSmall(x, p);
    TripleProduct(x, i, r);
  }

  lemma TripleProduct(a: int, b: int, c: int)
    ensures a * b * c == c * b * a && 1 * a == a
  {
  }

  // Only one v below p has v * B^t congruent to the stored limbs.
  lemma {:induction false} DecodeUnique(v: nat, flag: int, d: seq<Limb>, pr: Params)
    requires IsField(pr) && |d| == pr.limbs && v < pr.P()
    requires flag == 0 ==> v == 0
    requires flag != 0 ==> flag == 2 && Val(d) < pr.P() && v != 0 && v * BPow(pr.limbs) % pr.P() == Val(d)
    ensures Stored(flag, d, pr) && Decode(flag, d, pr) == v
  {
    if flag != 0 {
      var p := pr.P();
      RadixInvertible(pr);
      if Val(d) == 0 {
        PrimeDivides(v, BPow(pr.limbs), p);
        RadixPower(pr.limbs, pr);
        ModSmall(v, p);
      }
      var w := Decode(flag, d, pr);
      assert BPow(pr.limbs) * v == v * BPow(pr.limbs) && BPow(pr.limbs) * w == w * BPow(pr.limbs);
      Cancel(BPow(pr.limbs), v, w, p);
      ModSmall(v, p);
      ModSmall(w, p);
    }
  }

  class Element {
    var flag: int
    var d: array<Limb>

    ghost predicate Valid(pr: Params)
      reads this, d
    {
      Stored(flag, d[..], pr)
    }

    ghost function Value(pr: Params): (v: nat)
      requires IsField(pr) && Valid(pr)
      reads this, d
      ensures v < pr.P()
    {
      Decode(flag, d[..], pr)
    }

    constructor (pr: Params)
      ensures flag == 0 && d.Length == pr.limbs && fresh(d)
    {
      flag := 0;
      d := new Limb[pr.limbs](_ => 0);
    }
  }

  // Distinct elements own distinct limb arrays.
  ghost predicate Apart(a: Element, b: Element)
    reads a, b
  {
    a == b || a.d != b.d
  }

  method LoadLimbs(d: array<Limb>, s: seq<Limb>)
    requires d.Length == |s|
    modifies d
    ensures d[..] == s
  {
    forall k | 0 <= k < d.Length { d[k] := s[k]; }
  }

  method SetLimbs(d: array<Limb>, v: nat)
    requires v < BPow(d.Length)
    modifies d
    ensures Val(d[..]) == v
  {
    LoadLimbs(d, ToLimbs(v, d.Length));
  }

  lemma BelowRadix(pr: Params)
    requires pr.Sized()
    ensures pr.P() < BPow(pr.limbs)
  {
    ValBound(pr.primelimbs);
  }

  method FpSetMpz(e: Element, z: int, pr: Params)
    requires IsField(pr) && e.d.Length == pr.limbs
    modifies e, e.d
    ensures e.d == old(e.d) && e.Valid(pr) && e.Value(pr) == z % pr.P()
  {
    var p := pr.P();
    ModMod(z, p);
    ModMul(z % p, z, BPow(pr.limbs), BPow(pr.limbs), p);
    ModSmall(0, p);
    if z == 0 {
      e.flag := 0;
    } else {
      var tmp := z * BPow(pr.limbs) % p;
      if tmp == 0 {
        e.flag := 0;
        PrimeDivides(z, BPow(pr.limbs), p);
        RadixPower(pr.limbs, pr);
      } else {
        BelowRadix(pr);
        SetLimbs(e.d, tmp);
        e.flag := 2;
        DecodeUnique(z % p, 2, e.d[..], pr);
      }
    }
  }

  method CopyLimbs(dst: array<Limb>, src: array<Limb>)
    requires dst != src && dst.Length == src.Length
    modifies dst
    ensures dst[..] == src[..]
  {
    forall k | 0 <= k < dst.Length { dst[k] := src[k]; }
  }

  method FpSet(c: Element, a: Element, pr: Params)
    requires IsField(pr) && a.Valid(pr) && c.d.Length == pr.limbs && Apart(a, c)
    modifies c, c.d
    ensures c.d == old(c.d) && c.Valid(pr) && c.Value(pr) == old(a.Value(pr))
    ensures c.flag == old(a.flag) && (c.flag != 0 ==> c.d[..] == old(a.d[..]))
  {
    hide Val, BPow, Decode, IsField;
    if a == c { return; }
    if a.flag == 0 {
      c.flag := 0;
    } else {
      CopyLimbs(c.d, a.d);
      c.flag := 2;
    }
  }

  // The stored limbs d, congruent to u * B^t, stand for u; they are zero exactly when the flag is.
  lemma {:induction false} StoredFrom(u: nat, x: int, flag: int, d: seq<Limb>, pr: Params)
    requires IsField(pr) && u < pr.P() && |d| == pr.limbs
    requires u * BPow(pr.limbs) % pr.P() == x % pr.P()
    requires flag == 0 ==> x % pr.P() == 0
    requires flag != 0 ==> flag == 2 && 0 < Val(d) < pr.P() && Val(d) % pr.P() == x % pr.P()
    ensures Stored(flag, d, pr) && Decode(flag, d, pr) == u
  {
    var p := pr.P();
    if flag == 0 {
      PrimeDivides(u, BPow(pr.limbs), p);
      RadixPower(pr.limbs, pr);
      ModSmall(u, p);
    } else {
      ModSmall(Val(d), p);
      if u == 0 { ModSmall(0, p); }
      DecodeUnique(u, 2, d, pr);
    }
  }

  // The stored form is additive.
  lemma {:induction false} LinearMeans(v: int, w: int, x: int, y: int, r: int, p: int)
    requires p > 0 && v * r % p == x % p && w * r % p == y % p
    ensures (v + w) % p * r % p == (x + y) % p
    ensures (v - w) % p * r % p == (x - y) % p
  {
    ModMod(v + w, p);
    ModMod(v - w, p);
    ModMul((v + w) % p, v + w, r, r, p);
    ModMul((v - w) % p, v - w, r, r, p);
    assert (v + w) * r == v * r + w * r && (v - w) * r == v * r - w * r;
    ModAdd(v * r, x, w * r, y, p);
  }

  lemma {:induction false} AddedStored(x: nat, y: nat, v: nat, w: nat, flag: int, d: seq<Limb>, pr: Params)
    requires IsField(pr) && |d| == pr.limbs && x < pr.P() && y < pr.P() && 0 < x + y
    requires v * BPow(pr.limbs) % pr.P() == x && w * BPow(pr.limbs) % pr.P() == y
    requires x + y == pr.P() ==> flag == 0
    requires x + y != pr.P() ==> flag == 2 && Val(d) == if x + y > pr.P() then x + y - pr.P() else x + y
    ensures Stored(flag, d, pr) && Decode(flag, d, pr) == (v + w) % pr.P()
  {
    var p := pr.P();
    ModSmall(x, p);
    ModSmall(y, p);
    LinearMeans(v, w, x, y, BPow(pr.limbs), p);
    if x + y >= p { ModIntro(x + y, x + y - p, 1, p); ModSmall(x + y - p, p); } else { ModSmall(x + y, p); }
    StoredFrom((v + w) % p, x + y, flag, d, pr);
  }

  lemma {:induction false} SubtractedStored(x: nat, y: nat, v: nat, w: nat, flag: int, d: seq<Limb>, pr: Params)
    requires IsField(pr) && |d| == pr.limbs && x < pr.P() && y < pr.P()
    requires v * BPow(pr.limbs) % pr.P() == x && w * BPow(pr.limbs) % pr.P() == y
    requires x == y ==> flag == 0
    requires x != y ==> flag == 2 && Val(d) == if x < y then x - y + pr.P() else x - y
    ensures Stored(flag, d, pr) && Decode(flag, d, pr) == (v - w) % pr.P()
  {
    var p := pr.P();
    ModSmall(x, p);
    ModSmall(y, p);
    LinearMeans(v, w, x, y, BPow(pr.limbs), p);
    if x < y { ModIntro(x - y, x - y + p, -1, p); ModSmall(x - y + p, p); } else { ModSmall(x - y, p); }
    StoredFrom((v - w) % p, x - y, flag, d, pr);
  }

  // A Montgomery product of stored forms stands for the product; it is nonzero because p is prime.
  lemma {:induction false} MultipliedStored(x: nat, y: nat, v: nat, w: nat, d: seq<Limb>, pr: Params)
    requires IsField(pr) && |d| == pr.limbs && v < pr.P() && w < pr.P() && v != 0 && w != 0
    requires v * BPow(pr.limbs) % pr.P() == x && w * BPow(pr.limbs) % pr.P() == y
    requires Val(d) < pr.P() && Val(d) * BPow(pr.limbs) % pr.P() == x * y % pr.P()
    ensures Stored(2, d, pr) && Decode(2, d, pr) == v * w % pr.P()
  {
    var p, r, u := pr.P(), BPow(pr.limbs), v * w % pr.P();
    RadixInvertible(pr);
    ModSmall(v, p);
    ModSmall(w, p);
    if u == 0 { PrimeDivides(v, w, p); }
    ModMod(v * w, p);
    MontgomeryForm(u, v, w, x, y, r, Val(d), p);
    ModSmall(Val(d), p);
    DecodeUnique(u, 2, d, pr);
  }

  // If c*r is the product of v*r and w*r, then c is (v*w)*r.
  lemma {:induction false} MontgomeryForm(u: int, v: int, w: int, x: int, y: int, r: int, c: int, p: int)
    requires p > 1 && Coprime(r, p)
    requires v * r % p == x && w * r % p == y && u % p == v * w % p
    requires c * r % p == x * y % p
    ensures u * r % p == c % p
  {
    hide Coprime, Euclid;
    ModMod(v * r, p);
    ModMod(w * r, p);
    ModMul(v * r, x, w * r, y, p);
    assert (v * r) * (w * r) == (v * w) * (r * r);
    ModMul(u, v * w, r * r, r * r, p);
    assert u * (r * r) == r * (u * r) && c * r == r * c;
    Cancel(r, u * r, c, p);
  }

  lemma {:induction false} PowerNonzero(v: int, n: nat, p: int)
    requires IsPrime(p) && v % p != 0
    ensures Pow(v, n) % p != 0
  {
    if n == 0 {
      ModSmall(1, p);
    } else {
      PowerNonzero(v, n - 1, p);
      if Pow(v, n) % p == 0 { PrimeDivides(v, Pow(v, n - 1), p); }
    }
  }

  // Reduce d, holding a value below 2p with its overflow bit, by at most one subtraction.
  method ReduceSum(c: Element, carry: Limb, ghost s: nat, pr: Params)
    requires IsField(pr) && c.d.Length == pr.limbs && carry <= 1
    requires Val(c.d[..]) + BPow(pr.limbs) * carry == s && 0 < s < 2 * pr.P()
    modifies c, c.d
    ensures c.d == old(c.d)
    ensures s == pr.P() ==> c.flag == 0
    ensures s != pr.P() ==> c.flag == 2 && Val(c.d[..]) == if s > pr.P() then s - pr.P() else s
  {
    BelowRadix(pr);
    if carry != 0 {
      ValBound(c.d[..]);
      var b := SubN(c.d, c.d[..], pr.primelimbs);
      ValBound(c.d[..]);
      OverflowBorrow(s, pr.P(), BPow(pr.limbs), Val(c.d[..]), b);
      c.flag := 2;
    } else {
      var i := Cmp(c.d[..], pr.primelimbs);
      if i == 0 {
        c.flag := 0;
      } else {
        c.flag := 2;
        if i > 0 {
          var b := SubN(c.d, c.d[..], pr.primelimbs);
          ValBound(c.d[..]);
          OverflowBorrow(s + BPow(pr.limbs), pr.P(), BPow(pr.limbs), Val(c.d[..]), b);
        }
      }
    }
  }

  lemma OverflowBorrow(s: int, p: int, pw: int, r: int, b: int)
    requires 0 <= b <= 1 && 0 <= r < pw
    requires r == s - pw - p + pw * b
    requires s - pw < p ==> s - p < pw
    ensures s - pw >= p ==> r == s - pw - p
    ensures s - pw < p && s >= p ==> r == s - p
  {
  }

  method FpAdd(c: Element, a: Element, b: Element, pr: Params)
    requires IsField(pr) && a.Valid(pr) && b.Valid(pr) && c.d.Length == pr.limbs
    requires Apart(a, c) && Apart(b, c)
    modifies c, c.d
    ensures c.d == old(c.d) && c.Valid(pr)
    ensures c.Value(pr) == old((a.Value(pr) + b.Value(pr)) % pr.P())
  {
    hide Val, BPow, Decode, IsField;
    ghost var v, w := a.Value(pr), b.Value(pr);
    ModSmall(v, pr.P());
    ModSmall(w, pr.P());
    if a.flag == 0 {
      FpSet(c, b, pr);
    } else if b.flag == 0 {
      FpSet(c, a, pr);
    } else {
      ghost var x, y := Val(a.d[..]), Val(b.d[..]);
      var carry := AddN(c.d, a.d[..], b.d[..]);
      ReduceSum(c, carry, x + y, pr);
      AddedStored(x, y, v, w, c.flag, c.d[..], pr);
    }
  }

  method FpDouble(c: Element, a: Element, pr: Params)
    requires IsField(pr) && a.Valid(pr) && c.d.Length == pr.limbs && Apart(a, c)
    modifies c, c.d
    ensures c.d == old(c.d) && c.Valid(pr)
    ensures c.Value(pr) == old(2 * a.Value(pr) % pr.P())
  {
    hide Val, BPow, Decode, IsField;
    ghost var v := a.Value(pr);
    if a.flag == 0 {
      c.flag := 0;
      ModSmall(0, pr.P());
    } else {
      ghost var x := Val(a.d[..]);
      var carry := LShift1(c.d, a.d[..]);
      ReduceSum(c, carry, 2 * x, pr);
      AddedStored(x, x, v, v, c.flag, c.d[..], pr);
    }
  }

  lemma NoBorrow(x: int, p: int, pw: int, r: int, b: int)
    requires 0 <= b <= 1 && 0 <= r < pw && 0 < x < p && r == p - x + pw * b
    ensures r == p - x
  {
  }

  method FpNeg(c: Element, a: Element, pr: Params)
    requires IsField(pr) && a.Valid(pr) && c.d.Length == pr.limbs && Apart(a, c)
    modifies c, c.d
    ensures c.d == old(c.d) && c.Valid(pr)
    ensures c.Value(pr) == old((0 - a.Value(pr)) % pr.P())
  {
    BelowRadix(pr);
    hide Val, BPow, Decode, IsField;
    ghost var v := a.Value(pr);
    ModSmall(0, pr.P());
    if a.flag == 0 {
      c.flag := 0;
    } else {
      ghost var x := Val(a.d[..]);
      var b := SubN(c.d, pr.primelimbs, a.d[..]);
      ValBound(c.d[..]);
      NoBorrow(x, pr.P(), BPow(pr.limbs), Val(c.d[..]), b);
      c.flag := 2;
      SubtractedStored(0, x, 0, v, 2, c.d[..], pr);
    }
  }

  method FpSub(c: Element, a: Element, b: Element, pr: Params)
    requires IsField(pr) && a.Valid(pr) && b.Valid(pr) && c.d.Length == pr.limbs
    requires Apart(a, c) && Apart(b, c)
    modifies c, c.d
    ensures c.d == old(c.d) && c.Valid(pr)
    ensures c.Value(pr) == old((a.Value(pr) - b.Value(pr)) % pr.P())
  {
    BelowRadix(pr);
    hide Val, BPow, Decode, IsField, IsPrime, Inverse, Coprime;
    ghost var v, w := a.Value(pr), b.Value(pr);
    ModSmall(v, pr.P());
    if a.flag == 0 {
      FpNeg(c, b, pr);
    } else if b.flag == 0 {
      FpSet(c, a, pr);
    } else {
      ghost var x, y := Val(a.d[..]), Val(b.d[..]);
      c.flag := SubLimbs(c.d, a.d[..], b.d[..], pr.primelimbs);
      SubtractedStored(x, y, v, w, c.flag, c.d[..], pr);
    }
  }

  // The difference of two residues below p, by comparison, subtraction and adding p back; 0 flags equality.
  method SubLimbs(c: array<Limb>, a: seq<Limb>, b: seq<Limb>, p: seq<Limb>) returns (flag: int)
    requires c.Length == |a| == |b| == |p| && Val(a) < Val(p) && Val(b) < Val(p)
    modifies c
    ensures Val(a) == Val(b) ==> flag == 0
    ensures Val(a) != Val(b) ==> flag == 2 && Val(c[..]) == if Val(a) < Val(b) then Val(a) - Val(b) + Val(p) else Val(a) - Val(b)
  {
    hide Val, BPow;
    var i := Cmp(a, b);
    if i == 0 {
      flag := 0;
    } else {
      flag := 2;
      ValBound(p);
      var bo := SubN(c, a, b);
      ValBound(c[..]);
      BorrowIs(Val(a) - Val(b), Val(c[..]), BPow(c.Length), bo);
      if i < 0 {
        var ca := AddN(c, c[..], p);
        ValBound(c[..]);
        BorrowIs(Val(a) - Val(b) + Val(p), Val(c[..]), BPow(c.Length), 1 - ca);
      }
    }
  }

  lemma BorrowIs(x: int, v: int, r: int, bo: int)
    requires v == x + r * bo && 0 <= v < r && -r < x < r && 0 <= bo <= 1
    ensures bo == if x < 0 then 1 else 0
  {
  }

  method FpMul(c: Element, a: Element, b: Element, pr: Params)
    requires IsField(pr) && a.Valid(pr) && b.Valid(pr) && c.d.Length == pr.limbs
    requires Apart(a, c) && Apart(b, c)
    modifies c, c.d
    ensures c.d == old(c.d) && c.Valid(pr)
    ensures c.Value(pr) == old(a.Value(pr) * b.Value(pr) % pr.P())
  {
    ghost var v, w := a.Value(pr), b.Value(pr);
    ModSmall(0, pr.P());
    if a.flag == 0 || b.flag == 0 {
      c.flag := 0;
    } else {
      ghost var al, y := a.d[..], Val(b.d[..]);
      hide Val, BPow, Decode, Product;
      ProductRight(al, y, pr);
      MontMul(c.d, a.d, b.d, pr);
      c.flag := 2;
      MultipliedStored(Val(al), y, v, w, c.d[..], pr);
    }
  }

  // The limbs of the ordinary representation, leading zero limbs removed.
  method FpToMpz(e: Element, pr: Params) returns (z: seq<Limb>)
    requires IsField(pr) && e.Valid(pr)
    ensures Val(z) == e.Value(pr)
    ensures z == [] || z[|z| - 1] != 0
  {
    if e.flag == 0 {
      return [];
    }
    ghost var v, d := e.Value(pr), e.d[..];
    var t := pr.limbs;
    var tmp := new Limb[2 * t];
    var x := new Limb[t];
    forall k | 0 <= k < 2 * t { tmp[k] := if k < t then e.d[k] else 0; }
    PaddedValue(tmp, d, t);
    BelowRadix(pr);
    assert BPow(t) > 0;
    hide Val, BPow, Decode;
    MulLe(1, BPow(t), pr.P());
    assert pr.P() * BPow(t) >= pr.P();
    MontReduce(x, tmp, pr);
    ReducedIsValue(Val(x[..]), v, Val(d), pr);
    z := WithoutTopZeros(x);
  }

  // Drops leading zero limbs of a nonzero value.
  method WithoutTopZeros(x: array<Limb>) returns (z: seq<Limb>)
    requires Val(x[..]) != 0
    ensures Val(z) == Val(x[..]) && z != [] && z[|z| - 1] != 0
  {
    var size := x.Length;
    ghost var w := x[..];
    assert w[..size] == w;
    NonzeroHasLimb(w);
    hide *;
    while x[size - 1] == 0
      invariant 1 <= size <= x.Length && Val(w[..size]) == Val(w) != 0
      decreases size
    {
      TrimLimb(w, size);
      size := size - 1;
    }
    z := x[..size];
  }

  lemma NonzeroHasLimb(s: seq<Limb>)
    requires Val(s) != 0
    ensures |s| >= 1
  {
  }

  lemma {:induction false} TrimLimb(w: seq<Limb>, size: nat)
    requires 1 <= size <= |w| && w[size - 1] == 0 && Val(w[..size]) != 0
    ensures Val(w[..size - 1]) == Val(w[..size]) && size > 1
  {
    assert w[..0] == [];
    ValSnoc(w, size - 1);
    hide BPow;
    assert BPow(size - 1) * 0 == 0;
  }

  lemma {:induction false} PaddedValue(tmp: array<Limb>, d: seq<Limb>, t: nat)
    requires tmp.Length == 2 * t && |d| == t
    requires forall k :: 0 <= k < 2 * t ==> tmp[k] == if k < t then d[k] else 0
    ensures Val(tmp[..]) == Val(d)
  {
    ValSplit(tmp[..], t);
    assert tmp[..][..t] == d;
    ValZeros(tmp[..][t..]);
  }

  lemma {:induction false} ReducedIsValue(x: nat, v: nat, d: nat, pr: Params)
    requires IsField(pr) && x < pr.P() && v < pr.P()
    requires x * BPow(pr.limbs) % pr.P() == d % pr.P() && v * BPow(pr.limbs) % pr.P() == d && d < pr.P()
    ensures x == v
  {
    var p, r := pr.P(), BPow(pr.limbs);
    RadixInvertible(pr);
    hide Val, BPow;
    ModSmall(d, p);
    assert r * x == x * r && r * v == v * r;
    Cancel(r, x, v, p);
    ModSmall(x, p);
    ModSmall(v, p);
  }

  // Powers of nonzero elements; the zero element stays zero for every exponent, 0 included.
  method FpPowMpz(c: Element, a: Element, op: nat, pr: Params)
    requires IsField(pr) && a.Valid(pr) && c.d.Length == pr.limbs && Apart(a, c)
    modifies c, c.d
    ensures c.d == old(c.d) && c.Valid(pr)
    ensures c.Value(pr) == old(if a.Value(pr) == 0 then 0 else Pow(a.Value(pr), op) % pr.P())
  {
    if a.flag == 0 {
      c.flag := 0;
    } else {
      var p := pr.P();
      ghost var v := a.Value(pr);
      var zs := FpToMpz(a, pr);
      var z := Pow(Val(zs), op) % p;
      ModSmall(v, p);
      PowerNonzero(v, op, p);
      ModMod(Pow(v, op), p);
      var tmp := z * BPow(pr.limbs) % p;
      BelowRadix(pr);
      hide Val, BPow, Decode;
      ModMod(z * BPow(pr.limbs), p);
      if tmp == 0 { PrimeDivides(z, BPow(pr.limbs), p); RadixPower(pr.limbs, pr); }
      SetLimbs(c.d, tmp);
      c.flag := 2;
      StoredFrom(z, tmp, 2, c.d[..], pr);
    }
  }

  // Requires a nonzero element. The stored form is inverted and multiplied by R^3 to restore one factor R.
  method FpInvert(c: Element, a: Element, pr: Params)
    requires IsField(pr) && a.Valid(pr) && a.Value(pr) != 0 && c.d.Length == pr.limbs && Apart(a, c)
    modifies c, c.d
    ensures c.d == old(c.d) && c.Valid(pr)
    ensures c.Value(pr) * old(a.Value(pr)) % pr.P() == 1
  {
    ghost var v, x := a.Value(pr), Val(a.d[..]);
    ModSmall(x, pr.P());
    PrimeCoprime(x, pr.P());
    BelowRadix(pr);
    hide Val, BPow, Decode, Product, Inverse, Coprime;
    var z := Inverse(Val(a.d[..]), pr.P());
    var tmp := new Limb[pr.limbs];
    SetLimbs(tmp, z);
    var r3 := new Limb[pr.limbs];
    LoadLimbs(r3, pr.R3);
    ProductRight(tmp[..], Val(pr.R3), pr);
    MontMul(c.d, tmp, r3, pr);
    c.flag := 2;
    ghost var u := InvertedStored(v, x, z, Val(c.d[..]), pr);
    DecodeUnique(u, 2, c.d[..], pr);
  }

  lemma {:induction false} InvertedStored(v: nat, x: nat, z: nat, y: nat, pr: Params) returns (u: nat)
    requires IsField(pr) && 0 < v < pr.P() && 0 < x < pr.P() && y < pr.P()
    requires v * BPow(pr.limbs) % pr.P() == x && x * z % pr.P() == 1
    requires y * BPow(pr.limbs) % pr.P() == z * Val(pr.R3) % pr.P()
    ensures 0 < u < pr.P() && u * v % pr.P() == 1 && u * BPow(pr.limbs) % pr.P() == y
  {
    RadixInvertible(pr);
    hide *;
    u := InvertedForm(v, x, z, y, BPow(pr.limbs), Val(pr.R3), pr.P());
  }

  lemma {:induction false} InvertedForm(v: nat, x: nat, z: nat, y: nat, r: nat, r3: nat, p: nat) returns (u: nat)
    requires p > 1 && Coprime(r, p) && y < p
    requires v * r % p == x && x * z % p == 1 && r3 == r * r * r % p && y * r % p == z * r3 % p
    ensures 0 < u < p && u * v % p == 1 && u * r % p == y
  {
    hide Coprime, Euclid;
    u := z * r % p;
    ModMod(z * r, p);
    ModMod(v * r, p);
    InverseForm(u, v, x, z, r, p);
    ModSmall(0, p);
    ModMod(r * r * r, p);
    ModMul(z, z, r3, r * r * r, p);
    CubeForm(u, z, r, y, p);
    ModSmall(y, p);
  }

  lemma {:induction false} InverseForm(u: int, v: int, x: int, z: int, r: int, p: int)
    requires p > 1 && v * r % p == x % p && x * z % p == 1 && u % p == z * r % p
    ensures u * v % p == 1
  {
    ModMul(u, z * r, v, v, p);
    ModMul(v * r, x, z, z, p);
    assert z * r * v == v * r * z;
  }

  lemma {:induction false} CubeForm(u: int, z: int, r: int, y: int, p: int)
    requires p > 1 && Coprime(r, p) && u % p == z * r % p && y * r % p == z * (r * r * r) % p
    ensures u * r % p == y % p
  {
    hide Coprime, Euclid;
    ModMul(u, z * r, r * r, r * r, p);
    assert z * (r * r * r) == z * r * (r * r) && u * (r * r) == r * (u * r) && y * r == r * y;
    Cancel(r, u * r, y, p);
  }

  // Comparison looks only at the limbs of its operands unless the first one is zero.
  // It answers "equal" for unequal elements exactly when b is zero and its stale limbs repeat those of a.
  method FpCmp(a: Element, b: Element, pr: Params) returns (r: int)
    requires IsField(pr) && a.Valid(pr) && b.Valid(pr)
    ensures (r == 0) == (a.Value(pr) == b.Value(pr))
        <==> !(a.flag != 0 && b.flag == 0 && a.d[..] == b.d[..])
  {
    if a.flag == 0 {
      return b.flag;
    }
    r := Cmp(a.d[..], b.d[..]);
    if r == 0 {
      ValInjective(a.d[..], b.d[..]);
    }
    if b.flag != 0 && a.Value(pr) == b.Value(pr) {
      assert Val(a.d[..]) == Val(b.d[..]);
    }
  }

  // Halving. The flag of the target is written only through FpSet, on the even branch.
  method FpHalve(c: Element, a: Element, pr: Params)
    requires IsField(pr) && a.Valid(pr) && c.d.Length == pr.limbs && Apart(a, c)
    modifies c, c.d
    ensures c.d == old(c.d)
    ensures c.Valid(pr) && 2 * c.Value(pr) % pr.P() == old(a.Value(pr))
        <==> old(c == a || a.flag == 0 || a.d[0] % 2 == 0 || c.flag == 2)
  {
    ghost var v, x := a.Value(pr), Val(a.d[..]);
    ModSmall(0, pr.P());
    if a.flag == 0 {
      c.flag := 0;
    } else {
      hide Val, Decode, BPow;
      HalveLimbs(c, a, pr);
      HalvedStored(v, x, c.flag, c.d[..], pr);
    }
  }

  method HalveLimbs(c: Element, a: Element, pr: Params)
    requires IsField(pr) && a.Valid(pr) && a.flag != 0 && c.d.Length == pr.limbs && Apart(a, c)
    modifies c, c.d
    ensures c.d == old(c.d)
    ensures c.flag == old(if c != a && a.d[0] % 2 == 0 then 2 else c.flag)
    ensures 2 * Val(c.d[..]) == old(Val(a.d[..]) + if a.d[0] % 2 == 1 then pr.P() else 0)
  {
    hide Val, BPow, IsField, Decode;
    ghost var x := a.d[..];
    HalfParity(x, pr);
    if a.d[0] % 2 == 1 {
      var carry := AddN(c.d, a.d[..], pr.primelimbs);
      ShiftIn(c.d, carry, Val(x) + pr.P());
    } else {
      FpSet(c, a, pr);
      assert BPow(pr.limbs) * 0 == 0;
      ShiftIn(c.d, 0, Val(x));
    }
  }

  lemma {:induction false} HalfParity(x: seq<Limb>, pr: Params)
    requires IsField(pr) && |x| == pr.limbs
    ensures pr.Sized()
    ensures if x[0] % 2 == 1 then (Val(x) + pr.P()) % 2 == 0 else Val(x) % 2 == 0
  {
    hide *;
    FieldSized(pr);
    LowBit(x);
    OddModulus(pr);
    ParitySum(Val(x), pr.P());
  }

  lemma FieldSized(pr: Params)
    requires IsField(pr)
    ensures pr.Ready() && pr.Sized() && |pr.primelimbs| == pr.limbs > 0
  {
    hide Val, Multiplies;
  }

  lemma ParitySum(x: int, p: int)
    ensures x % 2 == 1 && p % 2 == 1 ==> (x + p) % 2 == 0
  {
  }

  lemma {:induction false} LowBit(d: seq<Limb>)
    requires |d| > 0
    ensures Val(d) % 2 == d[0] % 2
  {
    ParityOfSum(d, 0);
  }

  lemma {:induction false} HalvedStored(v: nat, x: nat, flag: int, d: seq<Limb>, pr: Params)
    requires IsField(pr) && |d| == pr.limbs && 0 < v < pr.P() && v * BPow(pr.limbs) % pr.P() == x < pr.P()
    requires 0 < x && (2 * Val(d) == x || 2 * Val(d) == x + pr.P())
    ensures Stored(flag, d, pr) && 2 * Decode(flag, d, pr) % pr.P() == v <==> flag == 2
  {
    var u := HalvedValue(v, x, d, pr);
    ModSmall(0, pr.P());
  }

  // d, with the overflow bit above it, shifted right by one.
  method ShiftIn(d: array<Limb>, carry: Limb, ghost s: nat)
    requires d.Length > 0 && carry <= 1 && Val(d[..]) + BPow(d.Length) * carry == s && s % 2 == 0
    modifies d
    ensures 2 * Val(d[..]) == s
  {
    ParityOfSum(d[..], carry);
    hide Val, BPow;
    RShift1(d, d[..]);
    if carry != 0 {
      SetTopBit(d);
    }
  }

  lemma {:induction false} ParityOfSum(d: seq<Limb>, carry: Limb)
    requires |d| > 0
    ensures (Val(d) + BPow(|d|) * carry) % 2 == d[0] % 2
  {
    LowLimb(d);
    var q, v := BPow(|d| - 1), Val(d[1..]);
    assert BPow(|d|) == B * q && Val(d) == d[0] + B * v;
    hide Val, BPow;
    assert B * q * carry == B * (q * carry);
  }

  method SetTopBit(d: array<Limb>)
    requires d.Length > 0 && d[d.Length - 1] < B / 2
    modifies d
    ensures 2 * Val(d[..]) == 2 * old(Val(d[..])) + BPow(d.Length)
  {
    var t := d.Length;
    ghost var low, top := d[..t - 1], d[t - 1];
    hide Val, BPow;
    TopBitValue(low, top);
    assert d[..] == low + [top];
    d[t - 1] := d[t - 1] + B / 2;
    assert d[..] == low + [top + B / 2];
  }

  lemma {:induction false} TopBitValue(low: seq<Limb>, top: Limb)
    requires top < B / 2
    ensures 2 * Val(low + [top + B / 2]) == 2 * Val(low + [top]) + BPow(|low| + 1)
  {
    ValPush(low, top);
    ValPush(low, top + B / 2);
    assert BPow(|low| + 1) == B * BPow(|low|);
    hide Val, BPow;
    HalfRadix(BPow(|low|), top, B / 2);
  }

  lemma HalfRadix(q: int, top: int, h: int)
    ensures 2 * (q * (top + h)) == 2 * (q * top) + 2 * h * q
  {
  }

  lemma {:induction false} HalvedValue(v: nat, x: nat, d: seq<Limb>, pr: Params) returns (u: nat)
    requires IsField(pr) && |d| == pr.limbs && 0 < v < pr.P() && v * BPow(pr.limbs) % pr.P() == x
    requires 0 < Val(d) < pr.P() && (2 * Val(d) == x || 2 * Val(d) == x + pr.P())
    ensures Stored(2, d, pr) && u == Decode(2, d, pr) && 2 * u % pr.P() == v
  {
    var p, r := pr.P(), BPow(pr.limbs);
    u := Decode(2, d, pr);
    RadixInvertible(pr);
    hide Val, BPow, Decode;
    ModSmall(Val(d), p);
    ModMul(u * r, Val(d), 2, 2, p);
    ModMod(v * r, p);
    if 2 * Val(d) == x + p { ModIntro(2 * Val(d), x, 1, p); }
    assert r * (2 * u) == u * r * 2 && r * v == v * r;
    Cancel(r, 2 * u, v, p);
    ModSmall(v, p);
  }

  lemma OddModulus(pr: Params)
    requires pr.Ready()
    ensures pr.P() % 2 == 1
  {
    var k := (pr.P() * pr.negpinv + 1) / B;
    assert pr.P() * pr.negpinv + 1 == k * B;
    OddFactor(pr.P(), pr.negpinv, k * (B / 2));
  }

  lemma OddFactor(a: int, b: int, k: int)
    requires a * b + 1 == 2 * k
    ensures a % 2 == 1
  {
    var h := a / 2;
    assert a * b == 2 * (h * b) + (a % 2) * b;
  }

  method FpSet1(e: Element, pr: Params)
    requires IsField(pr) && e.d.Length == pr.limbs
    modifies e, e.d
    ensures e.d == old(e.d) && e.Valid(pr) && e.Value(pr) == 1
  {
    e.flag := 2;
    LoadLimbs(e.d, pr.R);
    RadixPower(pr.limbs, pr);
    ModMod(BPow(pr.limbs), pr.P());
    hide Val, BPow, Decode;
    assert 1 * BPow(pr.limbs) == BPow(pr.limbs);
    StoredFrom(1, BPow(pr.limbs), 2, e.d[..], pr);
  }

  // ---------------------------------------------------------------- the two slips, reached

  // Clearing leaves the limbs: 1 and a cleared 1 compare as equal.
  method StaleComparison(pr: Params) returns (a: Element, b: Element, r: int)
    requires IsField(pr)
    ensures a.Valid(pr) && b.Valid(pr) && a.Value(pr) == 1 && b.Value(pr) == 0 && r == 0
  {
    hide Val, BPow, Decode, IsField;
    a := new Element(pr);
    b := new Element(pr);
    FpSet1(a, pr);
    FpSet1(b, pr);
    ghost var limbs := b.d[..];
    b.flag := 0;
    SameUnit(a.d[..], limbs, pr);
    ClearedIsZero(b.flag, b.d[..], pr);
    r := FpCmp(a, b, pr);
  }

  lemma {:induction false} SameUnit(d: seq<Limb>, d': seq<Limb>, pr: Params)
    requires IsField(pr) && Stored(2, d, pr) && Stored(2, d', pr) && Decode(2, d, pr) == Decode(2, d', pr)
    ensures d == d'
  {
    ValInjective(d, d');
  }

  lemma ClearedIsZero(flag: int, d: seq<Limb>, pr: Params)
    requires IsField(pr) && Stored(flag, d, pr) && flag == 0
    ensures Decode(flag, d, pr) == 0
  {
  }

  // Halving an element whose low limb is odd into a fresh target goes wrong.
  method HalveIntoFresh(pr: Params) returns (a: Element, c: Element)
    requires IsField(pr)
    ensures a.Valid(pr) && !(c.Valid(pr) && 2 * c.Value(pr) % pr.P() == a.Value(pr))
  {
    hide Val, BPow, Decode, IsField, Inverse, Coprime, Stored, IsPrime;
    FieldSized(pr);
    FieldPrime(pr);
    RadixInvertible(pr);
    a := new Element(pr);
    c := new Element(pr);
    var z := Inverse(BPow(pr.limbs), pr.P());
    FpSetMpz(a, z, pr);
    OddLimbs(z, a, pr);
    FpHalve(c, a, pr);
  }

  lemma FieldPrime(pr: Params)
    requires IsField(pr)
    ensures IsPrime(pr.P())
  {
    hide Val, IsPrime;
  }

  lemma {:induction false} OddLimbs(z: int, a: Element, pr: Params)
    requires IsField(pr) && a.Valid(pr) && BPow(pr.limbs) * z % pr.P() == 1 && a.Value(pr) == z % pr.P()
    ensures a.flag == 2 && a.d.Length > 0 && a.d[0] % 2 == 1
  {
    hide Val, BPow, Decode, IsField;
    FieldSized(pr);
    InverseLimbs(z, a.Value(pr), BPow(pr.limbs), pr.P());
    ValidLength(a, pr);
    LowBit(a.d[..]);
  }

  lemma ValidLength(a: Element, pr: Params)
    requires a.Valid(pr)
    ensures a.d.Length == pr.limbs && (a.flag == 0 || a.flag == 2)
  {
    hide Val;
  }

  lemma {:induction false} InverseLimbs(z: int, v: int, r: int, p: int)
    requires p > 1 && r * z % p == 1 && v == z % p
    ensures v != 0 && v * r % p == 1
  {
    ModMod(z, p);
    ModMul(v, z, r, r, p);
    assert z * r == r * z;
    ModSmall(0, p);
  }

  // ---------------------------------------------------------------- field set-up

  // mpz_size: the number of limbs without leading zeros.
  function SizeInLimbs(v: nat): (n: nat)
    ensures v < BPow(n)
    ensures v > 0 ==> n > 0 && BPow(n - 1) <= v
  {
    if v == 0 then 0 else 1 + SizeInLimbs(v / B)
  }

  lemma {:induction false} PowerOfTwoFactor(p: int, k: nat)
    requires IsPrime(p) && Pow(2, k) % p == 0
    ensures p == 2
  {
    if k == 0 {
      ModSmall(1, p);
    } else {
      PrimeDivides(2, Pow(2, k - 1), p);
      if 2 % p == 0 {
        if p > 2 { ModSmall(2, p); }
      } else {
        PowerOfTwoFactor(p, k - 1);
      }
    }
  }

  lemma {:induction false} RadixIsPower(n: nat)
    ensures BPow(n) == Pow(2, 64 * n)
  {
    if n > 0 {
      RadixIsPower(n - 1);
      PowAdd(2, 64, 64 * (n - 1));
      LimbIsPower();
    }
  }

  lemma {:induction false} LimbIsPower()
    ensures Pow(2, 64) == B
  {
    assert Pow(2, 4) == 16;
    PowAdd(2, 4, 4);
    PowAdd(2, 8, 8);
    PowAdd(2, 16, 16);
    PowAdd(2, 32, 32);
    hide Pow;
  }

  lemma {:induction false} OddPrimeCoprime(p: int, n: nat)
    requires IsPrime(p) && p != 2 && n > 0
    ensures Coprime(p, BPow(n))
  {
    RadixIsPower(n);
    if BPow(n) % p == 0 { PowerOfTwoFactor(p, 64 * n); }
    PrimeCoprime(BPow(n), p);
    var r := Inverse(BPow(n), p);
    ModSmall(1, p);
    var k := ModElim(BPow(n) * r, 1, p);
    assert BPow(n) == B * BPow(n - 1) && BPow(n - 1) > 0;
    hide BPow;
    ModIntro(p * (0 - k), 1, 0 - r, BPow(n)) by { assert p * (0 - k) == 1 + (0 - r) * BPow(n); }
    ModSmall(1, BPow(n));
    CoprimeIntro(p, 0 - k, BPow(n));
  }

  // The constants: R and R^3 modulo p, and -p^-1 modulo the limb base from the inverse of p modulo R.
  method FieldInit(prime: nat) returns (pr: Params)
    requires IsPrime(prime) && prime != 2 && prime >= B
    ensures pr.Ready() && pr.P() == prime && pr.limbs == SizeInLimbs(prime)
    ensures |pr.R| == |pr.R3| == pr.limbs && Val(pr.R) == BPow(pr.limbs) % prime
    ensures Val(pr.R3) == BPow(pr.limbs) * BPow(pr.limbs) * BPow(pr.limbs) % prime
    ensures IsField(pr) <==> !HasCollision(pr)
    ensures pr.primelimbs[pr.limbs - 1] < B - 1 ==> IsField(pr)
    ensures pr.limbs == 2 && pr.primelimbs[1] == B - 1 ==> LowLimbDecides(pr)
    ensures pr.limbs >= 3 && pr.primelimbs[pr.limbs - 1] == B - 1 ==> NextLimbDecides(pr)
  {
    var t := SizeInLimbs(prime);
    var primelimbs := ToLimbs(prime, t);
    var r := BPow(t) % prime;
    var r3 := r * r * r % prime;
    OddPrimeCoprime(prime, t);
    var z := Inverse(prime, BPow(t));
    var negpinv := (B - z % B) % B;
    pr := Params(t, primelimbs, negpinv, ToLimbs(r, t), ToLimbs(r3, t));
    NegatedInverse(prime, z, t, negpinv);
    ModMod(BPow(t), prime);
    ModMul(r, BPow(t), r, BPow(t), prime);
    ModMul(r * r, BPow(t) * BPow(t), r, BPow(t), prime);
    Moduli(pr);
  }

  // Two limbs, top limb B-1, low limb s.
  ghost predicate LowLimbDecides(pr: Params)
    requires |pr.primelimbs| == 2
  {
    var s := pr.primelimbs[0];
    var k := s - B / 2;
    && (k <= 0 ==> Multiplies(pr))
    && (4 * s > 3 * B ==> !Multiplies(pr))
    && (k > 1 && !IsPrime(k) ==> !Multiplies(pr))
    && ((k == 1 || IsPrime(k)) && 2 * (k * k) <= B ==> Multiplies(pr))
  }

  // Three limbs or more, top limb B-1, the next one e and the one after that f.
  ghost predicate NextLimbDecides(pr: Params)
    requires |pr.primelimbs| == pr.limbs >= 3
  {
    var t := pr.limbs;
    var e, f := pr.primelimbs[t - 2], pr.primelimbs[t - 3];
    && (e == 0 && f < B - 1 ==> Multiplies(pr))
    && (t == 3 ==> (Multiplies(pr) <==> e < 3 || (e == 3 && 5 <= f && 2 * f < B)))
    && (4 <= t && 2 <= e ==> !Multiplies(pr))
    && (7 <= t && 1 <= e ==> !Multiplies(pr))
  }

  // Which moduli multiply right: exactly those without a collision, and what the limbs alone say of that.
  lemma {:induction false} Moduli(pr: Params)
    requires pr.Ready()
    ensures Multiplies(pr) <==> !HasCollision(pr)
    ensures pr.primelimbs[pr.limbs - 1] < B - 1 || pr.Roomy() ==> Multiplies(pr)
    ensures pr.limbs == 2 && pr.primelimbs[1] == B - 1 ==> LowLimbDecides(pr)
    ensures pr.limbs >= 3 && pr.primelimbs[pr.limbs - 1] == B - 1 ==> NextLimbDecides(pr)
  {
    hide Multiplies, Val, BPow, HasCollision, IsPrime;
    ModulusIff(pr);
    if pr.primelimbs[pr.limbs - 1] < B - 1 { TopLimbGivesRoom(pr); }
    if pr.Roomy() { RoomMultiplies(pr); }
    if pr.primelimbs[pr.limbs - 1] == B - 1 {
      if pr.limbs == 2 {
        assert pr.primelimbs == [B - (B - pr.primelimbs[0]), B - 1];
        TwoLimbsDecided(pr, B - pr.primelimbs[0]);
      } else if pr.limbs >= 3 {
        var t := pr.limbs;
        if pr.primelimbs[t - 2] == 0 && pr.primelimbs[t - 3] < B - 1 {
          ZeroLimbGivesRoom(pr);
          RoomMultiplies(pr);
        }
        if t == 3 { ThreeLimbsDecided(pr); }
        if pr.primelimbs[t - 2] >= if t == 3 then 4 else if t < 7 then 2 else 1 { NextLimbLoses(pr); }
      }
    }
  }

  lemma {:induction false} NegatedInverse(p: nat, z: nat, t: nat, n: int)
    requires t > 0 && p * z % BPow(t) == 1 && n == (B - z % B) % B
    ensures (p * n + 1) % B == 0
  {
    var q := BPow(t - 1);
    assert BPow(t) == B * q && q > 0;
    hide BPow;
    ProductModB(p * z, q);
    SumVanishes(z, n);
    ModSmall(1, B);
    ModMul(n + z, 0, p, p, B);
    ModAdd((n + z) * p, 0 * p, p * z, 1, B);
    ModAdd(p * n, -1, 1, 1, B) by { Spread(n, z, p); }
    ModSmall(0, B);
  }

  lemma {:induction false} ProductModB(x: int, q: int)
    requires q > 0 && x % (B * q) == 1
    ensures x % B == 1
  {
    var k := x / (B * q);
    Reassociate(k, q);
    ModSmall(1, B);
    assert x == 1 + (B * q) * k;
    ModIntro(x, 1, k * q, B);
  }

  lemma SumVanishes(z: nat, n: int)
    requires n == (B - z % B) % B
    ensures (n + z) % B == 0 % B
  {
  }

  lemma Reassociate(k: int, q: int)
    ensures (B * q) * k == (k * q) * B
  {
  }

  lemma Spread(n: int, z: int, p: int)
    ensures (n + z) * p + 1 - p * z == p * n + 1 && 0 * p == 0
    ensures (n + z) * p - p * z == p * n
  {
  }

}
