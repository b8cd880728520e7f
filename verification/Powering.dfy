// Exponentiation in an arbitrary monoid: sliding windows, several bases at once, and precomputed tables.
module Powering {
  import opened Arith
  import opened Bits

  datatype Monoid<!T> = Monoid(one: T, times: (T, T) -> T)

  function Mul<T>(m: Monoid<T>, a: T, b: T): T
  {
    m.times(a, b)
  }

  ghost predicate Lawful<T(!new)>(m: Monoid<T>)
  {
    && (forall a, b, c :: Mul(m, Mul(m, a, b), c) == Mul(m, a, Mul(m, b, c)))
    && (forall a :: Mul(m, m.one, a) == a && Mul(m, a, m.one) == a)
  }

  function GPow<T>(m: Monoid<T>, a: T, n: nat): T
  {
    if n == 0 then m.one else Mul(m, GPow(m, a, n - 1), a)
  }

  // ---------------------------------------------------------------- laws

  lemma {:induction false} GPowStep<T>(m: Monoid<T>, a: T, n: nat)
    ensures GPow(m, a, 0) == m.one && GPow(m, a, n + 1) == Mul(m, GPow(m, a, n), a)
  {
  }

  lemma {:induction false} GPowSum<T(!new)>(m: Monoid<T>, a: T, i: nat, j: nat)
    requires Lawful(m)
    ensures GPow(m, a, i + j) == Mul(m, GPow(m, a, i), GPow(m, a, j))
  {
    if j > 0 {
      GPowSum(m, a, i, j - 1);
      assert GPow(m, a, i + j) == Mul(m, GPow(m, a, i + (j - 1)), a);
      assert Mul(m, Mul(m, GPow(m, a, i), GPow(m, a, j - 1)), a) == Mul(m, GPow(m, a, i), Mul(m, GPow(m, a, j - 1), a));
    }
  }

  lemma {:induction false} GPowProduct<T(!new)>(m: Monoid<T>, a: T, i: nat, j: nat)
    requires Lawful(m)
    ensures GPow(m, GPow(m, a, i), j) == GPow(m, a, i * j)
  {
    if j == 0 {
      assert i * j == 0;
    } else {
      GPowProduct(m, a, i, j - 1);
      assert i * j == i * (j - 1) + i;
      MulLe(0, j - 1, i);
      GPowSum(m, a, i * (j - 1), i);
    }
  }

  lemma {:induction false} GPowOne<T(!new)>(m: Monoid<T>, a: T)
    requires Lawful(m)
    ensures GPow(m, a, 1) == a
  {
    GPowStep(m, a, 0);
  }

  lemma {:induction false} GPowOfOne<T(!new)>(m: Monoid<T>, n: nat)
    requires Lawful(m)
    ensures GPow(m, m.one, n) == m.one
  {
    if n > 0 { GPowOfOne(m, n - 1); }
  }

  // ---------------------------------------------------------------- sliding window

  function OptimalWindow(bits: nat): (k: nat)
    ensures 2 <= k <= 8
  {
    if bits > 9065 then 8 else if bits > 3529 then 7 else if bits > 1324 then 6 else if bits > 474 then 5
    else if bits > 157 then 4 else if bits > 47 then 3 else 2
  }

  // The powers of a below the 2^k-th.
  ghost predicate IsWindow<T>(m: Monoid<T>, a: T, k: nat, lookup: seq<T>)
  {
    |lookup| == ShiftUnit(k) && forall s :: 0 <= s < |lookup| ==> lookup[s] == GPow(m, a, s)
  }

  method BuildPowWindow<T>(m: Monoid<T>, a: T, k: nat) returns (lookup: array<T>)
    requires k >= 1
    ensures fresh(lookup) && IsWindow(m, a, k, lookup[..])
  {
    hide GPow, Mul, ShiftUnit;
    var size := ShiftUnit(k);
    lookup := new T[size](_ => m.one);
    GPowStep(m, a, 0);
    for s := 1 to size
      invariant forall j :: 0 <= j < s ==> lookup[j] == GPow(m, a, j)
    {
      GPowStep(m, a, s - 1);
      lookup[s] := Mul(m, lookup[s - 1], a);
    }
  }

  // Squaring doubles the exponent; a pending word doubles with it.
  lemma {:induction false} SquareStep<T(!new)>(m: Monoid<T>, a: T, e: nat)
    requires Lawful(m)
    ensures Mul(m, GPow(m, a, e), GPow(m, a, e)) == GPow(m, a, 2 * e)
  {
    GPowSum(m, a, e, e);
    assert e + e == 2 * e;
  }

  // While the bits of n from j up are read, a pending word is still missing from the result.
  ghost function Pending(n: nat, j: nat, inword: bool, word: nat): nat
  {
    if inword && word <= Shift(n, j) then Shift(n, j) - word else Shift(n, j)
  }

  ghost predicate WordFits(n: nat, j: nat, inword: bool, word: nat, wbits: nat, k: nat)
  {
    inword ==> 1 <= wbits < k && j > 0 && word < ShiftUnit(wbits) && word <= Shift(n, j)
  }

  lemma {:induction false} ReadBit(n: nat, s: nat, inword: bool, word: nat, wbits: nat, k: nat)
    requires WordFits(n, s + 1, inword, word, wbits, k)
    ensures var w := if inword then 2 * word + BitAt(n, s) else BitAt(n, s);
            && 2 * Pending(n, s + 1, inword, word) + w == Shift(n, s)
            && w < ShiftUnit(if inword then wbits + 1 else 1)
  {
    NextBit(n, s);
    UnitStep(0);
    UnitStep(wbits);
  }

  lemma {:induction false} InWindow<T>(m: Monoid<T>, a: T, k: nat, lookup: seq<T>, word: nat, wbits: nat)
    requires IsWindow(m, a, k, lookup) && word < ShiftUnit(wbits) && wbits <= k
    ensures word < |lookup| && lookup[word] == GPow(m, a, word)
  {
    UnitGrows(wbits, k);
  }

  method PowWind<T(!new)>(m: Monoid<T>, n: nat, k: nat, lookup: array<T>, ghost a: T) returns (x: T)
    requires Lawful(m) && k >= 1 && IsWindow(m, a, k, lookup[..])
    ensures x == GPow(m, a, n)
  {
    hide GPow, Mul, Lawful, Shift, ShiftUnit, BitAt, SizeInBase2, IsWindow;
    GPowStep(m, a, 0);
    if n == 0 {
      return m.one;
    }
    var result := m.one;
    TopIsZero(n);
    ShiftEnds(n);
    var inword, word, wbits := false, 0, 0;
    var s := SizeInBase2(n) - 1;
    while s >= 0
      invariant -1 <= s && word >= 0
      invariant WordFits(n, s + 1, inword, word, wbits, k)
      invariant result == GPow(m, a, Pending(n, s + 1, inword, word))
      decreases s
    {
      ghost var e := Pending(n, s + 1, inword, word);
      SquareStep(m, a, e);
      result := Mul(m, result, result);
      var bit := BitAt(n, s);
      ReadBit(n, s, inword, word, wbits, k);
      if !inword && bit == 0 {
        s := s - 1;
        continue;
      }
      if !inword {
        inword := true;
        word := 1;
        wbits := 1;
      } else {
        word := 2 * word + bit;
        wbits := wbits + 1;
      }
      if wbits == k || s == 0 {
        InWindow(m, a, k, lookup[..], word, wbits);
        GPowSum(m, a, 2 * e, word);
        result := Mul(m, result, lookup[word]);
        inword := false;
      }
      s := s - 1;
    }
    x := result;
  }

  method PowMpz<T(!new)>(m: Monoid<T>, a: T, n: nat) returns (x: T)
    requires Lawful(m)
    ensures x == GPow(m, a, n)
  {
    if n == 0 {
      return m.one;
    }
    var k := OptimalWindow(SizeInBase2(n));
    var lookup := BuildPowWindow(m, a, k);
    x := PowWind(m, n, k, lookup, a);
  }

  // ---------------------------------------------------------------- several bases

  ghost predicate Commuting<T(!new)>(m: Monoid<T>)
  {
    forall a, b :: Mul(m, a, b) == Mul(m, b, a)
  }

  lemma {:induction false} Interchange<T(!new)>(m: Monoid<T>, a: T, b: T, c: T, d: T)
    requires Lawful(m) && Commuting(m)
    ensures Mul(m, Mul(m, a, b), Mul(m, c, d)) == Mul(m, Mul(m, a, c), Mul(m, b, d))
  {
    hide Mul;
    assert Mul(m, Mul(m, a, b), Mul(m, c, d)) == Mul(m, a, Mul(m, b, Mul(m, c, d)));
    assert Mul(m, b, Mul(m, c, d)) == Mul(m, Mul(m, b, c), d);
    assert Mul(m, Mul(m, c, b), d) == Mul(m, c, Mul(m, b, d));
    assert Mul(m, Mul(m, a, c), Mul(m, b, d)) == Mul(m, a, Mul(m, c, Mul(m, b, d)));
  }

  // a^x * b^y
  ghost function Pair<T>(m: Monoid<T>, a: T, x: nat, b: T, y: nat): T
  {
    Mul(m, GPow(m, a, x), GPow(m, b, y))
  }

  lemma {:induction false} PairSum<T(!new)>(m: Monoid<T>, a: T, b: T, x: nat, y: nat, u: nat, v: nat)
    requires Lawful(m) && Commuting(m)
    ensures Mul(m, Pair(m, a, x, b, y), Pair(m, a, u, b, v)) == Pair(m, a, x + u, b, y + v)
  {
    hide Mul, Lawful, Commuting, GPow;
    GPowSum(m, a, x, u);
    GPowSum(m, b, y, v);
    Interchange(m, GPow(m, a, x), GPow(m, b, y), GPow(m, a, u), GPow(m, b, v));
  }

  // One round of the joint loop: square, then multiply by the bits' entry.
  lemma {:induction false} PairRound<T(!new)>(m: Monoid<T>, a: T, b: T, n1: nat, n2: nat, s: nat)
    requires Lawful(m) && Commuting(m)
    ensures var r := Pair(m, a, Shift(n1, s + 1), b, Shift(n2, s + 1));
            Mul(m, Mul(m, r, r), Pair(m, a, BitAt(n1, s), b, BitAt(n2, s))) == Pair(m, a, Shift(n1, s), b, Shift(n2, s))
  {
    hide *;
    var x, y := Shift(n1, s + 1), Shift(n2, s + 1);
    NextBit(n1, s);
    NextBit(n2, s);
    PairSum(m, a, b, x, y, x, y);
    PairSum(m, a, b, x + x, y + y, BitAt(n1, s), BitAt(n2, s));
    assert x + x == 2 * x && y + y == 2 * y;
  }

  lemma {:induction false} SmallPairs<T(!new)>(m: Monoid<T>, a: T, b: T, i: nat, j: nat)
    requires Lawful(m) && i <= 1 && j <= 1
    ensures Pair(m, a, i, b, j) == if i == 1 && j == 1 then Mul(m, a, b) else if i == 1 then a else if j == 1 then b else m.one
    ensures forall c :: Mul(m, c, m.one) == c
  {
    GPowOne(m, a);
    GPowOne(m, b);
    GPowStep(m, a, 0);
    GPowStep(m, b, 0);
  }

  // From the larger of the two bit lengths on, both exponents are shifted out.
  lemma {:induction false} ShiftedOutFrom(n: nat, j: nat)
    requires j >= SizeInBase2(n)
    ensures Shift(n, j) == 0
  {
    BelowTop(n);
    UnitGrows(SizeInBase2(n), j);
    ShiftedOut(n, j);
  }

  method Pow2Mpz<T(!new)>(m: Monoid<T>, a1: T, n1: nat, a2: T, n2: nat) returns (x: T)
    requires Lawful(m) && Commuting(m)
    ensures x == Mul(m, GPow(m, a1, n1), GPow(m, a2, n2))
  {
    hide GPow, Mul, Lawful, Commuting, Shift, BitAt, SizeInBase2;
    SmallPairs(m, a1, a2, 0, 0);
    if n1 == 0 && n2 == 0 {
      return m.one;
    }
    var result := m.one;
    var a1a2 := Mul(m, a1, a2);
    var s1 := SizeInBase2(n1) - 1;
    var s2 := SizeInBase2(n2) - 1;
    var s := if s1 > s2 then s1 else s2;
    ShiftedOutFrom(n1, s + 1);
    ShiftedOutFrom(n2, s + 1);
    ShiftEnds(n1);
    ShiftEnds(n2);
    while s >= 0
      invariant -1 <= s
      invariant result == Pair(m, a1, Shift(n1, s + 1), a2, Shift(n2, s + 1))
      decreases s
    {
      PairRound(m, a1, a2, n1, n2, s);
      result := Mul(m, result, result);
      var b1 := BitAt(n1, s);
      var b2 := BitAt(n2, s);
      SmallPairs(m, a1, a2, b1, b2);
      if b1 == 1 && b2 == 1 {
        result := Mul(m, result, a1a2);
      } else if b1 == 1 {
        result := Mul(m, result, a1);
      } else if b2 == 1 {
        result := Mul(m, result, a2);
      }
      s := s - 1;
    }
    x := result;
  }

  // a^x * b^y * c^z
  ghost function Triple<T>(m: Monoid<T>, a: T, x: nat, b: T, y: nat, c: T, z: nat): T
  {
    Mul(m, Pair(m, a, x, b, y), GPow(m, c, z))
  }

  lemma {:induction false} TripleRound<T(!new)>(m: Monoid<T>, a: T, b: T, c: T, n1: nat, n2: nat, n3: nat, s: nat)
    requires Lawful(m) && Commuting(m)
    ensures var r := Triple(m, a, Shift(n1, s + 1), b, Shift(n2, s + 1), c, Shift(n3, s + 1));
            Mul(m, Mul(m, r, r), Triple(m, a, BitAt(n1, s), b, BitAt(n2, s), c, BitAt(n3, s))) ==
              Triple(m, a, Shift(n1, s), b, Shift(n2, s), c, Shift(n3, s))
  {
    hide GPow, Mul, Lawful, Commuting, Shift, BitAt, Pair;
    var r, w := Pair(m, a, Shift(n1, s + 1), b, Shift(n2, s + 1)), Shift(n3, s + 1);
    var d := Pair(m, a, BitAt(n1, s), b, BitAt(n2, s));
    PairRound(m, a, b, n1, n2, s);
    NextBit(n3, s);
    SquareStep(m, c, w);
    GPowSum(m, c, 2 * w, BitAt(n3, s));
    Interchange(m, r, GPow(m, c, w), r, GPow(m, c, w));
    Interchange(m, Mul(m, r, r), GPow(m, c, 2 * w), d, GPow(m, c, BitAt(n3, s)));
  }

  // The entry for the bits i + 2j + 4k.
  ghost predicate IsCube<T>(m: Monoid<T>, a: T, b: T, c: T, lookup: seq<T>)
  {
    && |lookup| == 8
    && lookup[0] == Triple(m, a, 0, b, 0, c, 0) && lookup[1] == Triple(m, a, 1, b, 0, c, 0)
    && lookup[2] == Triple(m, a, 0, b, 1, c, 0) && lookup[3] == Triple(m, a, 1, b, 1, c, 0)
    && lookup[4] == Triple(m, a, 0, b, 0, c, 1) && lookup[5] == Triple(m, a, 1, b, 0, c, 1)
    && lookup[6] == Triple(m, a, 0, b, 1, c, 1) && lookup[7] == Triple(m, a, 1, b, 1, c, 1)
  }

  method Pow3Mpz<T(!new)>(m: Monoid<T>, a1: T, n1: nat, a2: T, n2: nat, a3: T, n3: nat) returns (x: T)
    requires Lawful(m) && Commuting(m)
    ensures x == Mul(m, Mul(m, GPow(m, a1, n1), GPow(m, a2, n2)), GPow(m, a3, n3))
  {
    hide GPow, Mul, Lawful, Commuting, Shift, BitAt, SizeInBase2, Pair, IsCube;
    EmptyTriple(m, a1, a2, a3);
    if n1 == 0 && n2 == 0 && n3 == 0 {
      PairUnfolds(m, a1, 0, a2, 0);
      return m.one;
    }
    var result := m.one;
    var lookup := new T[8](_ => m.one);
    lookup[1] := a1;
    lookup[2] := a2;
    lookup[4] := a3;
    lookup[3] := Mul(m, a1, a2);
    lookup[5] := Mul(m, a1, a3);
    lookup[6] := Mul(m, a2, a3);
    lookup[7] := Mul(m, lookup[6], a1);
    CubeFilled(m, a1, a2, a3, lookup[..]);
    var s1 := SizeInBase2(n1) - 1;
    var s2 := SizeInBase2(n2) - 1;
    var s3 := SizeInBase2(n3) - 1;
    var s := if s1 > s2 then (if s1 > s3 then s1 else s3) else if s2 > s3 then s2 else s3;
    ShiftedOutFrom(n1, s + 1);
    ShiftedOutFrom(n2, s + 1);
    ShiftedOutFrom(n3, s + 1);
    ShiftEnds(n1);
    ShiftEnds(n2);
    ShiftEnds(n3);
    while s >= 0
      invariant -1 <= s
      invariant result == Triple(m, a1, Shift(n1, s + 1), a2, Shift(n2, s + 1), a3, Shift(n3, s + 1))
      invariant IsCube(m, a1, a2, a3, lookup[..])
      decreases s
    {
      TripleRound(m, a1, a2, a3, n1, n2, n3, s);
      result := Mul(m, result, result);
      var b := BitAt(n1, s) + 2 * BitAt(n2, s) + 4 * BitAt(n3, s);
      CubeEntry(m, a1, a2, a3, lookup[..], BitAt(n1, s), BitAt(n2, s), BitAt(n3, s));
      result := Mul(m, result, lookup[b]);
      s := s - 1;
    }
    PairUnfolds(m, a1, n1, a2, n2);
    x := result;
  }

  lemma PairUnfolds<T>(m: Monoid<T>, a: T, x: nat, b: T, y: nat)
    ensures Pair(m, a, x, b, y) == Mul(m, GPow(m, a, x), GPow(m, b, y))
  {
  }

  lemma {:induction false} EmptyTriple<T(!new)>(m: Monoid<T>, a: T, b: T, c: T)
    requires Lawful(m)
    ensures Triple(m, a, 0, b, 0, c, 0) == m.one
  {
    SmallPairs(m, a, b, 0, 0);
    GPowStep(m, c, 0);
  }

  lemma {:induction false} CubeEntry<T>(m: Monoid<T>, a: T, b: T, c: T, lookup: seq<T>, i: nat, j: nat, k: nat)
    requires IsCube(m, a, b, c, lookup) && i <= 1 && j <= 1 && k <= 1
    ensures |lookup| == 8 && lookup[i + 2 * j + 4 * k] == Triple(m, a, i, b, j, c, k)
  {
  }

  lemma {:induction false} CubeFilled<T(!new)>(m: Monoid<T>, a: T, b: T, c: T, lookup: seq<T>)
    requires Lawful(m) && Commuting(m) && |lookup| == 8
    requires lookup[0] == m.one && lookup[1] == a && lookup[2] == b && lookup[3] == Mul(m, a, b) && lookup[4] == c
    requires lookup[5] == Mul(m, a, c) && lookup[6] == Mul(m, b, c) && lookup[7] == Mul(m, Mul(m, b, c), a)
    ensures IsCube(m, a, b, c, lookup)
  {
    hide GPow, Mul, Pair, Lawful, Commuting, Triple;
    TripleIs(m, a, b, c, 0, 0, 0);
    TripleIs(m, a, b, c, 1, 0, 0);
    TripleIs(m, a, b, c, 0, 1, 0);
    TripleIs(m, a, b, c, 1, 1, 0);
    TripleIs(m, a, b, c, 0, 0, 1);
    TripleIs(m, a, b, c, 1, 0, 1);
    TripleIs(m, a, b, c, 0, 1, 1);
    TripleIs(m, a, b, c, 1, 1, 1);
    LastEntry(m, a, b, c);
  }

  lemma {:induction false} LastEntry<T(!new)>(m: Monoid<T>, a: T, b: T, c: T)
    requires Lawful(m) && Commuting(m)
    ensures Mul(m, Mul(m, b, c), a) == Mul(m, Mul(m, a, b), c)
    ensures forall d :: Mul(m, d, m.one) == d && Mul(m, m.one, d) == d
  {
    hide Mul;
    assert Mul(m, Mul(m, b, c), a) == Mul(m, a, Mul(m, b, c));
  }

  lemma {:induction false} TripleIs<T(!new)>(m: Monoid<T>, a: T, b: T, c: T, i: nat, j: nat, k: nat)
    requires Lawful(m) && i <= 1 && j <= 1 && k <= 1
    ensures Triple(m, a, i, b, j, c, k) ==
      Mul(m, if i == 1 && j == 1 then Mul(m, a, b) else if i == 1 then a else if j == 1 then b else m.one, if k == 1 then c else m.one)
  {
    hide GPow, Mul, Pair, Lawful;
    SmallPairs(m, a, b, i, j);
    GPowOne(m, c);
    GPowStep(m, c, 0);
  }

  // ---------------------------------------------------------------- base tables

  // Row i is the window of a^(2^(k*i)).
  ghost predicate IsBaseTable<T>(m: Monoid<T>, a: T, bits: nat, k: nat, table: seq<seq<T>>)
  {
    k >= 1 && |table| == bits / k + 1 && forall i :: 0 <= i < |table| ==> IsWindow(m, RowBase(m, a, k, i), k, table[i])
  }

  function RowBase<T>(m: Monoid<T>, a: T, k: nat, i: nat): T
  {
    GPow(m, a, ShiftUnit(k * i))
  }

  lemma {:induction false} NextRow<T(!new)>(m: Monoid<T>, a: T, k: nat, i: nat)
    requires Lawful(m)
    ensures RowBase(m, a, k, 0) == a && RowBase(m, a, k, i + 1) == GPow(m, RowBase(m, a, k, i), ShiftUnit(k))
  {
    hide GPow, ShiftUnit, Lawful;
    UnitStep(0);
    assert k * 0 == 0 && k * (i + 1) == k * i + k;
    GPowOne(m, a);
    UnitSum(k * i, k);
    GPowProduct(m, a, ShiftUnit(k * i), ShiftUnit(k));
  }

  lemma {:induction false} LeftStep<T(!new)>(m: Monoid<T>, a: T, n: nat)
    requires Lawful(m)
    ensures GPow(m, a, 0) == m.one && Mul(m, a, GPow(m, a, n)) == GPow(m, a, n + 1)
  {
    hide Lawful;
    GPowOne(m, a);
    GPowSum(m, a, 1, n);
  }

  method BuildRow<T(!new)>(m: Monoid<T>, multiplier: T, k: nat) returns (lookup: array<T>)
    requires Lawful(m)
    ensures fresh(lookup) && IsWindow(m, multiplier, k, lookup[..])
  {
    hide GPow, Mul, ShiftUnit, Lawful;
    var size := ShiftUnit(k);
    lookup := new T[size](_ => m.one);
    LeftStep(m, multiplier, 0);
    for j := 1 to size
      invariant forall s :: 0 <= s < j ==> lookup[s] == GPow(m, multiplier, s)
    {
      LeftStep(m, multiplier, j - 1);
      lookup[j] := Mul(m, multiplier, lookup[j - 1]);
    }
  }

  method BuildBaseTable<T(!new)>(m: Monoid<T>, a: T, bits: nat, k: nat) returns (table: array<seq<T>>)
    requires Lawful(m) && k >= 1
    ensures fresh(table) && IsBaseTable(m, a, bits, k, table[..])
  {
    hide GPow, Mul, ShiftUnit, Lawful, RowBase, IsWindow;
    var n := bits / k + 1;
    table := new seq<T>[n](_ => []);
    var multiplier := a;
    NextRow(m, a, k, 0);
    for i := 0 to n
      invariant multiplier == RowBase(m, a, k, i)
      invariant forall r :: 0 <= r < i ==> IsWindow(m, RowBase(m, a, k, r), k, table[r])
    {
      var lookup := BuildRow(m, multiplier, k);
      NextRow(m, a, k, i);
      WindowEnd(m, multiplier, k, lookup[..]);
      multiplier := Mul(m, multiplier, lookup[lookup.Length - 1]);
      table[i] := lookup[..];
    }
  }

  lemma {:induction false} WindowEnd<T(!new)>(m: Monoid<T>, a: T, k: nat, lookup: seq<T>)
    requires Lawful(m) && IsWindow(m, a, k, lookup)
    ensures |lookup| > 0 && Mul(m, a, lookup[|lookup| - 1]) == GPow(m, a, ShiftUnit(k))
  {
    hide GPow, Mul, ShiftUnit, Lawful;
    LeftStep(m, a, |lookup| - 1);
  }

  // One row multiplies in the next k bits.
  lemma {:induction false} RowStep<T(!new)>(m: Monoid<T>, a: T, n: nat, k: nat, row: nat)
    requires Lawful(m)
    ensures var w := Low(Shift(n, k * row), k);
            && Mul(m, GPow(m, a, Low(n, k * row)), GPow(m, RowBase(m, a, k, row), w)) == GPow(m, a, Low(n, k * (row + 1)))
            && w < ShiftUnit(k) && (w == 0 ==> Low(n, k * (row + 1)) == Low(n, k * row))
  {
    hide GPow, Mul, ShiftUnit, Lawful, Shift;
    var w := Low(Shift(n, k * row), k);
    assert k * (row + 1) == k * row + k;
    LowStep(n, k * row, k);
    GPowProduct(m, a, ShiftUnit(k * row), w);
    MulNat(ShiftUnit(k * row), w);
    GPowSum(m, a, Low(n, k * row), ShiftUnit(k * row) * w);
  }

  lemma MulNat(a: nat, b: nat)
    ensures a * b >= 0 && (b == 0 ==> a * b == 0)
  {
  }

  // The word assembled from bits k*row .. k*row + k - 1.
  method ReadWord(n: nat, k: nat, row: nat) returns (word: nat)
    ensures word == Low(Shift(n, k * row), k)
  {
    hide *;
    word := 0;
    LowBitStep(Shift(n, k * row), 0);
    for s := 0 to k
      invariant word == Low(Shift(n, k * row), s)
    {
      LowBitStep(Shift(n, k * row), s);
      BitOfShift(n, k * row, s);
      word := word + ShiftUnit(s) * BitAt(n, k * row + s);
    }
  }

  lemma {:induction false} BitOfShift(n: nat, i: nat, s: nat)
    ensures BitAt(n, i + s) == BitAt(Shift(n, i), s)
  {
    LowStep(n, i, s);
  }

  lemma {:induction false} TableEntry<T>(m: Monoid<T>, a: T, bits: nat, k: nat, table: seq<seq<T>>, row: nat, word: nat)
    requires IsBaseTable(m, a, bits, k, table) && row <= bits / k && word < ShiftUnit(k)
    ensures row < |table| && word < |table[row]| && table[row][word] == GPow(m, RowBase(m, a, k, row), word)
  {
    hide GPow, ShiftUnit, RowBase;
  }

  // Exponents above the order are reduced first; up to the order they are not, so a^order = 1 is not needed for them.
  method PowBaseTable<T(!new)>(m: Monoid<T>, power: nat, order: nat, bits: nat, k: nat, table: array<seq<T>>, ghost a: T) returns (x: T)
    requires Lawful(m) && order > 0 && bits >= SizeInBase2(order) && IsBaseTable(m, a, bits, k, table[..])
    ensures x == GPow(m, a, if power > order then power % order else power)
    ensures power <= order || GPow(m, a, order) == m.one ==> x == GPow(m, a, power)
  {
    hide *;
    var n := power;
    if n == 0 {
      GPowStep(m, a, 0);
      return m.one;
    }
    if n > order {
      if GPow(m, a, order) == m.one { PowReduces(m, a, power, order); }
      n := n % order;
    }
    var result := m.one;
    TableShape(m, a, bits, k, table[..]);
    RowsSuffice(n, order, bits, k);
    var num_lookups := SizeInBase2(n) / k + 1;
    EmptyLow(m, a, n, k);
    for row := 0 to num_lookups
      invariant result == GPow(m, a, Low(n, k * row))
    {
      RowStep(m, a, n, k, row);
      var word := ReadWord(n, k, row);
      TableEntry(m, a, bits, k, table[..], row, word);
      if word > 0 {
        result := Mul(m, result, table[row][word]);
      }
    }
    x := result;
  }

  lemma TableShape<T>(m: Monoid<T>, a: T, bits: nat, k: nat, table: seq<seq<T>>)
    requires IsBaseTable(m, a, bits, k, table)
    ensures k >= 1 && |table| == bits / k + 1
  {
  }

  lemma {:induction false} EmptyLow<T>(m: Monoid<T>, a: T, n: nat, k: nat)
    ensures GPow(m, a, Low(n, k * 0)) == m.one
  {
    assert k * 0 == 0;
    UnitStep(0);
  }

  lemma {:induction false} RowsSuffice(n: nat, order: nat, bits: nat, k: nat)
    requires n <= order && bits >= SizeInBase2(order) && k >= 1
    ensures SizeInBase2(n) / k <= bits / k && Low(n, k * (SizeInBase2(n) / k + 1)) == n
  {
    hide *;
    SizeMonotone(n, order);
    var s := SizeInBase2(n);
    DivMonotone(s, bits, k);
    RoundedUp(s, k);
    LowAll(n, k * (s / k + 1));
  }

  lemma RoundedUp(s: nat, k: nat)
    requires k >= 1
    ensures k * (s / k + 1) >= s
  {
    assert s == k * (s / k) + s % k;
  }

  lemma DivMonotone(s: nat, b: nat, k: nat)
    requires s <= b && k >= 1
    ensures s / k <= b / k
  {
    assert s == k * (s / k) + s % k && b == k * (b / k) + b % k;
    if s / k > b / k { MulLe(b / k + 1, s / k, k); }
  }

  lemma {:induction false} PowReduces<T(!new)>(m: Monoid<T>, a: T, power: nat, order: nat)
    requires Lawful(m) && order > 0 && GPow(m, a, order) == m.one
    ensures GPow(m, a, power) == GPow(m, a, power % order)
  {
    hide GPow, Mul;
    var q := power / order;
    assert power == order * q + power % order;
    MulNat(order, q);
    GPowSum(m, a, order * q, power % order);
    GPowProduct(m, a, order, q);
    GPowOfOne(m, q);
  }
}
