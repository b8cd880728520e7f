// Elements of GF(3^m) as 2*len machine words: the marks of the digit 1, then the marks of the digit 2.
module TernaryElements {
  import opened TernaryWords
  import opened Polynomials
  import opened PolynomialDivision

  // ---------------------------------------------------------------- what the words denote

  ghost predicate Sane(s: seq<Word>, len: nat)
  {
    |s| == 2 * len && forall i :: 0 <= i < len ==> CleanPair(s, len, i)
  }

  // gf3m_get: the coefficient of x^pos.
  function Digit(s: seq<Word>, len: nat, pos: nat): (d: int)
    requires |s| == 2 * len && pos < 64 * len
    ensures 0 <= d <= 2
  {
    Trit(s[pos / 64], s[len + pos / 64], pos % 64)
  }

  function Digits(s: seq<Word>, len: nat): (f: Poly)
    requires |s| == 2 * len
    ensures |f| == 64 * len && forall i :: 0 <= i < |f| ==> f[i] == Digit(s, len, i) && 0 <= f[i] <= 2
  {
    seq(64 * len, i requires 0 <= i < 64 * len => Digit(s, len, i))
  }

  // ---------------------------------------------------------------- addition, subtraction, negation

  function Sum1(a1: Word, a2: Word, b1: Word, b2: Word): Word
  {
    Xor(SumMask(a1, a2, b1, b2), Or(a1, b1))
  }

  function Sum2(a1: Word, a2: Word, b1: Word, b2: Word): Word
  {
    Xor(SumMask(a1, a2, b1, b2), Or(a2, b2))
  }

  ghost predicate SumAt(e: seq<Word>, a: seq<Word>, b: seq<Word>, len: nat, j: nat)
    requires |e| == |a| == |b| == 2 * len && j < len
  {
    e[j] == Sum1(a[j], a[len + j], b[j], b[len + j]) && e[len + j] == Sum2(a[j], a[len + j], b[j], b[len + j])
  }

  ghost predicate IsSum(e: seq<Word>, a: seq<Word>, b: seq<Word>, len: nat)
  {
    |e| == |a| == |b| == 2 * len && forall j :: 0 <= j < len ==> SumAt(e, a, b, len, j)
  }

  // Subtraction adds the second operand with its words exchanged.
  ghost predicate DifferenceAt(e: seq<Word>, a: seq<Word>, b: seq<Word>, len: nat, j: nat)
    requires |e| == |a| == |b| == 2 * len && j < len
  {
    e[j] == Sum1(a[j], a[len + j], b[len + j], b[j]) && e[len + j] == Sum2(a[j], a[len + j], b[len + j], b[j])
  }

  ghost predicate IsDifference(e: seq<Word>, a: seq<Word>, b: seq<Word>, len: nat)
  {
    |e| == |a| == |b| == 2 * len && forall j :: 0 <= j < len ==> DifferenceAt(e, a, b, len, j)
  }

  ghost predicate SwappedAt(e: seq<Word>, b: seq<Word>, len: nat, j: nat)
    requires |e| == |b| == 2 * len && j < len
  {
    e[j] == b[len + j] && e[len + j] == b[j]
  }

  ghost predicate IsSwapped(e: seq<Word>, b: seq<Word>, len: nat)
  {
    |e| == |b| == 2 * len && forall j :: 0 <= j < len ==> SwappedAt(e, b, len, j)
  }

  ghost predicate SameAt(e: seq<Word>, b: seq<Word>, len: nat, j: nat)
    requires |e| == |b| == 2 * len && j < len
  {
    e[j] == b[j] && e[len + j] == b[len + j]
  }

  ghost predicate CleanPair(s: seq<Word>, len: nat, j: nat)
    requires |s| == 2 * len && j < len
  {
    Clean(s[j], s[len + j])
  }

  lemma {:induction false} SumDigits(e: seq<Word>, a: seq<Word>, b: seq<Word>, len: nat)
    requires IsSum(e, a, b, len) && Sane(a, len) && Sane(b, len)
    ensures Sane(e, len) && forall i :: 0 <= i < 64 * len ==> Digit(e, len, i) == (Digit(a, len, i) + Digit(b, len, i)) % 3
  {
    hide SumMask, Xor, Or, Clean, Trit;
    forall i | 0 <= i < len ensures CleanPair(e, len, i) {
      assert CleanPair(a, len, i) && CleanPair(b, len, i) && SumAt(e, a, b, len, i);
      AddClean(a[i], a[len + i], b[i], b[len + i]);
    }
    forall i | 0 <= i < 64 * len ensures Digit(e, len, i) == (Digit(a, len, i) + Digit(b, len, i)) % 3 {
      var j := i / 64;
      assert CleanPair(a, len, j) && CleanPair(b, len, j) && SumAt(e, a, b, len, j);
      AddWord(a[j], a[len + j], b[j], b[len + j], i % 64);
    }
  }

  lemma {:induction false} DifferenceDigits(e: seq<Word>, a: seq<Word>, b: seq<Word>, len: nat)
    requires IsDifference(e, a, b, len) && Sane(a, len) && Sane(b, len)
    ensures Sane(e, len) && forall i :: 0 <= i < 64 * len ==> Digit(e, len, i) == (Digit(a, len, i) - Digit(b, len, i)) % 3
  {
    hide SumMask, Xor, Or, Clean, Trit;
    forall i | 0 <= i < len ensures CleanPair(e, len, i) {
      assert CleanPair(a, len, i) && CleanPair(b, len, i) && DifferenceAt(e, a, b, len, i);
      CleanSwap(b[i], b[len + i]);
      AddClean(a[i], a[len + i], b[len + i], b[i]);
    }
    forall i | 0 <= i < 64 * len ensures Digit(e, len, i) == (Digit(a, len, i) - Digit(b, len, i)) % 3 {
      var j := i / 64;
      assert CleanPair(a, len, j) && CleanPair(b, len, j) && DifferenceAt(e, a, b, len, j);
      CleanSwap(b[j], b[len + j]);
      AddWord(a[j], a[len + j], b[len + j], b[j], i % 64);
      SwappedTrit(b[j], b[len + j], i % 64);
    }
  }

  lemma {:induction false} SwapDigits(e: seq<Word>, b: seq<Word>, len: nat)
    requires IsSwapped(e, b, len) && Sane(b, len)
    ensures Sane(e, len) && forall i :: 0 <= i < 64 * len ==> Digit(e, len, i) == (0 - Digit(b, len, i)) % 3
  {
    hide Clean, Trit;
    forall i | 0 <= i < len ensures CleanPair(e, len, i) {
      assert CleanPair(b, len, i) && SwappedAt(e, b, len, i);
      CleanSwap(b[i], b[len + i]);
    }
    forall i | 0 <= i < 64 * len ensures Digit(e, len, i) == (0 - Digit(b, len, i)) % 3 {
      var j := i / 64;
      assert CleanPair(b, len, j) && SwappedAt(e, b, len, j);
      SwappedTrit(b[j], b[len + j], i % 64);
    }
  }

  ghost function Sums(a: seq<Word>, b: seq<Word>, len: nat): (s: seq<Word>)
    requires |a| == |b| == 2 * len
    ensures |s| == 2 * len
    ensures forall k :: 0 <= k < len ==> s[k] == Sum1(a[k], a[len + k], b[k], b[len + k])
    ensures forall k :: len <= k < 2 * len ==> s[k] == Sum2(a[k - len], a[k], b[k - len], b[k])
  {
    seq(2 * len, k requires 0 <= k < 2 * len =>
      if k < len then Sum1(a[k], a[len + k], b[k], b[len + k]) else Sum2(a[k - len], a[k], b[k - len], b[k]))
  }

  lemma SumsAre(a: seq<Word>, b: seq<Word>, len: nat)
    requires |a| == |b| == 2 * len
    ensures IsSum(Sums(a, b, len), a, b, len)
  {
    forall j | 0 <= j < len ensures SumAt(Sums(a, b, len), a, b, len, j) {
      assert Sums(a, b, len)[len + j] == Sum2(a[len + j - len], a[len + j], b[len + j - len], b[len + j]);
    }
  }

  method AddedWords(a1: Word, a2: Word, b1: Word, b2: Word) returns (c1: Word, c2: Word)
    ensures c1 == Sum1(a1, a2, b1, b2) && c2 == Sum2(a1, a2, b1, b2)
  {
    hide SumMask, Xor, Or, And;
    var t := SumMask(a1, a2, b1, b2);
    c1 := Xor(t, Or(a1, b1));
    c2 := Xor(t, Or(a2, b2));
  }

  // After i rounds the result holds the wanted words of the positions done, and the operands the other ones.
  ghost predicate Progress(e: seq<Word>, a: seq<Word>, b: seq<Word>, a0: seq<Word>, b0: seq<Word>, want: seq<Word>, len: nat, i: nat)
  {
    && |e| == |a| == |b| == |a0| == |b0| == |want| == 2 * len
    && forall k :: 0 <= k < 2 * len ==> if k < i || len <= k < len + i then e[k] == want[k] else a[k] == a0[k] && b[k] == b0[k]
  }

  lemma {:induction false} ProgressStep(e: seq<Word>, a: seq<Word>, b: seq<Word>, e': seq<Word>, a': seq<Word>, b': seq<Word>,
    a0: seq<Word>, b0: seq<Word>, want: seq<Word>, len: nat, i: nat)
    requires Progress(e, a, b, a0, b0, want, len, i) && i < len && e' == e[i := want[i]][len + i := want[len + i]]
    requires (a' == a || (a == e && a' == e')) && (b' == b || (b == e && b' == e'))
    ensures Progress(e', a', b', a0, b0, want, len, i + 1)
  {
  }

  lemma ProgressMeans(e: seq<Word>, a: seq<Word>, b: seq<Word>, a0: seq<Word>, b0: seq<Word>, want: seq<Word>, len: nat, i: nat)
    requires |e| == |a0| == |b0| == |want| == 2 * len
    ensures i == 0 && a == a0 && b == b0 ==> Progress(e, a, b, a0, b0, want, len, i)
    ensures Progress(e, a, b, a0, b0, want, len, i) && i < len ==>
      a[i] == a0[i] && a[len + i] == a0[len + i] && b[i] == b0[i] && b[len + i] == b0[len + i]
    ensures Progress(e, a, b, a0, b0, want, len, len) ==> e == want
  {
  }

  method Gf3mAdd(e: array<Word>, a: array<Word>, b: array<Word>, len: nat)
    requires e.Length == 2 * len && a.Length == 2 * len && b.Length == 2 * len
    modifies e
    ensures IsSum(e[..], old(a[..]), old(b[..]), len)
  {
    hide *;
    ghost var a0, b0 := a[..], b[..];
    ghost var want := Sums(a0, b0, len);
    ProgressMeans(e[..], a[..], b[..], a0, b0, want, len, 0);
    for i := 0 to len
      invariant Progress(e[..], a[..], b[..], a0, b0, want, len, i)
    {
      ghost var e1, a1, b1 := e[..], a[..], b[..];
      ProgressMeans(e1, a1, b1, a0, b0, want, len, i);
      var c1, c2 := AddedWords(a[i], a[len + i], b[i], b[len + i]);
      SumsAt(a0, b0, len, i);
      e[i] := c1;
      e[len + i] := c2;
      assert e[..] == e1[i := c1][len + i := c2];
      ProgressStep(e1, a1, b1, e[..], a[..], b[..], a0, b0, want, len, i);
    }
    ProgressMeans(e[..], a[..], b[..], a0, b0, want, len, len);
    SumsAre(a0, b0, len);
  }

  lemma SumsAt(a: seq<Word>, b: seq<Word>, len: nat, i: nat)
    requires |a| == |b| == 2 * len && i < len
    ensures Sums(a, b, len)[i] == Sum1(a[i], a[len + i], b[i], b[len + i])
    ensures Sums(a, b, len)[len + i] == Sum2(a[i], a[len + i], b[i], b[len + i])
  {
    hide Sum1, Sum2;
    assert Sums(a, b, len)[len + i] == Sum2(a[len + i - len], a[len + i], b[len + i - len], b[len + i]);
  }

  ghost function Differences(a: seq<Word>, b: seq<Word>, len: nat): (s: seq<Word>)
    requires |a| == |b| == 2 * len
    ensures |s| == 2 * len
    ensures forall k :: 0 <= k < len ==> s[k] == Sum1(a[k], a[len + k], b[len + k], b[k])
    ensures forall k :: len <= k < 2 * len ==> s[k] == Sum2(a[k - len], a[k], b[k], b[k - len])
  {
    seq(2 * len, k requires 0 <= k < 2 * len =>
      if k < len then Sum1(a[k], a[len + k], b[len + k], b[k]) else Sum2(a[k - len], a[k], b[k], b[k - len]))
  }

  lemma DifferencesAre(a: seq<Word>, b: seq<Word>, len: nat)
    requires |a| == |b| == 2 * len
    ensures IsDifference(Differences(a, b, len), a, b, len)
  {
    hide Sum1, Sum2;
    forall j | 0 <= j < len ensures DifferenceAt(Differences(a, b, len), a, b, len, j) {
      assert Differences(a, b, len)[len + j] == Sum2(a[len + j - len], a[len + j], b[len + j], b[len + j - len]);
    }
  }

  method Gf3mSub(e: array<Word>, a: array<Word>, b: array<Word>, len: nat)
    requires e.Length == 2 * len && a.Length == 2 * len && b.Length == 2 * len
    modifies e
    ensures IsDifference(e[..], old(a[..]), old(b[..]), len)
  {
    hide *;
    ghost var a0, b0 := a[..], b[..];
    ghost var want := Differences(a0, b0, len);
    ProgressMeans(e[..], a[..], b[..], a0, b0, want, len, 0);
    for i := 0 to len
      invariant Progress(e[..], a[..], b[..], a0, b0, want, len, i)
    {
      ghost var e1, a1, b1 := e[..], a[..], b[..];
      ProgressMeans(e1, a1, b1, a0, b0, want, len, i);
      var c1, c2 := AddedWords(a[i], a[len + i], b[len + i], b[i]);
      DifferencesAt(a0, b0, len, i);
      e[i] := c1;
      e[len + i] := c2;
      assert e[..] == e1[i := c1][len + i := c2];
      ProgressStep(e1, a1, b1, e[..], a[..], b[..], a0, b0, want, len, i);
    }
    ProgressMeans(e[..], a[..], b[..], a0, b0, want, len, len);
    DifferencesAre(a0, b0, len);
  }

  lemma DifferencesAt(a: seq<Word>, b: seq<Word>, len: nat, i: nat)
    requires |a| == |b| == 2 * len && i < len
    ensures Differences(a, b, len)[i] == Sum1(a[i], a[len + i], b[len + i], b[i])
    ensures Differences(a, b, len)[len + i] == Sum2(a[i], a[len + i], b[len + i], b[i])
  {
    hide Sum1, Sum2;
    assert Differences(a, b, len)[len + i] == Sum2(a[len + i - len], a[len + i], b[len + i], b[len + i - len]);
  }

  lemma XorSwap(a: Word, b: Word)
    ensures Xor(b, Xor(a, b)) == a && Xor(Xor(a, b), a) == b
  {
  }

  // In place the words are exchanged by three exclusive ors each.
  method Gf3mNeg(y: array<Word>, x: array<Word>, len: nat)
    requires y.Length == 2 * len && x.Length == 2 * len
    modifies y
    ensures IsSwapped(y[..], old(x[..]), len)
  {
    ghost var x0 := x[..];
    hide Xor;
    if x == y {
      for i := 0 to len
        invariant forall j :: 0 <= j < i ==> SwappedAt(y[..], x0, len, j)
        invariant forall j :: i <= j < len ==> SameAt(y[..], x0, len, j)
      {
        assert SameAt(y[..], x0, len, i);
        ghost var y0 := y[..];
        XorSwap(x0[i], x0[len + i]);
        x[i] := Xor(x[i], x[len + i]);
        x[len + i] := Xor(x[len + i], x[i]);
        x[i] := Xor(x[i], x[len + i]);
        forall j | 0 <= j < i ensures SwappedAt(y[..], x0, len, j) { assert SwappedAt(y0, x0, len, j); }
        forall j | i + 1 <= j < len ensures SameAt(y[..], x0, len, j) { assert SameAt(y0, x0, len, j); }
      }
    } else {
      for i := 0 to 2 * len
        invariant x[..] == x0
        invariant forall j :: 0 <= j < i ==> y[j] == x0[if j < len then len + j else j - len]
      {
        y[i] := x[if i < len then len + i else i - len];
      }
      forall j | 0 <= j < len ensures SwappedAt(y[..], x0, len, j) { assert y[len + j] == x0[len + j - len]; }
    }
  }

  // ---------------------------------------------------------------- shifts

  // Word i of the shifted half that ends before end.
  ghost predicate DownHolds(r: Word, s: seq<Word>, end: nat, i: nat)
    requires i < |s| && end <= |s|
  {
    r == DownWith(s[i], i + 1 < end && Odd(s[i + 1]))
  }

  ghost predicate IsDown(r: seq<Word>, s: seq<Word>, len: nat)
  {
    && |r| == |s| == 2 * len
    && forall i :: 0 <= i < 2 * len ==> DownHolds(r[i], s, if i < len then len else 2 * len, i)
  }

  // Word i of the shifted half that starts at off.
  ghost predicate UpHolds(r: Word, s: seq<Word>, off: nat, i: nat)
    requires i < |s|
  {
    r == UpWith(s[i], i > off && Bit(s[i - 1], 63))
  }

  ghost predicate IsUp(r: seq<Word>, s: seq<Word>, len: nat)
  {
    && |r| == |s| == 2 * len
    && forall i :: 0 <= i < 2 * len ==> UpHolds(r[i], s, if i < len then 0 else len, i)
  }

  // The words from off on, len of them.
  method ShiftDown(a: array<Word>, off: nat, len: nat)
    requires off + len <= a.Length
    modifies a
    ensures forall i :: off <= i < off + len ==> DownHolds(a[i], old(a[..]), off + len, i)
    ensures forall i :: 0 <= i < a.Length && !(off <= i < off + len) ==> a[i] == old(a[..])[i]
  {
    ghost var a0 := a[..];
    hide Or, Down, Bit, Odd;
    var h := false;
    var i := off + len - 1;
    while i >= off
      invariant off - 1 <= i < off + len && h == (i + 1 < off + len && Odd(a0[i + 1]))
      invariant forall j :: 0 <= j <= i ==> a[j] == a0[j]
      invariant forall j :: i < j < off + len ==> DownHolds(a[j], a0, off + len, j)
      invariant forall j :: off + len <= j < a.Length ==> a[j] == a0[j]
    {
      var l := Odd(a[i]);
      a[i] := Down(a[i]);
      if h {
        a[i] := Or(a[i], Top);
      }
      h := l;
      i := i - 1;
    }
  }

  method Gf3mShiftDown(e: array<Word>, len: nat)
    requires e.Length == 2 * len
    modifies e
    ensures IsDown(e[..], old(e[..]), len)
  {
    hide DownWith, Odd;
    ghost var s := e[..];
    ShiftDown(e, 0, len);
    ghost var s1 := e[..];
    ShiftDown(e, len, len);
    forall i | 0 <= i < 2 * len ensures DownHolds(e[..][i], s, if i < len then len else 2 * len, i) {
      if i < len { assert DownHolds(s1[i], s, len, i); } else { assert DownHolds(e[i], s1, 2 * len, i); }
    }
  }

  lemma UpIs(s: seq<Word>, off: nat, i: nat, l: Word)
    requires i < |s| && l == if i > off && Bit(s[i - 1], 63) then Lowest else Zero
    ensures UpHolds(Or(Up(And(s[i], Rest)), l), s, off, i)
  {
    hide Or, Up, And, Bit;
  }

  method ShiftUp(a: array<Word>, off: nat, len: nat)
    requires off + len <= a.Length
    modifies a
    ensures forall i :: off <= i < off + len ==> UpHolds(a[i], old(a[..]), off, i)
    ensures forall i :: 0 <= i < a.Length && !(off <= i < off + len) ==> a[i] == old(a[..])[i]
  {
    ghost var a0 := a[..];
    hide Or, Up, And, Bit, UpHolds;
    var l := Zero;
    for i := off to off + len
      invariant l == if i > off && Bit(a0[i - 1], 63) then Lowest else Zero
      invariant forall j :: 0 <= j < off ==> a[j] == a0[j]
      invariant forall j :: i <= j < a.Length ==> a[j] == a0[j]
      invariant forall j :: off <= j < i ==> UpHolds(a[j], a0, off, j)
    {
      TopTest(a[i]);
      UpIs(a0, off, i, l);
      var h := And(a[i], Top);
      a[i] := Or(Up(And(a[i], Rest)), l);
      l := if h != Zero then Lowest else Zero;
    }
  }

  method Gf3mShiftUp(e: array<Word>, len: nat)
    requires e.Length == 2 * len
    modifies e
    ensures IsUp(e[..], old(e[..]), len)
  {
    hide UpWith, Bit;
    ghost var s := e[..];
    ShiftUp(e, 0, len);
    ghost var s1 := e[..];
    ShiftUp(e, len, len);
    forall i | 0 <= i < 2 * len ensures UpHolds(e[..][i], s, if i < len then 0 else len, i) {
      if i < len { assert UpHolds(s1[i], s, 0, i); } else { assert UpHolds(e[i], s1, len, i); }
    }
  }

  lemma {:induction false} DownDigits(r: seq<Word>, s: seq<Word>, len: nat)
    requires Sane(s, len) && IsDown(r, s, len)
    ensures Sane(r, len)
    ensures forall i :: 0 <= i < 64 * len ==> Digit(r, len, i) == if i + 1 < 64 * len then Digit(s, len, i + 1) else 0
  {
    hide Clean, Bit, DownWith, Odd;
    forall i | 0 <= i < len ensures CleanPair(r, len, i) {
      DownCleanAt(r, s, len, i);
    }
    forall i | 0 <= i < 64 * len ensures Digit(r, len, i) == if i + 1 < 64 * len then Digit(s, len, i + 1) else 0 {
      DownDigitAt(r, s, len, i);
    }
  }

  lemma {:induction false} DownCleanAt(r: seq<Word>, s: seq<Word>, len: nat, i: nat)
    requires Sane(s, len) && IsDown(r, s, len) && i < len
    ensures CleanPair(r, len, i)
  {
    hide Clean, Bit, DownWith, Odd;
    assert CleanPair(s, len, i);
    assert DownHolds(r[i], s, len, i) && DownHolds(r[len + i], s, 2 * len, len + i);
    if i + 1 < len {
      assert CleanPair(s, len, i + 1);
      CleanAt(s[i + 1], s[len + (i + 1)], 0);
      BitStep(s[i + 1], 0);
      BitStep(s[len + (i + 1)], 0);
      assert len + (i + 1) == len + i + 1;
    }
    DownClean(s[i], s[len + i], i + 1 < len && Odd(s[i + 1]), i + 1 < len && Odd(s[len + i + 1]));
  }

  lemma {:induction false} DownDigitAt(r: seq<Word>, s: seq<Word>, len: nat, i: nat)
    requires IsDown(r, s, len) && i < 64 * len
    ensures Digit(r, len, i) == if i + 1 < 64 * len then Digit(s, len, i + 1) else 0
  {
    hide Bit, DownWith, Odd;
    var j, k := i / 64, i % 64;
    assert DownHolds(r[j], s, len, j) && DownHolds(r[len + j], s, 2 * len, len + j);
    DownWord(s[j], j + 1 < len && Odd(s[j + 1]), k);
    DownWord(s[len + j], j + 1 < len && Odd(s[len + j + 1]), k);
    if k == 63 {
      assert (i + 1) / 64 == j + 1 && (i + 1) % 64 == 0;
      if j + 1 < len { BitStep(s[j + 1], 0); BitStep(s[len + j + 1], 0); assert len + (j + 1) == len + j + 1; }
    } else {
      assert (i + 1) / 64 == j && (i + 1) % 64 == k + 1;
    }
  }

  lemma {:induction false} UpDigits(r: seq<Word>, s: seq<Word>, len: nat)
    requires Sane(s, len) && IsUp(r, s, len)
    ensures Sane(r, len)
    ensures forall i :: 0 <= i < 64 * len ==> Digit(r, len, i) == if i > 0 then Digit(s, len, i - 1) else 0
  {
    hide Clean, Bit, UpWith;
    forall i | 0 <= i < len ensures CleanPair(r, len, i) {
      UpCleanAt(r, s, len, i);
    }
    forall i | 0 <= i < 64 * len ensures Digit(r, len, i) == if i > 0 then Digit(s, len, i - 1) else 0 {
      UpDigitAt(r, s, len, i);
    }
  }

  lemma {:induction false} UpCleanAt(r: seq<Word>, s: seq<Word>, len: nat, i: nat)
    requires Sane(s, len) && IsUp(r, s, len) && i < len
    ensures CleanPair(r, len, i)
  {
    hide Clean, Bit, UpWith;
    assert CleanPair(s, len, i);
    assert UpHolds(r[i], s, 0, i) && UpHolds(r[len + i], s, len, len + i);
    if i > 0 {
      assert CleanPair(s, len, i - 1);
      CleanAt(s[i - 1], s[len + (i - 1)], 63);
      assert len + (i - 1) == len + i - 1;
    }
    UpClean(s[i], s[len + i], i > 0 && Bit(s[i - 1], 63), i > 0 && Bit(s[len + i - 1], 63));
  }

  lemma {:induction false} UpDigitAt(r: seq<Word>, s: seq<Word>, len: nat, i: nat)
    requires IsUp(r, s, len) && i < 64 * len
    ensures Digit(r, len, i) == if i > 0 then Digit(s, len, i - 1) else 0
  {
    hide Bit, UpWith;
    var j, k := i / 64, i % 64;
    assert UpHolds(r[j], s, 0, j) && UpHolds(r[len + j], s, len, len + j);
    UpWord(s[j], j > 0 && Bit(s[j - 1], 63), k);
    UpWord(s[len + j], j > 0 && Bit(s[len + j - 1], 63), k);
    if k == 0 {
      if i > 0 { assert (i - 1) / 64 == j - 1 && (i - 1) % 64 == 63; assert len + (j - 1) == len + j - 1; }
    } else {
      assert (i - 1) / 64 == j && (i - 1) % 64 == k - 1;
    }
  }

  // ---------------------------------------------------------------- zero, one, single coefficients

  lemma {:induction false} ZeroDigits(s: seq<Word>, len: nat)
    requires |s| == 2 * len && forall i :: 0 <= i < |s| ==> s[i] == Zero
    ensures Sane(s, len) && forall i :: 0 <= i < 64 * len ==> Digit(s, len, i) == 0
  {
    ZeroTrit(0);
    forall i | 0 <= i < 64 * len ensures Digit(s, len, i) == 0 { ZeroTrit(i % 64); }
  }

  method Gf3mZero(a: array<Word>)
    modifies a
    ensures forall i :: 0 <= i < a.Length ==> a[i] == Zero
  {
    for i := 0 to a.Length
      invariant forall j :: 0 <= j < i ==> a[j] == Zero
    {
      a[i] := Zero;
    }
  }

  // Sets a coefficient that was zero.
  method Gf3mSet(e: array<Word>, len: nat, pos: nat, value: int)
    requires Sane(e[..], len) && pos < 64 * len && 0 <= value <= 2 && Digit(e[..], len, pos) == 0
    modifies e
    ensures Sane(e[..], len) && forall i :: 0 <= i < 64 * len ==> Digit(e[..], len, i) == if i == pos then value else old(Digit(e[..], len, i))
  {
    hide Bit, Mask, Or, Clean;
    ghost var s := e[..];
    var off := if value == 2 then len else 0;
    if value != 0 {
      e[off + pos / 64] := Or(e[off + pos / 64], Mask(pos % 64));
      SetDigit(s, e[..], len, pos, value);
    }
  }

  lemma {:induction false} SetDigit(s: seq<Word>, r: seq<Word>, len: nat, pos: nat, value: int)
    requires Sane(s, len) && pos < 64 * len && (value == 1 || value == 2) && Digit(s, len, pos) == 0
    requires var k := (if value == 2 then len else 0) + pos / 64; r == s[k := Or(s[k], Mask(pos % 64))]
    ensures Sane(r, len) && forall i :: 0 <= i < 64 * len ==> Digit(r, len, i) == if i == pos then value else Digit(s, len, i)
  {
    hide Bit, Mask, Or, Clean;
    var j, k := pos / 64, pos % 64;
    assert CleanPair(s, len, j);
    MaskApart(s[j], k);
    MaskApart(s[len + j], k);
    SetClean(s[j], s[len + j], Mask(k));
    CleanSwap(s[j], s[len + j]);
    SetClean(s[len + j], s[j], Mask(k));
    forall i | 0 <= i < len ensures CleanPair(r, len, i) { assert CleanPair(s, len, i); }
    forall i | 0 <= i < 64 * len ensures Digit(r, len, i) == if i == pos then value else Digit(s, len, i) {
      if i / 64 == j {
        SetAt(s[j], k, i % 64);
        SetAt(s[len + j], k, i % 64);
        assert i == pos <==> i % 64 == k;
      }
    }
  }

  // A mask meets a word only in its bit.
  lemma {:induction false} MaskApart(x: Word, k: nat)
    requires k <= 63 && !Bit(x, k)
    ensures Clean(Mask(k), x)
  {
    hide Bit, Mask, And;
    forall j: nat | j <= 63 ensures !Bit(And(Mask(k), x), j) {
      AndAt(Mask(k), x, j);
      MaskAt(k, j);
    }
    EightBytesHold(And(Mask(k), x));
    NoBitsZero(And(Mask(k), x), 8);
  }
}
