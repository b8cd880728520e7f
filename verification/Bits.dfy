// Bits of naturals as mpz functions see them.
module Bits {
  import opened Arith

  function ShiftUnit(i: nat): (w: nat)
    ensures w > 0
  {
    PowPositive(2, i);
    Pow(2, i)
  }

  // mpz_tdiv_q_2exp
  function Shift(n: nat, i: nat): nat
  {
    n / ShiftUnit(i)
  }

  lemma {:induction false} UnitStep(i: nat)
    ensures ShiftUnit(0) == 1 && ShiftUnit(i + 1) == 2 * ShiftUnit(i)
  {
  }

  // mpz_sizeinbase(n, 2)
  function SizeInBase2(n: nat): (b: nat)
    ensures b >= 1
  {
    if n < 2 then 1 else 1 + SizeInBase2(n / 2)
  }

  // mpz_tstbit
  predicate TstBit(n: nat, j: nat)
  {
    Shift(n, j) % 2 == 1
  }

  function BitAt(n: nat, j: nat): (b: nat)
    ensures b <= 1
  {
    if TstBit(n, j) then 1 else 0
  }

  lemma {:induction false} BelowTop(n: nat)
    ensures n < ShiftUnit(SizeInBase2(n))
  {
    UnitStep(0);
    if n >= 2 {
      BelowTop(n / 2);
      UnitStep(SizeInBase2(n / 2));
    }
  }

  lemma {:induction false} UnitGrows(i: nat, j: nat)
    requires i <= j
    ensures ShiftUnit(i) <= ShiftUnit(j)
    decreases j - i
  {
    if i < j {
      UnitGrows(i, j - 1);
      UnitStep(j - 1);
    }
  }

  lemma {:induction false} ShiftedOut(n: nat, j: nat)
    requires n < ShiftUnit(j)
    ensures Shift(n, j) == 0
  {
    DivModUnique(n, ShiftUnit(j), 0, n);
  }

  lemma {:induction false} TopIsZero(n: nat)
    ensures Shift(n, SizeInBase2(n)) == 0
  {
    BelowTop(n);
    ShiftedOut(n, SizeInBase2(n));
  }

  // Shifting by one less doubles and adds the next bit.
  lemma {:induction false} NextBit(n: nat, j: nat)
    ensures Shift(n, j) == 2 * Shift(n, j + 1) + BitAt(n, j)
  {
    UnitStep(j);
    Halving(n, ShiftUnit(j));
  }

  lemma {:induction false} Halving(n: nat, w: nat)
    requires w > 0
    ensures n / w == 2 * (n / (2 * w)) + n / w % 2
  {
    var q := n / w;
    assert n == q * w + n % w;
    assert q * w == (q / 2) * (2 * w) + (q % 2) * w by {
      assert q == 2 * (q / 2) + q % 2;
    }
    DivModUnique(n, 2 * w, q / 2, (q % 2) * w + n % w);
  }

  lemma {:induction false} ShiftEnds(n: nat)
    ensures Shift(n, 0) == n && Shift(n, 1) == n / 2
  {
    UnitStep(0);
  }

  lemma {:induction false} UnitSum(i: nat, j: nat)
    ensures ShiftUnit(i + j) == ShiftUnit(i) * ShiftUnit(j)
  {
    PowAdd(2, i, j);
  }

  // The lowest j bits.
  function Low(n: nat, j: nat): nat
  {
    n % ShiftUnit(j)
  }

  lemma {:induction false} LowStep(n: nat, j: nat, k: nat)
    ensures Low(n, j + k) == Low(n, j) + ShiftUnit(j) * Low(Shift(n, j), k)
    ensures Shift(n, j + k) == Shift(Shift(n, j), k)
  {
    UnitSum(j, k);
    hide ShiftUnit;
    TwoDivisions(n, ShiftUnit(j), ShiftUnit(k));
  }

  lemma {:induction false} TwoDivisions(n: int, u: int, v: int)
    requires u > 0 && v > 0
    ensures n % (u * v) == n % u + u * (n / u % v) && n / (u * v) == n / u / v
  {
    var q, r := n / u, n % u;
    var d, w := q / v, q % v;
    assert q == d * v + w;
    Nested(u, v, d, w, r);
    MulLe(w, v - 1, u);
    MulLe(0, w, u);
    MulLe(1, v, u);
    assert n == u * q + r;
    TimesSwap(w, u);
    Peel(u, v);
    DivModUnique(n, u * v, d, u * w + r);
  }

  lemma Nested(u: int, v: int, d: int, w: int, r: int)
    ensures u * (d * v + w) + r == d * (u * v) + (u * w + r)
  {
  }

  lemma TimesSwap(a: int, b: int)
    ensures a * b == b * a
  {
  }

  lemma Peel(u: int, v: int)
    ensures (v - 1) * u + u == u * v
  {
  }

  lemma {:induction false} LowBitStep(n: nat, s: nat)
    ensures Low(n, s + 1) == Low(n, s) + ShiftUnit(s) * BitAt(n, s) && Low(n, 0) == 0
  {
    LowStep(n, s, 1);
    UnitStep(0);
  }

  lemma {:induction false} LowAll(n: nat, j: nat)
    requires j >= SizeInBase2(n)
    ensures Low(n, j) == n
  {
    BelowTop(n);
    UnitGrows(SizeInBase2(n), j);
    ModSmall(n, ShiftUnit(j));
  }

  lemma {:induction false} SizeMonotone(a: nat, b: nat)
    requires a <= b
    ensures SizeInBase2(a) <= SizeInBase2(b)
  {
    if a >= 2 { SizeMonotone(a / 2, b / 2); }
  }
}
